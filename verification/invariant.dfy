/** The invariant the lending handlers keep, and what it buys the dashboard.

    Circulation: Book_IDs are unique; every book has no negative availability, and its
    available copies plus its outstanding loans never exceed its total copies; and every
    outstanding loan names a book of the table. Registry: ids are STU001, STU002, ... in row
    order and emails are unique. */
module Invariant {
  import opened Wrappers
  import opened Sequences
  import opened Records
  import opened Catalog
  import opened Circulation
  import opened Identity
  import opened Views

  /** Availability bounds of one row against the issued-books table. */
  predicate CopiesBounded(b: Book, issued: seq<IssuedRecord>) {
    0 <= b.availableCopies && b.availableCopies + OpenLoans(issued, b.bookId) <= b.totalCopies
  }

  predicate CirculationInv(lib: Library) {
    && UniqueBookIds(lib.books)
    && (forall i :: 0 <= i < |lib.books| ==> CopiesBounded(lib.books[i], lib.issued))
    && (forall k :: 0 <= k < |lib.issued| && IsOpen(lib.issued[k]) ==> HasBookId(lib.books, lib.issued[k].bookId))
  }

  predicate UniqueEmails(students: seq<Student>) {
    forall i, j :: 0 <= i < j < |students| ==> students[i].email != students[j].email
  }

  predicate RegistryInv(students: seq<Student>) {
    SequentialIds(students) && UniqueEmails(students)
  }

  predicate Valid(lib: Library) {
    CirculationInv(lib) && RegistryInv(lib.students)
  }

  /** Availability never exceeds the total in a valid state. */
  lemma ValidBoundsAvailability(lib: Library, i: nat)
    requires Valid(lib) && i < |lib.books|
    ensures 0 <= lib.books[i].availableCopies <= lib.books[i].totalCopies
  {
    assert CopiesBounded(lib.books[i], lib.issued);
  }

  /** Adding a book with a non-negative copy count keeps the state valid. */
  lemma AddBookPreservesValid(lib: Library, bookId: string, title: string, author: string, totalCopies: int)
    requires Valid(lib) && totalCopies >= 0
    ensures AddBook(lib, bookId, title, author, totalCopies).Success? ==>
      Valid(AddBook(lib, bookId, title, author, totalCopies).value)
  {
    var r := AddBook(lib, bookId, title, author, totalCopies);
    if r.Success? {
      var lib' := r.value;
      var n := |lib.books|;
      forall k | 0 <= k < |lib.issued|
        ensures !OpenLoanOf(bookId)(lib.issued[k])
      {
      }
      FilterNone(lib.issued, OpenLoanOf(bookId));
      forall i | 0 <= i < |lib'.books|
        ensures CopiesBounded(lib'.books[i], lib'.issued)
      {
        if i < n {
          assert lib'.books[i] == lib.books[i];
        }
      }
      forall i, j | 0 <= i < j < |lib'.books|
        ensures lib'.books[i].bookId != lib'.books[j].bookId
      {
        if j == n {
          assert lib'.books[i] == lib.books[i];
        } else {
          assert lib'.books[i] == lib.books[i] && lib'.books[j] == lib.books[j];
        }
      }
      forall k | 0 <= k < |lib'.issued| && IsOpen(lib'.issued[k])
        ensures HasBookId(lib'.books, lib'.issued[k].bookId)
      {
        var i :| 0 <= i < n && lib.books[i].bookId == lib.issued[k].bookId;
        assert lib'.books[i] == lib.books[i];
      }
    }
  }

  /** With unique Book_IDs a row carrying the id is the first one. */
  lemma UniqueIsFirst(books: seq<Book>, bookId: string, i: nat)
    requires UniqueBookIds(books) && i < |books| && books[i].bookId == bookId
    ensures FirstWithId(books, bookId, i)
  {
  }

  /** Issuing keeps the bounds of one row: if it is the issued book, the guard saw a copy on
      it (it is the only row with the id), it loses one copy and the book gains one loan. */
  lemma IssueKeepsRowBounded(lib: Library, bookId: string, studentName: string, studentId: string,
                             issueDate: string, i: nat)
    requires CirculationInv(lib) && i < |lib.books|
    requires IssueBook(lib, bookId, studentName, studentId, issueDate).Success?
    ensures CopiesBounded(IssueBook(lib, bookId, studentName, studentId, issueDate).value.books[i],
                          IssueBook(lib, bookId, studentName, studentId, issueDate).value.issued)
  {
    var b := lib.books[i];
    assert CopiesBounded(b, lib.issued);
    IssueOpensOneLoan(lib, bookId, studentName, studentId, issueDate, b.bookId);
    if b.bookId == bookId {
      UniqueIsFirst(lib.books, bookId, i);
      var j :| FirstWithId(lib.books, bookId, j) && lib.books[j].availableCopies > 0;
      assert j == i;
    }
  }

  /** Issuing keeps the state valid. */
  lemma IssuePreservesValid(lib: Library, bookId: string, studentName: string, studentId: string, issueDate: string)
    requires Valid(lib)
    ensures IssueBook(lib, bookId, studentName, studentId, issueDate).Success? ==>
      Valid(IssueBook(lib, bookId, studentName, studentId, issueDate).value)
  {
    var r := IssueBook(lib, bookId, studentName, studentId, issueDate);
    if r.Success? {
      var lib' := r.value;
      forall i | 0 <= i < |lib'.books|
        ensures CopiesBounded(lib'.books[i], lib'.issued)
      {
        IssueKeepsRowBounded(lib, bookId, studentName, studentId, issueDate, i);
      }
      forall k | 0 <= k < |lib'.issued| && IsOpen(lib'.issued[k])
        ensures HasBookId(lib'.books, lib'.issued[k].bookId)
      {
        var id := lib'.issued[k].bookId;
        if k < |lib.issued| {
          assert lib'.issued[k] == lib.issued[k];
        }
        assert HasBookId(lib.books, id);
        var i :| 0 <= i < |lib.books| && lib.books[i].bookId == id;
        assert lib'.books[i].bookId == id;
      }
      assert UniqueBookIds(lib'.books);
    }
  }

  /** Returning with a real date keeps the state valid: at least one loan of the book closes
      while its rows gain exactly one copy. */
  lemma ReturnPreservesValid(lib: Library, bookId: string, studentId: string, returnDate: string)
    requires Valid(lib) && returnDate != ""
    ensures ReturnBook(lib, bookId, studentId, returnDate).Success? ==>
      Valid(ReturnBook(lib, bookId, studentId, returnDate).value)
  {
    var r := ReturnBook(lib, bookId, studentId, returnDate);
    if r.Success? {
      var lib' := r.value;
      forall i | 0 <= i < |lib'.books|
        ensures CopiesBounded(lib'.books[i], lib'.issued)
      {
        assert CopiesBounded(lib.books[i], lib.issued);
        ReturnClosesLoans(lib, bookId, studentId, returnDate, lib.books[i].bookId);
      }
      forall k | 0 <= k < |lib'.issued| && IsOpen(lib'.issued[k])
        ensures HasBookId(lib'.books, lib'.issued[k].bookId)
      {
        var id := lib'.issued[k].bookId;
        assert lib'.issued[k] == lib.issued[k];
        var i :| 0 <= i < |lib.books| && lib.books[i].bookId == id;
        assert lib'.books[i].bookId == id;
      }
    }
  }

  /** Registering keeps the state valid: ids stay sequential and emails unique. */
  lemma RegisterPreservesValid(lib: Library, name: string, email: string, password: string, phone: string,
                               registrationDate: string, salt: string, h: Hasher)
    requires Valid(lib)
    ensures CanGenerateId(lib.students)
    ensures Register(lib, name, email, password, phone, registrationDate, salt, h).Success? ==>
      Valid(Register(lib, name, email, password, phone, registrationDate, salt, h).value)
  {
    RegisterKeepsIdsSequential(lib, name, email, password, phone, registrationDate, salt, h);
    var r := Register(lib, name, email, password, phone, registrationDate, salt, h);
    if r.Success? {
      var row := Student(GenerateStudentId(lib.students), name, email, h.hash(salt, password), phone, registrationDate);
      assert r.value == lib.(students := lib.students + [row]);
      UniqueEmailsSnoc(lib.students, row);
    }
  }

  /** Appending a row with an email no row carries keeps the emails unique. */
  lemma UniqueEmailsSnoc(students: seq<Student>, row: Student)
    requires UniqueEmails(students) && !HasEmail(students, row.email)
    ensures UniqueEmails(students + [row])
  {
    var students' := students + [row];
    forall i, j | 0 <= i < j < |students'|
      ensures students'[i].email != students'[j].email
    {
      assert students'[i] == students[i];
      if j < |students| {
        assert students'[j] == students[j];
      }
    }
  }

  /** A valid table of students has no two rows with the same email, so the first row with an
      email is the only one, and login needs no tie-break. */
  lemma ValidLoginRowIsOnlyRow(students: seq<Student>, email: string, i: nat, j: nat)
    requires RegistryInv(students)
    requires FirstWithEmail(students, email, i) && j < |students| && students[j].email == email
    ensures i == j
  {
  }

  /** The number of rows carrying a Book_ID. */
  function CountId(books: seq<Book>, bookId: string): nat {
    if |books| == 0 then 0 else (if books[0].bookId == bookId then 1 else 0) + CountId(books[1..], bookId)
  }

  /** The outstanding loans of every row, summed over the books table. */
  function SumOpen(books: seq<Book>, issued: seq<IssuedRecord>): nat {
    if |books| == 0 then 0 else OpenLoans(issued, books[0].bookId) + SumOpen(books[1..], issued)
  }

  lemma {:induction false} CountIdAbsent(books: seq<Book>, bookId: string)
    requires !HasBookId(books, bookId)
    ensures CountId(books, bookId) == 0
    decreases |books|
  {
    if |books| > 0 {
      assert !HasBookId(books[1..], bookId) by {
        forall i | 0 <= i < |books| - 1
          ensures books[1..][i].bookId != bookId
        {
          assert books[1..][i] == books[i + 1];
        }
      }
      CountIdAbsent(books[1..], bookId);
    }
  }

  /** A Book_ID present in a table of unique ids is carried by exactly one row. */
  lemma {:induction false} CountIdUnique(books: seq<Book>, bookId: string)
    requires UniqueBookIds(books) && HasBookId(books, bookId)
    ensures CountId(books, bookId) == 1
    decreases |books|
  {
    var tail := books[1..];
    assert UniqueBookIds(tail) by {
      forall i, j | 0 <= i < j < |tail|
        ensures tail[i].bookId != tail[j].bookId
      {
        assert tail[i] == books[i + 1] && tail[j] == books[j + 1];
      }
    }
    if books[0].bookId == bookId {
      assert !HasBookId(tail, bookId) by {
        forall i | 0 <= i < |tail|
          ensures tail[i].bookId != bookId
        {
          assert tail[i] == books[i + 1];
        }
      }
      CountIdAbsent(tail, bookId);
    } else {
      var i :| 0 <= i < |books| && books[i].bookId == bookId;
      assert tail[i - 1] == books[i];
      CountIdUnique(tail, bookId);
    }
  }

  /** Appending one record adds it to the summed outstanding loans once per row of its book. */
  lemma {:induction false} SumOpenSnoc(books: seq<Book>, issued: seq<IssuedRecord>, x: IssuedRecord)
    ensures SumOpen(books, issued + [x])
         == SumOpen(books, issued) + (if IsOpen(x) then CountId(books, x.bookId) else 0)
    decreases |books|
  {
    if |books| > 0 {
      FilterSnoc(issued, x, OpenLoanOf(books[0].bookId));
      SumOpenSnoc(books[1..], issued, x);
    }
  }

  /** With unique Book_IDs and no outstanding loan of an unknown book, the outstanding
      records are exactly the loans of the catalog's rows, summed. */
  lemma {:induction false} OpenRecordsAreLoansOfBooks(books: seq<Book>, issued: seq<IssuedRecord>)
    requires UniqueBookIds(books)
    requires forall k :: 0 <= k < |issued| && IsOpen(issued[k]) ==> HasBookId(books, issued[k].bookId)
    ensures |Filter(issued, IsOpen)| == SumOpen(books, issued)
    decreases |issued|
  {
    if |issued| == 0 {
      SumOpenZero(books, issued);
    } else {
      var front, x := issued[..|issued| - 1], issued[|issued| - 1];
      assert issued == front + [x];
      OpenRecordsAreLoansOfBooks(books, front);
      FilterSnoc(front, x, IsOpen);
      SumOpenSnoc(books, front, x);
      if IsOpen(x) {
        CountIdUnique(books, x.bookId);
      }
    }
  }

  lemma {:induction false} SumOpenZero(books: seq<Book>, issued: seq<IssuedRecord>)
    requires |issued| == 0
    ensures SumOpen(books, issued) == 0
    decreases |books|
  {
    if |books| > 0 {
      SumOpenZero(books[1..], issued);
    }
  }

  /** Row-wise bounds add up over the table. */
  lemma {:induction false} SumsBounded(books: seq<Book>, issued: seq<IssuedRecord>)
    requires forall i :: 0 <= i < |books| ==> CopiesBounded(books[i], issued)
    ensures 0 <= SumAvailable(books)
    ensures SumAvailable(books) + SumOpen(books, issued) <= SumTotal(books)
    decreases |books|
  {
    if |books| > 0 {
      assert CopiesBounded(books[0], issued);
      forall i | 0 <= i < |books| - 1
        ensures CopiesBounded(books[1..][i], issued)
      {
        assert books[1..][i] == books[i + 1];
      }
      SumsBounded(books[1..], issued);
    }
  }

  /** In a valid state the dashboard adds up: available copies are never negative, and the
      available copies plus the outstanding loans never exceed the total copies. */
  lemma DashboardBounded(lib: Library)
    requires Valid(lib)
    ensures 0 <= Dashboard(lib).availableCopies
    ensures Dashboard(lib).availableCopies + Dashboard(lib).issuedBooks <= Dashboard(lib).totalCopies
  {
    SumsBounded(lib.books, lib.issued);
    OpenRecordsAreLoansOfBooks(lib.books, lib.issued);
  }

  /** Adding a book with `n` copies adds one title and `n` copies to both copy figures of the
      dashboard and leaves the issued and student figures as they were. */
  lemma AddBookRaisesDashboard(lib: Library, bookId: string, title: string, author: string, n: int)
    ensures AddBook(lib, bookId, title, author, n).Success? ==>
      var d, d' := Dashboard(lib), Dashboard(AddBook(lib, bookId, title, author, n).value);
      && d'.totalBooks == d.totalBooks + 1
      && d'.totalCopies == d.totalCopies + n
      && d'.availableCopies == d.availableCopies + n
      && d'.issuedBooks == d.issuedBooks
      && d'.totalStudents == d.totalStudents
  {
    var r := AddBook(lib, bookId, title, author, n);
    if r.Success? {
      assert r.value.books == lib.books + [Book(bookId, title, author, n, n)];
      SumsSnoc(lib.books, Book(bookId, title, author, n, n));
    }
  }

  /** With unique Book_IDs, issuing succeeds exactly for the books the issue page lists. */
  lemma IssueSucceedsIffListed(lib: Library, bookId: string, studentName: string, studentId: string, issueDate: string)
    requires UniqueBookIds(lib.books)
    ensures IssueBook(lib, bookId, studentName, studentId, issueDate).Success? <==>
      exists i :: 0 <= i < |AvailableBooks(lib.books)| && AvailableBooks(lib.books)[i].bookId == bookId
  {
    ListedIffFirstRowAvailable(lib.books, bookId);
    var r := IssueBook(lib, bookId, studentName, studentId, issueDate);
    if !r.Success? && HasBookId(lib.books, bookId) {
      assert r == Failure(Unavailable);
    }
  }

  /** With unique Book_IDs, the issue page lists a book with the id exactly when the first row
      carrying it has a copy available. */
  lemma ListedIffFirstRowAvailable(books: seq<Book>, bookId: string)
    requires UniqueBookIds(books)
    ensures (exists i :: 0 <= i < |AvailableBooks(books)| && AvailableBooks(books)[i].bookId == bookId)
        <==> exists i :: FirstWithId(books, bookId, i) && books[i].availableCopies > 0
  {
    var avail := AvailableBooks(books);
    assert avail == Filter(books, HasCopyAvailable);
    if exists i :: FirstWithId(books, bookId, i) && books[i].availableCopies > 0 {
      var i :| FirstWithId(books, bookId, i) && books[i].availableCopies > 0;
      assert HasCopyAvailable(books[i]);
      assert books[i] in avail;
      var k :| 0 <= k < |avail| && avail[k] == books[i];
    }
    if exists i :: 0 <= i < |avail| && avail[i].bookId == bookId {
      var i :| 0 <= i < |avail| && avail[i].bookId == bookId;
      assert avail[i] in books;
      var j :| 0 <= j < |books| && books[j] == avail[i];
      UniqueIsFirst(books, bookId, j);
    }
  }

  /** Returning succeeds exactly for the (book, student) pairs the return page lists. */
  lemma ReturnSucceedsIffListed(lib: Library, bookId: string, studentId: string, returnDate: string)
    ensures ReturnBook(lib, bookId, studentId, returnDate).Success? <==>
      exists k :: 0 <= k < |CurrentlyIssued(lib.issued)|
        && CurrentlyIssued(lib.issued)[k].bookId == bookId
        && CurrentlyIssued(lib.issued)[k].studentId == studentId
  {
    ListedIffOutstanding(lib.issued, bookId, studentId);
  }

  /** The return page lists a loan of the pair exactly when the table holds an outstanding one. */
  lemma ListedIffOutstanding(issued: seq<IssuedRecord>, bookId: string, studentId: string)
    ensures (exists k :: 0 <= k < |CurrentlyIssued(issued)|
               && CurrentlyIssued(issued)[k].bookId == bookId
               && CurrentlyIssued(issued)[k].studentId == studentId)
        <==> exists k :: 0 <= k < |issued| && LoanMatches(issued[k], bookId, studentId)
  {
    var open := CurrentlyIssued(issued);
    assert open == Filter(issued, IsOpen);
    if exists k :: 0 <= k < |issued| && LoanMatches(issued[k], bookId, studentId) {
      var k :| 0 <= k < |issued| && LoanMatches(issued[k], bookId, studentId);
      assert IsOpen(issued[k]);
      assert issued[k] in open;
      var m :| 0 <= m < |open| && open[m] == issued[k];
    }
    if exists k :: 0 <= k < |open| && open[k].bookId == bookId && open[k].studentId == studentId {
      var k :| 0 <= k < |open| && open[k].bookId == bookId && open[k].studentId == studentId;
      assert open[k] in issued;
      var j :| 0 <= j < |issued| && issued[j] == open[k];
      assert LoanMatches(issued[j], bookId, studentId);
    }
  }
}
