/** Read-only pages over the tables: a student's loans (app.py:186), the librarian dashboard
    (app.py:221-227), the books offered for issue (app.py:295) and the loans offered for return
    (app.py:330). */
module Views {
  import opened Sequences
  import opened Records
  import opened Circulation

  /** Every record issued to the student, outstanding or returned, in table order. */
  function MyBooks(issued: seq<IssuedRecord>, studentId: string): (r: seq<IssuedRecord>)
    ensures multiset(r) <= multiset(issued)
    ensures forall k :: 0 <= k < |r| ==> r[k].studentId == studentId
    ensures forall k :: 0 <= k < |issued| && issued[k].studentId == studentId ==>
      multiset(r)[issued[k]] == multiset(issued)[issued[k]]
  {
    FilterMultiset(issued, IssuedTo(studentId));
    Filter(issued, IssuedTo(studentId))
  }

  /** A student's list keeps table order: the list over `a + b` is the list over `a` followed
      by the list over `b`. */
  lemma MyBooksKeepsTableOrder(a: seq<IssuedRecord>, b: seq<IssuedRecord>, studentId: string)
    ensures MyBooks(a + b, studentId) == MyBooks(a, studentId) + MyBooks(b, studentId)
  {
    FilterConcat(a, b, IssuedTo(studentId));
  }

  /** The mask `Available_Copies > 0`. */
  predicate HasCopyAvailable(b: Book) {
    b.availableCopies > 0
  }

  /** The books offered on the issue page: exactly the rows with a copy available. */
  function AvailableBooks(books: seq<Book>): (r: seq<Book>)
    ensures multiset(r) <= multiset(books)
    ensures forall i :: 0 <= i < |r| ==> r[i].availableCopies > 0
    ensures forall i :: 0 <= i < |books| && books[i].availableCopies > 0 ==>
      multiset(r)[books[i]] == multiset(books)[books[i]]
  {
    FilterMultiset(books, HasCopyAvailable);
    Filter(books, HasCopyAvailable)
  }

  /** The issue page keeps table order. */
  lemma AvailableBooksKeepsTableOrder(a: seq<Book>, b: seq<Book>)
    ensures AvailableBooks(a + b) == AvailableBooks(a) + AvailableBooks(b)
  {
    FilterConcat(a, b, HasCopyAvailable);
  }

  /** The loans offered on the return page: exactly the outstanding records. */
  function CurrentlyIssued(issued: seq<IssuedRecord>): (r: seq<IssuedRecord>)
    ensures multiset(r) <= multiset(issued)
    ensures forall k :: 0 <= k < |r| ==> IsOpen(r[k])
    ensures forall k :: 0 <= k < |issued| && IsOpen(issued[k]) ==>
      multiset(r)[issued[k]] == multiset(issued)[issued[k]]
  {
    FilterMultiset(issued, IsOpen);
    Filter(issued, IsOpen)
  }

  /** The return page keeps table order. */
  lemma CurrentlyIssuedKeepsTableOrder(a: seq<IssuedRecord>, b: seq<IssuedRecord>)
    ensures CurrentlyIssued(a + b) == CurrentlyIssued(a) + CurrentlyIssued(b)
  {
    FilterConcat(a, b, IsOpen);
  }

  /** The dashboard figures. */
  datatype Stats = Stats(
    totalBooks: nat,
    totalCopies: int,
    availableCopies: int,
    issuedBooks: nat,
    totalStudents: nat)

  /** Column sums over the books table; an empty column sums to zero. */
  function SumTotal(books: seq<Book>): int {
    if |books| == 0 then 0 else books[0].totalCopies + SumTotal(books[1..])
  }

  function SumAvailable(books: seq<Book>): int {
    if |books| == 0 then 0 else books[0].availableCopies + SumAvailable(books[1..])
  }

  /** The column sums of a concatenation add up. */
  lemma {:induction false} SumsConcat(a: seq<Book>, b: seq<Book>)
    ensures SumTotal(a + b) == SumTotal(a) + SumTotal(b)
    ensures SumAvailable(a + b) == SumAvailable(a) + SumAvailable(b)
    decreases |a|
  {
    if |a| > 0 {
      assert (a + b)[1..] == a[1..] + b;
      SumsConcat(a[1..], b);
    } else {
      assert a + b == b;
    }
  }

  /** Appending a row adds its two copy counts to the column sums. */
  lemma SumsSnoc(books: seq<Book>, b: Book)
    ensures SumTotal(books + [b]) == SumTotal(books) + b.totalCopies
    ensures SumAvailable(books + [b]) == SumAvailable(books) + b.availableCopies
  {
    SumsConcat(books, [b]);
    assert [b][1..] == [];
  }

  /** The librarian dashboard: row counts of the books and students tables, the two copy
      columns summed, and the number of outstanding records, which is also the length of the
      return page's list. */
  function Dashboard(lib: Library): (s: Stats)
    ensures s.totalBooks == |lib.books| && s.totalStudents == |lib.students|
    ensures s.totalCopies == SumTotal(lib.books) && s.availableCopies == SumAvailable(lib.books)
    ensures s.issuedBooks <= |lib.issued|
    ensures s.issuedBooks == |CurrentlyIssued(lib.issued)|
    ensures s.totalBooks == 0 ==> s.totalCopies == 0 && s.availableCopies == 0
  {
    Stats(|lib.books|, SumTotal(lib.books), SumAvailable(lib.books),
          |Filter(lib.issued, IsOpen)|, |lib.students|)
  }

  /** Issuing appends the new loan to the student's list and leaves every other student's list
      as it was. */
  lemma IssueExtendsMyBooks(lib: Library, bookId: string, studentName: string, studentId: string,
                            issueDate: string, viewer: string)
    requires IssueBook(lib, bookId, studentName, studentId, issueDate).Success?
    ensures
      var issued' := IssueBook(lib, bookId, studentName, studentId, issueDate).value.issued;
      MyBooks(issued', viewer)
      == MyBooks(lib.issued, viewer) + (if viewer == studentId then [issued'[|lib.issued|]] else [])
  {
    var issued' := IssueBook(lib, bookId, studentName, studentId, issueDate).value.issued;
    FilterSnoc(lib.issued, issued'[|lib.issued|], IssuedTo(viewer));
  }

  /** Returned loans stay on the student's list: after a return the list is the same list
      with the returned loans stamped, so its length never changes. */
  lemma MyBooksAfterReturn(issued: seq<IssuedRecord>, bookId: string, studentId: string,
                           returnDate: string, viewer: string)
    ensures MyBooks(CloseLoans(issued, bookId, studentId, returnDate), viewer)
         == CloseLoans(MyBooks(issued, viewer), bookId, studentId, returnDate)
    ensures |MyBooks(CloseLoans(issued, bookId, studentId, returnDate), viewer)| == |MyBooks(issued, viewer)|
  {
    FilterMap(issued, CloseLoan(bookId, studentId, returnDate), IssuedTo(viewer));
  }
}
