/** Lending: issuing a copy to a student (app.py:257-297) and taking copies back
    (app.py:299-332). Both handlers change the books table through a Book_ID mask, so every row
    carrying the Book_ID is adjusted, while the issue guard looks at the first such row only. */
module Circulation {
  import opened Wrappers
  import opened Sequences
  import opened Records

  /** Adds `delta` to the available copies of a row carrying `bookId`. */
  function Adjust(bookId: string, delta: int): Book -> Book {
    (b: Book) => if b.bookId == bookId then b.(availableCopies := b.availableCopies + delta) else b
  }

  /** Adds `delta` to the available copies of every row carrying `bookId`. */
  function AdjustAvailable(books: seq<Book>, bookId: string, delta: int): seq<Book> {
    Map(books, Adjust(bookId, delta))
  }

  /** An outstanding loan of this book to this student: the mask of the return handler. */
  predicate LoanMatches(r: IssuedRecord, bookId: string, studentId: string) {
    r.bookId == bookId && r.studentId == studentId && IsOpen(r)
  }

  /** Stamps the return date on a record the return mask selects. */
  function CloseLoan(bookId: string, studentId: string, returnDate: string): IssuedRecord -> IssuedRecord {
    (r: IssuedRecord) => if LoanMatches(r, bookId, studentId) then r.(returnDate := returnDate) else r
  }

  /** Stamps the return date on every record the return mask selects. */
  function CloseLoans(issued: seq<IssuedRecord>, bookId: string, studentId: string, returnDate: string)
    : seq<IssuedRecord>
  {
    Map(issued, CloseLoan(bookId, studentId, returnDate))
  }

  /** Issues one copy of `bookId`. An unknown Book_ID fails with NotFound and a first matching
      row with no available copy fails with Unavailable, both leaving the state as it was.
      Otherwise the available copies of the book's rows drop by exactly one, other rows are
      kept, and exactly one outstanding record is appended with the book's title and the given
      student, who is not looked up in the students table. */
  function IssueBook(lib: Library, bookId: string, studentName: string, studentId: string, issueDate: string)
    : (r: Result<Library, Error>)
    ensures r == Failure(NotFound) <==> !HasBookId(lib.books, bookId)
    ensures r == Failure(Unavailable) <==>
      exists i :: FirstWithId(lib.books, bookId, i) && lib.books[i].availableCopies <= 0
    ensures r.Failure? ==> r.error == NotFound || r.error == Unavailable
    ensures r.Success? ==>
      exists i :: && FirstWithId(lib.books, bookId, i)
                  && lib.books[i].availableCopies > 0
                  && r.value.issued
                     == lib.issued + [IssuedRecord(bookId, lib.books[i].title, studentName, studentId, issueDate, "")]
    ensures r.Success? ==>
      && r.value.students == lib.students
      && |r.value.books| == |lib.books|
      && forall i :: 0 <= i < |lib.books| ==>
           && r.value.books[i].bookId == lib.books[i].bookId
           && r.value.books[i].totalCopies == lib.books[i].totalCopies
           && r.value.books[i].availableCopies
              == lib.books[i].availableCopies - (if lib.books[i].bookId == bookId then 1 else 0)
           && r.value.books[i].(availableCopies := 0) == lib.books[i].(availableCopies := 0)
  {
    match FirstIndex(lib.books, IdIs(bookId))
    case None => Failure(NotFound)
    case Some(k) =>
      assert FirstWithId(lib.books, bookId, k);
      if lib.books[k].availableCopies <= 0 then Failure(Unavailable)
      else
        var record := IssuedRecord(bookId, lib.books[k].title, studentName, studentId, issueDate, "");
        Success(Library(AdjustAvailable(lib.books, bookId, -1), lib.issued + [record], lib.students))
  }

  /** Takes back `bookId` from `studentId`. With no outstanding loan of that pair it fails with
      NotFound and leaves the state as it was. Otherwise EVERY outstanding loan of the pair gets
      the return date, other records are kept, and the available copies of the book's rows
      rise by exactly one, however many loans were closed. */
  function ReturnBook(lib: Library, bookId: string, studentId: string, returnDate: string)
    : (r: Result<Library, Error>)
    ensures r.Failure? <==> forall k :: 0 <= k < |lib.issued| ==> !LoanMatches(lib.issued[k], bookId, studentId)
    ensures r.Failure? ==> r.error == NotFound
    ensures r.Success? ==>
      && r.value.students == lib.students
      && |r.value.issued| == |lib.issued|
      && (forall k :: 0 <= k < |lib.issued| ==>
            r.value.issued[k]
            == if LoanMatches(lib.issued[k], bookId, studentId)
               then lib.issued[k].(returnDate := returnDate)
               else lib.issued[k])
      && |r.value.books| == |lib.books|
      && forall i :: 0 <= i < |lib.books| ==>
           && r.value.books[i].availableCopies
              == lib.books[i].availableCopies + (if lib.books[i].bookId == bookId then 1 else 0)
           && r.value.books[i].(availableCopies := 0) == lib.books[i].(availableCopies := 0)
  {
    if forall k :: 0 <= k < |lib.issued| ==> !LoanMatches(lib.issued[k], bookId, studentId) then
      Failure(NotFound)
    else
      Success(Library(
        AdjustAvailable(lib.books, bookId, 1),
        CloseLoans(lib.issued, bookId, studentId, returnDate),
        lib.students))
  }

  /** Issuing adds one outstanding loan of the issued book and none of any other book. */
  lemma IssueOpensOneLoan(lib: Library, bookId: string, studentName: string, studentId: string,
                          issueDate: string, other: string)
    ensures IssueBook(lib, bookId, studentName, studentId, issueDate).Success? ==>
      OpenLoans(IssueBook(lib, bookId, studentName, studentId, issueDate).value.issued, other)
      == OpenLoans(lib.issued, other) + (if other == bookId then 1 else 0)
  {
    var r := IssueBook(lib, bookId, studentName, studentId, issueDate);
    if r.Success? {
      FilterSnoc(lib.issued, r.value.issued[|lib.issued|], OpenLoanOf(other));
    }
  }

  /** Returning with a real date closes at least one outstanding loan of the book and leaves
      the outstanding loans of every other book alone. */
  lemma ReturnClosesLoans(lib: Library, bookId: string, studentId: string, returnDate: string, other: string)
    requires returnDate != ""
    requires ReturnBook(lib, bookId, studentId, returnDate).Success?
    ensures other != bookId ==>
      OpenLoans(ReturnBook(lib, bookId, studentId, returnDate).value.issued, other) == OpenLoans(lib.issued, other)
    ensures other == bookId ==>
      OpenLoans(ReturnBook(lib, bookId, studentId, returnDate).value.issued, other) < OpenLoans(lib.issued, other)
  {
    var issued', p := ReturnBook(lib, bookId, studentId, returnDate).value.issued, OpenLoanOf(other);
    if other != bookId {
      forall k | 0 <= k < |lib.issued|
        ensures p(lib.issued[k]) == p(issued'[k])
      {
      }
      FilterShrinks(lib.issued, issued', p);
      FilterShrinks(issued', lib.issued, p);
    } else {
      var k :| 0 <= k < |lib.issued| && LoanMatches(lib.issued[k], bookId, studentId);
      FilterShrinksStrictly(lib.issued, issued', p, k);
    }
  }

  /** Returning closes every outstanding loan of the pair: afterwards none is left. */
  lemma ReturnLeavesNoLoanOfPair(lib: Library, bookId: string, studentId: string, returnDate: string)
    requires returnDate != ""
    requires ReturnBook(lib, bookId, studentId, returnDate).Success?
    ensures forall k :: 0 <= k < |lib.issued| ==>
      !LoanMatches(ReturnBook(lib, bookId, studentId, returnDate).value.issued[k], bookId, studentId)
  {
  }

  /** Adjusting availability twice adds the two deltas. */
  lemma AdjustTwice(books: seq<Book>, bookId: string, x: int, y: int)
    ensures AdjustAvailable(AdjustAvailable(books, bookId, x), bookId, y) == AdjustAvailable(books, bookId, x + y)
  {
  }

  /** Adjusting by zero changes nothing. */
  lemma AdjustZero(books: seq<Book>, bookId: string)
    ensures AdjustAvailable(books, bookId, 0) == books
  {
    assert forall i :: 0 <= i < |books| ==> books[i].(availableCopies := books[i].availableCopies + 0) == books[i];
  }

  /** Adjusting the availability of a Book_ID no row carries changes nothing. */
  lemma AdjustAbsent(books: seq<Book>, bookId: string, delta: int)
    requires !HasBookId(books, bookId)
    ensures AdjustAvailable(books, bookId, delta) == books
  {
  }

  /** Closing loans of a pair that has none outstanding changes nothing. */
  lemma CloseNothing(issued: seq<IssuedRecord>, bookId: string, studentId: string, returnDate: string)
    requires forall k :: 0 <= k < |issued| ==> !LoanMatches(issued[k], bookId, studentId)
    ensures CloseLoans(issued, bookId, studentId, returnDate) == issued
  {
  }

  /** Issuing a book to a student who holds no outstanding copy of it, then taking it back,
      restores the books table exactly and leaves the new record in the issued table, stamped
      with the return date. */
  lemma IssueThenReturn(lib: Library, bookId: string, studentName: string, studentId: string,
                        issueDate: string, returnDate: string)
    requires IssueBook(lib, bookId, studentName, studentId, issueDate).Success?
    requires forall k :: 0 <= k < |lib.issued| ==> !LoanMatches(lib.issued[k], bookId, studentId)
    ensures
      var lib1 := IssueBook(lib, bookId, studentName, studentId, issueDate).value;
      var r := ReturnBook(lib1, bookId, studentId, returnDate);
      && r.Success?
      && r.value.books == lib.books
      && r.value.issued == lib.issued + [lib1.issued[|lib.issued|].(returnDate := returnDate)]
      && r.value.students == lib.students
  {
    var lib1 := IssueBook(lib, bookId, studentName, studentId, issueDate).value;
    var n := |lib.issued|;
    var rec := lib1.issued[n];
    assert LoanMatches(lib1.issued[n], bookId, studentId);
    var lib2 := ReturnBook(lib1, bookId, studentId, returnDate).value;
    AdjustTwice(lib.books, bookId, -1, 1);
    AdjustZero(lib.books, bookId);
    assert lib1.books == AdjustAvailable(lib.books, bookId, -1);
    CloseNothing(lib.issued, bookId, studentId, returnDate);
    MapSnoc(lib.issued, rec, CloseLoan(bookId, studentId, returnDate));
  }

  /** The new state of a successful issue, as table operations. */
  lemma IssueShape(lib: Library, bookId: string, studentName: string, studentId: string, issueDate: string)
    requires IssueBook(lib, bookId, studentName, studentId, issueDate).Success?
    ensures
      var lib1 := IssueBook(lib, bookId, studentName, studentId, issueDate).value;
      && lib1.books == AdjustAvailable(lib.books, bookId, -1)
      && |lib1.issued| == |lib.issued| + 1
      && lib1.issued == lib.issued + [lib1.issued[|lib.issued|]]
      && LoanMatches(lib1.issued[|lib.issued|], bookId, studentId)
      && lib1.students == lib.students
  {
  }

  /** The new state of a successful return, as table operations. */
  lemma ReturnShape(lib: Library, bookId: string, studentId: string, returnDate: string)
    requires ReturnBook(lib, bookId, studentId, returnDate).Success?
    ensures ReturnBook(lib, bookId, studentId, returnDate).value
         == Library(AdjustAvailable(lib.books, bookId, 1), CloseLoans(lib.issued, bookId, studentId, returnDate), lib.students)
  {
  }

  /** The return handler closes every outstanding loan of the pair but hands back one copy:
      after two copies go to the same student and one return, both loans are closed while the
      book's rows have one copy fewer available than before the two loans. */
  lemma TwoLoansOneReturn(lib: Library, bookId: string, studentName: string, studentId: string,
                          firstDate: string, secondDate: string, returnDate: string)
    requires returnDate != ""
    requires forall k :: 0 <= k < |lib.issued| ==> !LoanMatches(lib.issued[k], bookId, studentId)
    ensures
      IssueBook(lib, bookId, studentName, studentId, firstDate).Success? &&
      IssueBook(IssueBook(lib, bookId, studentName, studentId, firstDate).value,
                bookId, studentName, studentId, secondDate).Success? ==>
      var lib1 := IssueBook(lib, bookId, studentName, studentId, firstDate).value;
      var lib2 := IssueBook(lib1, bookId, studentName, studentId, secondDate).value;
      var r := ReturnBook(lib2, bookId, studentId, returnDate);
      && r.Success?
      && r.value.books == AdjustAvailable(lib.books, bookId, -1)
      && r.value.issued == lib.issued + [lib2.issued[|lib.issued|].(returnDate := returnDate),
                                         lib2.issued[|lib.issued| + 1].(returnDate := returnDate)]
      && OpenLoans(r.value.issued, bookId) == OpenLoans(lib.issued, bookId)
  {
    var r1 := IssueBook(lib, bookId, studentName, studentId, firstDate);
    if r1.Success? && IssueBook(r1.value, bookId, studentName, studentId, secondDate).Success? {
      var lib1 := r1.value;
      var lib2 := IssueBook(lib1, bookId, studentName, studentId, secondDate).value;
      IssueShape(lib, bookId, studentName, studentId, firstDate);
      IssueShape(lib1, bookId, studentName, studentId, secondDate);
      var n := |lib.issued|;
      var rec1, rec2 := lib1.issued[n], lib2.issued[n + 1];
      assert lib2.issued == lib.issued + [rec1, rec2];
      ReturnShape(lib2, bookId, studentId, returnDate);
      AdjustTwice(lib.books, bookId, -1, -1);
      AdjustTwice(lib.books, bookId, -2, 1);
      CloseTwoNewLoans(lib.issued, rec1, rec2, bookId, studentId, returnDate);
    }
  }

  /** Closing the pair's loans when only the two last records are outstanding loans of it
      stamps exactly those two, which leaves the book's outstanding loans as before them. */
  lemma CloseTwoNewLoans(issued: seq<IssuedRecord>, rec1: IssuedRecord, rec2: IssuedRecord,
                         bookId: string, studentId: string, returnDate: string)
    requires returnDate != ""
    requires forall k :: 0 <= k < |issued| ==> !LoanMatches(issued[k], bookId, studentId)
    requires LoanMatches(rec1, bookId, studentId) && LoanMatches(rec2, bookId, studentId)
    ensures CloseLoans(issued + [rec1, rec2], bookId, studentId, returnDate)
         == issued + [rec1.(returnDate := returnDate), rec2.(returnDate := returnDate)]
    ensures OpenLoans(CloseLoans(issued + [rec1, rec2], bookId, studentId, returnDate), bookId)
         == OpenLoans(issued, bookId)
  {
    var f := CloseLoan(bookId, studentId, returnDate);
    var closed1, closed2 := rec1.(returnDate := returnDate), rec2.(returnDate := returnDate);
    assert issued + [rec1, rec2] == (issued + [rec1]) + [rec2];
    CloseNothing(issued, bookId, studentId, returnDate);
    MapSnoc(issued, rec1, f);
    MapSnoc(issued + [rec1], rec2, f);
    assert CloseLoans(issued + [rec1, rec2], bookId, studentId, returnDate) == (issued + [closed1]) + [closed2];
    FilterSnoc(issued, closed1, OpenLoanOf(bookId));
    FilterSnoc(issued + [closed1], closed2, OpenLoanOf(bookId));
  }
}
