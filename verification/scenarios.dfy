/** Concrete runs of the model: the tables `init_files` creates (app.py:18-47), the search
    example, a lend-and-return round trip, and the double-loan return that closes both loans
    but hands back only one copy. */
module Scenarios {
  import opened Wrappers
  import opened Sequences
  import opened Records
  import opened Text
  import opened StudentIds
  import opened Catalog
  import opened Circulation
  import opened Identity
  import opened Views
  import opened Invariant

  /** The five sample books. */
  function SampleBooks(): seq<Book> {
    [ Book("B001", "To Kill a Mockingbird", "Harper Lee", 3, 3),
      Book("B002", "1984", "George Orwell", 2, 2),
      Book("B003", "The Great Gatsby", "F. Scott Fitzgerald", 4, 4),
      Book("B004", "Pride and Prejudice", "Jane Austen", 2, 2),
      Book("B005", "Harry Potter and the Sorcerer's Stone", "J.K. Rowling", 5, 5) ]
  }

  /** The initial tables: sample books, no loans, and one sample student whose password
      "student123" is stored hashed. */
  function SampleLibrary(h: Hasher, salt: string, today: string): Library {
    Library(
      SampleBooks(),
      [],
      [Student("STU001", "John Doe", "john@example.com", h.hash(salt, "student123"), "1234567890", today)])
  }

  /** The initial tables satisfy the invariant, and the sample student can log in. */
  lemma SampleIsValid(h: Hasher, salt: string, today: string)
    requires Sound(h)
    ensures Valid(SampleLibrary(h, salt, today))
    ensures StudentLogin(SampleLibrary(h, salt, today).students, "john@example.com", "student123", h).Success?
  {
    var lib := SampleLibrary(h, salt, today);
    SampleBooksValid();
    FirstIdIsFormatted();
    OneStudentValid(SampleBooks(), lib.students[0]);
    SampleStudentLogsIn(lib.students[0], h);
  }

  /** A one-row students table whose password column is a hash of "student123" accepts
      "student123" for the row's email. */
  lemma SampleStudentLogsIn(s: Student, h: Hasher)
    requires Sound(h) && exists salt :: s.password == h.hash(salt, "student123")
    ensures StudentLogin([s], s.email, "student123", h).Success?
  {
    assert FirstWithEmail([s], s.email, 0);
    LoginAtFirstRow([s], s.email, "student123", h, 0);
  }

  /** A books table with distinct ids and no loans, with one student holding the first id, is
      valid. */
  lemma OneStudentValid(books: seq<Book>, s: Student)
    requires UniqueBookIds(books)
    requires forall i :: 0 <= i < |books| ==> CopiesBounded(books[i], [])
    requires s.studentId == FormatId(1)
    ensures Valid(Library(books, [], [s]))
  {
    var lib := Library(books, [], [s]);
    assert CirculationInv(lib);
    forall i | 0 <= i < |lib.students|
      ensures lib.students[i].studentId == FormatId(i + 1)
    {
      assert i + 1 == 1;
    }
    assert UniqueEmails(lib.students);
  }

  /** The sample books have distinct ids and every copy on the shelf. */
  lemma SampleBooksValid()
    ensures UniqueBookIds(SampleBooks())
    ensures forall i :: 0 <= i < |SampleBooks()| ==> CopiesBounded(SampleBooks()[i], [])
  {
    var books := SampleBooks();
    forall i | 0 <= i < |books|
      ensures CopiesBounded(books[i], [])
    {
      assert OpenLoans([], books[i].bookId) == 0;
    }
  }

  /** Of the sample titles only "The Great Gatsby" contains "gatsby", ignoring case. */
  lemma GatsbyTitles()
    ensures ContainsIgnoreCase("The Great Gatsby", "gatsby")
    ensures !ContainsIgnoreCase("To Kill a Mockingbird", "gatsby")
    ensures !ContainsIgnoreCase("1984", "gatsby")
    ensures !ContainsIgnoreCase("Pride and Prejudice", "gatsby")
    ensures !ContainsIgnoreCase("Harry Potter and the Sorcerer's Stone", "gatsby")
  {
    assert Lower("gatsby") == "gatsby";
    assert OccursAt("gatsby", Lower("The Great Gatsby"), 10);
    NoGatsbyInMockingbird();
    NoMatchWithoutLeadingPair("1984", "gatsby");
    NoGatsbyInPride();
    NoGatsbyInHarryPotter();
  }

  /** "To Kill a Mockingbird" never has a "g" followed by an "a". */
  lemma NoGatsbyInMockingbird()
    ensures !ContainsIgnoreCase("To Kill a Mockingbird", "gatsby")
  {
    forall j | 0 <= j < 20
      ensures LowerChar("To Kill a Mockingbird"[j]) != 'g' || LowerChar("To Kill a Mockingbird"[j + 1]) != 'a'
    {
    }
    NoMatchWithoutLeadingPair("To Kill a Mockingbird", "gatsby");
  }

  /** "Pride and Prejudice" has no "g" at all. */
  lemma NoGatsbyInPride()
    ensures !ContainsIgnoreCase("Pride and Prejudice", "gatsby")
  {
    forall j | 0 <= j < 18
      ensures LowerChar("Pride and Prejudice"[j]) != 'g'
    {
    }
    NoMatchWithoutLeadingPair("Pride and Prejudice", "gatsby");
  }

  /** The Harry Potter title has no "g" before its last character. */
  lemma NoGatsbyInHarryPotter()
    ensures !ContainsIgnoreCase("Harry Potter and the Sorcerer's Stone", "gatsby")
  {
    forall j | 0 <= j < 36
      ensures LowerChar("Harry Potter and the Sorcerer's Stone"[j]) != 'g'
    {
    }
    NoMatchWithoutLeadingPair("Harry Potter and the Sorcerer's Stone", "gatsby");
  }

  /** The title mask of the query "gatsby" over the sample rows. */
  lemma GatsbyMatcher()
    ensures var books, p := SampleBooks(), Matcher("gatsby", "title");
      !p(books[0]) && !p(books[1]) && p(books[2]) && !p(books[3]) && !p(books[4])
  {
    GatsbyTitles();
  }

  /** A mask passing only the third of five rows keeps that row alone. */
  lemma FilterThirdOfFive(b0: Book, b1: Book, b2: Book, b3: Book, b4: Book, p: Book -> bool)
    requires !p(b0) && !p(b1) && p(b2) && !p(b3) && !p(b4)
    ensures Filter([b0, b1, b2, b3, b4], p) == [b2]
  {
    FilterSnoc([], b0, p);
    FilterSnoc([b0], b1, p);
    FilterSnoc([b0, b1], b2, p);
    FilterSnoc([b0, b1, b2], b3, p);
    FilterSnoc([b0, b1, b2, b3], b4, p);
    assert [b0, b1, b2, b3, b4] == [b0, b1, b2, b3] + [b4];
    assert [b0, b1, b2, b3] == [b0, b1, b2] + [b3];
    assert [b0, b1, b2] == [b0, b1] + [b2];
    assert [b0, b1] == [b0] + [b1];
    assert [b0] == [] + [b0];
  }

  /** A non-empty literal query over a known column is a plain filter of the table. */
  lemma SearchFilters(books: seq<Book>, query: string, searchType: string)
    requires IsLiteralPattern(query) && query != "" && IsSearchType(searchType)
    ensures Search(books, query, searchType) == Success(Some(Filter(books, Matcher(query, searchType))))
  {
  }

  /** Searching titles for "gatsby" finds "The Great Gatsby" and nothing else. */
  lemma SearchGatsby()
    ensures IsLiteralPattern("gatsby")
    ensures Search(SampleBooks(), "gatsby", "title") == Success(Some([SampleBooks()[2]]))
  {
    var books := SampleBooks();
    GatsbyMatcher();
    FilterThirdOfFive(books[0], books[1], books[2], books[3], books[4], Matcher("gatsby", "title"));
    assert books == [books[0], books[1], books[2], books[3], books[4]];
    assert IsLiteralPattern("gatsby");
    SearchFilters(books, "gatsby", "title");
  }

  /** No sample Book_ID contains "B010", ignoring case. */
  lemma NoSampleIdMatchesB010(i: nat)
    requires i < |SampleBooks()|
    ensures !Matcher("B010", "book_id")(SampleBooks()[i])
    ensures SampleBooks()[i].bookId != "B010"
  {
    var id := SampleBooks()[i].bookId;
    SameLengthMatch(id, "B010");
    assert Lower(id)[2] == '0' && Lower("B010")[2] == '1';
  }

  function Dune(): Book {
    Book("B010", "Dune", "Frank Herbert", 2, 2)
  }

  function DuneLoan(issueDate: string): IssuedRecord {
    IssuedRecord("B010", "Dune", "Alice", "STU099", issueDate, "")
  }

  /** A search that matches no row of a table but the row appended to it finds that row alone. */
  lemma SearchFindsOnlyLast(books: seq<Book>, x: Book, query: string, searchType: string)
    requires IsLiteralPattern(query) && query != "" && IsSearchType(searchType)
    requires forall i :: 0 <= i < |books| ==> !Matcher(query, searchType)(books[i])
    requires Matcher(query, searchType)(x)
    ensures Search(books + [x], query, searchType) == Success(Some([x]))
  {
    var p := Matcher(query, searchType);
    FilterNone(books, p);
    FilterSnoc(books, x, p);
    assert Filter(books + [x], p) == [x];
    SearchFilters(books + [x], query, searchType);
  }

  /** Searching Book_IDs for "B010" after Dune is appended to a table where no id matches. */
  lemma DuneSearch(books: seq<Book>)
    requires forall i :: 0 <= i < |books| ==> !Matcher("B010", "book_id")(books[i])
    ensures IsLiteralPattern("B010")
    ensures Search(books + [Dune()], "B010", "book_id") == Success(Some([Dune()]))
  {
    SameLengthMatch("B010", "B010");
    assert IsLiteralPattern("B010");
    SearchFindsOnlyLast(books, Dune(), "B010", "book_id");
  }

  /** Issuing Dune when it is the only row with its id. */
  lemma DuneIssue(books: seq<Book>, students: seq<Student>, issueDate: string)
    requires !HasBookId(books, "B010")
    ensures IssueBook(Library(books + [Dune()], [], students), "B010", "Alice", "STU099", issueDate)
         == Success(Library(books + [Dune().(availableCopies := 1)], [DuneLoan(issueDate)], students))
  {
    var lib1 := Library(books + [Dune()], [], students);
    assert FirstWithId(lib1.books, "B010", |books|);
    IssueShape(lib1, "B010", "Alice", "STU099", issueDate);
    AdjustAbsent(books, "B010", -1);
    MapSnoc(books, Dune(), Adjust("B010", -1));
    var r := IssueBook(lib1, "B010", "Alice", "STU099", issueDate).value;
    assert r.books == books + [Dune().(availableCopies := 1)];
    var i :| FirstWithId(lib1.books, "B010", i) && lib1.books[i].availableCopies > 0
      && r.issued == [] + [IssuedRecord("B010", lib1.books[i].title, "Alice", "STU099", issueDate, "")];
    assert i == |books|;
    assert r.issued == [DuneLoan(issueDate)];
  }

  /** Returning Dune when its loan is the only record. */
  lemma DuneReturn(books: seq<Book>, students: seq<Student>, issueDate: string, returnDate: string)
    requires !HasBookId(books, "B010")
    ensures ReturnBook(Library(books + [Dune().(availableCopies := 1)], [DuneLoan(issueDate)], students),
                       "B010", "STU099", returnDate)
         == Success(Library(books + [Dune()], [DuneLoan(issueDate).(returnDate := returnDate)], students))
  {
    var lib2 := Library(books + [Dune().(availableCopies := 1)], [DuneLoan(issueDate)], students);
    assert LoanMatches(lib2.issued[0], "B010", "STU099");
    ReturnShape(lib2, "B010", "STU099", returnDate);
    AdjustAbsent(books, "B010", 1);
    MapSnoc(books, Dune().(availableCopies := 1), Adjust("B010", 1));
    var r := ReturnBook(lib2, "B010", "STU099", returnDate).value;
    assert r.books == books + [Dune()];
    assert r.issued == [DuneLoan(issueDate).(returnDate := returnDate)];
  }

  /** A lend-and-return round trip on the sample tables: add "Dune" with two copies, find it by
      Book_ID, issue it to a student who is not registered (one copy left, one outstanding
      record), and take it back (two copies again, the record returned). */
  lemma DuneRoundTrip(h: Hasher, salt: string, today: string, issueDate: string, returnDate: string)
    ensures IsLiteralPattern("B010")
    ensures
      var lib0 := SampleLibrary(h, salt, today);
      var lib1 := Library(SampleBooks() + [Dune()], [], lib0.students);
      var lib2 := Library(SampleBooks() + [Dune().(availableCopies := 1)], [DuneLoan(issueDate)], lib0.students);
      && AddBook(lib0, "B010", "Dune", "Frank Herbert", 2) == Success(lib1)
      && Search(lib1.books, "B010", "book_id") == Success(Some([Dune()]))
      && IssueBook(lib1, "B010", "Alice", "STU099", issueDate) == Success(lib2)
      && ReturnBook(lib2, "B010", "STU099", returnDate)
         == Success(Library(lib1.books, [DuneLoan(issueDate).(returnDate := returnDate)], lib0.students))
  {
    var books := SampleBooks();
    forall i | 0 <= i < |books|
      ensures !Matcher("B010", "book_id")(books[i]) && books[i].bookId != "B010"
    {
      NoSampleIdMatchesB010(i);
    }
    assert !HasBookId(books, "B010");
    var students := SampleLibrary(h, salt, today).students;
    DuneSearch(books);
    DuneIssue(books, students, issueDate);
    DuneReturn(books, students, issueDate, returnDate);
  }
}
