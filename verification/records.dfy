/** The three in-memory tables of the library (books, issued-book records, students) and
    the row-level notions every operation shares. Column names follow app.py. */
module Records {
  import opened Sequences

  /** A row of the books table. Copies are plain integers, as pandas stores them. */
  datatype Book = Book(
    bookId: string,
    title: string,
    author: string,
    totalCopies: int,
    availableCopies: int)

  /** A row of the issued-books table. An empty `returnDate` marks an outstanding loan. */
  datatype IssuedRecord = IssuedRecord(
    bookId: string,
    title: string,
    studentName: string,
    studentId: string,
    issueDate: string,
    returnDate: string)

  /** A row of the students table; `password` holds the stored hash, never the plaintext. */
  datatype Student = Student(
    studentId: string,
    name: string,
    email: string,
    password: string,
    phone: string,
    registrationDate: string)

  /** The whole application state: the three tables in row order. */
  datatype Library = Library(books: seq<Book>, issued: seq<IssuedRecord>, students: seq<Student>)

  /** The failures a handler reports with a flash message, plus the unknown search type on
      which the search handler fails. */
  datatype Error = DuplicateKey | NotFound | Unavailable | InvalidCredentials | UnknownSearchType

  /** A record is outstanding while its return date is the empty string. */
  predicate IsOpen(r: IssuedRecord) {
    r.returnDate == ""
  }

  /** Some row of the books table carries this Book_ID. */
  predicate HasBookId(books: seq<Book>, bookId: string) {
    exists i :: 0 <= i < |books| && books[i].bookId == bookId
  }

  /** Row `i` is the first row of the books table carrying this Book_ID. */
  predicate FirstWithId(books: seq<Book>, bookId: string, i: int) {
    && 0 <= i < |books|
    && books[i].bookId == bookId
    && forall j :: 0 <= j < i ==> books[j].bookId != bookId
  }

  /** The mask `Book_ID == bookId` over the books table. */
  function IdIs(bookId: string): Book -> bool {
    (b: Book) => b.bookId == bookId
  }

  /** Every row carries a different Book_ID. */
  predicate UniqueBookIds(books: seq<Book>) {
    forall i, j :: 0 <= i < j < |books| ==> books[i].bookId != books[j].bookId
  }

  /** The mask selecting the outstanding loans of one Book_ID. */
  function OpenLoanOf(bookId: string): IssuedRecord -> bool {
    (r: IssuedRecord) => r.bookId == bookId && IsOpen(r)
  }

  /** The number of outstanding loans of one Book_ID. */
  function OpenLoans(issued: seq<IssuedRecord>, bookId: string): nat {
    |Filter(issued, OpenLoanOf(bookId))|
  }

  /** The mask `Student_ID == studentId` over the issued-books table. */
  function IssuedTo(studentId: string): IssuedRecord -> bool {
    (r: IssuedRecord) => r.studentId == studentId
  }

  /** Some row of the students table carries this email. */
  predicate HasEmail(students: seq<Student>, email: string) {
    exists i :: 0 <= i < |students| && students[i].email == email
  }

  /** Row `i` is the first row of the students table carrying this email. */
  predicate FirstWithEmail(students: seq<Student>, email: string, i: int) {
    && 0 <= i < |students|
    && students[i].email == email
    && forall j :: 0 <= j < i ==> students[j].email != email
  }

  /** The mask `Email == email` over the students table. */
  function EmailIs(email: string): Student -> bool {
    (s: Student) => s.email == email
  }
}
