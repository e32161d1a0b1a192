/** Student registration and the two logins (app.py:70-134, 191-204). The password hash is a
    parameter: `hash(salt, password)` stands for `generate_password_hash`, whose salt is random,
    and `check(stored, password)` for `check_password_hash`. */
module Identity {
  import opened Wrappers
  import opened Sequences
  import opened Records
  import opened StudentIds

  /** A salted password hash and its verifier. */
  datatype Hasher = Hasher(hash: (string, string) -> string, check: (string, string) -> bool)

  /** The verifier accepts every password against a hash of that password, whatever the salt. */
  ghost predicate Sound(h: Hasher) {
    forall salt, password :: h.check(h.hash(salt, password), password)
  }

  /** The configured librarian credential pair (app.py:15). */
  const LibrarianUsername: string := "admin"
  const LibrarianPassword: string := "admin123"

  /** The students table can produce a next id: it is empty, or its last id is well formed. */
  predicate CanGenerateId(students: seq<Student>) {
    |students| == 0 || WellFormedId(students[|students| - 1].studentId)
  }

  /** The id the next registration receives: "STU001" for an empty table, otherwise the
      counter of the LAST row's id plus one, printed with at least three digits and never
      truncated. */
  function GenerateStudentId(students: seq<Student>): (r: string)
    requires CanGenerateId(students)
    ensures |students| == 0 ==> r == "STU001"
    ensures WellFormedId(r) && r[..|Prefix|] == Prefix
    ensures IdNumber(r) == if |students| == 0 then 1 else IdNumber(students[|students| - 1].studentId) + 1
    ensures |r| >= |Prefix| + Width
    ensures |r| > |Prefix| + Width ==> r[|Prefix|] != '0'
  {
    if |students| == 0 then
      FirstIdIsFormatted();
      FormatIdRoundTrip(1);
      "STU001"
    else
      var n := IdNumber(students[|students| - 1].studentId) + 1;
      FormatIdRoundTrip(n);
      FormatId(n)
  }

  /** Registers a student. An email already in the table is refused with DuplicateKey and
      leaves the state as it was; otherwise exactly one row is appended holding the generated
      id and the hash of the password, and every other row and table is kept. */
  function Register(lib: Library, name: string, email: string, password: string, phone: string,
                    registrationDate: string, salt: string, h: Hasher): (r: Result<Library, Error>)
    requires HasEmail(lib.students, email) || CanGenerateId(lib.students)
    ensures r.Failure? <==> HasEmail(lib.students, email)
    ensures r.Failure? ==> r.error == DuplicateKey
    ensures r.Success? ==>
      && r.value.books == lib.books
      && r.value.issued == lib.issued
      && |r.value.students| == |lib.students| + 1
      && r.value.students[..|lib.students|] == lib.students
      && r.value.students[|lib.students|]
         == Student(GenerateStudentId(lib.students), name, email, h.hash(salt, password), phone, registrationDate)
  {
    if HasEmail(lib.students, email) then Failure(DuplicateKey)
    else
      var student := Student(GenerateStudentId(lib.students), name, email, h.hash(salt, password),
                             phone, registrationDate);
      Success(lib.(students := lib.students + [student]))
  }

  /** Student login: succeeds exactly when the FIRST row with the email holds a hash the
      password verifies against, and then yields that row. */
  function StudentLogin(students: seq<Student>, email: string, password: string, h: Hasher)
    : (r: Result<Student, Error>)
    ensures r.Success? <==>
      exists i :: FirstWithEmail(students, email, i) && h.check(students[i].password, password)
    ensures r.Success? ==> exists i :: FirstWithEmail(students, email, i) && r.value == students[i]
    ensures r.Failure? ==> r.error == InvalidCredentials
  {
    match FirstIndex(students, EmailIs(email))
    case None => Failure(InvalidCredentials)
    case Some(i) =>
      assert FirstWithEmail(students, email, i);
      if h.check(students[i].password, password) then Success(students[i])
      else Failure(InvalidCredentials)
  }

  /** Librarian login: both fields must equal the configured pair exactly. */
  predicate LibrarianLogin(username: string, password: string) {
    username == LibrarianUsername && password == LibrarianPassword
  }

  /** Exactly one credential pair opens the librarian pages: "admin" with "admin123"; a near
      miss in either field (a different case, a trailing space) is refused. */
  lemma LibrarianCredentialsOnly(username: string, password: string)
    ensures LibrarianLogin(username, password) <==> username == "admin" && password == "admin123"
    ensures !LibrarianLogin("Admin", "admin123") && !LibrarianLogin("admin", "admin123 ")
  {
  }

  /** A successful registration can log in straight away with the same email and password,
      and the login yields the new row, provided the hash verifies its own passwords. */
  lemma RegisterThenLogin(lib: Library, name: string, email: string, password: string, phone: string,
                          registrationDate: string, salt: string, h: Hasher)
    requires (HasEmail(lib.students, email) || CanGenerateId(lib.students)) && Sound(h)
    ensures Register(lib, name, email, password, phone, registrationDate, salt, h).Success? ==>
      var students' := Register(lib, name, email, password, phone, registrationDate, salt, h).value.students;
      StudentLogin(students', email, password, h) == Success(students'[|lib.students|])
  {
    var r := Register(lib, name, email, password, phone, registrationDate, salt, h);
    if r.Success? {
      var row := Student(GenerateStudentId(lib.students), name, email, h.hash(salt, password), phone, registrationDate);
      assert r.value.students == lib.students + [row];
      AppendedRowIsFirst(lib.students, row, email);
      LoginAtFirstRow(lib.students + [row], email, password, h, |lib.students|);
    }
  }

  /** A row appended to a table without the email is the first row carrying it. */
  lemma AppendedRowIsFirst(students: seq<Student>, row: Student, email: string)
    requires !HasEmail(students, email) && row.email == email
    ensures FirstWithEmail(students + [row], email, |students|)
  {
    forall j | 0 <= j < |students|
      ensures (students + [row])[j].email != email
    {
      assert (students + [row])[j] == students[j];
    }
  }

  /** Login with the password of the first row carrying the email yields exactly that row. */
  lemma LoginAtFirstRow(students: seq<Student>, email: string, password: string, h: Hasher, n: nat)
    requires FirstWithEmail(students, email, n) && h.check(students[n].password, password)
    ensures StudentLogin(students, email, password, h) == Success(students[n])
  {
    var r := StudentLogin(students, email, password, h);
    var i :| FirstWithEmail(students, email, i) && r.value == students[i];
    assert !(i < n) && !(n < i);
  }

  /** The ids of the table are STU001, STU002, ... in row order: row `i` holds the id printed
      from counter `i + 1`. */
  predicate SequentialIds(students: seq<Student>) {
    forall i :: 0 <= i < |students| ==> students[i].studentId == FormatId(i + 1)
  }

  /** On a sequential table the next id can be generated and is the one for the next row. */
  lemma NextIdFollows(students: seq<Student>)
    requires SequentialIds(students)
    ensures CanGenerateId(students) && GenerateStudentId(students) == FormatId(|students| + 1)
  {
    if |students| == 0 {
      FirstIdIsFormatted();
    } else {
      FormatIdRoundTrip(|students|);
    }
  }

  /** Registration keeps the ids sequential: the new row gets the id that follows the last
      row's. */
  lemma RegisterKeepsIdsSequential(lib: Library, name: string, email: string, password: string, phone: string,
                                   registrationDate: string, salt: string, h: Hasher)
    requires SequentialIds(lib.students)
    ensures CanGenerateId(lib.students)
    ensures Register(lib, name, email, password, phone, registrationDate, salt, h).Success? ==>
      SequentialIds(Register(lib, name, email, password, phone, registrationDate, salt, h).value.students)
  {
    NextIdFollows(lib.students);
    var r := Register(lib, name, email, password, phone, registrationDate, salt, h);
    if r.Success? {
      var row := Student(GenerateStudentId(lib.students), name, email, h.hash(salt, password), phone, registrationDate);
      assert r.value.students == lib.students + [row];
      SequentialSnoc(lib.students, row);
    }
  }

  /** Appending a row that holds the next id keeps the ids sequential. */
  lemma SequentialSnoc(students: seq<Student>, row: Student)
    requires SequentialIds(students)
    requires row.studentId == FormatId(|students| + 1)
    ensures SequentialIds(students + [row])
  {
    forall i | 0 <= i < |students| + 1
      ensures (students + [row])[i].studentId == FormatId(i + 1)
    {
      if i < |students| {
        assert (students + [row])[i] == students[i];
      }
    }
  }
}
