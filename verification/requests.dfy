/** The state-changing handlers as one state machine: a request either succeeds and yields the
    new tables, or fails and the tables stay as they were (an error flash, or a crash of the
    handler before anything is written). */
module Requests {
  import opened Wrappers
  import opened Records
  import opened Catalog
  import opened Circulation
  import opened Identity
  import opened Invariant

  /** The form fields of each state-changing request; dates come from the clock and the salt
      from the hash's random source. */
  datatype Request =
    | AddBookRequest(bookId: string, title: string, author: string, totalCopies: int)
    | IssueRequest(bookId: string, studentName: string, studentId: string, issueDate: string)
    | ReturnRequest(bookId: string, studentId: string, returnDate: string)
    | RegisterRequest(name: string, email: string, password: string, phone: string,
                      registrationDate: string, salt: string)

  /** What the environment guarantees of a request: a non-negative copy count is typed into the
      add-book form, and the clock never yields an empty return date. */
  predicate Admissible(req: Request) {
    match req
    case AddBookRequest(_, _, _, n) => n >= 0
    case ReturnRequest(_, _, d) => d != ""
    case _ => true
  }

  /** The state after one request: the operation's new state on success, the old one on
      failure. A registration of a new email whose last id cannot be parsed crashes and
      changes nothing; a registered email is refused before the id is parsed. */
  function Handle(lib: Library, req: Request, h: Hasher): Library {
    match req
    case RegisterRequest(name, e, p, ph, d, salt) =>
      if HasEmail(lib.students, e) || CanGenerateId(lib.students) then
        Outcome(lib, Register(lib, name, e, p, ph, d, salt, h))
      else lib
    case AddBookRequest(b, t, a, n) => Outcome(lib, AddBook(lib, b, t, a, n))
    case IssueRequest(b, name, s, d) => Outcome(lib, IssueBook(lib, b, name, s, d))
    case ReturnRequest(b, s, d) => Outcome(lib, ReturnBook(lib, b, s, d))
  }

  /** The state a handler leaves: the new state on success, the old one on failure. */
  function Outcome(lib: Library, r: Result<Library, Error>): Library {
    if r.Success? then r.value else lib
  }

  /** The state after handling the requests one after another. */
  function Run(lib: Library, reqs: seq<Request>, h: Hasher): Library
    decreases |reqs|
  {
    if |reqs| == 0 then lib else Run(Handle(lib, reqs[0], h), reqs[1..], h)
  }

  /** One admissible request keeps the state valid. */
  lemma HandlePreservesValid(lib: Library, req: Request, h: Hasher)
    requires Valid(lib) && Admissible(req)
    ensures Valid(Handle(lib, req, h))
  {
    match req
    case AddBookRequest(b, t, a, n) => AddBookPreservesValid(lib, b, t, a, n);
    case IssueRequest(b, name, s, d) => IssuePreservesValid(lib, b, name, s, d);
    case ReturnRequest(b, s, d) => ReturnPreservesValid(lib, b, s, d);
    case RegisterRequest(name, e, p, ph, d, salt) => RegisterPreservesValid(lib, name, e, p, ph, d, salt, h);
  }

  /** Every state reachable from a valid state by admissible requests is valid: for every book
      0 <= available <= available + outstanding loans <= total at every observed state. */
  lemma {:induction false} RunPreservesValid(lib: Library, reqs: seq<Request>, h: Hasher)
    requires Valid(lib)
    requires forall i :: 0 <= i < |reqs| ==> Admissible(reqs[i])
    ensures Valid(Run(lib, reqs, h))
    decreases |reqs|
  {
    if |reqs| > 0 {
      HandlePreservesValid(lib, reqs[0], h);
      assert forall i :: 0 <= i < |reqs| - 1 ==> reqs[1..][i] == reqs[i + 1];
      RunPreservesValid(Handle(lib, reqs[0], h), reqs[1..], h);
    }
  }
}
