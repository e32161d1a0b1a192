/** The book catalog: adding a title to the books table (app.py:231-255) and the student
    search page (app.py:150-175). */
module Catalog {
  import opened Wrappers
  import opened Sequences
  import opened Records
  import opened Text

  /** Adds a book whose copies are all available. A Book_ID already in the table is refused
      and leaves the state as it was; otherwise exactly one row is appended and every other
      row and table is kept. The copy count is taken as given: nothing checks that it is
      non-negative. */
  function AddBook(lib: Library, bookId: string, title: string, author: string, totalCopies: int)
    : (r: Result<Library, Error>)
    ensures r.Failure? <==> HasBookId(lib.books, bookId)
    ensures r.Failure? ==> r.error == DuplicateKey
    ensures r.Success? ==>
      && r.value.issued == lib.issued
      && r.value.students == lib.students
      && |r.value.books| == |lib.books| + 1
      && r.value.books[..|lib.books|] == lib.books
      && r.value.books[|lib.books|] == Book(bookId, title, author, totalCopies, totalCopies)
  {
    if HasBookId(lib.books, bookId) then Failure(DuplicateKey)
    else Success(lib.(books := lib.books + [Book(bookId, title, author, totalCopies, totalCopies)]))
  }

  /** The search types the page understands. */
  predicate IsSearchType(searchType: string) {
    searchType == "title" || searchType == "author" || searchType == "book_id"
  }

  /** The column a search type looks at. */
  function Field(b: Book, searchType: string): string
    requires IsSearchType(searchType)
  {
    if searchType == "title" then b.title
    else if searchType == "author" then b.author
    else b.bookId
  }

  /** The mask selecting the rows whose chosen column contains the query, ignoring case. */
  function Matcher(query: string, searchType: string): Book -> bool
    requires IsSearchType(searchType)
  {
    (b: Book) => ContainsIgnoreCase(Field(b, searchType), query)
  }

  /** The search page. An empty query runs no search (`results` stays None). A non-empty query
      over title, author or Book_ID yields every row whose column contains it, ignoring case,
      as many times as the row occurs; any other search type is an error, because the
      handler then converts a missing result set. */
  function Search(books: seq<Book>, query: string, searchType: string)
    : (r: Result<Option<seq<Book>>, Error>)
    requires IsLiteralPattern(query)
    ensures r == Success(None) <==> query == ""
    ensures r.Failure? <==> query != "" && !IsSearchType(searchType)
    ensures r.Failure? ==> r.error == UnknownSearchType
    ensures r.Success? && r.value.Some? ==>
      && IsSearchType(searchType)
      && multiset(r.value.value) <= multiset(books)
      && (forall i :: 0 <= i < |r.value.value| ==>
            ContainsIgnoreCase(Field(r.value.value[i], searchType), query))
      && (forall i :: 0 <= i < |books| && ContainsIgnoreCase(Field(books[i], searchType), query) ==>
            multiset(r.value.value)[books[i]] == multiset(books)[books[i]])
  {
    if query == "" then Success(None)
    else if !IsSearchType(searchType) then Failure(UnknownSearchType)
    else
      FilterMultiset(books, Matcher(query, searchType));
      Success(Some(Filter(books, Matcher(query, searchType))))
  }

  /** Search results keep table order: searching a table made of two parts yields the
      results of the first part followed by those of the second. */
  lemma SearchKeepsTableOrder(a: seq<Book>, b: seq<Book>, query: string, searchType: string)
    requires IsLiteralPattern(query) && query != "" && IsSearchType(searchType)
    ensures Search(a + b, query, searchType).value.value
         == Search(a, query, searchType).value.value + Search(b, query, searchType).value.value
  {
    FilterConcat(a, b, Matcher(query, searchType));
  }

  /** The search ignores the case of the query. */
  lemma SearchIgnoresQueryCase(books: seq<Book>, query: string, searchType: string)
    requires IsLiteralPattern(query)
    ensures IsLiteralPattern(Lower(query))
    ensures Search(books, query, searchType) == Search(books, Lower(query), searchType)
  {
    LowerKeepsLiteral(query);
    if query != "" && IsSearchType(searchType) {
      forall i | 0 <= i < |books|
        ensures Matcher(query, searchType)(books[i]) == Matcher(Lower(query), searchType)(books[i])
      {
        ContainsIgnoresQueryCase(Field(books[i], searchType), query);
      }
      FilterCongruent(books, Matcher(query, searchType), Matcher(Lower(query), searchType));
    }
  }
}
