/** The library page: the books its select returns (the query has no owner
    filter), the search box over them, deleting a book, and the add and edit
    dialogs it opens and closes. */
module Library {
  import opened Values
  import opened Seqs
  import opened Search
  import opened Records
  import opened Backend

  /** The books the search box lets through. */
  function FilteredBooks(books: seq<Book>, term: string): seq<Book> {
    Filter(books, (b: Book) => MatchesSearch(b.title, b.author, b.genre, term))
  }

  /** Exactly the books whose lower-cased title, author or genre contains the
      lower-cased term, in their original order and multiplicity. */
  lemma FilteredBooksSpec(books: seq<Book>, term: string)
    ensures IsSubsequence(FilteredBooks(books, term), books)
    ensures forall b :: b in FilteredBooks(books, term) <==>
      b in books && MatchesSearch(b.title, b.author, b.genre, term)
    ensures forall b ::
      multiset(FilteredBooks(books, term))[b] ==
      if MatchesSearch(b.title, b.author, b.genre, term) then multiset(books)[b] else 0
  {
    FilterSpec(books, (b: Book) => MatchesSearch(b.title, b.author, b.genre, term));
  }

  /** An empty search box lists every book. */
  lemma EmptySearchKeepsAll(books: seq<Book>)
    ensures FilteredBooks(books, "") == books
  {
    forall i | 0 <= i < |books|
      ensures MatchesSearch(books[i].title, books[i].author, books[i].genre, "")
    {
      EmptyTermMatches(books[i].title, books[i].author, books[i].genre);
    }
    FilterKeepsAll(books, (b: Book) => MatchesSearch(b.title, b.author, b.genre, ""));
  }

  /** `books.filter(book => book.id !== bookId)`. */
  function WithoutBook(books: seq<Book>, id: string): seq<Book> {
    Filter(books, (b: Book) => b.id != id)
  }

  /** After the local delete no book with that id is left, every other book
      stays in its order, and a missing id changes nothing. */
  lemma WithoutBookSpec(books: seq<Book>, id: string)
    ensures IsSubsequence(WithoutBook(books, id), books)
    ensures forall b :: b in WithoutBook(books, id) <==> b in books && b.id != id
    ensures forall b: Book :: b.id != id ==> multiset(WithoutBook(books, id))[b] == multiset(books)[b]
    ensures (forall i :: 0 <= i < |books| ==> books[i].id != id) ==> WithoutBook(books, id) == books
  {
    FilterSpec(books, (b: Book) => b.id != id);
    if forall i :: 0 <= i < |books| ==> books[i].id != id {
      FilterKeepsAll(books, (b: Book) => b.id != id);
    }
  }

  /** The page's React state. */
  class Page {
    var books: seq<Book>
    var loading: bool
    var searchTerm: string
    var addBookOpen: bool
    var editBook: Option<Book>

    constructor ()
      ensures books == [] && loading && searchTerm == ""
      ensures !addBookOpen && editBook == None
    {
      books := [];
      loading := true;
      searchTerm := "";
      addBookOpen := false;
      editBook := None;
    }

    /** The books the page lists: those the search box lets through. */
    function Visible(): seq<Book>
      reads this
    {
      FilteredBooks(books, searchTerm)
    }

    /** `fetchBooks`: the rows replace the list on success; `loading` is
        cleared in `finally` whatever happened. */
    method FetchBooks(response: Fetch<Book>)
      modifies this
      ensures books == Loaded(old(books), response)
      ensures !loading
      ensures searchTerm == old(searchTerm) && addBookOpen == old(addBookOpen) && editBook == old(editBook)
    {
      if response.Fetched? {
        books := if response.data.Some? then response.data.value else [];
      }
      loading := false;
    }

    /** `handleBookAdded`: refetch and close the add dialog. */
    method HandleBookAdded(response: Fetch<Book>)
      modifies this
      ensures books == Loaded(old(books), response) && !loading
      ensures !addBookOpen
      ensures searchTerm == old(searchTerm) && editBook == old(editBook)
    {
      FetchBooks(response);
      addBookOpen := false;
    }

    /** `handleBookUpdated`: refetch and clear the book being edited, which
        closes the edit dialog. */
    method HandleBookUpdated(response: Fetch<Book>)
      modifies this
      ensures books == Loaded(old(books), response) && !loading
      ensures editBook == None
      ensures searchTerm == old(searchTerm) && addBookOpen == old(addBookOpen)
    {
      FetchBooks(response);
      editBook := None;
    }

    /** `handleDeleteBook`: the local list drops the book only when the
        delete call reports no error. */
    method HandleDeleteBook(id: string, result: DbOutcome)
      modifies this
      ensures books == if result.DbOk? then WithoutBook(old(books), id) else old(books)
      ensures loading == old(loading) && searchTerm == old(searchTerm)
      ensures addBookOpen == old(addBookOpen) && editBook == old(editBook)
      ensures result.DbOk? ==> forall b :: b in Visible() <==> b in old(Visible()) && b.id != id
    {
      if result.DbOk? {
        FilteredBooksSpec(books, searchTerm);
        WithoutBookSpec(books, id);
        FilteredBooksSpec(WithoutBook(books, id), searchTerm);
        books := WithoutBook(books, id);
      }
    }
  }
}
