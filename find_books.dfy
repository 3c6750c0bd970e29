/** The find-books page: the books other users offer, narrowed by the
    search box and by a genre and a condition select ("" is "All"), and the
    option lists of the two selects. */
module FindBooks {
  import opened Values
  import opened Strings
  import opened Seqs
  import opened Search
  import opened Records

  /** A book is listed when it matches the search and both selects. A book
      without a genre never equals a selected genre. */
  predicate Keeps(book: Book, term: string, genre: string, condition: string) {
    && MatchesSearch(book.title, book.author, book.genre, term)
    && (genre == "" || book.genre == Some(genre))
    && (condition == "" || book.condition == condition)
  }

  function FilteredBooks(books: seq<Book>, term: string, genre: string, condition: string): seq<Book> {
    Filter(books, b => Keeps(b, term, genre, condition))
  }

  /** The listed books are the fetched books that pass all three tests, in
      the fetched order and with their multiplicities. */
  lemma FilteredBooksSpec(books: seq<Book>, term: string, genre: string, condition: string)
    ensures IsSubsequence(FilteredBooks(books, term, genre, condition), books)
    ensures forall b :: b in FilteredBooks(books, term, genre, condition) <==>
      && b in books
      && MatchesSearch(b.title, b.author, b.genre, term)
      && (genre == "" || b.genre == Some(genre))
      && (condition == "" || b.condition == condition)
    ensures forall b ::
      multiset(FilteredBooks(books, term, genre, condition))[b] ==
      if Keeps(b, term, genre, condition) then multiset(books)[b] else 0
  {
    FilterSpec(books, b => Keeps(b, term, genre, condition));
  }

  /** With an empty search box and both selects on "All" every fetched book
      is listed. */
  lemma NoFilterKeepsAll(books: seq<Book>)
    ensures FilteredBooks(books, "", "", "") == books
  {
    forall i | 0 <= i < |books|
      ensures Keeps(books[i], "", "", "")
    {
      EmptyTermMatches(books[i].title, books[i].author, books[i].genre);
    }
    FilterKeepsAll(books, b => Keeps(b, "", "", ""));
  }

  /** Search terms that differ only in ASCII letter case list the same books. */
  lemma FilterIgnoresTermCase(books: seq<Book>, t1: string, t2: string, genre: string, condition: string)
    requires ToLower(t1) == ToLower(t2)
    ensures FilteredBooks(books, t1, genre, condition) == FilteredBooks(books, t2, genre, condition)
  {
    FilterCongruent(books, b => Keeps(b, t1, genre, condition), b => Keeps(b, t2, genre, condition));
  }

  /** A book without a genre matches the search only through its title or
      author, and it is never listed once a genre is selected. */
  lemma GenrelessBook(book: Book, term: string, genre: string, condition: string)
    requires book.genre.None?
    ensures Keeps(book, term, genre, condition) <==>
      && (Contains(ToLower(book.title), ToLower(term)) || Contains(ToLower(book.author), ToLower(term)))
      && genre == ""
      && (condition == "" || book.condition == condition)
  {
  }

  /** `books.map(book => book.genre)`. */
  function GenreColumn(books: seq<Book>): (r: seq<Option<string>>)
    ensures |r| == |books|
    ensures forall i :: 0 <= i < |books| ==> r[i] == books[i].genre
  {
    seq(|books|, i requires 0 <= i < |books| => books[i].genre)
  }

  /** `Boolean(genre)`: a genre is kept when it is present and not empty. */
  predicate IsPresentGenre(g: Option<string>) {
    g.Some? && g.value != ""
  }

  /** The strings of an array of present genres. */
  function GenreStrings(gs: seq<Option<string>>): (r: seq<string>)
    requires forall i :: 0 <= i < |gs| ==> IsPresentGenre(gs[i])
    ensures |r| == |gs|
    ensures forall i :: 0 <= i < |gs| ==> gs[i] == Some(r[i]) && r[i] != ""
    decreases |gs|
  {
    if gs == [] then [] else assert IsPresentGenre(gs[0]); [gs[0].value] + GenreStrings(gs[1..])
  }

  /** `books.map(book => book.genre).filter(Boolean)`. */
  function GenreValues(books: seq<Book>): seq<string> {
    GenreStrings(Filter(GenreColumn(books), IsPresentGenre))
  }

  /** A genre first occurs in an array of present genres where its string
      first occurs in the strings of that array. */
  lemma FirstIndexOfGenreString(gs: seq<Option<string>>, g: string)
    requires forall i :: 0 <= i < |gs| ==> IsPresentGenre(gs[i])
    requires g in GenreStrings(gs)
    ensures Some(g) in gs && FirstIndex(gs, Some(g)) == FirstIndex(GenreStrings(gs), g)
  {
    var vs := GenreStrings(gs);
    var i := FirstIndex(vs, g);
    assert gs[i] == Some(g);
    forall m | 0 <= m < i
      ensures gs[m] != Some(g)
    {
      assert vs[m] in vs[..i];
    }
    assert Some(g) !in gs[..i];
    FirstIndexUnique(gs, Some(g), i);
  }

  /** The mapped-and-filtered genres: exactly the non-empty genres of the
      books, and one genre first occurs before another there exactly when
      the first book with the one comes before the first book with the
      other. */
  lemma GenreValuesSpec(books: seq<Book>)
    ensures forall g :: g in GenreValues(books) <==> g != "" && Some(g) in GenreColumn(books)
    ensures forall g, h :: g in GenreValues(books) && h in GenreValues(books) ==>
      (FirstIndex(GenreValues(books), g) < FirstIndex(GenreValues(books), h) <==>
       FirstIndex(GenreColumn(books), Some(g)) < FirstIndex(GenreColumn(books), Some(h)))
  {
    var col := GenreColumn(books);
    var f := Filter(col, IsPresentGenre);
    var vs := GenreValues(books);
    forall g
      ensures g in vs <==> g != "" && Some(g) in col
    {
      FilterMembership(col, IsPresentGenre, Some(g));
      if g in vs {
        FirstIndexOfGenreString(f, g);
      }
      if g != "" && Some(g) in col {
        var k :| 0 <= k < |f| && f[k] == Some(g);
        assert vs[k] == g;
      }
    }
    forall g, h | g in vs && h in vs
      ensures FirstIndex(vs, g) < FirstIndex(vs, h) <==> FirstIndex(col, Some(g)) < FirstIndex(col, Some(h))
    {
      FirstIndexOfGenreString(f, g);
      FirstIndexOfGenreString(f, h);
      FilterMembership(col, IsPresentGenre, Some(g));
      FilterMembership(col, IsPresentGenre, Some(h));
      FilterKeepsFirstOccurrenceOrder(col, IsPresentGenre, Some(g), Some(h));
    }
  }

  /** The options of the genre select. */
  function Genres(books: seq<Book>): seq<string> {
    Dedup(GenreValues(books))
  }

  /** The genre options: no repeats, no empty or missing genre, exactly the
      genres some book has, ordered by the first book that has each. */
  lemma GenresSpec(books: seq<Book>)
    ensures NoDuplicates(Genres(books))
    ensures forall g :: g in Genres(books) <==> g != "" && exists b :: b in books && b.genre == Some(g)
    ensures forall g :: g in Genres(books) ==> Some(g) in GenreColumn(books)
    ensures forall i, j :: 0 <= i < j < |Genres(books)| ==>
      FirstIndex(GenreColumn(books), Some(Genres(books)[i])) < FirstIndex(GenreColumn(books), Some(Genres(books)[j]))
  {
    var vs := GenreValues(books);
    var gs := Genres(books);
    DedupSpec(vs);
    GenreValuesSpec(books);
    forall g
      ensures Some(g) in GenreColumn(books) <==> exists b :: b in books && b.genre == Some(g)
    {
      GenreColumnMembership(books, g);
    }
    forall i, j | 0 <= i < j < |gs|
      ensures FirstIndex(GenreColumn(books), Some(gs[i])) < FirstIndex(GenreColumn(books), Some(gs[j]))
    {
      assert FirstIndex(vs, gs[i]) < FirstIndex(vs, gs[j]);
    }
  }

  /** A genre is in the mapped column exactly when some book has it. */
  lemma GenreColumnMembership(books: seq<Book>, g: string)
    ensures Some(g) in GenreColumn(books) <==> exists b :: b in books && b.genre == Some(g)
  {
    var col := GenreColumn(books);
    if Some(g) in col {
      var i :| 0 <= i < |col| && col[i] == Some(g);
      assert books[i] in books;
    }
    if exists b :: b in books && b.genre == Some(g) {
      var b :| b in books && b.genre == Some(g);
      var i :| 0 <= i < |books| && books[i] == b;
      assert col[i] == Some(g);
    }
  }

  /** `books.map(book => book.condition)`. */
  function ConditionValues(books: seq<Book>): (r: seq<string>)
    ensures |r| == |books|
    ensures forall i :: 0 <= i < |books| ==> r[i] == books[i].condition
  {
    seq(|books|, i requires 0 <= i < |books| => books[i].condition)
  }

  /** The options of the condition select. */
  function Conditions(books: seq<Book>): seq<string> {
    Dedup(ConditionValues(books))
  }

  /** The condition options: no repeats, exactly the conditions of the books,
      in first-occurrence order. The first occurrence in the mapped array is
      the first book with that condition. */
  lemma ConditionsSpec(books: seq<Book>)
    ensures NoDuplicates(Conditions(books))
    ensures forall c :: c in Conditions(books) <==> exists b :: b in books && b.condition == c
    ensures forall i, j :: 0 <= i < j < |Conditions(books)| ==>
      FirstIndex(ConditionValues(books), Conditions(books)[i]) < FirstIndex(ConditionValues(books), Conditions(books)[j])
  {
    var vs := ConditionValues(books);
    DedupSpec(vs);
    forall c
      ensures c in Conditions(books) <==> exists b :: b in books && b.condition == c
    {
      if c in Conditions(books) {
        var i :| 0 <= i < |vs| && vs[i] == c;
        assert books[i] in books;
      }
      if exists b :: b in books && b.condition == c {
        var b :| b in books && b.condition == c;
        var i :| 0 <= i < |books| && books[i] == b;
        assert vs[i] == c;
      }
    }
  }
}
