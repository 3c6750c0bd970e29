/** The search box test the library, wishlist and find-books pages share:
    the lower-cased term occurs in the lower-cased title, author or genre.
    A missing genre takes no part (`genre?.toLowerCase()` is undefined). */
module Search {
  import opened Values
  import opened Strings

  predicate MatchesSearch(title: string, author: string, genre: Option<string>, term: string) {
    var t := ToLower(term);
    Contains(ToLower(title), t)
    || Contains(ToLower(author), t)
    || (genre.Some? && Contains(ToLower(genre.value), t))
  }

  /** An empty search term matches every entry. */
  lemma EmptyTermMatches(title: string, author: string, genre: Option<string>)
    ensures MatchesSearch(title, author, genre, "")
  {
  }

  /** Terms that differ only in the case of ASCII letters match the same
      entries. */
  lemma MatchIgnoresTermCase(title: string, author: string, genre: Option<string>, t1: string, t2: string)
    requires ToLower(t1) == ToLower(t2)
    ensures MatchesSearch(title, author, genre, t1) == MatchesSearch(title, author, genre, t2)
  {
  }

  /** In particular a term matches what its lower-cased form matches. */
  lemma MatchSameAsLowered(title: string, author: string, genre: Option<string>, term: string)
    ensures MatchesSearch(title, author, genre, ToLower(term)) == MatchesSearch(title, author, genre, term)
  {
    ToLowerIdempotent(term);
  }

  /** The match in plain terms: some field, lower-cased, holds the lower-cased
      term at some position. */
  lemma MatchIffOccurs(title: string, author: string, genre: Option<string>, term: string)
    ensures MatchesSearch(title, author, genre, term) <==>
      (exists i: nat :: OccursAt(ToLower(title), ToLower(term), i))
      || (exists i: nat :: OccursAt(ToLower(author), ToLower(term), i))
      || (genre.Some? && exists i: nat :: OccursAt(ToLower(genre.value), ToLower(term), i))
  {
    ContainsIffOccurs(ToLower(title), ToLower(term));
    ContainsIffOccurs(ToLower(author), ToLower(term));
    if genre.Some? {
      ContainsIffOccurs(ToLower(genre.value), ToLower(term));
    }
  }
}
