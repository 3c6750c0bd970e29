/** The wishlist page: the signed-in user's wanted books, their priority
    badges, the search box and deleting an entry. */
module Wishlist {
  import opened Values
  import opened Seqs
  import opened Search
  import opened Records
  import opened Backend

  /** `getPriorityLabel`: 3 is High, 2 is Medium, and 1 and every other
      value fall to Low. */
  function PriorityLabel(priority: int): (name: string)
    ensures name == "High" <==> priority == 3
    ensures name == "Medium" <==> priority == 2
    ensures name == "Low" <==> priority != 3 && priority != 2
  {
    match priority
    case 3 => "High"
    case 2 => "Medium"
    case 1 => "Low"
    case _ => "Low"
  }

  const HighColor := "bg-red-100 text-red-800"
  const MediumColor := "bg-yellow-100 text-yellow-800"
  const LowColor := "bg-green-100 text-green-800"

  /** `getPriorityColor`: defined for every number, and the default case is
      the colour of priority 1. */
  function PriorityColor(priority: int): (color: string)
    ensures color in {HighColor, MediumColor, LowColor}
    ensures color == HighColor <==> priority == 3
    ensures color == MediumColor <==> priority == 2
    ensures color == LowColor <==> priority != 3 && priority != 2
  {
    match priority
    case 3 => HighColor
    case 2 => MediumColor
    case 1 => LowColor
    case _ => LowColor
  }

  /** The default branch of `getPriorityColor` gives what priority 1 gets. */
  lemma DefaultColorIsLow(priority: int)
    requires priority != 3 && priority != 2
    ensures PriorityColor(priority) == PriorityColor(1)
  {
  }

  /** Badge label and badge colour always go together: two priorities get
      the same colour exactly when they get the same label. */
  lemma LabelAndColorAgree(p: int, q: int)
    ensures PriorityColor(p) == PriorityColor(q) <==> PriorityLabel(p) == PriorityLabel(q)
  {
  }

  /** The entries the search box lets through. */
  function FilteredItems(items: seq<WishlistItem>, term: string): seq<WishlistItem> {
    Filter(items, (i: WishlistItem) => MatchesSearch(i.title, i.author, i.genre, term))
  }

  /** Exactly the entries whose lower-cased title, author or genre contains
      the lower-cased term, in their original order and multiplicity. */
  lemma FilteredItemsSpec(items: seq<WishlistItem>, term: string)
    ensures IsSubsequence(FilteredItems(items, term), items)
    ensures forall x :: x in FilteredItems(items, term) <==>
      x in items && MatchesSearch(x.title, x.author, x.genre, term)
    ensures forall x ::
      multiset(FilteredItems(items, term))[x] ==
      if MatchesSearch(x.title, x.author, x.genre, term) then multiset(items)[x] else 0
  {
    FilterSpec(items, (i: WishlistItem) => MatchesSearch(i.title, i.author, i.genre, term));
  }

  /** An empty search box lists every entry. */
  lemma EmptySearchKeepsAll(items: seq<WishlistItem>)
    ensures FilteredItems(items, "") == items
  {
    forall k | 0 <= k < |items|
      ensures MatchesSearch(items[k].title, items[k].author, items[k].genre, "")
    {
      EmptyTermMatches(items[k].title, items[k].author, items[k].genre);
    }
    FilterKeepsAll(items, (i: WishlistItem) => MatchesSearch(i.title, i.author, i.genre, ""));
  }

  /** `prev.filter(item => item.id !== id)`. */
  function WithoutItem(items: seq<WishlistItem>, id: string): seq<WishlistItem> {
    Filter(items, (i: WishlistItem) => i.id != id)
  }

  /** After the local delete no entry with that id is left and every other
      entry stays, in its order. */
  lemma WithoutItemSpec(items: seq<WishlistItem>, id: string)
    ensures IsSubsequence(WithoutItem(items, id), items)
    ensures forall x :: x in WithoutItem(items, id) <==> x in items && x.id != id
    ensures forall x: WishlistItem :: x.id != id ==> multiset(WithoutItem(items, id))[x] == multiset(items)[x]
  {
    FilterSpec(items, (i: WishlistItem) => i.id != id);
  }

  /** The page's React state. */
  class Page {
    var items: seq<WishlistItem>
    var loading: bool
    var searchTerm: string
    var isAddDialogOpen: bool
    var editingItem: Option<WishlistItem>

    constructor ()
      ensures items == [] && loading && searchTerm == ""
      ensures !isAddDialogOpen && editingItem == None
    {
      items := [];
      loading := true;
      searchTerm := "";
      isAddDialogOpen := false;
      editingItem := None;
    }

    /** The entries the page lists: those the search box lets through. */
    function Visible(): seq<WishlistItem>
      reads this
    {
      FilteredItems(items, searchTerm)
    }

    /** `fetchWishlistItems`: the rows replace the list on success;
        `loading` is cleared in `finally` whatever happened. */
    method FetchWishlistItems(response: Fetch<WishlistItem>)
      modifies this
      ensures items == Loaded(old(items), response)
      ensures !loading
      ensures searchTerm == old(searchTerm) && isAddDialogOpen == old(isAddDialogOpen)
      ensures editingItem == old(editingItem)
    {
      if response.Fetched? {
        items := if response.data.Some? then response.data.value else [];
      }
      loading := false;
    }

    /** `handleDelete`: the local list drops the entry only when the delete
        call reports no error; after an error it is left as it was. */
    method HandleDelete(id: string, result: DbOutcome)
      modifies this
      ensures items == if result.DbOk? then WithoutItem(old(items), id) else old(items)
      ensures loading == old(loading) && searchTerm == old(searchTerm)
      ensures isAddDialogOpen == old(isAddDialogOpen) && editingItem == old(editingItem)
      ensures result.DbOk? ==> forall x :: x in Visible() <==> x in old(Visible()) && x.id != id
    {
      if result.DbOk? {
        FilteredItemsSpec(items, searchTerm);
        WithoutItemSpec(items, id);
        FilteredItemsSpec(WithoutItem(items, id), searchTerm);
        items := WithoutItem(items, id);
      }
    }
  }
}
