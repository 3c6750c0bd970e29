/** The wishlist form both wishlist dialogs keep in state: seven string
    fields, the priority among them as the value of a select, and the
    payload they write with the priority parsed back to a number. */
module WishlistForm {
  import opened Values
  import opened Numbers
  import Wishlist

  datatype Form = Form(
    title: string,
    author: string,
    isbn: string,
    genre: string,
    description: string,
    notes: string,
    priority: string)

  /** The initial `formData`. */
  function Defaults(): (f: Form)
    ensures f.title == "" && f.author == "" && f.isbn == "" && f.genre == ""
    ensures f.description == "" && f.notes == ""
    ensures f.priority == "1"
  {
    Form("", "", "", "", "", "", "1")
  }

  /** The title and author inputs carry the `required` attribute, so the
      browser submits the form only when neither is empty (a value of only
      spaces counts as filled in). */
  predicate Submittable(f: Form) {
    f.title != "" && f.author != ""
  }

  /** The columns both dialogs write: the text fields as they stand, empty
      ones as empty strings, and `parseInt(priority)`, where `None` stands
      for NaN. */
  datatype Payload = Payload(
    title: string,
    author: string,
    isbn: string,
    genre: string,
    description: string,
    notes: string,
    priority: Option<int>)

  /** `{ ...formData, priority: parseInt(formData.priority) }`. */
  function PayloadOf(f: Form): (p: Payload)
    ensures p.title == f.title && p.author == f.author && p.isbn == f.isbn
    ensures p.genre == f.genre && p.description == f.description && p.notes == f.notes
    ensures p.priority == ParseInt(f.priority)
  {
    Payload(f.title, f.author, f.isbn, f.genre, f.description, f.notes, ParseInt(f.priority))
  }

  /** The values of the priority select and the text of each option. */
  const PriorityOptions: seq<(string, string)> := [("1", "Low"), ("2", "Medium"), ("3", "High")]

  /** The option at position `k` parses to the priority `k + 1`. */
  lemma OptionParses(k: nat)
    requires k < |PriorityOptions|
    ensures ParseInt(PriorityOptions[k].0) == Some(k + 1)
  {
    ParseSingleDigit(k + 1);
    assert PriorityOptions[k].0 == [DecimalDigit(k + 1)];
  }

  /** Every option of the select parses to a priority the wishlist page
      shows under the same name as the option. */
  lemma PriorityOptionsAgreeWithBadges()
    ensures forall k :: 0 <= k < |PriorityOptions| ==>
      && ParseInt(PriorityOptions[k].0).Some?
      && Wishlist.PriorityLabel(ParseInt(PriorityOptions[k].0).value) == PriorityOptions[k].1
  {
    forall k | 0 <= k < |PriorityOptions|
      ensures ParseInt(PriorityOptions[k].0) == Some(k + 1)
      ensures Wishlist.PriorityLabel(k + 1) == PriorityOptions[k].1
    {
      OptionParses(k);
    }
  }

  /** The default priority "1" is written as the number 1. */
  lemma DefaultPriority()
    ensures PayloadOf(Defaults()).priority == Some(1)
  {
    OptionParses(0);
  }
}
