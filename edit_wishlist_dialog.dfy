/** The edit-wishlist dialog: it loads a stored entry into the wishlist
    form and sends the form back as an update of that entry. Unlike the
    book dialogs it writes empty fields as empty strings, not null. */
module EditWishlistDialog {
  import opened Values
  import opened Numbers
  import opened Records
  import opened Backend
  import opened WishlistForm

  /** The `setFormData` of the effect: absent text columns become empty
      fields and the priority becomes its decimal numeral. */
  function FormOf(item: WishlistItem): (f: Form)
    ensures f.title == item.title && f.author == item.author
    ensures item.isbn.None? ==> f.isbn == ""
    ensures item.genre.None? ==> f.genre == ""
    ensures item.description.None? ==> f.description == ""
    ensures item.notes.None? ==> f.notes == ""
    ensures item.isbn.Some? ==> f.isbn == item.isbn.value
    ensures item.genre.Some? ==> f.genre == item.genre.value
    ensures item.description.Some? ==> f.description == item.description.value
    ensures item.notes.Some? ==> f.notes == item.notes.value
    ensures ParseInt(f.priority) == Some(item.priority)
  {
    ParseIntOfIntToString(item.priority);
    Form(
      item.title,
      item.author,
      OrEmpty(item.isbn),
      OrEmpty(item.genre),
      OrEmpty(item.description),
      OrEmpty(item.notes),
      IntToString(item.priority))
  }

  /** Saving a loaded entry without editing it keeps its title, author and
      priority, and writes each absent text column as an empty string. */
  lemma UnchangedPayload(item: WishlistItem)
    ensures PayloadOf(FormOf(item)) == Payload(
      item.title,
      item.author,
      OrEmpty(item.isbn),
      OrEmpty(item.genre),
      OrEmpty(item.description),
      OrEmpty(item.notes),
      Some(item.priority))
    ensures item.notes.None? ==> PayloadOf(FormOf(item)).notes == ""
  {
  }

  /** The priorities the select offers survive the trip through the form. */
  lemma SelectablePriorityKept(item: WishlistItem)
    requires item.priority in {1, 2, 3}
    ensures PayloadOf(FormOf(item)).priority == Some(item.priority)
    ensures FormOf(item).priority in {"1", "2", "3"}
  {
    assert IntToString(1) == "1" && IntToString(2) == "2" && IntToString(3) == "3";
  }

  /** The dialog's state: the entry it edits, whether it is open, the
      `loading` flag and the form. */
  class Dialog {
    const item: WishlistItem
    var open: bool
    var loading: bool
    var form: Form

    /** Mounting starts from the default values. */
    constructor (item: WishlistItem, open: bool)
      ensures this.item == item && this.open == open
      ensures !loading && form == Defaults()
    {
      this.item := item;
      this.open := open;
      loading := false;
      form := Defaults();
    }

    /** The effect that runs once the entry is known. */
    method Load()
      modifies this
      ensures form == FormOf(item)
      ensures open == old(open) && loading == old(loading)
    {
      form := FormOf(item);
    }

    /** The user changes the fields. */
    method Edit(f: Form)
      modifies this
      ensures form == f
      ensures open == old(open) && loading == old(loading)
    {
      form := f;
    }

    /** `handleSubmit`, once the browser lets the form through: one update
      of this entry's row is sent; the dialog closes only when the database
      accepts it, and `loading` ends false either way. The form keeps its
      values. */
    method HandleSubmit(result: DbOutcome) returns (s: Submission<Payload>)
      modifies this
      ensures s.Blocked? <==> !Submittable(old(form))
      ensures s.Blocked? ==> open == old(open) && loading == old(loading)
      ensures !s.Blocked? ==> s == Updated(item.id, PayloadOf(old(form)), result) && !loading
      ensures !s.Blocked? ==> open == (old(open) && !s.Succeeded())
      ensures form == old(form)
    {
      if !Submittable(form) {
        return Blocked;
      }
      loading := true;
      s := Updated(item.id, PayloadOf(form), result);
      if result.DbOk? {
        open := false;
      }
      loading := false;
    }
  }
}
