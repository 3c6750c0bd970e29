/** The add-wishlist dialog: a signed-in user's submit inserts one entry
    built from the form; after a successful insert the form is back at its
    defaults and the dialog is closed. */
module AddWishlistDialog {
  import opened Values
  import opened Backend
  import opened WishlistForm

  /** The inserted row: the payload of the form and its owner. */
  datatype NewItem = NewItem(fields: Payload, userId: string)

  /** `{ ...formData, priority: parseInt(formData.priority), user_id }`. */
  function NewItemRow(f: Form, userId: string): (row: NewItem)
    ensures row.userId == userId
    ensures row.fields == PayloadOf(f)
  {
    NewItem(PayloadOf(f), userId)
  }

  /** A form with only a title and an author typed inserts an entry of
      priority 1 with every other text column an empty string. */
  lemma DefaultsWithTitleAndAuthor(title: string, author: string, userId: string)
    ensures NewItemRow(Defaults().(title := title, author := author), userId) ==
      NewItem(Payload(title, author, "", "", "", "", Some(1)), userId)
  {
    DefaultPriority();
  }

  /** The dialog's state: whether it is open, the `loading` flag and the
      form. */
  class Dialog {
    var open: bool
    var loading: bool
    var form: Form

    constructor (open: bool)
      ensures this.open == open && !loading && form == Defaults()
    {
      this.open := open;
      loading := false;
      form := Defaults();
    }

    /** The user changes the fields. */
    method Edit(f: Form)
      modifies this
      ensures form == f
      ensures open == old(open) && loading == old(loading)
    {
      form := f;
    }

    /** `handleSubmit` with the signed-in user's id, if any: the browser
        holds back a form without title or author, and nobody signed in
        means an immediate return; in both cases nothing changes. Otherwise
        one row is inserted; on success the form is reset to its defaults and
        the dialog closes, on error both are kept, and `loading` ends false
        either way. */
    method HandleSubmit(user: Option<string>, result: DbOutcome) returns (s: Submission<NewItem>)
      modifies this
      ensures s.Blocked? <==> !Submittable(old(form))
      ensures s.SignedOut? <==> Submittable(old(form)) && user.None?
      ensures Submittable(old(form)) && user.Some? ==> s.Inserted?
      ensures s.Blocked? || s.SignedOut? ==>
        form == old(form) && open == old(open) && loading == old(loading)
      ensures s.Inserted? ==> s == Inserted(NewItemRow(old(form), user.value), result) && !loading
      ensures s.Inserted? && result.DbOk? ==> form == Defaults() && !open
      ensures s.Inserted? && result.DbError? ==> form == old(form) && open == old(open)
    {
      if !Submittable(form) {
        return Blocked;
      }
      if user.None? {
        return SignedOut;
      }
      loading := true;
      s := Inserted(NewItemRow(form, user.value), result);
      if result.DbOk? {
        form := Defaults();
        open := false;
      }
      loading := false;
    }
  }
}
