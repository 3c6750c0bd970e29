/** The add-book dialog: on a valid submit by a signed-in user it inserts
    one book row built from the form, and after a successful insert the
    form returns to its default values. */
module AddBookDialog {
  import opened Values
  import opened Backend
  import opened BookForm
  import EditBookDialog

  /** The row `bookData` inserts. */
  datatype NewBook = NewBook(
    title: string,
    author: string,
    condition: string,
    userId: string,
    coverUrl: Option<string>,
    isbn: Option<string>,
    description: Option<string>,
    genre: Option<string>,
    availableForSwap: bool)

  /** `bookData`: the owner is the signed-in user, required fields are
      copied and empty optional fields become null. */
  function NewBookRow(f: Form, userId: string): (row: NewBook)
    ensures row.userId == userId
    ensures row.title == f.title && row.author == f.author
    ensures row.condition == f.condition && row.availableForSwap == f.availableForSwap
    ensures row.isbn.None? <==> f.isbn == ""
    ensures row.description.None? <==> f.description == ""
    ensures row.genre.None? <==> f.genre == ""
    ensures row.coverUrl.None? <==> f.coverUrl == ""
    ensures row.isbn.Some? ==> row.isbn.value == f.isbn
    ensures row.description.Some? ==> row.description.value == f.description
    ensures row.genre.Some? ==> row.genre.value == f.genre
    ensures row.coverUrl.Some? ==> row.coverUrl.value == f.coverUrl
  {
    NewBook(
      f.title,
      f.author,
      f.condition,
      userId,
      EmptyToNull(f.coverUrl),
      EmptyToNull(f.isbn),
      EmptyToNull(f.description),
      EmptyToNull(f.genre),
      f.availableForSwap)
  }

  /** Adding and editing write the book columns alike: the inserted row is
      the update the edit dialog would send for the same form, plus the
      owner. */
  lemma InsertAgreesWithUpdate(f: Form, userId: string)
    ensures var row := NewBookRow(f, userId);
      var u := EditBookDialog.UpdateData(f);
      && row.title == u.title && row.author == u.author
      && row.condition == u.condition && row.availableForSwap == u.availableForSwap
      && row.isbn == u.isbn && row.description == u.description
      && row.genre == u.genre && row.coverUrl == u.coverUrl
  {
  }

  /** A form submitted as it is filled in by default, with only a title and
      an author typed, inserts a book in good condition, available for swap,
      with every optional column null. */
  lemma DefaultsWithTitleAndAuthor(title: string, author: string, userId: string)
    ensures NewBookRow(Defaults().(title := title, author := author), userId) ==
      NewBook(title, author, "good", userId, None, None, None, None, true)
  {
  }

  /** The dialog's state: the form and the `isSubmitting` flag. */
  class Dialog {
    var form: Form
    var isSubmitting: bool

    constructor ()
      ensures form == Defaults() && !isSubmitting
    {
      form := Defaults();
      isSubmitting := false;
    }

    /** The user changes the fields. */
    method Edit(f: Form)
      modifies this
      ensures form == f && isSubmitting == old(isSubmitting)
    {
      form := f;
    }

    /** `form.handleSubmit(onSubmit)` with the signed-in user's id, if any:
        a form the schema rejects is not submitted, and with nobody signed
        in `onSubmit` returns at once; in both cases nothing changes.
        Otherwise one row is inserted; on success the form is reset to its
        defaults, on error it keeps its values, and `isSubmitting` ends
        false either way. */
    method Submit(user: Option<string>, isUrl: string -> bool, result: DbOutcome)
      returns (s: Submission<NewBook>)
      modifies this
      ensures s.Blocked? <==> !Accepts(old(form), isUrl)
      ensures s.SignedOut? <==> Accepts(old(form), isUrl) && user.None?
      ensures Accepts(old(form), isUrl) && user.Some? ==> s.Inserted?
      ensures s.Blocked? || s.SignedOut? ==> form == old(form) && isSubmitting == old(isSubmitting)
      ensures s.Inserted? ==> s == Inserted(NewBookRow(old(form), user.value), result) && !isSubmitting
      ensures s.Inserted? ==> form == if result.DbOk? then Defaults() else old(form)
    {
      if !Accepts(form, isUrl) {
        return Blocked;
      }
      if user.None? {
        return SignedOut;
      }
      isSubmitting := true;
      s := Inserted(NewBookRow(form, user.value), result);
      if result.DbOk? {
        form := Defaults();
      }
      isSubmitting := false;
    }
  }
}
