/** The edit-book dialog: it loads a stored book into the book form, and on
    a valid submit it sends the form back as an update of that book, with
    empty optional fields turned into null. */
module EditBookDialog {
  import opened Values
  import opened Records
  import opened Backend
  import opened BookForm

  /** The `form.reset` of the effect: absent optional columns become empty
      fields, everything else is copied. The condition is cast to the
      schema's enum type without a check, so a stored condition outside the
      four values reaches the form as it is. */
  function FormOf(book: Book): (f: Form)
    ensures f.title == book.title && f.author == book.author
    ensures f.condition == book.condition && f.availableForSwap == book.availableForSwap
    ensures book.isbn.None? ==> f.isbn == ""
    ensures book.description.None? ==> f.description == ""
    ensures book.genre.None? ==> f.genre == ""
    ensures book.coverUrl.None? ==> f.coverUrl == ""
    ensures book.isbn.Some? ==> f.isbn == book.isbn.value
    ensures book.description.Some? ==> f.description == book.description.value
    ensures book.genre.Some? ==> f.genre == book.genre.value
    ensures book.coverUrl.Some? ==> f.coverUrl == book.coverUrl.value
  {
    Form(
      book.title,
      book.author,
      OrEmpty(book.isbn),
      book.condition,
      OrEmpty(book.description),
      OrEmpty(book.genre),
      OrEmpty(book.coverUrl),
      book.availableForSwap)
  }

  /** The columns an update writes: every form field, the optional ones as
      nullable columns. */
  datatype BookUpdate = BookUpdate(
    title: string,
    author: string,
    isbn: Option<string>,
    condition: string,
    description: Option<string>,
    genre: Option<string>,
    coverUrl: Option<string>,
    availableForSwap: bool)

  /** `updateData`: the spread form values with `|| null` on the four
      optional fields. */
  function UpdateData(f: Form): (u: BookUpdate)
    ensures u.title == f.title && u.author == f.author
    ensures u.condition == f.condition && u.availableForSwap == f.availableForSwap
    ensures u.isbn.None? <==> f.isbn == ""
    ensures u.description.None? <==> f.description == ""
    ensures u.genre.None? <==> f.genre == ""
    ensures u.coverUrl.None? <==> f.coverUrl == ""
    ensures u.isbn.Some? ==> u.isbn.value == f.isbn
    ensures u.description.Some? ==> u.description.value == f.description
    ensures u.genre.Some? ==> u.genre.value == f.genre
    ensures u.coverUrl.Some? ==> u.coverUrl.value == f.coverUrl
  {
    BookUpdate(
      f.title,
      f.author,
      EmptyToNull(f.isbn),
      f.condition,
      EmptyToNull(f.description),
      EmptyToNull(f.genre),
      EmptyToNull(f.coverUrl),
      f.availableForSwap)
  }

  /** Saving a loaded book without editing it writes back its title,
      author, condition and availability, and each optional column as it
      was, except that an empty string is written as null. */
  lemma UnchangedRoundTrip(book: Book)
    ensures UpdateData(FormOf(book)) == BookUpdate(
      book.title,
      book.author,
      NullIfFalsy(book.isbn),
      book.condition,
      NullIfFalsy(book.description),
      NullIfFalsy(book.genre),
      NullIfFalsy(book.coverUrl),
      book.availableForSwap)
  {
    OrEmptyThenEmptyToNull(book.isbn);
    OrEmptyThenEmptyToNull(book.description);
    OrEmptyThenEmptyToNull(book.genre);
    OrEmptyThenEmptyToNull(book.coverUrl);
  }

  /** A second unchanged save writes exactly what the first one wrote. */
  lemma RoundTripIsStable(book: Book)
    ensures var u := UpdateData(FormOf(book));
      UpdateData(FormOf(book.(isbn := u.isbn, description := u.description,
                               genre := u.genre, coverUrl := u.coverUrl))) == u
  {
    UnchangedRoundTrip(book);
    var u := UpdateData(FormOf(book));
    UnchangedRoundTrip(book.(isbn := u.isbn, description := u.description,
                             genre := u.genre, coverUrl := u.coverUrl));
  }

  /** A loaded book can be saved unedited exactly when the stored row meets
      the schema: a title, an author, one of the four conditions and a
      cover URL that is missing, empty or a URL. */
  lemma LoadedBookAccepted(book: Book, isUrl: string -> bool)
    ensures Accepts(FormOf(book), isUrl) <==>
      && book.title != "" && book.author != ""
      && book.condition in AllowedConditions
      && (book.coverUrl.None? || book.coverUrl.value == "" || isUrl(book.coverUrl.value))
  {
    AcceptsIff(FormOf(book), isUrl);
  }

  /** The dialog's state: the book it edits, the form and the
      `isSubmitting` flag. */
  class Dialog {
    const book: Book
    var form: Form
    var isSubmitting: bool

    /** Mounting starts from the default values. */
    constructor (book: Book)
      ensures this.book == book && form == Defaults() && !isSubmitting
    {
      this.book := book;
      form := Defaults();
      isSubmitting := false;
    }

    /** The effect that runs once the book is known. */
    method Load()
      modifies this
      ensures form == FormOf(book) && isSubmitting == old(isSubmitting)
    {
      form := FormOf(book);
    }

    /** The user changes the fields. */
    method Edit(f: Form)
      modifies this
      ensures form == f && isSubmitting == old(isSubmitting)
    {
      form := f;
    }

    /** `form.handleSubmit(onSubmit)`: a form the schema rejects is not
      submitted and nothing changes; otherwise one update of this book's row
      is sent, and `isSubmitting` is false again whatever the database
      answered. The form keeps its values in both outcomes. */
    method Submit(isUrl: string -> bool, result: DbOutcome) returns (s: Submission<BookUpdate>)
      modifies this
      ensures s.Blocked? <==> !Accepts(old(form), isUrl)
      ensures s.Blocked? ==> isSubmitting == old(isSubmitting)
      ensures !s.Blocked? ==> s == Updated(book.id, UpdateData(old(form)), result) && !isSubmitting
      ensures form == old(form)
    {
      if !Accepts(form, isUrl) {
        return Blocked;
      }
      isSubmitting := true;
      s := Updated(book.id, UpdateData(form), result);
      isSubmitting := false;
    }
  }
}
