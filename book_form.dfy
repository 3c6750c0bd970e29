/** The book form both book dialogs render: its fields, its default values
    and the schema that gates submission. Both dialogs declare the same
    schema and the same defaults. */
module BookForm {

  /** The four values of the condition select. */
  const AllowedConditions: seq<string> := ["excellent", "good", "fair", "poor"]

  /** The form values. Every text field holds a string: the defaults and the
      row-to-form mapping never leave one undefined. */
  datatype Form = Form(
    title: string,
    author: string,
    isbn: string,
    condition: string,
    description: string,
    genre: string,
    coverUrl: string,
    availableForSwap: bool)

  /** `defaultValues` of `useForm`. */
  function Defaults(): (f: Form)
    ensures f.condition == "good" && f.condition in AllowedConditions
    ensures f.availableForSwap
    ensures f.title == "" && f.author == "" && f.isbn == ""
    ensures f.description == "" && f.genre == "" && f.coverUrl == ""
  {
    Form("", "", "", "good", "", "", "", true)
  }

  /** The checks of the schema that can fail. */
  datatype Issue = TitleRequired | AuthorRequired | InvalidCondition | InvalidCoverUrl

  /** The issues the schema reports for a form. `isUrl` stands for the URL
      check of the validation library; the cover URL may also be empty. */
  function Issues(f: Form, isUrl: string -> bool): (r: seq<Issue>)
    ensures TitleRequired in r <==> |f.title| < 1
    ensures AuthorRequired in r <==> |f.author| < 1
    ensures InvalidCondition in r <==> f.condition !in AllowedConditions
    ensures InvalidCoverUrl in r <==> f.coverUrl != "" && !isUrl(f.coverUrl)
  {
    (if |f.title| < 1 then [TitleRequired] else [])
    + (if |f.author| < 1 then [AuthorRequired] else [])
    + (if f.condition !in AllowedConditions then [InvalidCondition] else [])
    + (if f.coverUrl != "" && !isUrl(f.coverUrl) then [InvalidCoverUrl] else [])
  }

  /** The schema accepts a form when it reports no issue. */
  predicate Accepts(f: Form, isUrl: string -> bool) {
    Issues(f, isUrl) == []
  }

  /** The schema accepts exactly the forms with a title, an author, one of
      the four conditions and a cover URL that is empty or a URL. */
  lemma AcceptsIff(f: Form, isUrl: string -> bool)
    ensures Accepts(f, isUrl) <==>
      f.title != "" && f.author != ""
      && f.condition in ["excellent", "good", "fair", "poor"]
      && (f.coverUrl == "" || isUrl(f.coverUrl))
  {
    var r := Issues(f, isUrl);
    if r != [] {
      assert r[0] in r;
    }
  }

  /** The default form cannot be submitted as it is: it lacks a title and an
      author, and nothing else is wrong with it. */
  lemma DefaultsNeedTitleAndAuthor(isUrl: string -> bool)
    ensures Issues(Defaults(), isUrl) == [TitleRequired, AuthorRequired]
  {
  }
}
