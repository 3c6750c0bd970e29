# Book swap front end: filtering, form mapping and submit logic

This project is a Dafny model of the client-side logic of a book-swap web
application. The application has three pages:

- **Library**: every book the select on the `books` table returns. The
  query has no owner filter, unlike the wishlist query.
- **Wishlist**: the signed-in user's wishlist entries.
- **Find books**: the books other users offer for swap.

Each page filters its list of fetched rows with a case-insensitive search
box. The library and wishlist pages keep that list in state, and delete an
entry from it locally once the database has removed it. The find-books page
has no delete. It adds a genre select and a condition select, and builds
the option lists of both from the fetched books. It is modelled as pure
functions over the fetched list.

Dialogs add and edit books, add and edit wishlist entries, and edit the
user's profile. Each dialog maps between stored rows and form fields:

- Books send empty fields back as null.
- Wishlist entries send them back as empty strings, with the priority parsed
  back from the select's string.
- The profile dialog geocodes a non-blank address. It gives up when the
  geocoder finds nothing, and otherwise upserts one profile row per user.

**Modules.**

- JavaScript built-ins are modelled in four modules:
  - `Values`: nullable fields, JS numbers, and the `x || fallback` defaults.
  - `Strings`: ASCII `toLowerCase`, `includes` and `trim`.
  - `Numbers`: `parseInt`, and `toString` of an integer.
  - `Seqs`: `filter`, and `Array.from(new Set(xs))`.
- `Backend` holds the outcomes of database calls.
- `Records` holds the stored rows.
- `Search` holds the search test the three pages share.
- Each page and each dialog is one module. `BookForm` and `WishlistForm` hold
  the form types and defaults shared by each pair of dialogs.

**How the source's form is carried over.**

- Pure expressions of the source (the `filter` predicates, the `Set` idiom,
  the row-to-form and form-to-row maps, the schema) are Dafny functions.
  Lemmas prove their properties.
- React state becomes a Dafny class for the library page, the wishlist page
  and each dialog, with one field per `useState`. Each handler is a method
  that runs as one sequential step. Its postcondition states the whole new
  state:
  - the result of the call it makes, when it makes one;
  - the new value of every field, on every path through the handler.

**Oracles.** The database, the geocoder and the URL check are not modelled;
each is a parameter of the method or function that uses it.

- A database call's result is a `DbOutcome` or a `Fetch` parameter of the
  handler that makes the call.
- The geocoder is a function parameter from the address to an optional pair
  of numbers.
- The validation library's URL check is a predicate parameter `isUrl`.
- The profiles table is a class holding a map keyed by user id.

**Where the model decides between readings.**

- Form validation does not let a form through:
  - react-hook-form runs the zod schema before `onSubmit`;
  - the browser's `required` attribute holds back the wishlist forms without
    a title or an author.

  Either way the model reports the submission as `Blocked`, and nothing
  changes.
- `condition: book.condition as ...` in the edit-book reset is an unchecked
  cast. A stored condition outside the four values therefore reaches the
  form and makes the schema reject the unedited book
  (`EditBookDialog.LoadedBookAccepted`).
- `formData.priority` is parsed with `parseInt` as ECMAScript defines it, with
  NaN as `None`: leading white space, an optional sign, a `0x` prefix, and
  the longest run of digits. Only then does the model prove that an integer's
  `toString` parses back to itself.

## Model

| member | source | states |
|---|---|---|
| Values.OrEmpty | src/components/EditBookDialog.tsx:70-74 | the empty-string default of an optional string: a missing value becomes the empty string; a present one is kept |
| Values.EmptyToNull | src/components/EditBookDialog.tsx:85-88 | the null default of a string: null exactly when the string is empty; otherwise the same string |
| Values.NullIfFalsy | src/components/EditProfileDialog.tsx:110-111 | the null default of an optional string: null exactly when it is missing or empty; otherwise unchanged |
| Values.NumberOrNull | src/components/EditProfileDialog.tsx:112-113 | the null default of an optional number: kept exactly when present, finite and non-zero; 0, NaN and a missing number become null |
| Values.OrEmptyThenEmptyToNull | src/components/EditBookDialog.tsx:67-89 | reading an optional field into a form with the empty-string default and writing it back with the null default returns it unchanged, except that an empty string comes back as null |
| Strings.LowerChar | src/pages/Library.tsx:97-99 | ASCII `toLowerCase` of one character: capitals move down by 32; nothing else changes; the result is never a capital |
| Strings.ToLower | src/pages/Library.tsx:97-99 | `toLowerCase` keeps the length and lower-cases each character in place |
| Strings.ToLowerIdempotent | src/pages/Library.tsx:97-99 | lower-casing twice is lower-casing once |
| Strings.Contains | src/pages/Library.tsx:97-99 | no contract of its own: `s.includes(t)`, characterised by `Strings.ContainsIffOccurs` |
| Strings.ContainsIffOccurs | src/pages/Library.tsx:97-99 | `s.includes(t)` holds exactly when `t` occurs in `s` at some position |
| Strings.TrimStart | src/components/EditProfileDialog.tsx:95 | the result is a suffix of the input, does not start with white space, and only white space was removed |
| Strings.TrimEnd | src/components/EditProfileDialog.tsx:95 | the result is a prefix of the input, does not end with white space, and only white space was removed |
| Strings.IsWhiteSpace | src/components/EditProfileDialog.tsx:95 | no contract of its own: the WhiteSpace and LineTerminator code points of ECMAScript that `trim` removes |
| Strings.Trim | src/components/EditProfileDialog.tsx:95 | no contract of its own: `TrimEnd` after `TrimStart`; characterised by `Strings.TrimEmptyIffBlank` |
| Strings.TrimEmptyIffBlank | src/components/EditProfileDialog.tsx:95 | `s.trim()` is empty exactly when `s` is all white space |
| Numbers.DigitRun | src/components/EditWishlistDialog.tsx:78 | the length of the longest leading run of digits: every character inside the run is a digit, and the next one is not |
| Numbers.ParseInt | src/components/EditWishlistDialog.tsx:78 | no contract of its own: `parseInt` without a radix, NaN as `None`; characterised by `Numbers.ParseIntOfIntToString` and `Numbers.ParseSingleDigit` |
| Numbers.NatToString | src/components/EditWishlistDialog.tsx:64 | the decimal numeral of a natural number is non-empty, holds only digits, and its digits denote the number |
| Numbers.IntToString | src/components/EditWishlistDialog.tsx:64 | `n.toString()` is never empty |
| Numbers.ParseIntOfIntToString | src/components/EditWishlistDialog.tsx:64-78 | `parseInt(n.toString())` is `n` for every integer `n` |
| Numbers.ParseSingleDigit | src/components/AddWishlistDialog.tsx:53 | `parseInt` of a one-digit string is that digit |
| Seqs.Filter | src/pages/Library.tsx:95-100 | `filter` never lengthens the array, and every element it keeps passes the test |
| Seqs.FilterIsSubsequence | src/pages/FindBooks.tsx:70-80 | a filtered array is a subsequence of the original: same order, elements only removed |
| Seqs.FilterMultiplicity | src/pages/FindBooks.tsx:70-80 | an element that passes keeps its number of occurrences; one that fails has none |
| Seqs.FilterMembership | src/pages/FindBooks.tsx:70-80 | an element is in the filtered array exactly when it is in the original and passes |
| Seqs.FilterSpec | src/pages/FindBooks.tsx:70-80 | all three facts together: subsequence, membership and multiplicity |
| Seqs.FilterKeepsAll | src/pages/FindBooks.tsx:70-80 | filtering with a test every element passes returns the array itself |
| Seqs.FilterKeepsFirstOccurrenceOrder | src/pages/FindBooks.tsx:82 | for two values the test keeps, one first occurs before the other in the filtered array exactly when it does so in the original |
| Seqs.FilterCongruent | src/pages/FindBooks.tsx:70-80 | two tests that agree on every element filter alike |
| Seqs.Dedup | src/pages/FindBooks.tsx:82-83 | `Array.from(new Set(s))` has no repeats, and holds exactly the elements of `s` |
| Seqs.FirstIndex | src/pages/FindBooks.tsx:82-83 | the first position of a value: it holds the value, and no earlier one does |
| Seqs.DedupFirstOccurrenceOrder | src/pages/FindBooks.tsx:82-83 | the distinct values are listed in the order of their first occurrence |
| Seqs.DedupSpec | src/pages/FindBooks.tsx:82-83 | no repeats; exactly the values of `s`; first-occurrence order |
| Backend.Loaded | src/pages/Library.tsx:40-59 | after a select, the rows replace the list, or `[]` when the data is null; a failed select leaves the list as it was |
| Search.MatchesSearch | src/pages/FindBooks.tsx:71-74 | no contract of its own: the shared search test; characterised by `Search.MatchIffOccurs` |
| Search.EmptyTermMatches | src/pages/FindBooks.tsx:71-74 | the empty search term matches every entry |
| Search.MatchIgnoresTermCase | src/pages/FindBooks.tsx:71-74 | terms equal up to ASCII letter case match the same entries |
| Search.MatchSameAsLowered | src/pages/FindBooks.tsx:71-74 | a term matches exactly what its lower-cased form matches |
| Search.MatchIffOccurs | src/pages/FindBooks.tsx:71-74 | an entry matches exactly when the lower-cased term occurs in its lower-cased title, its author, or its genre when present |
| FindBooks.Keeps | src/pages/FindBooks.tsx:70-80 | no contract of its own: the search test and both select tests together; characterised by `FindBooks.FilteredBooksSpec` |
| FindBooks.FilteredBooks | src/pages/FindBooks.tsx:70-80 | no contract of its own: `filteredBooks`; characterised by `FindBooks.FilteredBooksSpec` |
| FindBooks.FilteredBooksSpec | src/pages/FindBooks.tsx:70-80 | the listed books are a subsequence of the fetched ones; a book is listed iff it matches the search, the genre select ("" or equal) and the condition select ("" or equal); multiplicities are kept |
| FindBooks.NoFilterKeepsAll | src/pages/FindBooks.tsx:71-78 | an empty search with both selects on "All" lists every fetched book |
| FindBooks.FilterIgnoresTermCase | src/pages/FindBooks.tsx:72-74 | changing the ASCII letter case of the search term does not change the list |
| FindBooks.GenrelessBook | src/pages/FindBooks.tsx:74-76 | a book without a genre is listed only through its title or author, and never once a genre is selected |
| FindBooks.GenreColumn | src/pages/FindBooks.tsx:82 | `books.map(book => book.genre)` has one entry per book, that book's genre, in book order |
| FindBooks.IsPresentGenre | src/pages/FindBooks.tsx:82 | no contract of its own: `Boolean(genre)` is true for a present, non-empty genre |
| FindBooks.GenreStrings | src/pages/FindBooks.tsx:82 | the strings of an array of present genres: same length, each entry the string of the genre at that position, never empty |
| FindBooks.GenreValues | src/pages/FindBooks.tsx:82 | no contract of its own: `books.map(book => book.genre).filter(Boolean)`; characterised by `FindBooks.GenreValuesSpec` |
| FindBooks.GenreValuesSpec | src/pages/FindBooks.tsx:82 | the mapped-and-filtered genres are exactly the non-empty genres of the books; one first occurs before another exactly when the first book with it comes first |
| FindBooks.GenreColumnMembership | src/pages/FindBooks.tsx:82 | a genre is in the mapped column exactly when some book has it |
| FindBooks.Genres | src/pages/FindBooks.tsx:82 | no contract of its own: `genres`; characterised by `FindBooks.GenresSpec` |
| FindBooks.GenresSpec | src/pages/FindBooks.tsx:82 | the genre options have no repeats and no missing or empty genre; they are exactly the non-empty genres of the books; for any two options, the first book with the earlier option comes before the first book with the later one |
| FindBooks.ConditionValues | src/pages/FindBooks.tsx:83 | the mapped array holds each book's condition at that book's position |
| FindBooks.Conditions | src/pages/FindBooks.tsx:83 | no contract of its own: `conditions`; characterised by `FindBooks.ConditionsSpec` |
| FindBooks.ConditionsSpec | src/pages/FindBooks.tsx:83 | the condition options have no repeats, are exactly the conditions of the books, and are in first-occurrence order |
| Library.FilteredBooks | src/pages/Library.tsx:95-100 | no contract of its own: `filteredBooks`; characterised by `Library.FilteredBooksSpec` |
| Library.FilteredBooksSpec | src/pages/Library.tsx:95-100 | exactly the books whose lower-cased title, author or genre holds the lower-cased term, in their original order and multiplicity |
| Library.EmptySearchKeepsAll | src/pages/Library.tsx:95-100 | an empty search box lists every book |
| Library.WithoutBook | src/pages/Library.tsx:80 | no contract of its own: `books.filter(book => book.id !== bookId)`; characterised by `Library.WithoutBookSpec` |
| Library.WithoutBookSpec | src/pages/Library.tsx:80 | after the local delete, no book with that id is left; every other book keeps its order and multiplicity; an absent id changes nothing |
| Library.Page.constructor | src/pages/Library.tsx:27-32 | initial state: no books, loading, empty search, no dialog open |
| Library.Page.FetchBooks | src/pages/Library.tsx:40-59 | the list becomes `Loaded(old list, response)`; `loading` is false whatever happened; nothing else changes |
| Library.Page.HandleBookAdded | src/pages/Library.tsx:61-64 | refetches and closes the add dialog |
| Library.Page.HandleBookUpdated | src/pages/Library.tsx:66-69 | refetches and clears the book being edited |
| Library.Page.Visible | src/pages/Library.tsx:95-100 | no contract of its own: the listed books are `FilteredBooks` of the state's books and search term |
| Library.Page.HandleDeleteBook | src/pages/Library.tsx:71-93 | the list drops that id only when the delete succeeded; after an error it is unchanged; nothing else changes; after a successful delete the listed books are exactly those listed before, minus that id |
| Wishlist.PriorityLabel | src/pages/Wishlist.tsx:86-93 | "High" iff 3, "Medium" iff 2, "Low" for 1 and for every other value |
| Wishlist.PriorityColor | src/pages/Wishlist.tsx:95-102 | total; one of the three colours; red iff 3, yellow iff 2, green otherwise |
| Wishlist.DefaultColorIsLow | src/pages/Wishlist.tsx:95-102 | the default branch gives the colour of priority 1 |
| Wishlist.LabelAndColorAgree | src/pages/Wishlist.tsx:86-102 | two priorities get the same colour exactly when they get the same label |
| Wishlist.FilteredItems | src/pages/Wishlist.tsx:104-108 | no contract of its own: `filteredItems`; characterised by `Wishlist.FilteredItemsSpec` |
| Wishlist.FilteredItemsSpec | src/pages/Wishlist.tsx:104-108 | exactly the entries whose lower-cased title, author or genre holds the lower-cased term, in original order and multiplicity |
| Wishlist.EmptySearchKeepsAll | src/pages/Wishlist.tsx:104-108 | an empty search box lists every entry |
| Wishlist.WithoutItem | src/pages/Wishlist.tsx:71 | no contract of its own: `prev.filter(item => item.id !== id)`; characterised by `Wishlist.WithoutItemSpec` |
| Wishlist.WithoutItemSpec | src/pages/Wishlist.tsx:71 | after the local delete, no entry with that id is left; every other entry stays, in order |
| Wishlist.Page.constructor | src/pages/Wishlist.tsx:27-31 | initial state: no entries, loading, empty search, no dialog open |
| Wishlist.Page.FetchWishlistItems | src/pages/Wishlist.tsx:39-60 | the list becomes `Loaded(old list, response)`; `loading` is false whatever happened; nothing else changes |
| Wishlist.Page.Visible | src/pages/Wishlist.tsx:104-108 | no contract of its own: the listed entries are `FilteredItems` of the state's entries and search term |
| Wishlist.Page.HandleDelete | src/pages/Wishlist.tsx:62-84 | the list drops that id only when the delete succeeded; after an error it is unchanged; nothing else changes; after a successful delete the listed entries are exactly those listed before, minus that id |
| BookForm.Defaults | src/components/AddBookDialog.tsx:39-50 | condition "good", available for swap, every text field "" |
| BookForm.Issues | src/components/EditBookDialog.tsx:15-24 | the schema reports a missing title iff it is empty; a missing author iff it is empty; a bad condition iff it is not one of the four; a bad cover iff it is non-empty and not a URL |
| BookForm.Accepts | src/components/EditBookDialog.tsx:15-24 | no contract of its own: the schema reports no issue; characterised by `BookForm.AcceptsIff` |
| BookForm.AcceptsIff | src/components/AddBookDialog.tsx:16-25 | the schema accepts a form iff it has a title, an author, one of excellent/good/fair/poor, and a cover that is "" or a URL |
| BookForm.DefaultsNeedTitleAndAuthor | src/components/AddBookDialog.tsx:16-50 | the default form fails on exactly the title and the author |
| EditBookDialog.FormOf | src/components/EditBookDialog.tsx:67-76 | absent isbn, description, genre and cover become ""; present ones are kept; title, author, condition and the flag are copied |
| EditBookDialog.UpdateData | src/components/EditBookDialog.tsx:83-89 | every optional field is null iff it is ""; non-empty ones are kept; title, author, condition and the flag are copied |
| EditBookDialog.UnchangedRoundTrip | src/components/EditBookDialog.tsx:67-89 | saving a loaded book unedited writes back its title, author, condition and flag, and each optional column as it was, or null if it was absent or empty |
| EditBookDialog.RoundTripIsStable | src/components/EditBookDialog.tsx:67-89 | a second unedited save writes what the first did |
| EditBookDialog.LoadedBookAccepted | src/components/EditBookDialog.tsx:15-76 | an unedited loaded book passes the schema iff the stored row has a title, an author, one of the four conditions, and a missing, empty or URL cover |
| EditBookDialog.Dialog.constructor | src/components/EditBookDialog.tsx:49-63 | the form starts at the defaults, not submitting |
| EditBookDialog.Dialog.Load | src/components/EditBookDialog.tsx:65-78 | the effect puts `FormOf(book)` in the form |
| EditBookDialog.Dialog.Edit | src/components/EditBookDialog.tsx:132-251 | the inputs replace the form values |
| EditBookDialog.Dialog.Submit | src/components/EditBookDialog.tsx:80-114 | blocked iff the schema rejects; otherwise one update of this book's id with `UpdateData(form)`; `isSubmitting` false after; form unchanged |
| AddBookDialog.NewBookRow | src/components/AddBookDialog.tsx:58-68 | the owner is the user's id; title, author, condition and flag are copied; each optional field is null iff "" |
| AddBookDialog.InsertAgreesWithUpdate | src/components/AddBookDialog.tsx:58-68 | the inserted row has exactly the book columns the edit dialog would write for the same form |
| AddBookDialog.DefaultsWithTitleAndAuthor | src/components/AddBookDialog.tsx:39-68 | defaults plus a title and an author insert a good-condition, swappable book with every optional column null |
| AddBookDialog.Dialog.constructor | src/components/AddBookDialog.tsx:37-51 | the form starts at the defaults, not submitting |
| AddBookDialog.Dialog.Edit | src/components/AddBookDialog.tsx:111-230 | the inputs replace the form values |
| AddBookDialog.Dialog.Submit | src/components/AddBookDialog.tsx:53-93 | blocked iff the schema rejects; with no user nothing happens; otherwise one insert of `NewBookRow(form, user)`; the form is reset to the defaults only on success; `isSubmitting` false after |
| WishlistForm.Defaults | src/components/AddWishlistDialog.tsx:35-43 | every text field "" and priority "1" |
| WishlistForm.Submittable | src/components/AddWishlistDialog.tsx:99-113 | no contract of its own: the `required` title and author inputs are both non-empty; the submit handlers are blocked exactly when it fails |
| WishlistForm.PayloadOf | src/components/AddWishlistDialog.tsx:51-55 | text fields sent as they are (empty as ""), and the priority as `parseInt` of its string |
| WishlistForm.OptionParses | src/components/AddWishlistDialog.tsx:126-135 | the k-th option of the priority select parses to priority k + 1 |
| WishlistForm.PriorityOptionsAgreeWithBadges | src/components/AddWishlistDialog.tsx:126-135 | each select option "1"/"2"/"3" parses to a number whose badge label is the option's text Low/Medium/High |
| WishlistForm.DefaultPriority | src/components/AddWishlistDialog.tsx:42-53 | the default priority is written as the number 1 |
| EditWishlistDialog.FormOf | src/components/EditWishlistDialog.tsx:55-67 | absent isbn, genre, description and notes become ""; present ones are kept; the priority string parses back to the stored priority |
| EditWishlistDialog.UnchangedPayload | src/components/EditWishlistDialog.tsx:57-79 | saving a loaded entry unedited keeps title, author and priority, and sends each absent text column as "" rather than null |
| EditWishlistDialog.SelectablePriorityKept | src/components/EditWishlistDialog.tsx:64-78 | for priority 1, 2 or 3, the form shows one of the select's values and the payload keeps the priority |
| EditWishlistDialog.Dialog.constructor | src/components/EditWishlistDialog.tsx:44-53 | the form starts at the defaults, not loading |
| EditWishlistDialog.Dialog.Load | src/components/EditWishlistDialog.tsx:55-67 | the effect puts `FormOf(item)` in the form |
| EditWishlistDialog.Dialog.Edit | src/components/EditWishlistDialog.tsx:118-167 | the inputs replace the form values |
| EditWishlistDialog.Dialog.HandleSubmit | src/components/EditWishlistDialog.tsx:69-101 | blocked iff title or author is empty; otherwise one update of this entry with `PayloadOf(form)`; the dialog closes only on success; `loading` false after |
| AddWishlistDialog.NewItemRow | src/components/AddWishlistDialog.tsx:51-55 | the inserted row is the form payload plus the user's id |
| AddWishlistDialog.DefaultsWithTitleAndAuthor | src/components/AddWishlistDialog.tsx:35-55 | defaults plus a title and an author insert priority 1 with every other text column "" |
| AddWishlistDialog.Dialog.constructor | src/components/AddWishlistDialog.tsx:34-43 | the form starts at the defaults, not loading |
| AddWishlistDialog.Dialog.Edit | src/components/AddWishlistDialog.tsx:102-151 | the inputs replace the form values |
| AddWishlistDialog.Dialog.HandleSubmit | src/components/AddWishlistDialog.tsx:45-85 | blocked iff title or author is empty; with no user nothing happens; otherwise one insert of `NewItemRow(form, user)`; on success the form is back at the defaults and the dialog is closed; on error both are kept; `loading` false after |
| EditProfileDialog.ShouldGeocodeIffNotBlank | src/components/EditProfileDialog.tsx:95 | the address is geocoded exactly when it is present and not all white space |
| EditProfileDialog.ShouldGeocode | src/components/EditProfileDialog.tsx:95 | no contract of its own: `profile.address && profile.address.trim()`; characterised by `EditProfileDialog.ShouldGeocodeIffNotBlank` |
| EditProfileDialog.Latitude | src/components/EditProfileDialog.tsx:112 | no contract of its own: `coordinates?.lat`; its use is characterised by `EditProfileDialog.ProfileData` |
| EditProfileDialog.Longitude | src/components/EditProfileDialog.tsx:113 | no contract of its own: `coordinates?.lng`; its use is characterised by `EditProfileDialog.ProfileData` |
| EditProfileDialog.ProfileData | src/components/EditProfileDialog.tsx:108-114 | the row is the user's; name and address are null iff missing or empty; each coordinate is stored iff it was found and is truthy, with the geocoded value |
| EditProfileDialog.BlankAddressStoredWithoutCoordinates | src/components/EditProfileDialog.tsx:92-113 | a whitespace-only address is not geocoded, is stored as typed, and gets null coordinates |
| EditProfileDialog.ZeroCoordinateDropped | src/components/EditProfileDialog.tsx:112-113 | a geocoded latitude or longitude of 0 is stored as null |
| EditProfileDialog.UpsertRows | src/components/EditProfileDialog.tsx:116-118 | the upsert inserts or replaces the row under its user id; other users' rows stay; a table keyed by user id stays so |
| EditProfileDialog.UpsertLeavesOneProfile | src/components/EditProfileDialog.tsx:116-118 | after the upsert the table holds exactly one profile of the user, the one just written |
| EditProfileDialog.KeyedByUser | src/components/EditProfileDialog.tsx:116-118 | no contract of its own: every row of the table sits under its own user id, the conflict key of the upsert |
| EditProfileDialog.ProfilesTable.constructor | src/components/EditProfileDialog.tsx:116-118 | the table the upsert writes starts empty, and so keyed by user id |
| EditProfileDialog.ProfilesTable.Upsert | src/components/EditProfileDialog.tsx:116-120 | the table changes only on success, by `UpsertRows`; it stays keyed by user id |
| EditProfileDialog.Dialog.constructor | src/components/EditProfileDialog.tsx:50-54 | not loading; the name and address start as "" |
| EditProfileDialog.Dialog.ProfileFetched | src/components/EditProfileDialog.tsx:62-84 | a stored row replaces the form; no row or an error leaves it |
| EditProfileDialog.Dialog.Edit | src/components/EditProfileDialog.tsx:161-171 | the inputs replace the form values |
| EditProfileDialog.Dialog.HandleSubmit | src/components/EditProfileDialog.tsx:86-140 | with no user nothing changes; a non-blank address the geocoder cannot find stops the submit with `loading` false, the dialog open and the table untouched; otherwise `ProfileData` is upserted, `loading` ends false, and the dialog closes only on success |

## Left out

- Database calls (select, insert, update, delete, upsert) and row-level authorization are not modelled. Each call is an outcome parameter of the handler that makes it. The database's own ordering of the fetched rows is not modelled, and neither is the filter of the find-books query (available books of other users).
- Library.Page.FetchBooks: the library lists every row the select on `books` returns. The query in src/pages/Library.tsx:42-45 has no `user_id` filter, unlike the wishlist query (src/pages/Wishlist.tsx:44), so a restriction of the library to the signed-in user's books is neither in the code nor in the model.
- `fetchAvailableBooks` in the find-books page has the same shape as `Library.Page.FetchBooks`. The page is modelled as pure functions over the fetched list, so its state, its `loading` flag and the search, genre and condition setters are not modelled.
- The geocoding fetch and the `parseFloat` calls in `geocodeAddress` are network I/O and float parsing. The geocoder is a function parameter returning an optional pair of numbers, each finite or NaN.
- The validation library's URL check is a library routine. It is the predicate parameter `isUrl`.
- Distance ranking and mutual matching do not exist in the code: the "Near Me" button is rendered disabled.
- `toLowerCase` is modelled for ASCII letters only. Unicode case mapping is not modelled.
- JSX rendering, toasts, view-mode switching and the `onOpenChange` callbacks of the dialogs are UI.
- The presentational card, the navigation sidebar, the home page, the routing and the demo-data button are not part of this model.
- Async interleaving and React re-render timing are not modelled. Each handler runs as one sequential step. `handleBookAdded` and `handleBookUpdated` do not await their fetch; the model runs the fetch before closing the dialog.
- Numbers.IntToString: covers integers only. JavaScript's exponent form for magnitudes of 1e21 and more, and fractional priorities, are not modelled.
- Numbers.ParseInt: has no contract of its own. It yields an unbounded integer and so does not model the loss of precision beyond 2^53. Its properties are stated by `Numbers.ParseIntOfIntToString`.
- EditProfileDialog.ProfileRow: holds only the columns the upsert writes. The `id` and `avatar_url` columns a stored profile keeps across an upsert are not modelled.
- EditProfileDialog.Dialog.ProfileFetched: the form holds only the display name and address of the loaded row. The other columns `setProfile(data)` copies are never read by the submit.
- Form fields are modelled as always holding strings. This is what the defaults and the row-to-form maps produce. react-hook-form turning a cleared field into `undefined` is not modelled.
