/** The rows the pages list, with the columns the code reads. Optional
    columns are null in the database and undefined in the TypeScript
    interfaces; both are `None` here. */
module Records {
  import opened Values

  /** A row of the books table. */
  datatype Book = Book(
    id: string,
    title: string,
    author: string,
    isbn: Option<string>,
    condition: string,
    description: Option<string>,
    genre: Option<string>,
    coverUrl: Option<string>,
    availableForSwap: bool,
    createdAt: string,
    userId: string)

  /** A row of the wishlists table. */
  datatype WishlistItem = WishlistItem(
    id: string,
    title: string,
    author: string,
    isbn: Option<string>,
    genre: Option<string>,
    description: Option<string>,
    notes: Option<string>,
    priority: int,
    createdAt: string,
    userId: string)
}
