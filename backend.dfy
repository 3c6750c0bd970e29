/** What the components see of the hosted database: every call either
    succeeds or reports an error, and a select also returns rows (or null).
    The outcome of a call is a parameter of the handler that makes it. */
module Backend {
  import opened Values

  /** The `{ error }` of an insert, update, delete or upsert. */
  datatype DbOutcome = DbOk | DbError

  /** The `{ data, error }` of a select. */
  datatype Fetch<T> = Fetched(data: Option<seq<T>>) | FetchFailed

  /** The list a page holds after a select: `setX(data || [])` on success,
      and the list it held before when the select failed. */
  function Loaded<T>(current: seq<T>, response: Fetch<T>): (r: seq<T>)
    ensures response.FetchFailed? ==> r == current
    ensures response == Fetched(None) ==> r == []
    ensures response.Fetched? && response.data.Some? ==> r == response.data.value
  {
    match response
    case FetchFailed => current
    case Fetched(None) => []
    case Fetched(Some(rows)) => rows
  }

  /** What a dialog's submit did: nothing because form validation stopped
      it, nothing because nobody is signed in, or one write of the given
      row with its outcome. */
  datatype Submission<P> =
    | Blocked
    | SignedOut
    | Inserted(row: P, result: DbOutcome)
    | Updated(id: string, changes: P, result: DbOutcome)
  {
    /** The write was made and the database accepted it. */
    predicate Succeeded() {
      (Inserted? || Updated?) && result.DbOk?
    }
  }
}
