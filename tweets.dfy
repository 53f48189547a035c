/** Values shared by the search loop and the stash. */
module Tweets {

  datatype Option<+T> = None | Some(value: T)

  /** A tweet as the search API returns it and as the stash stores it.
      `id` is the numeric id the pagination cursor is built from, `idStr` the
      same id as text (the stash key, `tweet['id_str']`), `createdAt` the
      creation time as an integer timestamp, and `payload` the rest of the
      JSON object, which the stash writes and reads back verbatim. */
  datatype Tweet = Tweet(id: int, idStr: string, createdAt: int, payload: string)
}
