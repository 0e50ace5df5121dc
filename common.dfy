/** Values shared by the notes server and the embedding service: optional
    request fields, the truthiness tests both handlers apply to them, and the
    tagged outcome that stands for an HTTP response. */
module Common {

  datatype Option<+T> = None | Some(value: T)

  /** The outcome of one request. Ok carries the payload of a success
      response; the other tags stand for the 400, 404 and 500 responses. */
  datatype Outcome<+T> = Ok(value: T) | BadRequest | NotFound | StorageError

  /** SQLite stores integers, and Python's sqlite3 binds them, as signed 64-bit
      values; binding an int outside this range raises OverflowError. */
  const MinInt64: int := -0x8000_0000_0000_0000
  const MaxInt64: int := 0x7FFF_FFFF_FFFF_FFFF

  predicate FitsInt64(i: int) {
    MinInt64 <= i <= MaxInt64
  }

  /** A text field of a JSON body. None stands for a missing key or an explicit
      null; both JavaScript's `!x` and Python's `not x` hold of it and of "". */
  function Truthy(v: Option<string>): (b: bool)
    ensures !b <==> v == None || v == Some("")
  {
    v.Some? && v.value != ""
  }

  /** Python's truth test on a `note_id` taken from a JSON body: a missing key,
      null and 0 are all false. */
  function TruthyId(v: Option<int>): (b: bool)
    ensures !b <==> v == None || v == Some(0)
  {
    v.Some? && v.value != 0
  }
}
