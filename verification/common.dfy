/** Small shared vocabulary: optional values and the identifiers the bot passes around. */
module Common {

  /** A value that may be absent (Python's `None`). */
  datatype Option<+T> = None | Some(value: T)

  /** Giveaway identifier: the first 8 characters of a random UUID in the bot. */
  type Id = string

  /** Telegram chat identifier. */
  type ChatId = int

  /** A point in time: whole minutes since 0001-01-01 00:00 local time, Python's `datetime.min`. */
  type Timestamp = int

  function Min(a: int, b: int): (r: int)
    ensures r <= a && r <= b
    ensures r == a || r == b
  {
    if a <= b then a else b
  }

  /** Python truthiness of an optional string: `x or fallback`. */
  function OrElse(x: Option<string>, fallback: string): (r: string)
    ensures x.Some? && x.value != [] ==> r == x.value
    ensures (x.None? || x.value == []) ==> r == fallback
  {
    if x.Some? && x.value != [] then x.value else fallback
  }
}
