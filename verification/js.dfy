/** JavaScript value conventions that the project pipeline relies on:
    values that may be `null`, the `||` fallback on strings, and the end
    index clamping of `Array.prototype.slice` / `String.prototype.slice`. */
module Js {

  /** A value that may be `null` (or `undefined`). */
  datatype Option<+T> = None | Some(value: T) {

    /** The value, or `default` when it is `null`. */
    function GetOr(default: T): T
    {
      match this
      case Some(v) => v
      case None => default
    }
  }

  /** `a || b` on strings: the empty string is the only falsy string. */
  function Or(a: string, b: string): string
  {
    if a != "" then a else b
  }

  /** A nullable string read as a string operand of `||`: `null` and `""` are
      both falsy, so `null` may be read as `""`. */
  function OrEmpty(s: Option<string>): string
  {
    s.GetOr("")
  }

  function Min(a: int, b: int): int
  {
    if a <= b then a else b
  }

  function Max(a: int, b: int): int
  {
    if a >= b then a else b
  }

  /** The end position that `x.slice(0, end)` uses on a value of length `len`:
      a negative `end` counts from the back, and the result is clamped to
      `0 .. len`. */
  function SliceEnd(len: nat, end: int): (k: nat)
    ensures k <= len
  {
    if end < 0 then Max(len + end, 0) else Min(end, len)
  }

  /** `s.slice(0, end)`: the first `end` elements, or all but the last
      `-end` when `end` is negative. */
  function Slice<T>(s: seq<T>, end: int): (r: seq<T>)
    ensures r <= s
    ensures 0 <= end ==> |r| == Min(end, |s|)
    ensures end < 0 ==> |r| == Max(|s| + end, 0)
    ensures |r| == SliceEnd(|s|, end)
  {
    s[..SliceEnd(|s|, end)]
  }
}
