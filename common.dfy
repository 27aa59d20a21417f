/** Shared vocabulary: optional and fallible results, bytes, and the 32-bit
    signed integer arithmetic (`i32`) the scoring code relies on. */
module Common {

  datatype Option<+T> = None | Some(value: T)

  datatype Result<+T, +E> = Ok(value: T) | Err(error: E)

  newtype byte = b: int | 0 <= b < 256

  const I32_MIN: int := -0x8000_0000
  const I32_MAX: int := 0x7fff_ffff

  predicate InI32(x: int) {
    I32_MIN <= x <= I32_MAX
  }

  /** The value an `i32` saturating operation yields for the exact result `x`. */
  function Saturate(x: int): (r: int)
    ensures InI32(r)
    ensures InI32(x) ==> r == x
    ensures x < I32_MIN ==> r == I32_MIN
    ensures x > I32_MAX ==> r == I32_MAX
  {
    if x < I32_MIN then I32_MIN else if x > I32_MAX then I32_MAX else x
  }

  /** `i32::saturating_add`. */
  function SaturatingAdd(a: int, b: int): (r: int)
    ensures InI32(r)
    ensures InI32(a + b) ==> r == a + b
    ensures b >= 0 && InI32(a) ==> a <= r
  {
    Saturate(a + b)
  }

  /** `i32::saturating_sub`. */
  function SaturatingSub(a: int, b: int): (r: int)
    ensures InI32(r)
    ensures InI32(a - b) ==> r == a - b
    ensures b >= 0 && InI32(a) ==> r <= a
  {
    Saturate(a - b)
  }

  /** Time elapsed from `since` to `now`, both in milliseconds of a monotonic
      clock; like `Instant::elapsed` it is zero when `since` lies in the future. */
  function Elapsed(since: nat, now: nat): (d: nat)
    ensures since <= now ==> since + d == now
    ensures now <= since ==> d == 0
  {
    if since <= now then now - since else 0
  }

  /** Bytes of UTF-8 needed for one character. */
  function Utf8Width(c: char): (n: nat)
    ensures 1 <= n <= 4
    ensures (c as int < 0x80) <==> n == 1
  {
    if c as int < 0x80 then 1
    else if c as int < 0x800 then 2
    else if c as int < 0x1_0000 then 3
    else 4
  }

  /** `str::len`: the length of the text in bytes of UTF-8. */
  function Utf8Len(s: string): (n: nat)
    ensures |s| <= n <= 4 * |s|
    ensures s == [] <==> n == 0
  {
    if s == [] then 0 else Utf8Width(s[0]) + Utf8Len(s[1..])
  }
}
