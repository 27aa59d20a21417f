/** Session identifiers (`GenericSessionId<N>`): N ASCII bytes, stored upper
    case, drawn at random for a new session and validated when parsed. */
module SessionIds {
  import opened Common
  import opened Random

  /** `SessionId` is `GenericSessionId<4>`. */
  const SESSION_ID_LEN: nat := 4

  datatype SessionId = SessionId(bytes: seq<byte>)

  predicate IsAscii(code: string) {
    forall i :: 0 <= i < |code| ==> code[i] as int < 128
  }

  /** `validate_code`: ASCII and exactly `n` bytes of UTF-8 long. An ASCII
      text has one byte per character, so every accepted character fits the
      byte it is stored in. */
  predicate ValidateCode(code: string, n: nat): (ok: bool)
    ensures ok <==> IsAscii(code) && Utf8Len(code) == n
    ensures ok ==> |code| == n && forall i :: 0 <= i < n ==> code[i] as int < 256
  {
    if IsAscii(code) then AsciiUtf8Len(code); |code| == n else false
  }

  /** An ASCII text takes one byte of UTF-8 per character. */
  lemma {:induction false} AsciiUtf8Len(code: string)
    requires IsAscii(code)
    ensures Utf8Len(code) == |code|
  {
    if code != [] {
      AsciiUtf8Len(code[1..]);
    }
  }

  /** `u8::to_ascii_uppercase` on one character. */
  function AsciiUpper(c: char): (u: char)
    ensures 'a' <= c <= 'z' ==> u as int == c as int - 32
    ensures !('a' <= c <= 'z') ==> u == c
  {
    if 'a' <= c <= 'z' then (c as int - 32) as char else c
  }

  /** Two codes that differ at most in the case of ASCII letters. */
  predicate SameIgnoringAsciiCase(a: string, b: string) {
    |a| == |b| && forall i :: 0 <= i < |a| ==> AsciiUpper(a[i]) == AsciiUpper(b[i])
  }

  /** The bytes of an ASCII string, upper-cased. */
  function UpperBytes(code: string): (bytes: seq<byte>)
    requires IsAscii(code)
    ensures |bytes| == |code|
  {
    seq(|code|, i requires 0 <= i < |code| => AsciiUpper(code[i]) as int as byte)
  }

  /** An id as `new` and `random` build them: `n` ASCII bytes, none a
      lower-case letter. */
  predicate WellFormed(id: SessionId, n: nat) {
    |id.bytes| == n &&
    forall i :: 0 <= i < |id.bytes| ==> id.bytes[i] < 128 && !('a' as int <= id.bytes[i] as int <= 'z' as int)
  }

  /** `GenericSessionId::new`: rejects anything but `n` ASCII characters, and
      keeps the accepted code upper-cased. */
  function New(code: string, n: nat): (r: Option<SessionId>)
    ensures r.Some? <==> IsAscii(code) && |code| == n
    ensures r.Some? ==> |r.value.bytes| == n && WellFormed(r.value, n)
    ensures r.Some? ==> forall i :: 0 <= i < n ==> r.value.bytes[i] as int == AsciiUpper(code[i]) as int
  {
    if !ValidateCode(code, n) then None else Some(SessionId(UpperBytes(code)))
  }

  /** Parsing ignores the case of letters. */
  lemma NewCaseInsensitive(a: string, b: string, n: nat)
    requires SameIgnoringAsciiCase(a, b)
    ensures New(a, n) == New(b, n)
  {
    if IsAscii(a) {
      assert forall i :: 0 <= i < |b| ==> b[i] as int < 128 by {
        forall i | 0 <= i < |b| ensures b[i] as int < 128 {
          assert AsciiUpper(a[i]) == AsciiUpper(b[i]);
        }
      }
      assert UpperBytes(a) == UpperBytes(b);
    } else {
      assert !IsAscii(b) by {
        var i :| 0 <= i < |a| && a[i] as int >= 128;
        assert AsciiUpper(a[i]) == AsciiUpper(b[i]);
      }
    }
  }

  /** `Display for GenericSessionId`: the bytes as text. The formatter fails on
      a byte that is not ASCII (ids built by `new` and `random` have none). */
  function Display(id: SessionId): (r: Option<string>)
    ensures r.Some? <==> forall i :: 0 <= i < |id.bytes| ==> id.bytes[i] < 128
    ensures r.Some? ==> |r.value| == |id.bytes| && IsAscii(r.value)
    ensures r.Some? ==> forall i :: 0 <= i < |id.bytes| ==> r.value[i] as int == id.bytes[i] as int
  {
    if forall i :: 0 <= i < |id.bytes| ==> id.bytes[i] < 128
    then Some(seq(|id.bytes|, i requires 0 <= i < |id.bytes| => id.bytes[i] as int as char))
    else None
  }

  /** Printing a well-formed id and parsing the text gives the id back. */
  lemma DisplayRoundTrip(id: SessionId, n: nat)
    requires WellFormed(id, n)
    ensures Display(id).Some? && New(Display(id).value, n) == Some(id)
  {
    var s := Display(id).value;
    assert UpperBytes(s) == id.bytes;
  }

  /** `GenericSessionId::random`: `n` letters drawn from 'A'..='Z'. */
  method RandomId(n: nat, rng: Rng) returns (id: SessionId)
    modifies rng
    ensures |id.bytes| == n
    ensures forall i :: 0 <= i < n ==> 'A' as int <= id.bytes[i] as int <= 'Z' as int
    ensures WellFormed(id, n)
    ensures rng.used == old(rng.used) + n
  {
    var buf := new byte[n](_ => 0);
    for i := 0 to n
      invariant forall k :: 0 <= k < i ==> 'A' as int <= buf[k] as int <= 'Z' as int
      invariant rng.used == old(rng.used) + i
    {
      var offset := rng.Below(26);
      buf[i] := ('A' as int + offset) as byte;
    }
    id := SessionId(buf[..]);
  }
}
