/** Clues, the catalog mapping from their on-disk definitions, the test
    mock, and the player's view of the current clue. */
module Clues {
  import opened Common
  import opened Statuses

  /** A SHA3-256 digest: exactly 32 bytes. */
  type Code = c: seq<byte> | |c| == 32 witness seq(32, _ => 0 as byte)

  /** `answer_to_code`: a deterministic digest of the answer text. It is a
      parameter of the model; nothing is assumed of it beyond being a
      function (in particular it is not assumed injective). */
  type Hasher = string -> Code

  datatype Clue = Clue(poem: string, hint: string, item: string, location: string, code: Code)

  /** A clue as it is stored on disk, with its answer in plain text. */
  datatype ClueDefinition = ClueDefinition(
    poem: string, hint: string, item: string, location: string, answer: string)

  /** The closure inside `Clues::from_disk`: the answer is replaced by its digest. */
  function FromDefinition(d: ClueDefinition, hash: Hasher): (c: Clue)
    ensures c.poem == d.poem && c.hint == d.hint && c.item == d.item
    ensures c.location == d.location
    ensures c.code == hash(d.answer)
  {
    Clue(d.poem, d.hint, d.item, d.location, hash(d.answer))
  }

  /** The mapping part of `Clues::from_disk`: one clue per definition, in order. */
  function FromDisk(defs: seq<ClueDefinition>, hash: Hasher): (clues: seq<Clue>)
    ensures |clues| == |defs|
    ensures forall i :: 0 <= i < |defs| ==>
      clues[i].poem == defs[i].poem && clues[i].hint == defs[i].hint &&
      clues[i].item == defs[i].item && clues[i].location == defs[i].location &&
      clues[i].code == hash(defs[i].answer)
  {
    seq(|defs|, i requires 0 <= i < |defs| => FromDefinition(defs[i], hash))
  }

  // ---------------------------------------------------------------------------
  // Text encodings used by `Clue::mock`
  // ---------------------------------------------------------------------------

  /** A lower-case hexadecimal digit. */
  function HexDigit(n: nat): (c: char)
    requires n < 16
    ensures '0' <= c <= '9' || 'a' <= c <= 'f'
  {
    if n < 10 then ('0' as int + n) as char else ('a' as int + n - 10) as char
  }

  function HexValue(c: char): (n: nat)
    ensures n < 16
  {
    if '0' <= c <= '9' then c as int - '0' as int
    else if 'a' <= c <= 'f' then c as int - 'a' as int + 10
    else 0
  }

  lemma HexValueOfDigit(n: nat)
    requires n < 16
    ensures HexValue(HexDigit(n)) == n
  {
  }

  /** `hex::encode`: two lower-case digits per byte, high nibble first. */
  function HexEncode(bytes: seq<byte>): (s: string)
    ensures |s| == 2 * |bytes|
    ensures forall i :: 0 <= i < |bytes| ==>
      s[2 * i] == HexDigit(bytes[i] as nat / 16) && s[2 * i + 1] == HexDigit(bytes[i] as nat % 16)
  {
    if bytes == [] then []
    else [HexDigit(bytes[0] as nat / 16), HexDigit(bytes[0] as nat % 16)] + HexEncode(bytes[1..])
  }

  function HexDecode(s: string): (bytes: seq<byte>)
    requires |s| % 2 == 0
    ensures |bytes| == |s| / 2
  {
    if s == [] then []
    else [(HexValue(s[0]) * 16 + HexValue(s[1])) as byte] + HexDecode(s[2..])
  }

  lemma {:induction false} HexRoundTrip(bytes: seq<byte>)
    ensures HexDecode(HexEncode(bytes)) == bytes
  {
    if bytes != [] {
      var b := bytes[0] as nat;
      HexValueOfDigit(b / 16);
      HexValueOfDigit(b % 16);
      var s := HexEncode(bytes);
      assert s[2..] == HexEncode(bytes[1..]);
      HexRoundTrip(bytes[1..]);
    }
  }

  /** Different digests give different mock texts. */
  lemma HexEncodeInjective(a: seq<byte>, b: seq<byte>)
    requires HexEncode(a) == HexEncode(b)
    ensures a == b
  {
    HexRoundTrip(a);
    HexRoundTrip(b);
  }

  function DecimalDigit(n: nat): (c: char)
    requires n < 10
    ensures '0' <= c <= '9'
  {
    ('0' as int + n) as char
  }

  /** `u64::to_string`: the decimal digits, without leading zeros. */
  function DecimalString(n: nat): (s: string)
    ensures |s| >= 1
    ensures forall i :: 0 <= i < |s| ==> '0' <= s[i] <= '9'
    ensures |s| > 1 ==> s[0] != '0'
    decreases n
  {
    if n < 10 then [DecimalDigit(n)] else DecimalString(n / 10) + [DecimalDigit(n % 10)]
  }

  function ParseDecimal(s: string): nat
  {
    if s == [] then 0
    else ParseDecimal(s[..|s| - 1]) * 10 + (if '0' <= s[|s| - 1] <= '9' then s[|s| - 1] as int - '0' as int else 0)
  }

  lemma {:induction false} DecimalRoundTrip(n: nat)
    ensures ParseDecimal(DecimalString(n)) == n
    decreases n
  {
    if n >= 10 {
      var s := DecimalString(n);
      assert s[..|s| - 1] == DecimalString(n / 10);
      DecimalRoundTrip(n / 10);
    }
  }

  /** `Clue::mock`: poem, hint and item are all the hex text of the digest
      of the seed written in decimal. */
  function Mock(seed: nat, location: string, hash: Hasher): (c: Clue)
    ensures c.code == hash(DecimalString(seed))
    ensures c.poem == c.hint == c.item
    ensures |c.poem| == 64 && HexDecode(c.poem) == c.code
    ensures c.location == location
  {
    var code := hash(DecimalString(seed));
    HexRoundTrip(code);
    Clue(HexEncode(code), HexEncode(code), HexEncode(code), location, code)
  }

  /** Distinct seeds are distinct answers: the mock answer text determines the seed. */
  lemma MockAnswersDistinct(a: nat, b: nat)
    requires a != b
    ensures DecimalString(a) != DecimalString(b)
  {
    DecimalRoundTrip(a);
    DecimalRoundTrip(b);
  }

  // ---------------------------------------------------------------------------
  // The player's view of the current clue
  // ---------------------------------------------------------------------------

  datatype ClueView = ClueView(
    clue: Clue, knowledge: KnowledgeKind, isPreviouslySkipped: bool, duration: nat)

  /** `ClueView::hinted`: only the knowledge can change, from unaided to hinted. */
  function HintedView(v: ClueView): (r: ClueView)
    ensures r.clue == v.clue && r.isPreviouslySkipped == v.isPreviouslySkipped
    ensures r.duration == v.duration
    ensures v.knowledge == Unaided ==> r.knowledge == WithHint
    ensures v.knowledge != Unaided ==> r == v
  {
    v.(knowledge := Hinted(v.knowledge))
  }

  /** `ClueView::revealed`: only the knowledge can change, from hinted to
      knowing the item; an unaided view stays unaided. */
  function RevealedView(v: ClueView): (r: ClueView)
    ensures r.clue == v.clue && r.isPreviouslySkipped == v.isPreviouslySkipped
    ensures r.duration == v.duration
    ensures v.knowledge == WithHint ==> r.knowledge == KnowingItem
    ensures v.knowledge != WithHint ==> r == v
  {
    v.(knowledge := Revealed(v.knowledge))
  }

  lemma ViewUpdatesIdempotent(v: ClueView)
    ensures HintedView(HintedView(v)) == HintedView(v)
    ensures RevealedView(RevealedView(v)) == RevealedView(v)
  {
  }
}
