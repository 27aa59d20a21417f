/** Team names (`TeamName::new`): the input trimmed of surrounding white
    space, rejected when nothing is left or when more than 50 bytes of UTF-8
    are left. */
module TeamNames {
  import opened Common

  /** The longest name accepted, in bytes of UTF-8. */
  const MAX_TEAM_NAME_BYTES: nat := 50

  datatype TeamName = TeamName(name: string)

  datatype TeamNameError =
    | Empty    // "Enter a team name!"
    | TooLong  // "Team name too long!"

  /** `char::is_whitespace`: the Unicode White_Space property, which is what
      `str::trim` removes. */
  predicate IsWhiteSpace(c: char): (w: bool)
    ensures c as int < 0x80 ==> (w <==> c == ' ' || '\U{9}' <= c <= '\U{D}')
    ensures w ==> Utf8Width(c) <= 3
    ensures w ==> !('0' <= c <= '9' || 'A' <= c <= 'Z' || 'a' <= c <= 'z')
  {
    || '\U{9}' <= c <= '\U{D}'
    || c == ' ' || c == '\U{85}' || c == '\U{A0}' || c == '\U{1680}'
    || '\U{2000}' <= c <= '\U{200A}'
    || c == '\U{2028}' || c == '\U{2029}' || c == '\U{202F}' || c == '\U{205F}' || c == '\U{3000}'
  }

  predicate AllWhiteSpace(s: string) {
    forall i :: 0 <= i < |s| ==> IsWhiteSpace(s[i])
  }

  /** Neither starts nor ends with white space. */
  predicate Trimmed(s: string) {
    s == [] || (!IsWhiteSpace(s[0]) && !IsWhiteSpace(s[|s| - 1]))
  }

  /** `str::trim_start`: drops the leading white space. */
  function TrimStart(s: string): (r: string)
    ensures |r| <= |s| && r == s[|s| - |r|..]
    ensures AllWhiteSpace(s[..|s| - |r|])
    ensures r == [] || !IsWhiteSpace(r[0])
  {
    if s != [] && IsWhiteSpace(s[0]) then TrimStart(s[1..]) else s
  }

  /** `str::trim_end`: drops the trailing white space. */
  function TrimEnd(s: string): (r: string)
    ensures |r| <= |s| && r == s[..|r|]
    ensures AllWhiteSpace(s[|r|..])
    ensures r == [] || !IsWhiteSpace(r[|r| - 1])
  {
    if s != [] && IsWhiteSpace(s[|s| - 1]) then TrimEnd(s[..|s| - 1]) else s
  }

  /** `str::trim`: neither leading nor trailing white space (`TrimSplit`
      says what was removed). */
  function Trim(s: string): (r: string)
    ensures Trimmed(r) && |r| <= |s|
  {
    TrimEnd(TrimStart(s))
  }

  lemma {:induction false} TrimStartOf(p: string, u: string)
    requires AllWhiteSpace(p) && (u == [] || !IsWhiteSpace(u[0]))
    ensures TrimStart(p + u) == u
  {
    if p != [] {
      assert (p + u)[1..] == p[1..] + u;
      TrimStartOf(p[1..], u);
    }
  }

  lemma {:induction false} TrimEndOf(u: string, q: string)
    requires AllWhiteSpace(q) && (u == [] || !IsWhiteSpace(u[|u| - 1]))
    ensures TrimEnd(u + q) == u
  {
    if q != [] {
      assert (u + q)[..|u + q| - 1] == u + q[..|q| - 1];
      TrimEndOf(u, q[..|q| - 1]);
    }
  }

  /** The trimmed text is the one and only way to see `s` as white space, a
      text that neither starts nor ends with white space, and white space. */
  lemma TrimUnique(s: string, p: string, t: string, q: string)
    requires s == p + t + q && AllWhiteSpace(p) && AllWhiteSpace(q) && Trimmed(t)
    ensures Trim(s) == t
  {
    if t == [] {
      assert s == (p + q) + [];
      TrimStartOf(p + q, []);
    } else {
      assert s == p + (t + q);
      TrimStartOf(p, t + q);
      TrimEndOf(t, q);
    }
  }

  /** Trimming twice is trimming once. */
  lemma TrimIdempotent(s: string)
    ensures Trim(Trim(s)) == Trim(s)
  {
    var t := Trim(s);
    assert t == [] + t + [];
    TrimUnique(t, [], t, []);
  }

  /** White space around the input makes no difference. */
  lemma TrimIgnoresSurroundings(p: string, s: string, q: string)
    requires AllWhiteSpace(p) && AllWhiteSpace(q)
    ensures Trim(p + s + q) == Trim(s)
  {
    var t := Trim(s);
    var before, after := TrimSplit(s);
    WhiteSpaceConcat(p, before);
    WhiteSpaceConcat(after, q);
    Reassociate(p, before, t, after, q);
    TrimUnique(p + s + q, p + before, t, after + q);
  }

  /** The white space `Trim` removes from either side of `s`. */
  lemma TrimSplit(s: string) returns (before: string, after: string)
    ensures s == before + Trim(s) + after
    ensures AllWhiteSpace(before) && AllWhiteSpace(after)
  {
    var start := TrimStart(s);
    var t := TrimEnd(start);
    before, after := s[..|s| - |start|], start[|t|..];
    SliceSplit(s, |s| - |start|);
    SliceSplit(start, |t|);
    Associate(before, t, after);
  }

  lemma SliceSplit(s: string, i: nat)
    requires i <= |s|
    ensures s == s[..i] + s[i..]
  {
  }

  lemma Associate(a: string, b: string, c: string)
    ensures a + (b + c) == a + b + c
  {
  }

  lemma Reassociate(a: string, b: string, c: string, d: string, e: string)
    ensures a + (b + c + d) + e == (a + b) + c + (d + e)
  {
  }

  lemma WhiteSpaceConcat(a: string, b: string)
    requires AllWhiteSpace(a) && AllWhiteSpace(b)
    ensures AllWhiteSpace(a + b)
  {
    forall k | 0 <= k < |a + b|
      ensures IsWhiteSpace((a + b)[k])
    {
      if k >= |a| {
        assert (a + b)[k] == b[k - |a|];
      }
    }
  }

  /** `TeamName::new`. */
  function New(name: string): (r: Result<TeamName, TeamNameError>)
    ensures r == Err(Empty) <==> AllWhiteSpace(name)
    ensures r == Err(TooLong) <==> !AllWhiteSpace(name) && Utf8Len(Trim(name)) > MAX_TEAM_NAME_BYTES
    ensures r.Ok? ==> r.value.name == Trim(name)
    ensures r.Ok? ==> 1 <= Utf8Len(r.value.name) <= MAX_TEAM_NAME_BYTES && Trimmed(r.value.name)
  {
    var trimmed := Trim(name);
    EmptyTrimIffWhiteSpace(name);
    if trimmed == [] then Err(Empty)
    else if Utf8Len(trimmed) > MAX_TEAM_NAME_BYTES then Err(TooLong)
    else Ok(TeamName(trimmed))
  }

  /** Nothing is left after trimming exactly when the input is all white space. */
  lemma EmptyTrimIffWhiteSpace(s: string)
    ensures Trim(s) == [] <==> AllWhiteSpace(s)
  {
    if AllWhiteSpace(s) {
      assert s == s + [] + [];
      TrimUnique(s, s, [], []);
    } else {
      var before, after := TrimSplit(s);
      WhiteSpaceConcat(before, after);
    }
  }

  /** `Display for TeamName`: the stored text. */
  function Display(t: TeamName): (s: string)
    ensures s == t.name
  {
    t.name
  }

  /** A name's display text is accepted again, and gives the same name. */
  lemma NewDisplayRoundTrip(name: string)
    requires New(name).Ok?
    ensures New(Display(New(name).value)) == New(name)
  {
    TrimIdempotent(name);
    EmptyTrimIffWhiteSpace(Trim(name));
  }

  /** Names that differ only in surrounding white space are the same name. */
  lemma NewIgnoresSurroundings(p: string, name: string, q: string)
    requires AllWhiteSpace(p) && AllWhiteSpace(q)
    ensures New(p + name + q) == New(name)
  {
    TrimIgnoresSurroundings(p, name, q);
    EmptyTrimIffWhiteSpace(p + name + q);
    EmptyTrimIffWhiteSpace(name);
  }
}
