/** The older session type (`core/src/session.rs`): an id that keeps the
    case of its code, a start time, and the same scan, solve and skip logic
    over the same (clue, status) entries. */
module LegacySessions {
  import opened Common
  import opened Statuses
  import opened Clues
  import opened Random
  import SessionIds
  import opened Sessions

  /** The older `SessionId<N>`: N bytes, exactly as given. */
  datatype LegacySessionId = LegacySessionId(bytes: seq<byte>)

  /** The older `SessionId::new`: the same validation as the current one, but
      the accepted bytes are stored without any change of case. */
  function LegacyNew(code: string, n: nat): (r: Option<LegacySessionId>)
    ensures r.Some? <==> SessionIds.IsAscii(code) && |code| == n
    ensures r.Some? ==> |r.value.bytes| == n
    ensures r.Some? ==> forall i :: 0 <= i < n ==> r.value.bytes[i] as int == code[i] as int
  {
    if !SessionIds.ValidateCode(code, n) then None
    else Some(LegacySessionId(seq(|code|, i requires 0 <= i < |code| => code[i] as int as byte)))
  }

  /** Unlike the current id, the older one keeps the case of its code:
      two accepted codes give the same id only when they are the same text
      (`SessionIds.NewCaseInsensitive` says the opposite of the current id). */
  lemma LegacyNewKeepsCase(a: string, b: string, n: nat)
    requires LegacyNew(a, n).Some? && LegacyNew(b, n).Some?
    ensures LegacyNew(a, n) == LegacyNew(b, n) <==> a == b
  {
    if LegacyNew(a, n) == LegacyNew(b, n) {
      forall i | 0 <= i < n
        ensures a[i] == b[i]
      {
        assert LegacyNew(a, n).value.bytes[i] == LegacyNew(b, n).value.bytes[i];
      }
    }
  }

  /** The older `SessionId::random`: the same draw of N letters 'A'..='Z'. */
  method LegacyRandom(n: nat, rng: Rng) returns (id: LegacySessionId)
    modifies rng
    ensures |id.bytes| == n
    ensures forall i :: 0 <= i < n ==> 'A' as int <= id.bytes[i] as int <= 'Z' as int
  {
    var drawn := SessionIds.RandomId(n, rng);
    id := LegacySessionId(drawn.bytes);
  }

  class LegacySession {
    var id: LegacySessionId
    var startTime: nat
    var clues: seq<Entry>
    var negativePoint: int

    ghost predicate Valid()
      reads this
    {
      InI32(negativePoint)
    }

    /** The older `Session::new`: every clue `Unread`, no penalty, started now. */
    constructor (arrangement: seq<Clue>, rng: Rng, now: nat)
      modifies rng
      ensures Valid() && |id.bytes| == SessionIds.SESSION_ID_LEN && startTime == now
      ensures forall i :: 0 <= i < SessionIds.SESSION_ID_LEN ==> 'A' as int <= id.bytes[i] as int <= 'Z' as int
      ensures |clues| == |arrangement|
      ensures forall i :: 0 <= i < |arrangement| ==> clues[i] == (arrangement[i], Unread)
      ensures negativePoint == 0
      ensures Ordered(clues)
    {
      var newId := LegacyRandom(SessionIds.SESSION_ID_LEN, rng);
      id := newId;
      startTime := now;
      clues := seq(|arrangement|, i requires 0 <= i < |arrangement| => (arrangement[i], Unread));
      negativePoint := 0;
    }

    /** The older `inner_current_clue`: the same scan as the current session's. */
    method InnerCurrentClue(now: nat) returns (current: Option<nat>)
      modifies this
      ensures id == old(id) && startTime == old(startTime) && negativePoint == old(negativePoint)
      ensures clues == Resolved(old(clues), now)
      ensures current == CurrentIndex(old(clues))
      ensures current.Some? ==> current.value < |clues| && IsCurrentShape(clues[current.value].1)
      ensures old(Ordered(clues)) ==> Ordered(clues)
    {
      if Ordered(clues) {
        ResolvePreservesOrdered(clues, now);
      }
      var updated;
      updated, current := ScanCurrent(clues, now);
      clues := updated;
    }

    /** The older `current_clue`: a copy of the current clue, if any. */
    method CurrentClue(now: nat) returns (c: Option<Clue>)
      modifies this
      ensures id == old(id) && startTime == old(startTime) && negativePoint == old(negativePoint)
      ensures clues == Resolved(old(clues), now)
      ensures c.Some? <==> CurrentIndex(old(clues)).Some?
      ensures c.Some? ==> c.value == old(clues)[CurrentIndex(old(clues)).value].0
    {
      var current := InnerCurrentClue(now);
      if current.None? {
        return None;
      }
      c := Some(clues[current.value].0);
    }

    /** The older `try_solve`: the same three outcomes as the current one. */
    method TrySolve(answer: string, hash: Hasher, curve: BonusCurve, now: nat) returns (r: Option<int>)
      requires Valid()
      modifies this
      ensures Valid() && id == old(id) && startTime == old(startTime)
      ensures CurrentIndex(old(clues)).None? ==>
        r.None? && clues == old(clues) && negativePoint == old(negativePoint)
      ensures CurrentIndex(old(clues)).Some? ==>
        var i := CurrentIndex(old(clues)).value;
        var e := Resolved(old(clues), now);
        if e[i].0.code == hash(answer) then
          && clues == e[i := (e[i].0, SolveStatus(e[i].1, now))]
          && negativePoint == old(negativePoint)
          && r == Some(Score(clues[i].1, curve))
        else if MatchesAny(e, hash(answer)) then
          && clues == e
          && negativePoint == SaturatingSub(old(negativePoint), 100)
          && r == Some(-100)
        else
          clues == e && negativePoint == old(negativePoint) && r.None?
      ensures old(Ordered(clues)) ==> Ordered(clues)
    {
      var code := hash(answer);
      ghost var before := clues;
      var current := InnerCurrentClue(now);
      if current.None? {
        return None;
      }
      var i := current.value;
      if clues[i].0.code == code {
        var solved := SolveStatus(clues[i].1, now);
        if Ordered(before) {
          SetCurrentPreservesOrdered(before, now, solved);
        }
        clues := clues[i := (clues[i].0, solved)];
        return Some(Score(solved, curve));
      }
      var matchesOtherClue := MatchesAny(clues, code);
      if matchesOtherClue {
        negativePoint := SaturatingSub(negativePoint, 100);
        return Some(-100);
      }
      return None;
    }

    /** The older `skip_current_clue`: a no-op without a current clue. */
    method SkipCurrentClue(now: nat)
      modifies this
      ensures id == old(id) && startTime == old(startTime) && negativePoint == old(negativePoint)
      ensures CurrentIndex(old(clues)).None? ==> clues == old(clues)
      ensures CurrentIndex(old(clues)).Some? ==>
        var i := CurrentIndex(old(clues)).value;
        var e := Resolved(old(clues), now);
        clues == e[i := (e[i].0, SkipStatus(e[i].1))]
      ensures old(Ordered(clues)) ==> Ordered(clues)
    {
      ghost var before := clues;
      var current := InnerCurrentClue(now);
      if current.None? {
        return;
      }
      var i := current.value;
      var skipped := SkipStatus(clues[i].1);
      if Ordered(before) {
        SetCurrentPreservesOrdered(before, now, skipped);
      }
      clues := clues[i := (clues[i].0, skipped)];
    }
  }
}
