/** One team's session: its ordered list of (clue, status) entries fixed at
    registration, the scan that finds the current clue, the operations that
    drive the current clue's status, and the total score. */
module Sessions {
  import opened Common
  import opened Statuses
  import opened Clues
  import opened SessionIds
  import opened Random

  type Entry = (Clue, Status)

  /** A status the first pass of the scan stops at. */
  predicate IsOpen(s: Status) {
    s.Seen? || s.Unread?
  }

  /** A status that can never become current again. */
  predicate IsFinished(s: Status) {
    s.Solved? || s.Declined?
  }

  /** The first entry that is `Seen` or `Unread`. */
  function FirstOpen(entries: seq<Entry>): (r: Option<nat>)
    ensures r.Some? ==> r.value < |entries| && IsOpen(entries[r.value].1)
    ensures r.Some? ==> forall j :: 0 <= j < r.value ==> !IsOpen(entries[j].1)
    ensures r.None? ==> forall j :: 0 <= j < |entries| ==> !IsOpen(entries[j].1)
  {
    if entries == [] then None
    else if IsOpen(entries[0].1) then Some(0)
    else match FirstOpen(entries[1..])
      case None => None
      case Some(i) => Some(i + 1)
  }

  /** The first entry that is `Skipped`. */
  function FirstSkipped(entries: seq<Entry>): (r: Option<nat>)
    ensures r.Some? ==> r.value < |entries| && entries[r.value].1.Skipped?
    ensures r.Some? ==> forall j :: 0 <= j < r.value ==> !entries[j].1.Skipped?
    ensures r.None? ==> forall j :: 0 <= j < |entries| ==> !entries[j].1.Skipped?
  {
    if entries == [] then None
    else if entries[0].1.Skipped? then Some(0)
    else match FirstSkipped(entries[1..])
      case None => None
      case Some(i) => Some(i + 1)
  }

  /** Where the scan of `inner_current_clue` lands: the first `Seen` or
      `Unread` entry; failing that, the first `Skipped` entry; failing that
      nothing, because every clue is solved or declined. */
  function CurrentIndex(entries: seq<Entry>): (r: Option<nat>)
    ensures r.None? <==> forall j :: 0 <= j < |entries| ==> IsFinished(entries[j].1)
    ensures r.Some? ==> r.value < |entries| && !IsFinished(entries[r.value].1)
    ensures r.Some? ==> forall j :: 0 <= j < r.value ==> !IsOpen(entries[j].1)
    ensures r.Some? && entries[r.value].1.Skipped? ==>
      (forall j :: 0 <= j < |entries| ==> !IsOpen(entries[j].1)) &&
      (forall j :: 0 <= j < r.value ==> !entries[j].1.Skipped?)
  {
    match FirstOpen(entries)
    case Some(i) => Some(i)
    case None => FirstSkipped(entries)
  }

  /** The entries after the scan: an `Unread` current entry has become
      `Seen{Unaided, now}`; nothing else has changed. */
  function Resolved(entries: seq<Entry>, now: nat): (r: seq<Entry>)
    ensures |r| == |entries|
    ensures forall j :: 0 <= j < |entries| ==> r[j].0 == entries[j].0
    ensures CurrentIndex(r) == CurrentIndex(entries)
    ensures CurrentIndex(entries).None? ==> r == entries
    ensures CurrentIndex(entries).Some? ==>
      var i := CurrentIndex(entries).value;
      && IsCurrentShape(r[i].1)
      && (entries[i].1.Unread? ==> r[i].1 == Seen(Unaided, now))
      && (!entries[i].1.Unread? ==> r[i].1 == entries[i].1)
      && (forall j :: 0 <= j < |entries| && j != i ==> r[j] == entries[j])
  {
    match CurrentIndex(entries)
    case None => entries
    case Some(i) =>
      if entries[i].1.Unread? then entries[i := (entries[i].0, Seen(Unaided, now))] else entries
  }

  /** Resolving again, at any later time, changes nothing: the same clue stays
      current with the same knowledge and the same skipped flag. */
  lemma ResolveIdempotent(entries: seq<Entry>, now: nat, later: nat)
    ensures Resolved(Resolved(entries, now), later) == Resolved(entries, now)
    ensures CurrentIndex(Resolved(entries, now)) == CurrentIndex(entries)
  {
    var r := Resolved(entries, now);
    if CurrentIndex(entries).Some? {
      var i := CurrentIndex(entries).value;
      assert !r[i].1.Unread?;
    }
  }

  /** Once every clue is solved or declined, there is no current clue, for good. */
  lemma FinishedStaysFinished(entries: seq<Entry>, now: nat)
    requires forall j :: 0 <= j < |entries| ==> IsFinished(entries[j].1)
    ensures CurrentIndex(entries).None? && Resolved(entries, now) == entries
  {
  }

  // ---------------------------------------------------------------------------
  // The shape every session keeps
  // ---------------------------------------------------------------------------

  /** After a `Seen` or an `Unread` entry only `Unread` entries follow: so at
      most one entry is `Seen`, and the `Unread` entries form a suffix that
      comes after it. */
  ghost predicate Ordered(entries: seq<Entry>) {
    forall i, j :: 0 <= i < j < |entries| && IsOpen(entries[i].1) ==> entries[j].1.Unread?
  }

  lemma OrderedShape(entries: seq<Entry>, a: nat, b: nat)
    requires Ordered(entries) && a < b < |entries|
    ensures entries[a].1.Seen? ==> !entries[b].1.Seen?
    ensures entries[a].1.Unread? ==> entries[b].1.Unread?
    ensures entries[b].1.Seen? ==> !entries[a].1.Unread?
  {
  }

  /** In an ordered session a `Seen` entry is always the current one. */
  lemma OrderedSeenIsCurrent(entries: seq<Entry>, k: nat)
    requires Ordered(entries) && k < |entries| && entries[k].1.Seen?
    ensures CurrentIndex(entries) == Some(k)
  {
    var fo := FirstOpen(entries);
    assert fo.Some?;
    if fo.value < k {
      assert false;
    }
  }

  lemma {:induction false} ResolvePreservesOrdered(entries: seq<Entry>, now: nat)
    requires Ordered(entries)
    ensures Ordered(Resolved(entries, now))
  {
    var r := Resolved(entries, now);
    if CurrentIndex(entries).Some? {
      var c := CurrentIndex(entries).value;
      forall i, j | 0 <= i < j < |r| && IsOpen(r[i].1) ensures r[j].1.Unread? {
        if i == c {
          assert IsOpen(entries[c].1);
          assert entries[j].1.Unread?;
        } else {
          assert i > c;
          assert r[j] == entries[j];
        }
      }
    }
  }

  /** Replacing the current entry's status after a scan keeps the shape, as
      long as the new status is not `Unread` and is `Seen` only in place of a
      `Seen` status. This covers solving, skipping, hinting and revealing. */
  lemma {:induction false} SetCurrentPreservesOrdered(entries: seq<Entry>, now: nat, s: Status)
    requires Ordered(entries) && CurrentIndex(entries).Some?
    requires var r := Resolved(entries, now); var i := CurrentIndex(entries).value;
      !s.Unread? && (s.Seen? ==> r[i].1.Seen?)
    ensures var r := Resolved(entries, now); var i := CurrentIndex(entries).value;
      Ordered(r[i := (r[i].0, s)])
  {
    var r := Resolved(entries, now);
    var c := CurrentIndex(entries).value;
    ResolvePreservesOrdered(entries, now);
    var u := r[c := (r[c].0, s)];
    forall i, j | 0 <= i < j < |u| && IsOpen(u[i].1) ensures u[j].1.Unread? {
      if i == c {
        assert r[c].1.Seen?;
        assert r[j].1.Unread?;
      } else if j == c {
        assert false;
      } else {
        assert r[j].1.Unread?;
      }
    }
  }

  // ---------------------------------------------------------------------------
  // Answers and scores
  // ---------------------------------------------------------------------------

  /** `.iter().any(|(clue, _)| clue.code == submitted_code)`. */
  function MatchesAny(entries: seq<Entry>, code: Code): (r: bool)
    ensures r <==> exists j :: 0 <= j < |entries| && entries[j].0.code == code
  {
    if entries == [] then false
    else entries[0].0.code == code || MatchesAny(entries[1..], code)
  }

  /** The plain sum of the entries' scores. */
  function SumScores(entries: seq<Entry>, curve: BonusCurve): (s: int)
    ensures s >= 0
  {
    if entries == [] then 0 else Score(entries[0].1, curve) + SumScores(entries[1..], curve)
  }

  /** The fold of `total_score`: start from `acc` and add every entry's score
      with `i32` saturation. It never drops below its start, and it is the
      exact sum whenever that sum fits an `i32`. */
  function Total(entries: seq<Entry>, acc: int, curve: BonusCurve): (r: int)
    requires InI32(acc)
    ensures InI32(r) && acc <= r
    ensures InI32(acc + SumScores(entries, curve)) ==> r == acc + SumScores(entries, curve)
    ensures acc + SumScores(entries, curve) > I32_MAX ==> r == I32_MAX
  {
    if entries == [] then acc
    else Total(entries[1..], SaturatingAdd(acc, Score(entries[0].1, curve)), curve)
  }

  /** The player's view of a current entry. */
  function ViewOf(entry: Entry, now: nat): (v: ClueView)
    requires IsCurrentShape(entry.1)
    ensures v.clue == entry.0 && v.knowledge == entry.1.kind
    ensures v.isPreviouslySkipped <==> entry.1.Skipped?
    ensures entry.1.time <= now ==> entry.1.time + v.duration == now
  {
    ClueView(entry.0, entry.1.kind, entry.1.Skipped?, CurrentDuration(entry.1, now))
  }

  /** The value of a session, as the serialization code sees it. */
  datatype SessionValue = SessionValue(id: SessionId, clues: seq<Entry>, negativePoints: int)

  // ---------------------------------------------------------------------------
  // The scan loop
  // ---------------------------------------------------------------------------

  /** The loop of `inner_current_clue`: walk the entries in order, stop at the
      first `Seen` entry or at the first `Unread` one (which becomes
      `Seen{Unaided, now}`), remember the first `Skipped` entry on the way, and
      fall back to it. */
  method ScanCurrent(entries: seq<Entry>, now: nat) returns (updated: seq<Entry>, current: Option<nat>)
    ensures current == CurrentIndex(entries)
    ensures updated == Resolved(entries, now)
    ensures current.Some? ==> current.value < |updated| && IsCurrentShape(updated[current.value].1)
  {
    updated := entries;
    var firstSkipped: Option<nat> := None;
    for i := 0 to |entries|
      invariant updated == entries
      invariant forall j :: 0 <= j < i ==> !IsOpen(entries[j].1)
      invariant firstSkipped.Some? ==>
        firstSkipped.value < i && entries[firstSkipped.value].1.Skipped? &&
        forall j :: 0 <= j < firstSkipped.value ==> !entries[j].1.Skipped?
      invariant firstSkipped.None? ==> forall j :: 0 <= j < i ==> !entries[j].1.Skipped?
    {
      match entries[i].1 {
        case Seen(_, _) =>
          current := Some(i);
          return;
        case Unread =>
          updated := entries[i := (entries[i].0, Seen(Unaided, now))];
          current := Some(i);
          return;
        case Skipped(_, _) =>
          if firstSkipped.None? {
            firstSkipped := Some(i);
          }
        case _ =>
      }
    }
    current := firstSkipped;
  }

  // ---------------------------------------------------------------------------
  // The session object
  // ---------------------------------------------------------------------------

  class Session {
    var id: SessionId
    var clues: seq<Entry>
    /** The penalty pool, an `i32` that only saturating subtraction changes. */
    var negativePoints: int

    ghost predicate Valid()
      reads this
    {
      InI32(negativePoints)
    }

    function Value(): SessionValue
      reads this
    {
      SessionValue(id, clues, negativePoints)
    }

    /** `Session::new`: a random id, every clue of the arrangement `Unread` in
        the given order, and no penalty. */
    constructor (arrangement: seq<Clue>, rng: Rng)
      modifies rng
      ensures Valid() && WellFormed(id, SESSION_ID_LEN)
      ensures |clues| == |arrangement|
      ensures forall i :: 0 <= i < |arrangement| ==> clues[i] == (arrangement[i], Unread)
      ensures negativePoints == 0
      ensures Ordered(clues)
    {
      var newId := RandomId(SESSION_ID_LEN, rng);
      id := newId;
      clues := seq(|arrangement|, i requires 0 <= i < |arrangement| => (arrangement[i], Unread));
      negativePoints := 0;
    }

    /** A session rebuilt from its value (used when it is deserialised). */
    constructor Restore(v: SessionValue)
      requires InI32(v.negativePoints)
      ensures Valid() && Value() == v
    {
      id := v.id;
      clues := v.clues;
      negativePoints := v.negativePoints;
    }

    /** `total_score`: the penalty pool plus every score, added with saturation. */
    function TotalScore(curve: BonusCurve): (r: int)
      reads this
      requires Valid()
      ensures InI32(r) && negativePoints <= r
      ensures InI32(negativePoints + SumScores(clues, curve)) ==> r == negativePoints + SumScores(clues, curve)
      ensures negativePoints + SumScores(clues, curve) > I32_MAX ==> r == I32_MAX
    {
      Total(clues, negativePoints, curve)
    }

    /** `inner_current_clue`: the index of the current entry, whose status is
        then `Seen` or `Skipped`. */
    method InnerCurrentClue(now: nat) returns (current: Option<nat>)
      modifies this
      ensures id == old(id) && negativePoints == old(negativePoints)
      ensures clues == Resolved(old(clues), now)
      ensures current == CurrentIndex(old(clues))
      ensures current.Some? ==> current.value < |clues| && IsCurrentShape(clues[current.value].1)
      ensures old(Ordered(clues)) ==> Ordered(clues)
    {
      if Ordered(clues) {
        ResolvePreservesOrdered(clues, now);
      }
      var updated;
      updated, current := ScanCurrent(clues, now);
      clues := updated;
    }

    /** `current_clue_duration`: time spent on the current clue so far. */
    method CurrentClueDuration(now: nat) returns (d: Option<nat>)
      modifies this
      ensures id == old(id) && negativePoints == old(negativePoints)
      ensures clues == Resolved(old(clues), now)
      ensures d.Some? <==> CurrentIndex(old(clues)).Some?
      ensures d.Some? ==> var i := CurrentIndex(old(clues)).value;
        d.value == CurrentDuration(clues[i].1, now)
      ensures old(Ordered(clues)) ==> Ordered(clues)
    {
      var current := InnerCurrentClue(now);
      if current.None? {
        return None;
      }
      d := Some(CurrentDuration(clues[current.value].1, now));
    }

    /** `current_clue`: the view of the current clue. */
    method CurrentClue(now: nat) returns (v: Option<ClueView>)
      modifies this
      ensures id == old(id) && negativePoints == old(negativePoints)
      ensures clues == Resolved(old(clues), now)
      ensures v.Some? <==> CurrentIndex(old(clues)).Some?
      ensures v.Some? ==> var i := CurrentIndex(old(clues)).value;
        v.value == ViewOf(clues[i], now)
      ensures old(Ordered(clues)) ==> Ordered(clues)
    {
      var current := InnerCurrentClue(now);
      if current.None? {
        return None;
      }
      v := Some(ViewOf(clues[current.value], now));
    }

    /** `try_solve`: the right answer solves the current clue and earns its
        score; the answer of another clue of the session costs 100 points; any
        other answer, or no current clue at all, changes nothing beyond the
        scan. */
    method TrySolve(answer: string, hash: Hasher, curve: BonusCurve, now: nat) returns (r: Option<int>)
      requires Valid()
      modifies this
      ensures Valid() && id == old(id)
      ensures CurrentIndex(old(clues)).None? ==>
        r.None? && clues == old(clues) && negativePoints == old(negativePoints)
      ensures CurrentIndex(old(clues)).Some? ==>
        var i := CurrentIndex(old(clues)).value;
        var e := Resolved(old(clues), now);
        if e[i].0.code == hash(answer) then
          && clues == e[i := (e[i].0, SolveStatus(e[i].1, now))]
          && negativePoints == old(negativePoints)
          && r == Some(Score(clues[i].1, curve))
        else if MatchesAny(e, hash(answer)) then
          && clues == e
          && negativePoints == SaturatingSub(old(negativePoints), 100)
          && r == Some(-100)
        else
          clues == e && negativePoints == old(negativePoints) && r.None?
      ensures old(Ordered(clues)) ==> Ordered(clues)
    {
      var code := hash(answer);
      ghost var before := clues;
      var current := InnerCurrentClue(now);
      if current.None? {
        return None;
      }
      var i := current.value;
      if clues[i].0.code == code {
        var solved := SolveStatus(clues[i].1, now);
        if Ordered(before) {
          SetCurrentPreservesOrdered(before, now, solved);
        }
        clues := clues[i := (clues[i].0, solved)];
        return Some(Score(solved, curve));
      }
      var matchesOtherClue := MatchesAny(clues, code);
      if matchesOtherClue {
        negativePoints := SaturatingSub(negativePoints, 100);
        return Some(-100);
      }
      return None;
    }

    /** `skip_current_clue`: skips the current clue (a second skip declines it);
        without a current clue it does nothing. */
    method SkipCurrentClue(now: nat)
      modifies this
      ensures id == old(id) && negativePoints == old(negativePoints)
      ensures CurrentIndex(old(clues)).None? ==> clues == old(clues)
      ensures CurrentIndex(old(clues)).Some? ==>
        var i := CurrentIndex(old(clues)).value;
        var e := Resolved(old(clues), now);
        clues == e[i := (e[i].0, SkipStatus(e[i].1))]
      ensures old(Ordered(clues)) ==> Ordered(clues)
    {
      ghost var before := clues;
      var current := InnerCurrentClue(now);
      if current.None? {
        return;
      }
      var i := current.value;
      var skipped := SkipStatus(clues[i].1);
      if Ordered(before) {
        SetCurrentPreservesOrdered(before, now, skipped);
      }
      clues := clues[i := (clues[i].0, skipped)];
    }

    /** `hint_current_clue`: records the hint on the current clue and returns
        the hint text, even when the knowledge does not change. */
    method HintCurrentClue(now: nat) returns (hint: Option<string>)
      modifies this
      ensures id == old(id) && negativePoints == old(negativePoints)
      ensures CurrentIndex(old(clues)).None? ==> hint.None? && clues == old(clues)
      ensures CurrentIndex(old(clues)).Some? ==>
        var i := CurrentIndex(old(clues)).value;
        var e := Resolved(old(clues), now);
        hint == Some(e[i].0.hint) && clues == e[i := (e[i].0, HintStatus(e[i].1))]
      ensures old(Ordered(clues)) ==> Ordered(clues)
    {
      ghost var before := clues;
      var current := InnerCurrentClue(now);
      if current.None? {
        return None;
      }
      var i := current.value;
      var hinted := HintStatus(clues[i].1);
      if Ordered(before) {
        SetCurrentPreservesOrdered(before, now, hinted);
      }
      clues := clues[i := (clues[i].0, hinted)];
      hint := Some(clues[i].0.hint);
    }

    /** `reveal_current_item`: records the reveal on the current clue and
        returns the item text, even when the knowledge does not change. */
    method RevealCurrentItem(now: nat) returns (item: Option<string>)
      modifies this
      ensures id == old(id) && negativePoints == old(negativePoints)
      ensures CurrentIndex(old(clues)).None? ==> item.None? && clues == old(clues)
      ensures CurrentIndex(old(clues)).Some? ==>
        var i := CurrentIndex(old(clues)).value;
        var e := Resolved(old(clues), now);
        item == Some(e[i].0.item) && clues == e[i := (e[i].0, RevealStatus(e[i].1))]
      ensures old(Ordered(clues)) ==> Ordered(clues)
    {
      ghost var before := clues;
      var current := InnerCurrentClue(now);
      if current.None? {
        return None;
      }
      var i := current.value;
      var revealed := RevealStatus(clues[i].1);
      if Ordered(before) {
        SetCurrentPreservesOrdered(before, now, revealed);
      }
      clues := clues[i := (clues[i].0, revealed)];
      item := Some(clues[i].0.item);
    }
  }
}
