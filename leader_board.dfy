/** The leaderboard command (`command::leader_board::handle`): one row per
    session, then a stable sort by descending score. */
module LeaderBoard {
  import opened Common
  import opened Statuses
  import opened Sessions
  import opened TeamNames
  import opened ServerState

  datatype Row = Row(teamName: TeamName, score: int)

  /** The row a team session contributes. */
  function RowOf(t: TeamSession, curve: BonusCurve): (row: Row)
    reads t.session
    requires t.session.Valid()
    ensures row.teamName == t.name && InI32(row.score)
    ensures t.session.negativePoints <= row.score
  {
    Row(t.name, t.session.TotalScore(curve))
  }

  predicate Descending(rows: seq<Row>) {
    forall i, j :: 0 <= i < j < |rows| ==> rows[i].score >= rows[j].score
  }

  // ---------------------------------------------------------------------------
  // The sort key
  // ---------------------------------------------------------------------------

  /** `i32` negation as a release build performs it: `-i32::MIN` wraps
      around to `i32::MIN` (a debug build panics instead). */
  function WrappingNeg(x: int): (r: int)
    requires InI32(x)
    ensures InI32(r)
    ensures x != I32_MIN ==> r == -x
  {
    if x == I32_MIN then I32_MIN else -x
  }

  /** The sort key as written, `-r.score` on `i32`. */
  function AsWrittenKey(row: Row): (k: int)
    requires InI32(row.score)
    ensures row.score != I32_MIN ==> k == -row.score
    ensures row.score == I32_MIN ==> k == I32_MIN
  {
    WrappingNeg(row.score)
  }

  predicate SortedByAsWrittenKey(rows: seq<Row>)
    requires forall i :: 0 <= i < |rows| ==> InI32(rows[i].score)
  {
    forall i, j :: 0 <= i < j < |rows| ==> AsWrittenKey(rows[i]) <= AsWrittenKey(rows[j])
  }

  /** With the key as written, a team whose score is `i32::MIN` goes ahead
      of a team with 0 points: the order a stable sort by that key produces
      for these two rows is not descending. */
  lemma AsWrittenKeyMisorders(a: TeamName, b: TeamName)
    ensures var rows := [Row(a, I32_MIN), Row(b, 0)];
      SortedByAsWrittenKey(rows) && !Descending(rows)
  {
    var rows := [Row(a, I32_MIN), Row(b, 0)];
    assert AsWrittenKey(rows[0]) < AsWrittenKey(rows[1]);
    assert rows[0].score < rows[1].score;
  }

  /** The penalty after `k` wrong answers, starting from `p`: each one is
      `saturating_sub(100)`. */
  function Penalised(p: int, k: nat): (r: int)
    requires InI32(p)
    ensures InI32(r) && r <= p
  {
    if k == 0 then p else SaturatingSub(Penalised(p, k - 1), 100)
  }

  /** Above the floor, every wrong answer costs exactly 100 points. */
  lemma {:induction false} PenalisedAboveFloor(p: int, k: nat)
    requires InI32(p) && 100 * k <= p - I32_MIN
    ensures Penalised(p, k) == p - 100 * k
  {
    if k > 0 {
      PenalisedAboveFloor(p, k - 1);
    }
  }

  /** Enough wrong answers drive the penalty to `i32::MIN`, and it stays there. */
  lemma {:induction false} PenalisedReachesFloor(p: int, k: nat)
    requires InI32(p) && 100 * k >= p - I32_MIN
    ensures Penalised(p, k) == I32_MIN
  {
    if k > 0 {
      if 100 * (k - 1) >= p - I32_MIN {
        PenalisedReachesFloor(p, k - 1);
      } else {
        PenalisedAboveFloor(p, k - 1);
      }
    }
  }

  /** A score of `i32::MIN` is reachable: from a fresh session, 21,474,837
      wrong answers (and no fewer) bring the penalty to `i32::MIN`, and with
      no solved clue the session then totals exactly that. */
  lemma MinimumScoreReachable(entries: seq<Entry>, curve: BonusCurve)
    requires forall i :: 0 <= i < |entries| ==> !entries[i].1.Solved?
    ensures Penalised(0, 21474837) == I32_MIN
    ensures Penalised(0, 21474836) > I32_MIN
    ensures Total(entries, Penalised(0, 21474837), curve) == I32_MIN
  {
    PenalisedReachesFloor(0, 21474837);
    PenalisedAboveFloor(0, 21474836);
    UnsolvedScoreNothing(entries, curve);
  }

  lemma {:induction false} UnsolvedScoreNothing(entries: seq<Entry>, curve: BonusCurve)
    requires forall i :: 0 <= i < |entries| ==> !entries[i].1.Solved?
    ensures SumScores(entries, curve) == 0
  {
    if entries != [] {
      UnsolvedScoreNothing(entries[1..], curve);
    }
  }

  /** The key the ordering evidently intends: the score negated without
      wrapping, so a smaller key is a higher score. */
  function Key(row: Row): (k: int)
    ensures InI32(row.score) && row.score != I32_MIN ==> k == AsWrittenKey(row)
  {
    -row.score
  }

  /** A smaller key is exactly a higher score, for every score. */
  lemma KeyOrdersByScore(a: Row, b: Row)
    ensures Key(a) < Key(b) <==> a.score > b.score
    ensures Key(a) == Key(b) <==> a.score == b.score
  {
  }

  /** `sort_by_key(|r| -r.score)` with the intended key: a stable insertion
      sort, whose result is a reordering of the rows by descending score. */
  method SortByScore(a: array<Row>)
    modifies a
    ensures multiset(a[..]) == old(multiset(a[..]))
    ensures Descending(a[..])
  {
    for i := 0 to a.Length
      invariant multiset(a[..]) == old(multiset(a[..]))
      invariant forall p, q :: 0 <= p < q < i ==> a[p].score >= a[q].score
    {
      InsertAt(a, i);
    }
  }

  /** One insertion step: move `a[i]` left past every row with a lower
      score, so that `a[..i + 1]` is in descending order. Rows with the
      same score keep their relative order. */
  method InsertAt(a: array<Row>, i: nat)
    requires i < a.Length
    requires forall p, q :: 0 <= p < q < i ==> a[p].score >= a[q].score
    modifies a
    ensures forall p, q :: 0 <= p < q <= i ==> a[p].score >= a[q].score
    ensures multiset(a[..]) == old(multiset(a[..]))
    ensures forall k :: i < k < a.Length ==> a[k] == old(a[k])
  {
    var j := i;
    while j > 0 && Key(a[j - 1]) > Key(a[j])
      invariant 0 <= j <= i
      invariant multiset(a[..]) == old(multiset(a[..]))
      invariant forall k :: i < k < a.Length ==> a[k] == old(a[k])
      invariant forall p, q :: 0 <= p < q <= i && p != j && q != j ==> a[p].score >= a[q].score
      invariant forall q :: j < q <= i ==> a[j].score > a[q].score
      invariant 0 < j < i ==> a[j - 1].score >= a[j + 1].score
    {
      Swap(a, j);
      j := j - 1;
    }
  }

  /** Exchange `a[j - 1]` and `a[j]`. */
  method Swap(a: array<Row>, j: nat)
    requires 0 < j < a.Length
    modifies a
    ensures a[j - 1] == old(a[j]) && a[j] == old(a[j - 1])
    ensures forall k :: 0 <= k < a.Length && k != j - 1 && k != j ==> a[k] == old(a[k])
    ensures multiset(a[..]) == old(multiset(a[..]))
  {
    a[j - 1], a[j] := a[j], a[j - 1];
  }

  /** `leader_board::handle`: one row per session, named after its team and
      scored with its total score, sorted by descending score. The state is
      only read. `ids` is the order the sessions were visited in and
      `built` the rows before sorting. */
  method Handle(state: State, curve: BonusCurve) returns (rows: seq<Row>, ghost ids: seq<SessionIds.SessionId>, ghost built: seq<Row>)
    requires state.Valid()
    ensures forall id :: id in state.sessions <==> id in ids
    ensures forall p, q :: 0 <= p < q < |ids| ==> ids[p] != ids[q]
    ensures |built| == |ids|
    ensures forall k :: 0 <= k < |ids| ==> built[k] == RowOf(state.sessions[ids[k]], curve)
    ensures multiset(rows) == multiset(built)
    ensures Descending(rows)
  {
    var remaining := state.sessions.Keys;
    var collected: seq<Row> := [];
    ids := [];
    while remaining != {}
      invariant remaining <= state.sessions.Keys
      invariant forall id :: id in state.sessions ==> (id in remaining <==> id !in ids)
      invariant forall k :: 0 <= k < |ids| ==> ids[k] in state.sessions
      invariant forall p, q :: 0 <= p < q < |ids| ==> ids[p] != ids[q]
      invariant |collected| == |ids|
      invariant forall k :: 0 <= k < |ids| ==> collected[k] == RowOf(state.sessions[ids[k]], curve)
      decreases remaining
    {
      var id :| id in remaining;
      var teamSession := state.sessions[id];
      var row := Row(teamSession.name, teamSession.session.TotalScore(curve));
      collected, ids := collected + [row], ids + [id];
      remaining := remaining - {id};
    }
    built := collected;
    var a := new Row[|collected|](k requires 0 <= k < |collected| => collected[k]);
    assert a[..] == collected;
    SortByScore(a);
    rows := a[..];
  }
}
