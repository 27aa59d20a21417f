/** The arrangement generator: orders of the clue list in which no location
    comes twice in a row, and, for the first teams, in which no two teams are
    sent to the same location at the same step. Randomness comes from an
    explicit `Rng`; the panics after 1000 failed attempts are `Err` results. */
module Arrangement {
  import opened Common
  import opened Clues
  import opened Random

  /** Attempts made before giving up (`n_attempts == 1_000`). */
  const MAX_ATTEMPTS: nat := 1000

  /** Arrangements built up front (`n_arrangements`). */
  const N_ARRANGEMENTS: nat := 4

  datatype ArrangementError =
    | BaseArrangementFailed    // "Failed to find arrangement that does not repeat locations!"
    | OtherArrangementsFailed  // "Failed to generate other arrangements without repeating locations"

  /** No two consecutive clues share a location. */
  predicate NoAdjacentRepeats(s: seq<Clue>) {
    forall i :: 0 < i < |s| ==> s[i - 1].location != s[i].location
  }

  /** At every step, the arrangements send their teams to pairwise distinct
      locations. */
  predicate ColumnsDistinct(arrangements: seq<seq<Clue>>) {
    forall p, i, j :: 0 <= i < j < |arrangements| && 0 <= p < |arrangements[i]| && p < |arrangements[j]| ==>
      arrangements[i][p].location != arrangements[j][p].location
  }

  function LocationsOf(s: seq<Clue>): set<string> {
    set c | c in s :: c.location
  }

  /** The clues of `s` at location `l`, in their order in `s`. */
  function AtLocation(s: seq<Clue>, l: string): (r: seq<Clue>)
    ensures |r| <= |s|
  {
    if s == [] then []
    else AtLocation(s[..|s| - 1], l) + (if s[|s| - 1].location == l then [s[|s| - 1]] else [])
  }

  /** The group of `l` holds exactly the clues of `s` at `l`. */
  lemma {:induction false} AtLocationMembers(s: seq<Clue>, l: string)
    ensures forall c :: c in AtLocation(s, l) <==> c in s && c.location == l
    ensures l !in LocationsOf(s) ==> AtLocation(s, l) == []
  {
    if s != [] {
      var init := s[..|s| - 1];
      AtLocationMembers(init, l);
      assert s == init + [s[|s| - 1]];
    }
  }

  lemma AtLocationAppend(s: seq<Clue>, c: Clue, l: string)
    ensures AtLocation(s + [c], l) == AtLocation(s, l) + (if c.location == l then [c] else [])
  {
    assert (s + [c])[..|s|] == s;
  }

  /** Every clue of `s` is counted in its own location's group. */
  lemma {:induction false} CountAtLocation(s: seq<Clue>, c: Clue)
    ensures multiset(AtLocation(s, c.location))[c] == multiset(s)[c]
  {
    if s != [] {
      var init := s[..|s| - 1];
      CountAtLocation(init, c);
      assert s == init + [s[|s| - 1]];
    }
  }

  /** A sub-multiset at least as large as the whole is the whole. */
  lemma SubMultisetFull<T>(a: multiset<T>, b: multiset<T>)
    requires a <= b && |a| >= |b|
    ensures a == b
  {
    var d := b - a;
    assert b == a + d;
    assert |d| == 0;
  }

  /** `clues_by_location` is the clue list grouped by location. */
  predicate Grouped(buckets: map<string, seq<Clue>>, clues: seq<Clue>) {
    && buckets.Keys == LocationsOf(clues)
    && forall l :: l in buckets ==> buckets[l] == AtLocation(clues, l)
  }

  /** Pushing one more clue onto its location's list keeps the grouping. */
  lemma GroupedStep(buckets: map<string, seq<Clue>>, s: seq<Clue>, clue: Clue)
    requires Grouped(buckets, s)
    ensures var list := if clue.location in buckets then buckets[clue.location] else [];
      Grouped(buckets[clue.location := list + [clue]], s + [clue])
  {
    var list := if clue.location in buckets then buckets[clue.location] else [];
    var buckets' := buckets[clue.location := list + [clue]];
    var s' := s + [clue];
    assert LocationsOf(s') == LocationsOf(s) + {clue.location} by {
      assert forall c :: c in s' <==> c in s || c == clue;
    }
    forall l | l in buckets' ensures buckets'[l] == AtLocation(s', l) {
      AtLocationAppend(s, clue, l);
      AtLocationMembers(s, l);
    }
  }

  /** The loop of `Arrangements::new` that builds `clues_by_location`: each
      clue pushed onto the list of its location. */
  method GroupByLocation(clues: seq<Clue>) returns (buckets: map<string, seq<Clue>>)
    ensures Grouped(buckets, clues)
  {
    buckets := map[];
    for i := 0 to |clues|
      invariant Grouped(buckets, clues[..i])
    {
      var clue := clues[i];
      var list := if clue.location in buckets then buckets[clue.location] else [];
      GroupedStep(buckets, clues[..i], clue);
      assert clues[..i + 1] == clues[..i] + [clue];
      buckets := buckets[clue.location := list + [clue]];
    }
    assert clues[..|clues|] == clues;
  }

  /** `keys().cloned().collect()`: every key once, in some order. */
  method KeysOf<V>(m: map<string, V>) returns (keys: seq<string>)
    ensures forall l :: l in keys <==> l in m
    ensures forall i, j :: 0 <= i < j < |keys| ==> keys[i] != keys[j]
  {
    keys := [];
    var rest := m.Keys;
    while rest != {}
      invariant forall l :: l in m <==> l in keys || l in rest
      invariant forall l :: l in keys ==> l !in rest
      invariant forall i, j :: 0 <= i < j < |keys| ==> keys[i] != keys[j]
      decreases |rest|
    {
      var l :| l in rest;
      keys := keys + [l];
      rest := rest - {l};
    }
  }

  /** `remaining_locations`: how many locations still hold a clue and differ
      from the location of the last clue placed. */
  function RemainingLocations(buckets: map<string, seq<Clue>>, previous: Option<string>): (n: nat)
    ensures n == 0 <==> forall l :: l in buckets ==> buckets[l] == [] || previous == Some(l)
  {
    var open := set l | l in buckets && buckets[l] != [] && previous != Some(l);
    OpenLocations(buckets, previous, open);
    |open|
  }

  lemma OpenLocations(buckets: map<string, seq<Clue>>, previous: Option<string>, open: set<string>)
    requires open == set l | l in buckets && buckets[l] != [] && previous != Some(l)
    ensures |open| == 0 <==> forall l :: l in buckets ==> buckets[l] == [] || previous == Some(l)
  {
    if open != {} {
      var l :| l in open;
    } else {
      forall l | l in buckets ensures buckets[l] == [] || previous == Some(l) {
        assert l !in open;
      }
    }
  }

  /** Every clue is either placed or still in its location's bucket, as
      often as it occurs in the clue list. */
  ghost predicate Balanced(arrangement: seq<Clue>, buckets: map<string, seq<Clue>>, clues: seq<Clue>) {
    forall c: Clue {:trigger multiset(arrangement)[c]} :: c.location in buckets ==>
      multiset(arrangement)[c] + multiset(buckets[c.location])[c] == multiset(clues)[c]
  }

  /** Every bucket holds clues of its own location. */
  ghost predicate BucketsAtKey(buckets: map<string, seq<Clue>>) {
    forall l, i :: l in buckets && 0 <= i < |buckets[l]| ==> buckets[l][i].location == l
  }

  /** Every placed clue comes from one of the buckets. */
  ghost predicate PlacedFrom(arrangement: seq<Clue>, buckets: map<string, seq<Clue>>) {
    forall i :: 0 <= i < |arrangement| ==> arrangement[i].location in buckets
  }

  /** The state of one attempt of `create_arrangement`. */
  ghost predicate Accounted(arrangement: seq<Clue>, buckets: map<string, seq<Clue>>, clues: seq<Clue>) {
    && buckets.Keys == LocationsOf(clues)
    && Balanced(arrangement, buckets, clues)
    && BucketsAtKey(buckets)
    && PlacedFrom(arrangement, buckets)
  }

  /** The grouped clue list, with nothing placed yet, is accounted for. */
  lemma GroupedIsAccounted(buckets: map<string, seq<Clue>>, clues: seq<Clue>)
    requires Grouped(buckets, clues)
    ensures Accounted([], buckets, clues)
  {
    forall c: Clue | c.location in buckets
      ensures multiset(buckets[c.location])[c] == multiset(clues)[c]
    {
      CountAtLocation(clues, c);
    }
    forall l, i | l in buckets && 0 <= i < |buckets[l]| ensures buckets[l][i].location == l {
      AtLocationMembers(clues, l);
      assert buckets[l][i] in AtLocation(clues, l);
    }
  }

  /** Once as many clues are placed as there are, all of them are placed. */
  lemma AccountedAll(arrangement: seq<Clue>, buckets: map<string, seq<Clue>>, clues: seq<Clue>)
    requires Accounted(arrangement, buckets, clues) && |arrangement| >= |clues|
    ensures multiset(arrangement) == multiset(clues)
  {
    forall c ensures multiset(arrangement)[c] <= multiset(clues)[c] {
    }
    SubMultisetFull(multiset(arrangement), multiset(clues));
  }

  lemma PlaceKeepsBalance(arrangement: seq<Clue>, buckets: map<string, seq<Clue>>, clues: seq<Clue>, location: string)
    requires Balanced(arrangement, buckets, clues)
    requires location in buckets && buckets[location] != []
    requires buckets[location][|buckets[location]| - 1].location == location
    ensures var list := buckets[location];
      Balanced(arrangement + [list[|list| - 1]], buckets[location := list[..|list| - 1]], clues)
  {
    var list := buckets[location];
    var clue := list[|list| - 1];
    assert multiset(list) == multiset(list[..|list| - 1]) + multiset{clue} by {
      assert list == list[..|list| - 1] + [clue];
    }
  }

  lemma PlaceKeepsBucketsAtKey(buckets: map<string, seq<Clue>>, location: string)
    requires BucketsAtKey(buckets)
    requires location in buckets && buckets[location] != []
    ensures var list := buckets[location];
      BucketsAtKey(buckets[location := list[..|list| - 1]])
  {
  }

  lemma PlaceKeepsPlacedFrom(arrangement: seq<Clue>, buckets: map<string, seq<Clue>>, location: string)
    requires PlacedFrom(arrangement, buckets) && BucketsAtKey(buckets)
    requires location in buckets && buckets[location] != []
    ensures var list := buckets[location];
      PlacedFrom(arrangement + [list[|list| - 1]], buckets[location := list[..|list| - 1]])
  {
  }

  /** Placing the last clue of a bucket keeps the account. */
  lemma PlaceKeepsAccount(arrangement: seq<Clue>, buckets: map<string, seq<Clue>>, clues: seq<Clue>, location: string)
    requires Accounted(arrangement, buckets, clues)
    requires location in buckets && buckets[location] != []
    ensures var list := buckets[location];
      Accounted(arrangement + [list[|list| - 1]], buckets[location := list[..|list| - 1]], clues)
  {
    PlaceKeepsBalance(arrangement, buckets, clues, location);
    PlaceKeepsBucketsAtKey(buckets, location);
    PlaceKeepsPlacedFrom(arrangement, buckets, location);
    var list := buckets[location];
    assert buckets[location := list[..|list| - 1]].Keys == buckets.Keys;
  }

  /** The location of the last clue placed, if any. */
  function LastLocation(s: seq<Clue>): (r: Option<string>)
    ensures r.None? <==> s == []
    ensures r.Some? ==> r.value == s[|s| - 1].location
  {
    if s == [] then None else Some(s[|s| - 1].location)
  }

  /** One step of a pass: the last clue of `location`'s bucket is popped,
      and placed unless its location is that of the last clue placed, in
      which case it is pushed back. */
  method PlaceFrom(location: string, arrangement: seq<Clue>, remaining: map<string, seq<Clue>>, ghost clues: seq<Clue>)
    returns (arrangement': seq<Clue>, remaining': map<string, seq<Clue>>)
    requires Accounted(arrangement, remaining, clues) && NoAdjacentRepeats(arrangement)
    requires location in remaining
    ensures Accounted(arrangement', remaining', clues) && NoAdjacentRepeats(arrangement')
    ensures |arrangement'| == |arrangement| ==> arrangement' == arrangement && remaining' == remaining
    ensures |arrangement'| == |arrangement| + 1 <==>
      remaining[location] != [] && LastLocation(arrangement) != Some(location)
    ensures remaining[location] != [] && LastLocation(arrangement) != Some(location) ==>
      arrangement' == arrangement + [remaining[location][|remaining[location]| - 1]]
    ensures |arrangement| <= |arrangement'| <= |arrangement| + 1
  {
    arrangement', remaining' := arrangement, remaining;
    var list := remaining[location];
    if list != [] {
      var clue := list[|list| - 1];
      var popped := list[..|list| - 1];
      if LastLocation(arrangement) == Some(location) {
        // pushed back onto the bucket it was popped from
        assert popped + [clue] == list;
        assert remaining[location := popped + [clue]] == remaining;
        remaining' := remaining[location := popped + [clue]];
      } else {
        PlaceKeepsAccount(arrangement, remaining, clues, location);
        assert clue.location == location;
        remaining' := remaining[location := popped];
        arrangement' := arrangement + [clue];
      }
    }
  }

  /** One pass of `create_arrangement` over the shuffled locations. A
      location that still holds clues and differs from the last location
      before the pass guarantees that the pass places a clue. */
  method PlacePass(locations: array<string>, arrangement: seq<Clue>, remaining: map<string, seq<Clue>>, ghost clues: seq<Clue>)
    returns (arrangement': seq<Clue>, remaining': map<string, seq<Clue>>)
    requires Accounted(arrangement, remaining, clues) && NoAdjacentRepeats(arrangement)
    requires forall l :: l in locations[..] ==> l in remaining
    ensures Accounted(arrangement', remaining', clues) && NoAdjacentRepeats(arrangement')
    ensures |arrangement'| >= |arrangement|
    ensures forall l :: l in locations[..] && remaining[l] != [] && LastLocation(arrangement) != Some(l) ==>
      |arrangement'| > |arrangement|
  {
    arrangement', remaining' := arrangement, remaining;
    for j := 0 to locations.Length
      invariant Accounted(arrangement', remaining', clues)
      invariant NoAdjacentRepeats(arrangement')
      invariant |arrangement'| >= |arrangement|
      invariant |arrangement'| == |arrangement| ==> arrangement' == arrangement && remaining' == remaining
      invariant forall l :: l in locations[..j] && remaining[l] != [] && LastLocation(arrangement) != Some(l) ==>
        |arrangement'| > |arrangement|
    {
      var location := locations[j];
      assert location in locations[..];
      arrangement', remaining' := PlaceFrom(location, arrangement', remaining', clues);
      assert locations[..j + 1] == locations[..j] + [location];
    }
    assert locations[..locations.Length] == locations[..];
  }

  /** One attempt of `create_arrangement` (one turn of its `'outer` loop):
      `None` where the source starts over. */
  method ArrangeOnce(buckets: map<string, seq<Clue>>, ghost clues: seq<Clue>, nClues: nat, rng: Rng)
    returns (r: Option<seq<Clue>>)
    requires Grouped(buckets, clues) && nClues == |clues|
    modifies rng
    ensures r.Some? ==> multiset(r.value) == multiset(clues) && NoAdjacentRepeats(r.value)
  {
    var keys := KeysOf(buckets);
    var locations := new string[|keys|](i requires 0 <= i < |keys| => keys[i]);
    assert locations[..] == keys;
    var remaining := buckets;
    var arrangement: seq<Clue> := [];
    GroupedIsAccounted(buckets, clues);
    while |arrangement| < nClues
      invariant Accounted(arrangement, remaining, clues)
      invariant forall l :: l in locations[..] <==> l in remaining
      invariant NoAdjacentRepeats(arrangement)
      decreases nClues - |arrangement|
    {
      if RemainingLocations(remaining, LastLocation(arrangement)) == 0 {
        return None;
      }
      ghost var target :| target in remaining && remaining[target] != [] && LastLocation(arrangement) != Some(target);
      ghost var unshuffled := locations[..];
      rng.Shuffle(locations);
      assert target in locations[..] by {
        assert target in multiset(unshuffled);
      }
      forall l ensures l in locations[..] <==> l in remaining {
        assert l in locations[..] <==> l in multiset(locations[..]);
        assert l in unshuffled <==> l in multiset(unshuffled);
      }
      arrangement, remaining := PlacePass(locations, arrangement, remaining, clues);
    }
    AccountedAll(arrangement, remaining, clues);
    return Some(arrangement);
  }

  /** `create_arrangement`: an order of all the clues in which no location
      comes twice in a row, or an error after `MAX_ATTEMPTS` failed attempts. */
  method CreateArrangement(buckets: map<string, seq<Clue>>, ghost clues: seq<Clue>, nClues: nat, rng: Rng)
    returns (r: Result<seq<Clue>, ArrangementError>)
    requires Grouped(buckets, clues) && nClues == |clues|
    modifies rng
    ensures r.Ok? ==> multiset(r.value) == multiset(clues) && NoAdjacentRepeats(r.value)
    ensures r.Err? ==> r.error == BaseArrangementFailed
  {
    var attempts := 0;
    while attempts < MAX_ATTEMPTS
      decreases MAX_ATTEMPTS - attempts
    {
      var attempt := ArrangeOnce(buckets, clues, nClues, rng);
      if attempt.Some? {
        return Ok(attempt.value);
      }
      attempts := attempts + 1;
    }
    return Err(BaseArrangementFailed);
  }

  /** `fill_vec`: `size` copies of what the filler makes. */
  method FillVec<T>(size: nat, value: T) returns (r: seq<T>)
    ensures |r| == size
    ensures forall i :: 0 <= i < size ==> r[i] == value
  {
    r := [];
    for i := 0 to size
      invariant |r| == i
      invariant forall k :: 0 <= k < i ==> r[k] == value
    {
      r := r + [value];
    }
  }

  /** A clue that cannot come next in an arrangement: its location is
      already taken at this step, or is where the arrangement just was. */
  predicate Blocked(c: Clue, used: set<string>, previous: Option<string>): (b: bool)
    ensures !b ==> forall l :: l in used ==> c.location != l
    ensures !b && previous.Some? ==> c.location != previous.value
    ensures used == {} && previous.None? ==> !b
  {
    c.location in used || previous == Some(c.location)
  }

  /** The position of the first clue of `q` that is not blocked, or `|q|`. */
  function FirstFitting(q: seq<Clue>, used: set<string>, previous: Option<string>): (k: nat)
    ensures k <= |q|
    ensures forall j :: 0 <= j < k ==> Blocked(q[j], used, previous)
    ensures k < |q| ==> !Blocked(q[k], used, previous)
  {
    if q == [] then 0
    else if !Blocked(q[0], used, previous) then 0
    else 1 + FirstFitting(q[1..], used, previous)
  }

  /** Moving the front of the rotated queue `q[j + 1..] + q[..j]`, that is
      `q[j]`, to its back gives the queue rotated once more. */
  lemma RotateOnce(q: seq<Clue>, j: nat)
    requires j + 1 < |q|
    ensures var rotated := q[j + 1..] + q[..j] + [q[j]];
      rotated[0] == q[j + 1] && rotated[1..] == q[j + 2..] + q[..j + 1]
  {
    assert q[..j + 1] == q[..j] + [q[j]];
    assert q[j + 1..] == [q[j + 1]] + q[j + 2..];
  }

  /** Taking `q[k]` out of the rotated queue leaves the other clues. */
  lemma RotationKeepsClues(q: seq<Clue>, k: nat)
    requires k < |q|
    ensures multiset(q[k + 1..] + q[..k]) + multiset{q[k]} == multiset(q)
  {
    assert q == q[..k] + [q[k]] + q[k + 1..];
  }

  /** One arrangement's turn at a step of `Arrangements::new`: `None` when
      every clue in its queue is blocked (the source then starts over);
      otherwise the queue is rotated (`pop_front`, `push_back`) until its
      front clue fits, and that clue is taken. */
  method TakeFirstFitting(q: seq<Clue>, used: set<string>, previous: Option<string>)
    returns (r: Option<(Clue, seq<Clue>)>)
    ensures r.None? <==> forall c :: c in q ==> Blocked(c, used, previous)
    ensures r.Some? ==> var k := FirstFitting(q, used, previous);
      k < |q| && r.value.0 == q[k] && r.value.1 == q[k + 1..] + q[..k]
    ensures r.Some? ==> !Blocked(r.value.0, used, previous)
    ensures r.Some? ==> multiset(r.value.1) + multiset{r.value.0} == multiset(q)
  {
    if forall c :: c in q ==> Blocked(c, used, previous) {
      return None;
    }
    ghost var k := FirstFitting(q, used, previous);
    assert k < |q| by {
      var c :| c in q && !Blocked(c, used, previous);
      var i :| 0 <= i < |q| && q[i] == c;
    }
    ghost var j := 0;
    var clue := q[0];
    var rest := q[1..];
    assert q[..0] == [];
    while Blocked(clue, used, previous)
      invariant 0 <= j <= k
      invariant clue == q[j] && rest == q[j + 1..] + q[..j]
      decreases k - j
    {
      RotateOnce(q, j);
      rest := rest + [clue];
      j := j + 1;
      clue := rest[0];
      rest := rest[1..];
    }
    RotationKeepsClues(q, k);
    return Some((clue, rest));
  }

  /** One step (one position) of `Arrangements::new`: arrangement 0 takes the
      front of its queue; every other arrangement takes the first clue of its
      queue whose location is neither taken at this step nor the location it
      just visited. `None` when some arrangement finds none. The result holds
      the clue each arrangement takes and the queues afterwards. */
  method NextColumn(arrangements: seq<seq<Clue>>, queues: seq<seq<Clue>>)
    returns (r: Option<(seq<Clue>, seq<seq<Clue>>)>)
    requires |arrangements| == |queues| >= 1 && |queues[0]| >= 1
    ensures r.Some? ==> |r.value.0| == |queues| && |r.value.1| == |queues|
    ensures r.Some? ==> r.value.0[0] == queues[0][0] && r.value.1[0] == queues[0][1..]
    ensures r.Some? ==> forall i :: 0 <= i < |queues| ==>
      multiset(r.value.1[i]) + multiset{r.value.0[i]} == multiset(queues[i])
    ensures r.Some? ==> forall i :: 1 <= i < |queues| ==>
      LastLocation(arrangements[i]) != Some(r.value.0[i].location)
    ensures r.Some? ==> forall i, j :: 0 <= i < j < |queues| ==> r.value.0[i].location != r.value.0[j].location
  {
    var used: set<string> := {};
    var first := queues[0][0];
    var rest := queues[0 := queues[0][1..]];
    assert queues[0] == [first] + queues[0][1..];
    used := used + {first.location};
    var picks := [first];
    for i := 1 to |queues|
      invariant |picks| == i && |rest| == |queues|
      invariant picks[0] == queues[0][0] && rest[0] == queues[0][1..]
      invariant forall k :: i <= k < |queues| ==> rest[k] == queues[k]
      invariant forall k :: 0 <= k < i ==> multiset(rest[k]) + multiset{picks[k]} == multiset(queues[k])
      invariant forall k :: 1 <= k < i ==> LastLocation(arrangements[k]) != Some(picks[k].location)
      invariant forall k :: 0 <= k < i ==> picks[k].location in used
      invariant forall k, m :: 0 <= k < m < i ==> picks[k].location != picks[m].location
    {
      var taken := TakeFirstFitting(rest[i], used, LastLocation(arrangements[i]));
      if taken.None? {
        return None;
      }
      var clue := taken.value.0;
      used := used + {clue.location};
      picks := picks + [clue];
      rest := rest[i := taken.value.1];
    }
    return Some((picks, rest));
  }

  /** Each arrangement extended by the clue it takes at this step. */
  function Extend(arrangements: seq<seq<Clue>>, picks: seq<Clue>): (r: seq<seq<Clue>>)
    requires |picks| == |arrangements|
    ensures |r| == |arrangements|
    ensures forall i :: 0 <= i < |r| ==> r[i] == arrangements[i] + [picks[i]]
  {
    seq(|arrangements|, i requires 0 <= i < |arrangements| => arrangements[i] + [picks[i]])
  }

  /** The state after `p` steps of filling arrangements from `queues`. */
  ghost predicate Filled(arrangements: seq<seq<Clue>>, rest: seq<seq<Clue>>, queues: seq<seq<Clue>>, p: nat) {
    && |arrangements| == |rest| == |queues| >= 1
    && p <= |queues[0]|
    && (forall i :: 0 <= i < |queues| ==> |arrangements[i]| == p && |rest[i]| + p == |queues[0]|)
    && arrangements[0] == queues[0][..p] && rest[0] == queues[0][p..]
    && (forall i :: 0 <= i < |queues| ==> multiset(arrangements[i]) + multiset(rest[i]) == multiset(queues[i]))
    && (forall i :: 1 <= i < |queues| ==> NoAdjacentRepeats(arrangements[i]))
    && ColumnsDistinct(arrangements)
  }

  /** A step whose column has distinct locations keeps the columns distinct. */
  lemma ExtendKeepsColumnsDistinct(arrangements: seq<seq<Clue>>, picks: seq<Clue>, p: nat)
    requires |picks| == |arrangements| && ColumnsDistinct(arrangements)
    requires forall i :: 0 <= i < |arrangements| ==> |arrangements[i]| == p
    requires forall i, j :: 0 <= i < j < |picks| ==> picks[i].location != picks[j].location
    ensures ColumnsDistinct(Extend(arrangements, picks))
  {
    var extended: seq<seq<Clue>> := Extend(arrangements, picks);
    forall q: int, i: int, j: int | 0 <= i < j < |extended| && 0 <= q < |extended[i]| && q < |extended[j]|
      ensures extended[i][q].location != extended[j][q].location
    {
      if q < p {
        assert extended[i][q] == arrangements[i][q] && extended[j][q] == arrangements[j][q];
      }
    }
  }

  /** One step as `NextColumn` makes it keeps the state. */
  lemma ColumnKeepsFilled(arrangements: seq<seq<Clue>>, rest: seq<seq<Clue>>, queues: seq<seq<Clue>>, p: nat,
                          picks: seq<Clue>, rest': seq<seq<Clue>>)
    requires Filled(arrangements, rest, queues, p) && p < |queues[0]|
    requires |picks| == |rest| && |rest'| == |rest|
    requires picks[0] == rest[0][0] && rest'[0] == rest[0][1..]
    requires forall i :: 0 <= i < |rest| ==> multiset(rest'[i]) + multiset{picks[i]} == multiset(rest[i])
    requires forall i :: 1 <= i < |rest| ==> LastLocation(arrangements[i]) != Some(picks[i].location)
    requires forall i, j :: 0 <= i < j < |rest| ==> picks[i].location != picks[j].location
    ensures Filled(Extend(arrangements, picks), rest', queues, p + 1)
  {
    var extended := Extend(arrangements, picks);
    ExtendKeepsColumnsDistinct(arrangements, picks, p);
    forall i | 0 <= i < |queues|
      ensures multiset(extended[i]) + multiset(rest'[i]) == multiset(queues[i])
      ensures |rest'[i]| + p + 1 == |queues[0]|
    {
      assert multiset(extended[i]) == multiset(arrangements[i]) + multiset{picks[i]};
      assert |multiset(rest'[i])| + 1 == |multiset(rest[i])|;
    }
    forall i | 1 <= i < |queues| ensures NoAdjacentRepeats(extended[i]) {
      assert extended[i] == arrangements[i] + [picks[i]];
    }
    assert queues[0][..p + 1] == queues[0][..p] + [queues[0][p]];
    assert queues[0][p..] == [queues[0][p]] + queues[0][p + 1..];
  }

  /** The body of the `'outer` loop of `Arrangements::new`: fill one
      arrangement per queue, step by step. Arrangement 0 is its queue as it
      is; each arrangement is a reordering of its queue; arrangements other
      than the first never repeat a location twice in a row; and at every
      step the arrangements are at pairwise distinct locations. */
  method ArrangeFromQueues(queues: seq<seq<Clue>>) returns (r: Option<seq<seq<Clue>>>)
    requires |queues| >= 1
    requires forall i :: 0 <= i < |queues| ==> |queues[i]| == |queues[0]|
    ensures r.Some? ==> |r.value| == |queues| && r.value[0] == queues[0]
    ensures r.Some? ==> forall i :: 0 <= i < |queues| ==> multiset(r.value[i]) == multiset(queues[i])
    ensures r.Some? ==> forall i :: 1 <= i < |queues| ==> NoAdjacentRepeats(r.value[i])
    ensures r.Some? ==> ColumnsDistinct(r.value)
  {
    var n := |queues[0]|;
    var arrangements := FillVec(|queues|, []);
    var rest := queues;
    assert queues[0][..0] == [] && queues[0][0..] == queues[0];
    for p := 0 to n
      invariant Filled(arrangements, rest, queues, p)
    {
      var column := NextColumn(arrangements, rest);
      if column.None? {
        return None;
      }
      ColumnKeepsFilled(arrangements, rest, queues, p, column.value.0, column.value.1);
      arrangements := Extend(arrangements, column.value.0);
      rest := column.value.1;
    }
    assert queues[0][..n] == queues[0];
    forall i | 0 <= i < |queues| ensures multiset(arrangements[i]) == multiset(queues[i]) {
      assert rest[i] == [];
    }
    return Some(arrangements);
  }

  /** `Arrangements::new`: a base arrangement from `create_arrangement`, then
      three more built from shuffled copies of it, retried up to
      `MAX_ATTEMPTS` times. Every arrangement is a reordering of the whole
      clue list without a location twice in a row, and at every step the four
      send their teams to four different locations. */
  method NewArrangements(clues: seq<Clue>, rng: Rng) returns (r: Result<seq<seq<Clue>>, ArrangementError>)
    modifies rng
    ensures r.Ok? ==> |r.value| == N_ARRANGEMENTS
    ensures r.Ok? ==> forall i :: 0 <= i < N_ARRANGEMENTS ==>
      multiset(r.value[i]) == multiset(clues) && NoAdjacentRepeats(r.value[i])
    ensures r.Ok? ==> ColumnsDistinct(r.value)
  {
    var buckets := GroupByLocation(clues);
    var created := CreateArrangement(buckets, clues, |clues|, rng);
    if created.Err? {
      return Err(created.error);
    }
    var base := created.value;
    var attempts := 0;
    while attempts < MAX_ATTEMPTS
      decreases MAX_ATTEMPTS - attempts
    {
      var queues := [base];
      for k := 1 to N_ARRANGEMENTS
        invariant |queues| == k && queues[0] == base
        invariant forall i :: 0 <= i < k ==> multiset(queues[i]) == multiset(base) && |queues[i]| == |base|
      {
        var q := rng.ShuffleSeq(base);
        queues := queues + [q];
      }
      var arranged := ArrangeFromQueues(queues);
      if arranged.Some? {
        return Ok(arranged.value);
      }
      attempts := attempts + 1;
    }
    return Err(OtherArrangementsFailed);
  }

  /** `Arrangements::iterator`: the arrangements built up front, then
      endless reshuffles of the first one. */
  class ArrangementStream {
    /** Arrangements not handed out yet. */
    var pending: seq<seq<Clue>>
    /** A copy of the first arrangement, reshuffled in place for every
        later pull. */
    const tail: array<Clue>
    const rng: Rng
    /** The clues every arrangement consists of. */
    ghost const catalog: multiset<Clue>

    ghost predicate Valid()
      reads this, tail
    {
      && multiset(tail[..]) == catalog
      && forall i :: 0 <= i < |pending| ==> multiset(pending[i]) == catalog
    }

    constructor (arrangements: seq<seq<Clue>>, rng: Rng)
      requires |arrangements| >= 1
      requires forall i :: 0 <= i < |arrangements| ==> multiset(arrangements[i]) == multiset(arrangements[0])
      ensures Valid() && fresh(tail)
      ensures pending == arrangements && tail[..] == arrangements[0] && this.rng == rng
      ensures catalog == multiset(arrangements[0])
    {
      var first := arrangements[0];
      pending := arrangements;
      tail := new Clue[|first|](i requires 0 <= i < |first| => first[i]);
      this.rng := rng;
      catalog := multiset(arrangements[0]);
      new;
      assert tail[..] == first;
    }

    /** The next arrangement: the next one built up front, or else a fresh
        shuffle of the first. Either way, a reordering of the clue list. */
    method Next() returns (arrangement: seq<Clue>)
      requires Valid()
      modifies this, tail, rng
      ensures Valid()
      ensures multiset(arrangement) == catalog
      ensures old(pending) != [] ==>
        arrangement == old(pending)[0] && pending == old(pending)[1..] && tail[..] == old(tail[..])
      ensures old(pending) == [] ==> pending == [] && arrangement == tail[..]
    {
      if pending != [] {
        arrangement := pending[0];
        pending := pending[1..];
      } else {
        rng.Shuffle(tail);
        arrangement := tail[..];
      }
    }
  }
}
