/** The structural conversions between a session and its serializable form.
    Monotonic times (`Instant`) are stored as wall-clock times (`SystemTime`);
    both clocks are read once per conversion and passed in as `Clocks`. */
module Serialization {
  import opened Common
  import Statuses
  import opened Clues
  import opened SessionIds
  import Sessions

  datatype SerializableKnowledgeKind = Unaided | WithHint | KnowingItem

  /** Like `Status`, with wall-clock times in milliseconds since the Unix
      epoch (negative before it). */
  datatype SerializableStatus =
    | Unread
    | Seen(kind: SerializableKnowledgeKind, time: int)
    | Skipped(kind: SerializableKnowledgeKind, time: int)
    | Solved(kind: SerializableKnowledgeKind, duration: nat)
    | Declined

  datatype SerializableClue = SerializableClue(
    poem: string, hint: string, item: string, location: string, code: Code)

  datatype SerializableSession = SerializableSession(
    id: string, clues: seq<(SerializableClue, SerializableStatus)>, negativePoints: int)

  /** Readings of the monotonic clock and of the wall clock, taken together. */
  datatype Clocks = Clocks(mono: nat, wall: int)

  /** An instant as a wall-clock time: the wall clock now, minus the time
      elapsed since the instant. */
  function ToWallTime(t: nat, c: Clocks): (w: int)
    ensures t <= c.mono ==> w == c.wall - (c.mono - t)
    ensures t >= c.mono ==> w == c.wall
  {
    c.wall - Elapsed(t, c.mono)
  }

  /** A wall-clock time as an instant. Fails, where the source panics, for a
      time in the future ("Clues are in the past") and for an instant before
      the start of the monotonic clock ("Clue times must be representable"). */
  function ToMonoTime(w: int, c: Clocks): (r: Option<nat>)
    ensures r.Some? <==> w <= c.wall && c.wall - w <= c.mono
    ensures r.Some? ==> r.value == c.mono - (c.wall - w)
  {
    if w > c.wall then None
    else
      var elapsed := c.wall - w;
      if elapsed <= c.mono then Some(c.mono - elapsed) else None
  }

  /** An instant in the past survives the trip through wall-clock time when
      the two clocks have not drifted apart between the two conversions. */
  lemma TimeRoundTrip(t: nat, c1: Clocks, c2: Clocks)
    requires t <= c1.mono <= c2.mono
    requires c2.wall - c2.mono == c1.wall - c1.mono
    ensures ToMonoTime(ToWallTime(t, c1), c2) == Some(t)
  {
  }

  /** With the same clock readings, a wall-clock time that converts comes
      back unchanged. */
  lemma WallTimeRoundTrip(w: int, c: Clocks)
    requires ToMonoTime(w, c).Some?
    ensures ToWallTime(ToMonoTime(w, c).value, c) == w
  {
  }

  function KindToSerializable(k: Statuses.KnowledgeKind): (r: SerializableKnowledgeKind)
    ensures k.Unaided? <==> r.Unaided?
    ensures k.WithHint? <==> r.WithHint?
    ensures k.KnowingItem? <==> r.KnowingItem?
  {
    match k
    case Unaided => Unaided
    case WithHint => WithHint
    case KnowingItem => KnowingItem
  }

  function KindFromSerializable(k: SerializableKnowledgeKind): (r: Statuses.KnowledgeKind)
    ensures k.Unaided? <==> r.Unaided?
    ensures k.WithHint? <==> r.WithHint?
    ensures k.KnowingItem? <==> r.KnowingItem?
  {
    match k
    case Unaided => Statuses.Unaided
    case WithHint => Statuses.WithHint
    case KnowingItem => Statuses.KnowingItem
  }

  lemma KindRoundTrips(k: Statuses.KnowledgeKind, s: SerializableKnowledgeKind)
    ensures KindFromSerializable(KindToSerializable(k)) == k
    ensures KindToSerializable(KindFromSerializable(s)) == s
  {
  }

  /** `From<&Status> for SerializableStatus`: the same variant and knowledge,
      the same duration, and times moved to the wall clock. */
  function StatusToSerializable(s: Statuses.Status, c: Clocks): (r: SerializableStatus)
    ensures s.Unread? <==> r.Unread?
    ensures s.Seen? <==> r.Seen?
    ensures s.Skipped? <==> r.Skipped?
    ensures s.Solved? <==> r.Solved?
    ensures s.Declined? <==> r.Declined?
    ensures (s.Seen? || s.Skipped? || s.Solved?) ==> r.kind == KindToSerializable(s.kind)
    ensures (s.Seen? || s.Skipped?) ==> r.time == ToWallTime(s.time, c)
    ensures s.Solved? ==> r.duration == s.duration
  {
    match s
    case Unread => Unread
    case Seen(k, t) => Seen(KindToSerializable(k), ToWallTime(t, c))
    case Skipped(k, t) => Skipped(KindToSerializable(k), ToWallTime(t, c))
    case Solved(k, d) => Solved(KindToSerializable(k), d)
    case Declined => Declined
  }

  /** `From<SerializableStatus> for Status`: fails only when a stored time
      cannot be turned back into an instant. */
  function StatusFromSerializable(s: SerializableStatus, c: Clocks): (r: Option<Statuses.Status>)
    ensures r.None? <==> (s.Seen? || s.Skipped?) && ToMonoTime(s.time, c).None?
    ensures r.Some? ==> var v := r.value;
      && (s.Unread? <==> v.Unread?) && (s.Seen? <==> v.Seen?) && (s.Skipped? <==> v.Skipped?)
      && (s.Solved? <==> v.Solved?) && (s.Declined? <==> v.Declined?)
    ensures r.Some? && (s.Seen? || s.Skipped? || s.Solved?) ==> r.value.kind == KindFromSerializable(s.kind)
    ensures r.Some? && (s.Seen? || s.Skipped?) ==> Some(r.value.time) == ToMonoTime(s.time, c)
    ensures r.Some? && s.Solved? ==> r.value.duration == s.duration
  {
    match s
    case Unread => Some(Statuses.Unread)
    case Seen(k, w) =>
      (match ToMonoTime(w, c)
       case None => None
       case Some(t) => Some(Statuses.Seen(KindFromSerializable(k), t)))
    case Skipped(k, w) =>
      (match ToMonoTime(w, c)
       case None => None
       case Some(t) => Some(Statuses.Skipped(KindFromSerializable(k), t)))
    case Solved(k, d) => Some(Statuses.Solved(KindFromSerializable(k), d))
    case Declined => Some(Statuses.Declined)
  }

  /** An instant that lies in the past when the status is serialised. */
  predicate TimeInPast(s: Statuses.Status, mono: nat) {
    (s.Seen? || s.Skipped?) ==> s.time <= mono
  }

  lemma StatusRoundTrip(s: Statuses.Status, c1: Clocks, c2: Clocks)
    requires TimeInPast(s, c1.mono) && c1.mono <= c2.mono
    requires c2.wall - c2.mono == c1.wall - c1.mono
    ensures StatusFromSerializable(StatusToSerializable(s, c1), c2) == Some(s)
  {
    KindRoundTrips(if s.Unread? || s.Declined? then Statuses.Unaided else s.kind, Unaided);
    if s.Seen? || s.Skipped? {
      TimeRoundTrip(s.time, c1, c2);
    }
  }

  function ClueToSerializable(clue: Clue): (r: SerializableClue)
    ensures r.poem == clue.poem && r.hint == clue.hint && r.item == clue.item
    ensures r.location == clue.location && r.code == clue.code
  {
    SerializableClue(clue.poem, clue.hint, clue.item, clue.location, clue.code)
  }

  function ClueFromSerializable(clue: SerializableClue): (r: Clue)
    ensures r.poem == clue.poem && r.hint == clue.hint && r.item == clue.item
    ensures r.location == clue.location && r.code == clue.code
  {
    Clue(clue.poem, clue.hint, clue.item, clue.location, clue.code)
  }

  lemma ClueRoundTrips(clue: Clue, s: SerializableClue)
    ensures ClueFromSerializable(ClueToSerializable(clue)) == clue
    ensures ClueToSerializable(ClueFromSerializable(s)) == s
  {
  }

  function EntriesToSerializable(entries: seq<Sessions.Entry>, c: Clocks): (r: seq<(SerializableClue, SerializableStatus)>)
    ensures |r| == |entries|
    ensures forall i :: 0 <= i < |entries| ==>
      r[i] == (ClueToSerializable(entries[i].0), StatusToSerializable(entries[i].1, c))
  {
    if entries == [] then []
    else
      var head := (ClueToSerializable(entries[0].0), StatusToSerializable(entries[0].1, c));
      [head] + EntriesToSerializable(entries[1..], c)
  }

  /** The clue list back: fails as soon as one status fails, and otherwise
      keeps length and order. */
  function EntriesFromSerializable(list: seq<(SerializableClue, SerializableStatus)>, c: Clocks): (r: Option<seq<Sessions.Entry>>)
    ensures r.None? <==> exists i :: 0 <= i < |list| && StatusFromSerializable(list[i].1, c).None?
    ensures r.Some? ==> |r.value| == |list|
    ensures r.Some? ==> forall i :: 0 <= i < |list| ==>
      r.value[i] == (ClueFromSerializable(list[i].0), StatusFromSerializable(list[i].1, c).value)
  {
    if list == [] then Some([])
    else
      match StatusFromSerializable(list[0].1, c)
      case None => None
      case Some(s) =>
        match EntriesFromSerializable(list[1..], c)
        case None =>
          assert exists i :: 0 <= i < |list| && StatusFromSerializable(list[i].1, c).None? by {
            var k :| 0 <= k < |list[1..]| && StatusFromSerializable(list[1..][k].1, c).None?;
            assert StatusFromSerializable(list[k + 1].1, c).None?;
          }
          None
        case Some(rest) => Some([(ClueFromSerializable(list[0].0), s)] + rest)
  }

  /** `From<&Session> for SerializableSession`: the id as text, every entry
      converted in order, the penalty pool copied. `to_string` panics when the
      id does not print; that is the failure here. */
  function SessionToSerializable(v: Sessions.SessionValue, c: Clocks): (r: Option<SerializableSession>)
    ensures r.Some? <==> Display(v.id).Some?
    ensures r.Some? ==> r.value.id == Display(v.id).value
    ensures r.Some? ==> r.value.clues == EntriesToSerializable(v.clues, c)
    ensures r.Some? ==> r.value.negativePoints == v.negativePoints
  {
    match Display(v.id)
    case None => None
    case Some(text) => Some(SerializableSession(text, EntriesToSerializable(v.clues, c), v.negativePoints))
  }

  /** `From<SerializableSession> for Session`: fails, where the source panics,
      on an invalid session id or on a time that cannot be restored. */
  function SessionFromSerializable(s: SerializableSession, c: Clocks): (r: Option<Sessions.SessionValue>)
    ensures New(s.id, SESSION_ID_LEN).None? ==> r.None?
    ensures r.Some? <==> New(s.id, SESSION_ID_LEN).Some? && EntriesFromSerializable(s.clues, c).Some?
    ensures r.Some? ==> r.value.id == New(s.id, SESSION_ID_LEN).value
    ensures r.Some? ==> r.value.clues == EntriesFromSerializable(s.clues, c).value
    ensures r.Some? ==> r.value.negativePoints == s.negativePoints
  {
    match New(s.id, SESSION_ID_LEN)
    case None => None
    case Some(id) =>
      match EntriesFromSerializable(s.clues, c)
      case None => None
      case Some(entries) => Some(Sessions.SessionValue(id, entries, s.negativePoints))
  }

  /** A session whose times all lie in the past comes back equal from its
      serialised form, provided the clocks have not drifted apart. */
  lemma SessionRoundTrip(v: Sessions.SessionValue, c1: Clocks, c2: Clocks)
    requires WellFormed(v.id, SESSION_ID_LEN)
    requires forall i :: 0 <= i < |v.clues| ==> TimeInPast(v.clues[i].1, c1.mono)
    requires c1.mono <= c2.mono && c2.wall - c2.mono == c1.wall - c1.mono
    ensures SessionToSerializable(v, c1).Some?
    ensures SessionFromSerializable(SessionToSerializable(v, c1).value, c2) == Some(v)
  {
    DisplayRoundTrip(v.id, SESSION_ID_LEN);
    var list := EntriesToSerializable(v.clues, c1);
    forall i | 0 <= i < |list|
      ensures StatusFromSerializable(list[i].1, c2) == Some(v.clues[i].1)
    {
      StatusRoundTrip(v.clues[i].1, c1, c2);
    }
    var back := EntriesFromSerializable(list, c2);
    assert back.Some?;
    forall i | 0 <= i < |list| ensures back.value[i] == v.clues[i] {
      ClueRoundTrips(v.clues[i].0, list[i].0);
    }
    assert back.value == v.clues;
  }

  /** A new session (every clue unread, as `Session::new` builds it) comes
      back equal whatever the clocks read. */
  lemma FreshSessionRoundTrip(v: Sessions.SessionValue, c1: Clocks, c2: Clocks)
    requires WellFormed(v.id, SESSION_ID_LEN)
    requires forall i :: 0 <= i < |v.clues| ==> v.clues[i].1.Unread?
    ensures SessionToSerializable(v, c1).Some?
    ensures SessionFromSerializable(SessionToSerializable(v, c1).value, c2) == Some(v)
  {
    DisplayRoundTrip(v.id, SESSION_ID_LEN);
    var list := EntriesToSerializable(v.clues, c1);
    var back := EntriesFromSerializable(list, c2);
    assert back.Some?;
    forall i | 0 <= i < |list| ensures back.value[i] == v.clues[i] {
      ClueRoundTrips(v.clues[i].0, list[i].0);
    }
    assert back.value == v.clues;
  }
}
