/** The per-clue status machine (`Status`, the `CurrentClueStatus` handle)
    and the scoring of a solved clue. Times are milliseconds on a monotonic
    clock and durations are milliseconds. */
module Statuses {
  import opened Common

  /** How much a team knows about a clue; it only ever grows. */
  datatype KnowledgeKind = Unaided | WithHint | KnowingItem

  /** The amount of help behind each knowledge kind: 0, 1 or 2. */
  function HelpLevel(k: KnowledgeKind): (h: nat)
    ensures h <= 2
  {
    match k
    case Unaided => 0
    case WithHint => 1
    case KnowingItem => 2
  }

  /** `KnowledgeKind::score`: 100 points fewer for every level of help. */
  function KnowledgeScore(k: KnowledgeKind): (r: int)
    ensures r == 300 - 100 * HelpLevel(k)
    ensures 100 <= r <= 300
  {
    match k
    case Unaided => 300
    case WithHint => 200
    case KnowingItem => 100
  }

  lemma KnowledgeScoreDecreasesWithHelp(a: KnowledgeKind, b: KnowledgeKind)
    requires HelpLevel(a) < HelpLevel(b)
    ensures KnowledgeScore(a) > KnowledgeScore(b)
  {
  }

  /** A hint turns an unaided clue into a hinted one; nothing else changes. */
  function Hinted(k: KnowledgeKind): (r: KnowledgeKind)
    ensures k == Unaided ==> r == WithHint
    ensures k != Unaided ==> r == k
  {
    if k == Unaided then WithHint else k
  }

  /** Revealing the item only works after a hint. */
  function Revealed(k: KnowledgeKind): (r: KnowledgeKind)
    ensures k == WithHint ==> r == KnowingItem
    ensures k != WithHint ==> r == k
  {
    if k == WithHint then KnowingItem else k
  }

  /** Hints and reveals never reduce the help level, are idempotent, and a
      reveal before a hint does nothing. */
  lemma HelpOnlyGrows(k: KnowledgeKind)
    ensures HelpLevel(k) <= HelpLevel(Hinted(k)) <= HelpLevel(k) + 1
    ensures HelpLevel(k) <= HelpLevel(Revealed(k)) <= HelpLevel(k) + 1
    ensures Hinted(Hinted(k)) == Hinted(k) && Revealed(Revealed(k)) == Revealed(k)
    ensures Revealed(Unaided) == Unaided
    ensures Revealed(Hinted(Unaided)) == KnowingItem
  {
  }

  datatype Status =
    | Unread
    | Seen(kind: KnowledgeKind, time: nat)
    | Skipped(kind: KnowledgeKind, time: nat)
    | Solved(kind: KnowledgeKind, duration: nat)
    | Declined

  /** The statuses a current clue can have. */
  predicate IsCurrentShape(s: Status) {
    s.Seen? || s.Skipped?
  }

  /** `CurrentClueStatus`: a handle that exists only around a `Seen` or a
      `Skipped` status, so that no other status can be driven by it. */
  type CurrentStatus = s: Status | IsCurrentShape(s) witness Seen(Unaided, 0)

  /** `CurrentClueStatus::new`. */
  function NewCurrentStatus(s: Status): (r: Option<CurrentStatus>)
    ensures r.Some? <==> s.Seen? || s.Skipped?
    ensures r.Some? ==> r.value == s
  {
    if IsCurrentShape(s) then Some(s) else None
  }

  /** `CurrentClueStatus::solved`: the clue becomes solved with the same
      knowledge, after the time elapsed since it was first seen. */
  function SolveStatus(h: CurrentStatus, now: nat): (r: Status)
    ensures r.Solved? && r.kind == h.kind
    ensures h.time <= now ==> h.time + r.duration == now
    ensures now <= h.time ==> r.duration == 0
  {
    Solved(h.kind, Elapsed(h.time, now))
  }

  /** `CurrentClueStatus::skip`: a first skip keeps knowledge and time, a
      second skip gives the clue up for good. */
  function SkipStatus(h: CurrentStatus): (r: Status)
    ensures h.Seen? ==> r == Skipped(h.kind, h.time)
    ensures h.Skipped? ==> r == Declined
  {
    match h
    case Seen(k, t) => Skipped(k, t)
    case Skipped(_, _) => Declined
  }

  /** The handle's `hinted`: the same status with `Hinted` knowledge. */
  function HintStatus(h: CurrentStatus): (r: CurrentStatus)
    ensures r.Seen? == h.Seen? && r.time == h.time
    ensures r.kind == Hinted(h.kind)
  {
    if h.Seen? then Seen(Hinted(h.kind), h.time) else Skipped(Hinted(h.kind), h.time)
  }

  /** The handle's `revealed`: the same status with `Revealed` knowledge. */
  function RevealStatus(h: CurrentStatus): (r: CurrentStatus)
    ensures r.Seen? == h.Seen? && r.time == h.time
    ensures r.kind == Revealed(h.kind)
  {
    if h.Seen? then Seen(Revealed(h.kind), h.time) else Skipped(Revealed(h.kind), h.time)
  }

  /** The handle's `duration`: time spent on the clue since it was first seen. */
  function CurrentDuration(h: CurrentStatus, now: nat): (d: nat)
    ensures h.time <= now ==> h.time + d == now
  {
    Elapsed(h.time, now)
  }

  /** Skipping twice declines the clue, and a declined clue can no longer be
      the current one. */
  lemma SkipTwiceDeclines(k: KnowledgeKind, t: nat)
    ensures var once := SkipStatus(Seen(k, t));
            IsCurrentShape(once) && SkipStatus(once) == Declined
    ensures NewCurrentStatus(Declined).None?
  {
  }

  /** The floating-point decay `round(100 * 2^(-t / 600000))`, as a function
      of the millisecond count `t`; only its range [0, 100] is relied upon. */
  type BonusCurve = f: nat -> int | forall t: nat :: 0 <= f(t) <= 100 witness (t: nat) => 0

  /** `duration_bonus_score`: durations whose millisecond count does not fit
      an `i32` earn nothing, the others follow the decay curve. */
  function DurationBonusScore(d: nat, curve: BonusCurve): (r: int)
    ensures 0 <= r <= 100
    ensures d > I32_MAX ==> r == 0
    ensures d <= I32_MAX ==> r == curve(d)
  {
    if d > I32_MAX then 0 else curve(d)
  }

  /** `Status::score`: only a solved clue scores, with its knowledge score
      plus a speed bonus of at most 100. */
  function Score(s: Status, curve: BonusCurve): (r: int)
    ensures s.Solved? ==> KnowledgeScore(s.kind) <= r <= KnowledgeScore(s.kind) + 100
    ensures s.Solved? && s.duration > I32_MAX ==> r == KnowledgeScore(s.kind)
    ensures !s.Solved? ==> r == 0
    ensures 0 <= r <= 400
  {
    match s
    case Solved(k, d) => KnowledgeScore(k) + DurationBonusScore(d, curve)
    case _ => 0
  }

  /** With equal time taken, less help never scores less. */
  lemma SolvedScoreMonotone(a: KnowledgeKind, b: KnowledgeKind, d: nat, curve: BonusCurve)
    requires HelpLevel(a) <= HelpLevel(b)
    ensures Score(Solved(a, d), curve) >= Score(Solved(b, d), curve)
  {
  }
}
