# treasure-hunt, modelled in Dafny

treasure-hunt runs a clue-based treasure hunt for teams. Each team registers
under a name and receives a session. The session holds the full list of clues
in an order produced by the arrangement generator, each clue with a status.
The team works through the clues one at a time. It can ask for a hint, have
the item revealed, skip a clue (a second skip declines it for good), or submit
an answer. A right answer scores points for the current clue. An answer that
belongs to another clue costs 100 points. A leaderboard ranks the teams by
total score.

The model covers these parts:

- `common.dfy` (`Common`): `Option`/`Result`, bytes, `i32` saturating arithmetic, and the length of a text in bytes of UTF-8.
- `status.dfy` (`Statuses`): the per-clue `Status` machine, the `CurrentClueStatus` handle (a subset type of `Status`), and scoring.
- `clues.dfy` (`Clues`): clues, the mapping from on-disk clue definitions, the test mock with its hex and decimal text, and `ClueView`.
- `random.dfy` (`Random`): the random number generator as an injected stream of draws, plus a Fisher–Yates shuffle on an array.
- `session_id.dfy` (`SessionIds`): four-letter session ids; parsing, display and random generation.
- `session.dfy` (`Sessions`): the `Session` class with its scan for the current clue, solve/skip/hint/reveal, and the total score.
- `legacy_session.dfy` (`LegacySessions`): the older session type in `core/src/session.rs`.
- `serialization.dfy` (`Serialization`): conversions between a session and its serializable form, in both directions.
- `arrangement.dfy` (`Arrangement`): the base arrangement with no location twice in a row, the four arrangements with distinct locations at every step, and the stream of arrangements handed to new sessions.
- `team_name.dfy` (`TeamNames`): team-name validation, which trims white space and limits the name to 50 bytes of UTF-8.
- `state.dfy` (`ServerState`): the server's registry and the registration command.
- `leader_board.dfy` (`LeaderBoard`): leaderboard rows and their descending sort.

Conventions:

- Time is an explicit parameter `now`, in milliseconds on the monotonic clock. Durations are `nat` milliseconds.
- `answer_to_code` (SHA3-256) is a parameter `hash` and is never assumed injective.
- The floating-point decay of the speed bonus is a parameter `curve` with values in [0, 100].
- Randomness comes from an `Rng` object that hands out draws from an injected stream.
- The source panics in several places; the model returns an `Err` or `None` there instead.

## Model

| member | source | states |
|---|---|---|
| Common.Saturate | core/src/session/mod.rs:45-51 | the value an `i32` saturating operation yields: in range, exact when the result fits, clamped to `i32::MIN`/`i32::MAX` otherwise |
| Common.SaturatingAdd | core/src/session/mod.rs:49 | `saturating_add`: in range, exact when the sum fits, never below `a` for a non-negative addend |
| Common.SaturatingSub | core/src/session/mod.rs:88 | `saturating_sub`: in range, exact when the difference fits, never above `a` for a non-negative subtrahend |
| Common.Elapsed | core/src/clues/status.rs:41 | `Instant::elapsed`: `since + d == now` for a past instant, 0 for a future one |
| Statuses.KnowledgeScore | core/src/clues/status.rs:79-85 | 300, 200 and 100 points for Unaided, WithHint and KnowingItem: 300 minus 100 per level of help |
| Statuses.KnowledgeScoreDecreasesWithHelp | core/src/clues/status.rs:79-85 | more help means strictly fewer points |
| Statuses.Hinted | core/src/clues/mod.rs:99-103 | Unaided becomes WithHint; every other kind is kept |
| Statuses.Revealed | core/src/clues/mod.rs:105-109 | WithHint becomes KnowingItem; every other kind is kept, so Unaided is unchanged |
| Statuses.HelpOnlyGrows | core/src/clues/mod.rs:99-109 | hint and reveal raise help by at most one level and never lower it; both are idempotent; a reveal without a hint does nothing |
| Statuses.NewCurrentStatus | core/src/clues/status.rs:32-37 | a handle exists exactly for `Seen` and `Skipped` statuses, and it carries that status |
| Statuses.SolveStatus | core/src/clues/status.rs:39-44 | `solved`: becomes `Solved` with the same kind; the duration is the time elapsed since the status time |
| Statuses.SkipStatus | core/src/clues/status.rs:46-60 | `skip`: `Seen{k,t}` becomes `Skipped{k,t}` and `Skipped` becomes `Declined` |
| Statuses.HintStatus | core/src/session/mod.rs:104 | the handle's `hinted`: the same variant and time, with the kind hinted |
| Statuses.RevealStatus | core/src/session/mod.rs:110 | the handle's `revealed`: the same variant and time, with the kind revealed |
| Statuses.CurrentDuration | core/src/session/mod.rs:55 | the handle's `duration`: `time + d == now` for a past time |
| Statuses.SkipTwiceDeclines | core/src/clues/status.rs:46-60 | skipping a seen clue twice declines it, and a declined clue never has a handle again |
| Statuses.DurationBonusScore | core/src/clues/status.rs:106-118 | the bonus lies in [0, 100]; it is 0 when the duration in ms does not fit an `i32`; otherwise it is the decay curve's value |
| Statuses.Score | core/src/clues/status.rs:88-99 | a solved clue scores between its kind score and 100 more; any other status scores 0 |
| Statuses.SolvedScoreMonotone | core/src/clues/status.rs:88-99 | for the same duration, solving with less help never scores less |
| Clues.FromDefinition | core/src/clues/mod.rs:45-51 | poem, hint, item and location are copied; the code is the hash of the answer |
| Clues.FromDisk | core/src/clues/mod.rs:41-53 | the catalog keeps length and order, and maps every definition as above |
| Clues.HexEncode | core/src/clues/mod.rs:24 | `hex::encode`: two lower-case digits per byte, high nibble first |
| Clues.HexRoundTrip | core/src/clues/mod.rs:24 | decoding the hex text gives back the bytes |
| Clues.HexEncodeInjective | core/src/clues/mod.rs:24 | different codes give different hex texts |
| Clues.DecimalString | core/src/clues/mod.rs:23 | `u64::to_string`: decimal digits with no leading zero |
| Clues.DecimalRoundTrip | core/src/clues/mod.rs:23 | parsing the decimal text gives back the number |
| Clues.Mock | core/src/clues/mod.rs:22-34 | the code is the hash of the seed's decimal text; poem, hint and item are all the 64-digit hex of the code; the location is kept |
| Clues.MockAnswersDistinct | core/src/clues/mod.rs:55-73 | different seeds give different answer texts |
| Clues.HintedView | core/src/clues/mod.rs:99-103 | `ClueView::hinted`: Unaided becomes WithHint; nothing else changes, and the view is untouched otherwise |
| Clues.RevealedView | core/src/clues/mod.rs:105-109 | `ClueView::revealed`: WithHint becomes KnowingItem; nothing else changes, and the view is untouched otherwise |
| Clues.ViewUpdatesIdempotent | core/src/clues/mod.rs:99-109 | hinting or revealing twice is the same as once |
| Random.Rng.Below | core/src/session/id.rs:21 | a draw below the bound that consumes exactly one draw of the stream |
| Random.Rng.Shuffle | core/src/clues/arrangement.rs:98 | `shuffle` in place: the array ends as a permutation of its old contents |
| Random.Rng.ShuffleSeq | core/src/clues/arrangement.rs:45-47 | `clone` then `shuffle`: a permutation of the input |
| SessionIds.AsciiUpper | core/src/session/id.rs:13 | ASCII upper-casing: 'a'..'z' move down by 32; every other character is kept |
| SessionIds.ValidateCode | core/src/session/id.rs:26-28 | `validate_code`: accepts exactly the ASCII codes whose UTF-8 length is N; an accepted code has N characters, each fitting one byte, so the conversion to N bytes cannot fail |
| SessionIds.AsciiUtf8Len | core/src/session/id.rs:27 | an ASCII text has as many bytes of UTF-8 as characters |
| SessionIds.New | core/src/session/id.rs:7-15 | `Some` exactly for ASCII codes of length N; the bytes are the upper-cased code |
| SessionIds.NewCaseInsensitive | core/src/session/id.rs:13 | codes that differ only in ASCII case give equal ids |
| SessionIds.Display | core/src/session/id.rs:31-36 | succeeds when every byte is ASCII, and then shows exactly the id's bytes |
| SessionIds.DisplayRoundTrip | core/src/session/id.rs:7-36 | an id built by `new` or `random` displays, and `new` of its text gives it back |
| SessionIds.RandomId | core/src/session/id.rs:17-24 | N bytes, each in 'A'..='Z', so the id is well formed; it consumes N draws |
| Sessions.FirstOpen | core/src/session/mod.rs:118-130 | the first `Seen` or `Unread` entry, with none such before it |
| Sessions.FirstSkipped | core/src/session/mod.rs:131-133 | the first `Skipped` entry, with none before it |
| Sessions.CurrentIndex | core/src/session/mod.rs:114-141 | the scan's result: `None` exactly when every clue is solved or declined; otherwise the first open entry or, failing that, the first skipped one |
| Sessions.Resolved | core/src/session/mod.rs:123-129 | after the scan only an `Unread` current entry has changed, to `Seen{Unaided, now}`; clues and the current index are kept |
| Sessions.ResolveIdempotent | core/src/session/mod.rs:150-155 | scanning again at any later time changes nothing and finds the same clue |
| Sessions.FinishedStaysFinished | core/src/session/mod.rs:240-243 | with every clue solved or declined there is no current clue and the scan changes nothing |
| Sessions.OrderedShape | core/src/session/mod.rs:114-141 | in an ordered session at most one entry is `Seen` and every `Unread` entry comes after it |
| Sessions.OrderedSeenIsCurrent | core/src/session/mod.rs:118-122 | in an ordered session a `Seen` entry is the current one |
| Sessions.ResolvePreservesOrdered | core/src/session/mod.rs:123-129 | the scan keeps a session ordered |
| Sessions.SetCurrentPreservesOrdered | core/src/session/mod.rs:75-78 | replacing the current entry with a solved, skipped, hinted or revealed status keeps the session ordered |
| Sessions.MatchesAny | core/src/session/mod.rs:82-85 | true exactly when some clue in the list has the code |
| Sessions.SumScores | core/src/session/mod.rs:45-51 | the sum of the entries' scores is never negative |
| Sessions.Total | core/src/session/mod.rs:45-51 | the saturating fold stays in range, never drops below its start, is the exact sum when that fits, and is `i32::MAX` when it does not |
| Sessions.ViewOf | core/src/session/mod.rs:58-69 | the view carries the entry's clue and knowledge, whether it was skipped, and the time spent so far |
| Sessions.ScanCurrent | core/src/session/mod.rs:114-141 | the scan loop returns the current index and the resolved entries; the current status is `Seen` or `Skipped` |
| Sessions.Session.constructor | core/src/session/mod.rs:23-33 | a well-formed random id; every clue of the arrangement `Unread` and in order; no penalty |
| Sessions.Session.Restore | core/src/session/serialization.rs:73-85 | a session rebuilt with exactly the given id, entries and penalty |
| Sessions.Session.TotalScore | core/src/session/mod.rs:45-51 | the penalty plus the sum of scores, saturating at `i32::MAX`; never below the penalty |
| Sessions.Session.InnerCurrentClue | core/src/session/mod.rs:114-141 | the entries become the resolved ones, the index is the scan's, the id and penalty are kept, and the session stays ordered |
| Sessions.Session.CurrentClueDuration | core/src/session/mod.rs:53-56 | `Some` exactly when there is a current clue; its value is the time spent on that clue |
| Sessions.Session.CurrentClue | core/src/session/mod.rs:58-69 | `Some` exactly when there is a current clue; its value is that entry's view |
| Sessions.Session.TrySolve | core/src/session/mod.rs:71-93 | no current clue: `None` and no change. Right code: only the current entry becomes `Solved` and its score is returned. Another clue's code (even a solved one): −100 with a saturating penalty and no status change. Otherwise `None` |
| Sessions.Session.SkipCurrentClue | core/src/session/mod.rs:95-100 | a no-op without a current clue; otherwise only the current entry is skipped (or declined) |
| Sessions.Session.HintCurrentClue | core/src/session/mod.rs:102-106 | `None` and no change without a current clue; otherwise the current entry is hinted and its hint text returned |
| Sessions.Session.RevealCurrentItem | core/src/session/mod.rs:108-112 | `None` and no change without a current clue; otherwise the current entry is revealed and its item text returned |
| LegacySessions.LegacyNew | core/src/session.rs:14-20 | `Some` exactly for ASCII codes of length N; the bytes are the code's, with no change of case |
| LegacySessions.LegacyNewKeepsCase | core/src/session.rs:19 | two accepted codes give the same old id exactly when they are the same text, so case is kept (unlike `SessionIds.NewCaseInsensitive`) |
| LegacySessions.LegacyRandom | core/src/session.rs:22-29 | N bytes, each in 'A'..='Z' |
| LegacySessions.LegacySession.constructor | core/src/session.rs:44-55 | a random id of N letters in 'A'..='Z', the start time, every clue `Unread` in order, and no penalty |
| LegacySessions.LegacySession.InnerCurrentClue | core/src/session.rs:93-120 | the same scan as the current session |
| LegacySessions.LegacySession.CurrentClue | core/src/session.rs:57-60 | a copy of the current clue exactly when there is one |
| LegacySessions.LegacySession.TrySolve | core/src/session.rs:62-84 | the same three outcomes as the current `try_solve` |
| LegacySessions.LegacySession.SkipCurrentClue | core/src/session.rs:86-91 | a no-op without a current clue; otherwise skips (or declines) the current one |
| Serialization.ToWallTime | core/src/session/serialization.rs:113-118 | an instant as wall time: the wall clock now, minus the time elapsed since the instant |
| Serialization.ToMonoTime | core/src/session/serialization.rs:140-145 | a wall time as an instant; it fails exactly when the time is in the future or before the monotonic clock's origin |
| Serialization.TimeRoundTrip | core/src/session/serialization.rs:113-145 | a past instant survives the trip when both clocks moved by the same amount in between |
| Serialization.WallTimeRoundTrip | core/src/session/serialization.rs:113-145 | a wall time that converts comes back unchanged with the same clock readings |
| Serialization.KindToSerializable | core/src/session/serialization.rs:165-173 | the same variant |
| Serialization.KindFromSerializable | core/src/session/serialization.rs:175-183 | the same variant |
| Serialization.KindRoundTrips | core/src/session/serialization.rs:165-183 | the two kind conversions are inverse to each other |
| Serialization.StatusToSerializable | core/src/session/serialization.rs:111-136 | same variant and kind; times converted to wall time; a solved duration copied exactly |
| Serialization.StatusFromSerializable | core/src/session/serialization.rs:138-163 | fails only when a stored time does not convert; otherwise same variant and kind, times converted back, durations copied exactly |
| Serialization.StatusRoundTrip | core/src/session/serialization.rs:111-163 | a status whose time lies in the past comes back equal |
| Serialization.ClueToSerializable | core/src/session/serialization.rs:87-97 | every field and the 32-byte code copied |
| Serialization.ClueFromSerializable | core/src/session/serialization.rs:99-109 | every field and the 32-byte code copied |
| Serialization.ClueRoundTrips | core/src/session/serialization.rs:87-109 | the two clue conversions are inverse to each other |
| Serialization.EntriesToSerializable | core/src/session/serialization.rs:63-67 | the clue list keeps its length and order, entry by entry |
| Serialization.EntriesFromSerializable | core/src/session/serialization.rs:77-81 | fails exactly when some status fails; otherwise keeps length and order, entry by entry |
| Serialization.SessionToSerializable | core/src/session/serialization.rs:59-71 | the id as text, the entries converted, the penalty copied; fails only if the id does not display |
| Serialization.SessionFromSerializable | core/src/session/serialization.rs:73-85 | fails on an invalid id text or a time that does not convert; otherwise parsed id, converted entries, copied penalty |
| Serialization.SessionRoundTrip | core/src/session/serialization.rs:59-85 | a session with a well-formed id whose times lie in the past comes back equal |
| Serialization.FreshSessionRoundTrip | core/src/session/serialization.rs:185-193 | a new session, with every clue unread, comes back equal under any clock readings |
| Arrangement.AtLocationMembers | core/src/clues/arrangement.rs:18-24 | a location's bucket holds exactly the clues at that location |
| Arrangement.CountAtLocation | core/src/clues/arrangement.rs:18-24 | a location's bucket holds each clue as often as the list does |
| Arrangement.GroupByLocation | core/src/clues/arrangement.rs:18-24 | the buckets, keyed by location, hold each location's clues in input order |
| Arrangement.KeysOf | core/src/clues/arrangement.rs:117 | every location key, each exactly once |
| Arrangement.RemainingLocations | core/src/clues/arrangement.rs:123-133 | 0 exactly when every bucket is empty or belongs to the previous clue's location |
| Arrangement.GroupedIsAccounted | core/src/clues/arrangement.rs:117-120 | at the start of an attempt, the buckets account for every clue |
| Arrangement.AccountedAll | core/src/clues/arrangement.rs:121-152 | once the arrangement is as long as the clue list, it is a permutation of it |
| Arrangement.LastLocation | core/src/clues/arrangement.rs:122 | `arrangement.last().map(...)`: `None` exactly for an empty arrangement, else the location of its last clue |
| Arrangement.PlaceKeepsAccount | core/src/clues/arrangement.rs:143-148 | moving a clue from its bucket to the arrangement keeps every clue accounted for |
| Arrangement.PlaceFrom | core/src/clues/arrangement.rs:143-148 | pop from a bucket and push the clue unless it repeats the last location: accounting and adjacency kept, and a clue is placed exactly when one is available and allowed |
| Arrangement.PlacePass | core/src/clues/arrangement.rs:142-150 | one pass over the locations keeps accounting and adjacency, and places a clue whenever any allowed location still has one |
| Arrangement.ArrangeOnce | core/src/clues/arrangement.rs:117-152 | one attempt: a result is a permutation of the clues with no location twice in a row |
| Arrangement.CreateArrangement | core/src/clues/arrangement.rs:110-154 | up to 1000 attempts: `Ok` is a permutation of the clues with no location twice in a row |
| Arrangement.FillVec | core/src/clues/arrangement.rs:156-165 | `size` copies of the value |
| Arrangement.Blocked | core/src/clues/arrangement.rs:58-61 | the test in the `all` closure: an unblocked clue's location is neither used in this step nor the previous location; with nothing used and no previous clue, nothing is blocked |
| Arrangement.FirstFitting | core/src/clues/arrangement.rs:58-61 | the first queue position whose location is neither used in this step nor the previous one |
| Arrangement.RotationKeepsClues | core/src/clues/arrangement.rs:71-79 | rotating past the blocked clues and taking the first fitting one loses and adds nothing |
| Arrangement.TakeFirstFitting | core/src/clues/arrangement.rs:58-79 | `None` exactly when every clue is blocked; otherwise the first fitting clue and the queue rotated past it |
| Arrangement.NextColumn | core/src/clues/arrangement.rs:51-83 | one step: queue 0's head for arrangement 0, fitting clues for the others, with pairwise distinct locations |
| Arrangement.ExtendKeepsColumnsDistinct | core/src/clues/arrangement.rs:81-82 | appending picks with distinct locations keeps every column distinct |
| Arrangement.ColumnKeepsFilled | core/src/clues/arrangement.rs:50-84 | one filled step keeps the arrangements and queues accounting for the base |
| Arrangement.ArrangeFromQueues | core/src/clues/arrangement.rs:50-85 | arrangement 0 equals queue 0; each arrangement is a permutation of its queue; arrangements 1.. never repeat a location; every column is distinct |
| Arrangement.NewArrangements | core/src/clues/arrangement.rs:15-91 | `Ok`: four arrangements, each a permutation of the clues with no location twice in a row, with distinct locations at every position |
| Arrangement.ArrangementStream.constructor | core/src/clues/arrangement.rs:93-107 | the built arrangements are pending and a copy of the first is kept for reshuffles |
| Arrangement.ArrangementStream.Next | core/src/clues/arrangement.rs:93-107 | the next pending arrangement, or else a fresh shuffle of the first; always a reordering of the clues |
| TeamNames.IsWhiteSpace | server/src/state/mod.rs:90 | `char::is_whitespace`: among ASCII exactly space and U+0009..U+000D; never a letter or a digit; every white-space character lies in the Basic Multilingual Plane |
| TeamNames.Trim | server/src/state/mod.rs:90 | `str::trim`: the result neither starts nor ends with white space and is no longer than the input (`TrimSplit` and `TrimUnique` say what was removed) |
| TeamNames.TrimStart | server/src/state/mod.rs:90 | drops leading white space only: the rest starts with a non-space character |
| TeamNames.TrimEnd | server/src/state/mod.rs:90 | drops trailing white space only: the rest ends with a non-space character |
| TeamNames.TrimSplit | server/src/state/mod.rs:90 | the input is white space, then the trimmed text, then white space |
| TeamNames.TrimUnique | server/src/state/mod.rs:90 | any such split of the input has the trimmed text in the middle |
| TeamNames.TrimIdempotent | server/src/state/mod.rs:90 | trimming twice is trimming once |
| TeamNames.TrimIgnoresSurroundings | server/src/state/mod.rs:90 | white space around the input does not change the trimmed text |
| Common.Utf8Len | server/src/state/mod.rs:94 | `str::len`: between one and four bytes per character, and zero only for the empty text |
| TeamNames.New | server/src/state/mod.rs:88-98 | `Empty` exactly for all-white-space input; `TooLong` exactly when the trimmed text exceeds 50 bytes; otherwise the trimmed text, 1 to 50 bytes, with no white space at either end |
| TeamNames.EmptyTrimIffWhiteSpace | server/src/state/mod.rs:90-93 | nothing is left after trimming exactly when the input is all white space |
| TeamNames.Display | server/src/state/mod.rs:101-105 | the stored text |
| TeamNames.NewDisplayRoundTrip | server/src/state/mod.rs:88-105 | an accepted name's display text is accepted again and gives the same name |
| TeamNames.NewIgnoresSurroundings | server/src/state/mod.rs:88-98 | inputs that differ only in surrounding white space give the same result |
| ServerState.State.constructor | server/src/state/mod.rs:39-52 | no sessions, no names, and the given arrangement generator |
| ServerState.State.NewSession | server/src/state/command/new_session.rs:21-38 | a registered name gives `DuplicateTeamName` and leaves everything untouched. Otherwise one arrangement is pulled and a fresh session is built on it, all unread and with no penalty. The name is registered and the session is stored under its id, replacing any session with the same id. Every stored name stays registered |
| LeaderBoard.RowOf | server/src/state/command/leader_board.rs:13-18 | the team's name and its session's total score |
| LeaderBoard.WrappingNeg | server/src/state/command/leader_board.rs:21 | `i32` negation in a release build: exact except that `i32::MIN` stays `i32::MIN` |
| LeaderBoard.AsWrittenKey | server/src/state/command/leader_board.rs:21 | the sort key as written: `-score`, except `i32::MIN` for a score of `i32::MIN` |
| LeaderBoard.AsWrittenKeyMisorders | server/src/state/command/leader_board.rs:21 | sorted by the key as written, a score of `i32::MIN` comes before a score of 0 |
| LeaderBoard.Penalised | core/src/session/mod.rs:88 | the penalty after k wrong answers stays in `i32` and never rises |
| LeaderBoard.PenalisedAboveFloor | core/src/session/mod.rs:88 | while it fits, each wrong answer costs exactly 100 points |
| LeaderBoard.PenalisedReachesFloor | core/src/session/mod.rs:88 | from any start p, k wrong answers with 100k ≥ p − `i32::MIN` leave the penalty at exactly `i32::MIN` |
| LeaderBoard.MinimumScoreReachable | core/src/session/mod.rs:88 | from 0, 21,474,837 wrong answers reach `i32::MIN` and one fewer does not; a session with no solved clue then totals exactly `i32::MIN` |
| LeaderBoard.UnsolvedScoreNothing | core/src/clues/status.rs:97 | entries with no solved clue sum to 0 |
| LeaderBoard.Key | server/src/state/command/leader_board.rs:21 | the intended key: equal to the key as written for every score but `i32::MIN` |
| LeaderBoard.KeyOrdersByScore | server/src/state/command/leader_board.rs:21 | for every pair of rows, a smaller key is exactly a higher score and equal keys exactly equal scores |
| LeaderBoard.SortByScore | server/src/state/command/leader_board.rs:21 | the rows end as a permutation of themselves in descending score order |
| LeaderBoard.InsertAt | server/src/state/command/leader_board.rs:21 | one insertion step: the prefix grows by one row and stays descending, with the contents kept |
| LeaderBoard.Handle | server/src/state/command/leader_board.rs:11-23 | one row per session (each id visited once), each named after the team and scored with its total; returned as a permutation of those rows in descending score order; the state is only read |

## Left out

- Floating point: the bonus decay `2^(-t/10 min)` rounded to a point is a parameter `curve` with values in [0, 100]. The checkpoint table in the scoring test is not modelled.
- SHA3-256: `answer_to_code` is a parameter `hash`, and nothing is assumed of it beyond being a function.
- Clocks: `Instant::now`, `elapsed` and `SystemTime::now` are readings passed in (`now`, `Clocks`).
- Randomness: `rand::rng`, `random_range` and `shuffle` draw from an injected stream of numbers. `random_range(b'A'..=b'Z')` is a draw modulo 26. Uniformity is not modelled.
- JSON: `Session::to_json`/`from_json`, the on-disk clue file and the server's serde glue are I/O around the conversions modelled here.
- The asynchronous server is not modelled: the actor loop `State::spawn`, the channels and the response senders. A reply is the method's return value.
- Also not modelled: the file writer, configuration, HTTP routes and the cooldowns in them.
- The thin command wrappers `answer.rs`, `current_clue.rs`, `hint.rs` and `command/mod.rs` are not modelled. They look a session up and call the session methods modelled here.
- `server/src/state.rs` is not part of this model. Its `TeamName::new` is the same as the one in `server/src/state/mod.rs`, which is modelled once.
- `ClueView::hinted`/`revealed` update a struct in place; the model treats the view as a value and returns the updated view.
- Arrangement.ArrangementStream.Next: like `Arrangements::iterator`, it reshuffles the first arrangement once the built ones are used up, without re-checking adjacent locations (neither does the source). Those arrangements are only known to be reorderings of the clues.
- Arrangement.CreateArrangement: the contract says nothing about when `Err` occurs beyond its tag. The source panics after 1000 failed attempts.
- Arrangement.NewArrangements: the contract says nothing about when `Err` occurs beyond its tag. The source panics after 1000 failed attempts.
- SessionIds.Display: every id with a byte of 0x80 or more is treated as failing. `str::from_utf8` accepts well-formed multi-byte UTF-8, but no id built by `new` or `random` contains such a byte.
- Serialization.ToWallTime: `SystemTime::checked_sub` can fail ("Clue times must be representable"). Wall time is an unbounded integer here, so that failure does not arise.
- LeaderBoard.SortByScore: stability (rows with equal scores keep their relative order) is a property of the insertion sort but is not stated. The rows are collected in hash-map order, so their relative order was already arbitrary.
- LeaderBoard.Handle: a debug build panics on the overflowing negation instead of wrapping; see Findings.

## Findings

| source | as written | input that shows it | evidently intended | confidence | as-written member | corrected member |
|---|---|---|---|---|---|---|
| server/src/state/command/leader_board.rs:21 | the sort key `-r.score` negates an `i32`. `-i32::MIN` wraps to `i32::MIN` in a release build and panics in a debug build | a team whose total is `i32::MIN` and a team with 0 points. The total is reachable: at least 21,474,837 wrong-clue penalties (core/src/session/mod.rs:88) with no clue solved | rows in descending score order, the `i32::MIN` team last | not executed | LeaderBoard.AsWrittenKeyMisorders | LeaderBoard.SortByScore |
