/** The server's registry of team sessions (`State`) and the registration
    command (`command::new_session::handle`). */
module ServerState {
  import opened Common
  import opened Statuses
  import opened Clues
  import opened Random
  import opened SessionIds
  import opened Sessions
  import opened TeamNames
  import opened Arrangement

  /** A session together with the team playing it. */
  datatype TeamSession = TeamSession(name: TeamName, session: Session)

  datatype NewSessionError = DuplicateTeamName

  /** The clues of a session's entries, in order. */
  function CluesOf(entries: seq<Entry>): (r: seq<Clue>)
    ensures |r| == |entries|
    ensures forall i :: 0 <= i < |entries| ==> r[i] == entries[i].0
  {
    seq(|entries|, i requires 0 <= i < |entries| => entries[i].0)
  }

  predicate AllUnread(entries: seq<Entry>) {
    forall i :: 0 <= i < |entries| ==> entries[i].1 == Unread
  }

  class State {
    var sessions: map<SessionId, TeamSession>
    var teamNames: set<TeamName>
    /** The arrangement generator every new session draws from. */
    const clues: ArrangementStream

    ghost function SessionObjects(): set<Session>
      reads this
    {
      set id | id in sessions :: sessions[id].session
    }

    /** Every stored team name is registered, every session keeps its
        penalty within `i32`, and the generator is in order. */
    ghost predicate Valid()
      reads this, clues, clues.tail, SessionObjects()
    {
      && clues.Valid()
      && forall id :: id in sessions ==> sessions[id].name in teamNames && sessions[id].session.Valid()
    }

    /** `State::new`, given the generator built from the clue file. */
    constructor (generator: ArrangementStream)
      requires generator.Valid()
      ensures Valid()
      ensures sessions == map[] && teamNames == {} && clues == generator
    {
      sessions := map[];
      teamNames := {};
      clues := generator;
    }

    /** `new_session::handle`: refuse a registered team name; otherwise pull
        one arrangement, start a session on it with a random id, register
        the name and store the session under its id, replacing any session
        that happened to draw the same id. */
    method NewSession(teamName: TeamName, rng: Rng) returns (r: Result<SessionId, NewSessionError>)
      requires Valid()
      modifies this, clues, clues.tail, clues.rng, rng
      ensures Valid()
      ensures old(teamName in teamNames) <==> r.Err?
      ensures r.Err? ==>
        && r.error == DuplicateTeamName
        && sessions == old(sessions) && teamNames == old(teamNames)
        && unchanged(clues, clues.tail, clues.rng, rng)
      ensures r.Ok? ==>
        && r.value in sessions
        && sessions == old(sessions)[r.value := sessions[r.value]]
        && teamNames == old(teamNames) + {teamName}
        && sessions[r.value].name == teamName
        && fresh(sessions[r.value].session)
        && sessions[r.value].session.id == r.value
        && WellFormed(r.value, SESSION_ID_LEN)
        && sessions[r.value].session.negativePoints == 0
        && AllUnread(sessions[r.value].session.clues)
        && multiset(CluesOf(sessions[r.value].session.clues)) == clues.catalog
      ensures r.Ok? && old(clues.pending) != [] ==>
        && CluesOf(sessions[r.value].session.clues) == old(clues.pending)[0]
        && clues.pending == old(clues.pending)[1..]
      ensures r.Ok? && old(clues.pending) == [] ==>
        clues.pending == [] && CluesOf(sessions[r.value].session.clues) == clues.tail[..]
    {
      if teamName in teamNames {
        return Err(DuplicateTeamName);
      }
      var arrangement := clues.Next();
      var session := new Session(arrangement, rng);
      assert CluesOf(session.clues) == arrangement;
      var id := session.id;
      teamNames := teamNames + {teamName};
      sessions := sessions[id := TeamSession(teamName, session)];
      r := Ok(id);
    }
  }
}
