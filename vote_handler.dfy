/**
 * The `vote` socket event: the process-wide `gameVotes` dictionary and the
 * handler that records a vote and resolves the session on quorum.
 */
module VoteHandler {
  import opened Messages
  import opened Dicts
  import opened Voting

  /** `gameVotes`: the live vote session of each game. */
  class VoteBoard {
    var sessions: map<GameId, Session>

    ghost predicate Valid()
      reads this
    {
      forall g :: g in sessions ==> sessions[g].votes.Valid()
    }

    /**
     * Nothing in the server ever adds a session to `gameVotes`, so the board
     * starts from whatever sessions it is given.
     */
    constructor (seeded: map<GameId, Session>)
      requires forall g :: g in seeded ==> seeded[g].votes.Valid()
      ensures Valid() && sessions == seeded
    {
      sessions := seeded;
    }

    /** `handle_vote`: record a vote, and resolve and delete the session on quorum. */
    method HandleVote(gameId: GameId, playerId: PlayerId, theme: Theme) returns (events: seq<Event>)
      requires Valid()
      modifies this
      ensures Valid()
      ensures gameId !in old(sessions) ==> sessions == old(sessions) && events == [VotingNotStarted]
      ensures gameId in old(sessions) && Record(old(sessions)[gameId], playerId, theme).votes.Size() < old(sessions)[gameId].totalPlayers ==>
        var s := Record(old(sessions)[gameId], playerId, theme);
        && sessions == old(sessions)[gameId := s]
        && events == [VoteUpdate(gameId, s.votes.Size())]
      ensures gameId in old(sessions) && Record(old(sessions)[gameId], playerId, theme).votes.Size() >= old(sessions)[gameId].totalPlayers ==>
        var s := Record(old(sessions)[gameId], playerId, theme);
        && sessions == old(sessions) - {gameId}
        && |events| == 2
        && events[0].VoteResult? && events[0].room == gameId
        && IsWinner(s.votes.Values(), events[0].theme)
        && events[1] == VoteUpdate(gameId, s.votes.Size())
    {
      if gameId !in sessions {
        events := [VotingNotStarted];
        return;
      }
      var session := Record(sessions[gameId], playerId, theme);
      sessions := sessions[gameId := session];
      var totalVotes := session.votes.Size();
      if totalVotes >= session.totalPlayers {
        assert playerId in session.votes.keys;
        var winningTheme := WinningTheme(session.votes);
        ReplaceThenRemove(old(sessions), gameId, session);
        sessions := sessions - {gameId};
        events := [VoteResult(gameId, winningTheme), VoteUpdate(gameId, totalVotes)];
      } else {
        events := [VoteUpdate(gameId, totalVotes)];
      }
    }
  }

  /** Deleting a key just written leaves the map as deleting it before the write. */
  lemma ReplaceThenRemove<K, V>(m: map<K, V>, k: K, v: V)
    ensures m[k := v] - {k} == m - {k}
  {
  }
}
