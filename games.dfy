/**
 * The HTTP endpoints `createGame`, `joinGame` and `readyup`, and the `join`
 * socket event, over the `Game` and `Player` tables held in memory.
 */
module Games {
  import opened Messages
  import opened Tables

  /** The error responses of the endpoints. */
  datatype Failure =
    | UsernameRequired   // 400
    | GameIdRequired     // 400
    | GameNotFound       // 404
    | GameFull           // 400
    | GameNotStored      // 500, the `Game` insert returned no id
    | PlayerNotStored    // 500, the `Player` insert returned no id
    | IdsRequired        // 400
    | PlayerNotFound     // 404

  datatype CreateOutcome = Created(gameId: GameId, playerId: PlayerId) | CreateFailed(failure: Failure)
  datatype JoinOutcome = Joined(gameId: GameId, playerId: PlayerId, username: string) | JoinFailed(failure: Failure)
  datatype ReadyOutcome = Waiting | Started | ReadyFailed(failure: Failure)

  /**
   * The tables. Ids come from AUTOINCREMENT counters; whether an insert is
   * stored is decided by the database and is a parameter of each endpoint.
   */
  class GameStore {
    var games: set<GameId>
    var players: seq<Player>
    var nextGameId: GameId
    var nextPlayerId: PlayerId

    ghost predicate Valid()
      reads this
    {
      TablesValid(games, players, nextGameId, nextPlayerId)
    }

    constructor ()
      ensures Valid() && games == {} && players == []
      ensures nextGameId == 1 && nextPlayerId == 1
    {
      games, players := {}, [];
      nextGameId, nextPlayerId := 1, 1;
    }

    /**
     * `createRoom`: a new game and its first player. A failed player insert
     * leaves the new game in place, with no player.
     */
    method CreateGame(username: Option<string>, gameStored: bool, playerStored: bool) returns (r: CreateOutcome)
      requires Valid()
      modifies this
      ensures Valid()
      ensures !NameGiven(username) ==> r == CreateFailed(UsernameRequired) && unchanged(this)
      ensures NameGiven(username) && !gameStored ==> r == CreateFailed(GameNotStored) && unchanged(this)
      ensures NameGiven(username) && gameStored ==>
        var g := old(nextGameId);
        && g !in old(games)
        && games == old(games) + {g}
        && nextGameId == old(nextGameId) + 1
        && nextPlayerId == old(nextPlayerId) + (if playerStored then 1 else 0)
        && (playerStored ==>
              && r == Created(g, old(nextPlayerId))
              && players == old(players) + [Player(old(nextPlayerId), username.value, g, false)]
              && CountIn(players, g) == 1)
        && (!playerStored ==> r == CreateFailed(PlayerNotStored) && players == old(players))
    {
      if !NameGiven(username) {
        return CreateFailed(UsernameRequired);
      }
      if !gameStored {
        return CreateFailed(GameNotStored);
      }
      var gameId := nextGameId;
      NewGameKeepsValid(games, players, nextGameId, nextPlayerId);
      games := games + {gameId};
      nextGameId := nextGameId + 1;
      if !playerStored {
        return CreateFailed(PlayerNotStored);
      }
      var row := Player(nextPlayerId, username.value, gameId, false);
      AddPlayer(row);
      r := Created(gameId, row.id);
    }

    /** `INSERT INTO Player`: a new row at the end of the table, taking the next id. */
    method AddPlayer(row: Player)
      requires Valid()
      requires row.id == nextPlayerId && row.gameId in games && !row.isReady
      requires CountIn(players, row.gameId) < MaxPlayers
      modifies this
      ensures Valid()
      ensures players == old(players) + [row] && nextPlayerId == old(nextPlayerId) + 1
      ensures games == old(games) && nextGameId == old(nextGameId)
      ensures CountIn(players, row.gameId) == CountIn(old(players), row.gameId) + 1
      ensures NamesIn(players, row.gameId) == NamesIn(old(players), row.gameId) + [row.name]
    {
      InsertKeepsValid(games, players, nextGameId, nextPlayerId, row);
      players := players + [row];
      nextPlayerId := nextPlayerId + 1;
    }

    /**
     * `joinGame`: checked in order, a missing username, a missing game id, an
     * unknown game and a game that already has `MaxPlayers` players are
     * rejected with nothing added; otherwise the player is added at the end
     * of the table and `player_update` goes to the game's room.
     */
    method JoinGame(username: Option<string>, gameId: Option<GameId>, playerStored: bool)
      returns (r: JoinOutcome, events: seq<Event>)
      requires Valid()
      modifies this
      ensures Valid()
      ensures r.JoinFailed? ==> unchanged(this) && events == []
      ensures !NameGiven(username) ==> r == JoinFailed(UsernameRequired)
      ensures NameGiven(username) && !IdGiven(gameId) ==> r == JoinFailed(GameIdRequired)
      ensures NameGiven(username) && IdGiven(gameId) ==>
        var g := gameId.value;
        && (g !in old(games) ==> r == JoinFailed(GameNotFound))
        && (g in old(games) && CountIn(old(players), g) >= MaxPlayers ==> r == JoinFailed(GameFull))
        && (g in old(games) && CountIn(old(players), g) < MaxPlayers ==>
              if playerStored then
                && r == Joined(g, old(nextPlayerId), username.value)
                && players == old(players) + [Player(old(nextPlayerId), username.value, g, false)]
                && NamesIn(players, g) == NamesIn(old(players), g) + [username.value]
                && games == old(games) && nextGameId == old(nextGameId) && nextPlayerId == old(nextPlayerId) + 1
                && events == [PlayerJoined(g, username.value)]
              else r == JoinFailed(PlayerNotStored))
      ensures r.Joined? ==> CountIn(players, r.gameId) == CountIn(old(players), r.gameId) + 1 <= MaxPlayers
    {
      events := [];
      if !NameGiven(username) {
        return JoinFailed(UsernameRequired), events;
      }
      if !IdGiven(gameId) {
        return JoinFailed(GameIdRequired), events;
      }
      var g := gameId.value;
      if g !in games {
        return JoinFailed(GameNotFound), events;
      }
      if CountIn(players, g) >= MaxPlayers {
        return JoinFailed(GameFull), events;
      }
      if !playerStored {
        return JoinFailed(PlayerNotStored), events;
      }
      var row := Player(nextPlayerId, username.value, g, false);
      AddPlayer(row);
      r := Joined(g, row.id, username.value);
      events := [PlayerJoined(g, username.value)];
    }

    /**
     * `readyUp`: missing ids and a (player, game) pair that matches no row are
     * rejected with nothing changed; otherwise the player is marked ready and
     * the game starts exactly when no player of the game is left unready.
     */
    method ReadyUp(playerId: Option<PlayerId>, gameId: Option<GameId>) returns (r: ReadyOutcome, events: seq<Event>)
      requires Valid()
      modifies this
      ensures Valid()
      ensures r.ReadyFailed? ==> unchanged(this) && events == []
      ensures !IdGiven(playerId) || !IdGiven(gameId) ==> r == ReadyFailed(IdsRequired)
      ensures IdGiven(playerId) && IdGiven(gameId) ==>
        var p, g := playerId.value, gameId.value;
        if !HasPlayer(old(players), p, g) then r == ReadyFailed(PlayerNotFound)
        else
          && players == MarkReady(old(players), p, g)
          && games == old(games) && nextGameId == old(nextGameId) && nextPlayerId == old(nextPlayerId)
          && (r == Started <==> forall i :: 0 <= i < |players| && players[i].gameId == g ==> players[i].isReady)
          && (r == Started || r == Waiting)
          && events == (if r == Started then [GameStart(g)] else [])
    {
      events := [];
      if !IdGiven(playerId) || !IdGiven(gameId) {
        return ReadyFailed(IdsRequired), events;
      }
      var p, g := playerId.value, gameId.value;
      if !HasPlayer(players, p, g) {
        return ReadyFailed(PlayerNotFound), events;
      }
      MarkReadyKeepsValid(games, players, nextGameId, nextPlayerId, p, g);
      players := MarkReady(players, p, g);
      NoneUnreadyIffAllReady(players, g);
      if CountUnready(players, g) == 0 {
        r := Started;
        events := [GameStart(g)];
      } else {
        r := Waiting;
      }
    }

    /**
     * The `join` socket event: the room hears the current roster of the game,
     * one name per player of the game (a shared name as often as it is shared)
     * and no name of any other game's player.
     */
    function RosterUpdate(gameId: GameId): (e: Event)
      reads this
      ensures e.PlayerRoster? && e.room == gameId && |e.players| == CountIn(players, gameId)
      ensures forall n :: multiset(e.players)[n] == CountNamed(players, gameId, n)
      ensures forall n :: n in e.players <==>
        exists i :: 0 <= i < |players| && players[i].gameId == gameId && players[i].name == n
    {
      PlayerRoster(gameId, NamesIn(players, gameId))
    }
  }

  /**
   * Readying the same player twice: the second call gives the same outcome
   * and the same events as the first (so `game_start` is emitted again when
   * the first call started the game), and changes no row: the table ends as
   * the first call left it.
   */
  method ReadyUpTwice(store: GameStore, playerId: Option<PlayerId>, gameId: Option<GameId>)
    returns (first: ReadyOutcome, second: ReadyOutcome, firstEvents: seq<Event>, secondEvents: seq<Event>)
    requires store.Valid()
    modifies store
    ensures store.Valid()
    ensures second == first && secondEvents == firstEvents
    ensures first.ReadyFailed? ==> store.players == old(store.players)
    ensures !first.ReadyFailed? ==>
      IdGiven(playerId) && IdGiven(gameId) &&
      store.players == MarkReady(old(store.players), playerId.value, gameId.value)
    ensures store.games == old(store.games)
    ensures store.nextGameId == old(store.nextGameId) && store.nextPlayerId == old(store.nextPlayerId)
  {
    first, firstEvents := store.ReadyUp(playerId, gameId);
    if IdGiven(playerId) && IdGiven(gameId) && first != ReadyFailed(PlayerNotFound) {
      MarkReadyEffect(old(store.players), playerId.value, gameId.value);
    }
    second, secondEvents := store.ReadyUp(playerId, gameId);
  }
}
