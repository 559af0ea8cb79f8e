/**
 * The `Player` table as the queries of the HTTP endpoints see it: rows in
 * insertion order, and the COUNT, SELECT and UPDATE statements over them.
 */
module Tables {
  import opened Messages

  /** A `Player` row; `role` is always "drawer" and is not kept. */
  datatype Player = Player(id: PlayerId, name: string, gameId: GameId, isReady: bool)

  /** The player count at which `joinGame` turns players away. */
  const MaxPlayers: nat := 5

  /** `SELECT COUNT(*) FROM Player WHERE game_id = g` */
  function CountIn(rows: seq<Player>, g: GameId): nat
  {
    if |rows| == 0 then 0
    else CountIn(rows[..|rows| - 1], g) + (if rows[|rows| - 1].gameId == g then 1 else 0)
  }

  /** `SELECT COUNT(*) FROM Player WHERE game_id = g and is_ready = FALSE` */
  function CountUnready(rows: seq<Player>, g: GameId): nat
  {
    if |rows| == 0 then 0
    else CountUnready(rows[..|rows| - 1], g) + (if rows[|rows| - 1].gameId == g && !rows[|rows| - 1].isReady then 1 else 0)
  }

  /** The number of players of game `g` named `n` (names need not be unique). */
  function CountNamed(rows: seq<Player>, g: GameId, n: string): nat
  {
    if |rows| == 0 then 0
    else CountNamed(rows[..|rows| - 1], g, n) + (if rows[|rows| - 1].gameId == g && rows[|rows| - 1].name == n then 1 else 0)
  }

  /**
   * `get_players`: the names of the players of game `g`, in table order: one
   * name per row of `g`, so each name occurs as often as players of `g` carry
   * it, and exactly the names such rows carry.
   */
  function NamesIn(rows: seq<Player>, g: GameId): (names: seq<string>)
    ensures |names| == CountIn(rows, g)
    ensures forall n :: multiset(names)[n] == CountNamed(rows, g, n)
    ensures forall n :: n in names <==> exists i :: 0 <= i < |rows| && rows[i].gameId == g && rows[i].name == n
  {
    if |rows| == 0 then []
    else
      var init := rows[..|rows| - 1];
      assert forall i :: 0 <= i < |init| ==> init[i] == rows[i];
      NamesIn(init, g) + (if rows[|rows| - 1].gameId == g then [rows[|rows| - 1].name] else [])
  }

  /** Some row has player id `p` in game `g` (the UPDATE of `readyUp` matches a row). */
  predicate HasPlayer(rows: seq<Player>, p: PlayerId, g: GameId)
  {
    exists i :: 0 <= i < |rows| && rows[i].id == p && rows[i].gameId == g
  }

  /** `UPDATE Player SET is_ready = TRUE WHERE player_id = p and game_id = g` */
  function MarkReady(rows: seq<Player>, p: PlayerId, g: GameId): seq<Player>
  {
    seq(|rows|, i requires 0 <= i < |rows| =>
      if rows[i].id == p && rows[i].gameId == g then rows[i].(isReady := true) else rows[i])
  }

  // ---------------------------------------------------------------------------

  /** Appending a row adds one to the count of its game and changes no other count. */
  lemma CountAppend(rows: seq<Player>, row: Player, g: GameId)
    ensures CountIn(rows + [row], g) == CountIn(rows, g) + (if row.gameId == g then 1 else 0)
    ensures NamesIn(rows + [row], g) == NamesIn(rows, g) + (if row.gameId == g then [row.name] else [])
  {
    assert (rows + [row])[..|rows|] == rows;
  }

  /** A game no row belongs to has no players. */
  lemma {:induction false} CountAbsent(rows: seq<Player>, g: GameId)
    requires forall i :: 0 <= i < |rows| ==> rows[i].gameId != g
    ensures CountIn(rows, g) == 0
  {
    if |rows| > 0 {
      CountAbsent(rows[..|rows| - 1], g);
    }
  }

  /**
   * The capacity bound survives adding a row to a game that had fewer than
   * `MaxPlayers` players.
   */
  lemma JoinKeepsCapacity(rows: seq<Player>, row: Player)
    requires forall g :: CountIn(rows, g) <= MaxPlayers
    requires CountIn(rows, row.gameId) < MaxPlayers
    ensures forall g :: CountIn(rows + [row], g) <= MaxPlayers
  {
    forall g
      ensures CountIn(rows + [row], g) <= MaxPlayers
    {
      CountAppend(rows, row, g);
    }
  }

  /** No unready player is left in game `g` exactly when every player of `g` is ready. */
  lemma {:induction false} NoneUnreadyIffAllReady(rows: seq<Player>, g: GameId)
    ensures CountUnready(rows, g) == 0 <==> forall i :: 0 <= i < |rows| && rows[i].gameId == g ==> rows[i].isReady
  {
    if |rows| > 0 {
      var init := rows[..|rows| - 1];
      NoneUnreadyIffAllReady(init, g);
      assert forall i :: 0 <= i < |init| ==> init[i] == rows[i];
    }
  }

  /** Marking a row ready changes no row's id, name or game, so no count or roster moves. */
  lemma {:induction false} MarkReadyKeepsRoster(rows: seq<Player>, p: PlayerId, g: GameId, h: GameId)
    ensures |MarkReady(rows, p, g)| == |rows|
    ensures CountIn(MarkReady(rows, p, g), h) == CountIn(rows, h)
    ensures NamesIn(MarkReady(rows, p, g), h) == NamesIn(rows, h)
  {
    if |rows| > 0 {
      var init := rows[..|rows| - 1];
      MarkReadyKeepsRoster(init, p, g, h);
      assert MarkReady(rows, p, g)[..|rows| - 1] == MarkReady(init, p, g);
    }
  }

  /**
   * After the UPDATE the matched player is ready in its game, every other row
   * is as before, and running the UPDATE again changes nothing.
   */
  lemma MarkReadyEffect(rows: seq<Player>, p: PlayerId, g: GameId)
    requires HasPlayer(rows, p, g)
    ensures HasPlayer(MarkReady(rows, p, g), p, g)
    ensures forall i :: 0 <= i < |rows| && rows[i].id == p && rows[i].gameId == g ==> MarkReady(rows, p, g)[i].isReady
    ensures forall i :: 0 <= i < |rows| && !(rows[i].id == p && rows[i].gameId == g) ==> MarkReady(rows, p, g)[i] == rows[i]
    ensures MarkReady(MarkReady(rows, p, g), p, g) == MarkReady(rows, p, g)
  {
    var i :| 0 <= i < |rows| && rows[i].id == p && rows[i].gameId == g;
    assert MarkReady(rows, p, g)[i].id == p;
  }

  // ---------------------------------------------------------------------------
  // The invariant of the two tables

  /**
   * Ids are positive and below the next AUTOINCREMENT value, player ids are
   * distinct, every player belongs to a stored game, and no game has more
   * than `MaxPlayers` players.
   */
  ghost predicate TablesValid(games: set<GameId>, rows: seq<Player>, nextGameId: GameId, nextPlayerId: PlayerId)
  {
    && 0 < nextGameId && 0 < nextPlayerId
    && (forall g :: g in games ==> 0 < g < nextGameId)
    && (forall i :: 0 <= i < |rows| ==> 0 < rows[i].id < nextPlayerId && rows[i].gameId in games)
    && (forall i, j :: 0 <= i < j < |rows| ==> rows[i].id != rows[j].id)
    && (forall g :: CountIn(rows, g) <= MaxPlayers)
  }

  /** A new game takes the next game id, and no player belongs to it yet. */
  lemma NewGameKeepsValid(games: set<GameId>, rows: seq<Player>, nextGameId: GameId, nextPlayerId: PlayerId)
    requires TablesValid(games, rows, nextGameId, nextPlayerId)
    ensures nextGameId !in games
    ensures CountIn(rows, nextGameId) == 0
    ensures TablesValid(games + {nextGameId}, rows, nextGameId + 1, nextPlayerId)
  {
    CountAbsent(rows, nextGameId);
  }

  /**
   * Inserting a player with the next player id into a stored game that has
   * fewer than `MaxPlayers` players keeps the invariant, and appends the
   * player to that game's roster.
   */
  lemma InsertKeepsValid(games: set<GameId>, rows: seq<Player>, nextGameId: GameId, nextPlayerId: PlayerId, row: Player)
    requires TablesValid(games, rows, nextGameId, nextPlayerId)
    requires row.id == nextPlayerId && row.gameId in games && CountIn(rows, row.gameId) < MaxPlayers
    ensures TablesValid(games, rows + [row], nextGameId, nextPlayerId + 1)
    ensures CountIn(rows + [row], row.gameId) == CountIn(rows, row.gameId) + 1
    ensures NamesIn(rows + [row], row.gameId) == NamesIn(rows, row.gameId) + [row.name]
  {
    var rows' := rows + [row];
    JoinKeepsCapacity(rows, row);
    CountAppend(rows, row, row.gameId);
    assert forall i :: 0 <= i < |rows| ==> rows'[i] == rows[i];
    assert forall i :: 0 <= i < |rows'| ==> 0 < rows'[i].id < nextPlayerId + 1 && rows'[i].gameId in games;
    assert forall i, j :: 0 <= i < j < |rows'| ==> rows'[i].id != rows'[j].id;
  }

  /** Marking a player ready keeps the invariant. */
  lemma MarkReadyKeepsValid(games: set<GameId>, rows: seq<Player>, nextGameId: GameId, nextPlayerId: PlayerId, p: PlayerId, g: GameId)
    requires TablesValid(games, rows, nextGameId, nextPlayerId)
    ensures TablesValid(games, MarkReady(rows, p, g), nextGameId, nextPlayerId)
  {
    forall h
      ensures CountIn(MarkReady(rows, p, g), h) == CountIn(rows, h)
    {
      MarkReadyKeepsRoster(rows, p, g, h);
    }
  }
}
