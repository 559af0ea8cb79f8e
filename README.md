# HackADuck game server: voting, joining and readiness

A Dafny model of the game-coordination logic of the HackADuck drawing game
server (`main.py`). The server keeps two SQLite tables, `Game` and `Player`,
behind three HTTP endpoints (`createGame`, `joinGame`, `readyup`), and a
process-wide dictionary `gameVotes` behind the `vote` socket event. The model
covers:

- **Theme voting** (`handle_vote`). A vote for a game without a session is
  answered with the "Voting not started." error. Otherwise the vote is stored
  under its player, and a later vote by the same player overwrites the earlier
  one without moving it. The number of distinct voters is compared with the
  session's `total_players`. On quorum the ballots are tallied: one per
  player, holding that player's latest theme, in the order the players first
  voted. `max` picks the most-voted theme, a tie going to the theme whose
  earliest ballot comes first. The result is emitted and the session is
  deleted. Whenever a session exists, `vote_update` with the count is emitted
  last; without a session only the error is emitted.
- **Joining** (`joinGame`). The checks run in order: username, game id, the
  game exists, the game has fewer than 5 players. Then a player row is
  inserted and `player_update` goes to the game's room.
- **Readiness** (`readyUp`). The matching player row is marked ready. The game
  starts (`game_start`) exactly when no unready player is left in the game.
- **Game creation** (`createRoom`) and the roster sent on a socket `join`
  (`get_players`).

## Modules

- `Messages` (messages.dfy): ids, themes, request-field truthiness and the emitted events.
- `Dicts` (dicts.dfy): Python's insertion-ordered `dict` as `Dict<K, V>`, a
  key order (`keys`) plus a map (`entries`).
- `Voting` (voting.dfy): ballot counting, the winner stated without the
  tally (`IsWinner`), and the tally and `max` as the source computes them. It
  also holds the proofs that the two agree.
- `VoteHandler` (vote_handler.dfy): the `gameVotes` dictionary as the class
  `VoteBoard`, and `handle_vote` as its method.
- `Tables` (tables.dfy): the `Player` rows, the COUNT/SELECT/UPDATE
  statements as functions, and the invariant of the tables (`TablesValid`).
- `Games` (games.dfy): the tables as the class `GameStore`, with the
  endpoints as its methods.

The tie-break is stated without reference to the algorithm. `IsWinner(vs, w)`
holds when:
- somebody voted for `w`;
- no theme has more votes than `w`;
- every ballot for a theme with as many votes as `w` comes at or after the
  first ballot for `w`.

`WinnerIsUnique` shows that this determines the winner. `TallyWinner` shows
that the source's dictionary tally followed by `max` yields it.

Behaviour of the code that a reader may not expect; the model follows the
code as written:
- A tie goes to the tied theme whose earliest ballot comes first, not to the
  theme that reached the shared maximum first. On the ballots halloween,
  christmas, christmas, halloween, christmas reaches two votes first, yet
  halloween wins (`FirstKeyBeatsFirstToMaximum`).
- The ballots are ordered by each player's first vote, not by the time of
  the latest vote. If player 1 votes halloween, player 2 christmas, player 1
  again easter and player 3 random, the ballots are easter, christmas, random
  (`PutKeepsPlace`: a revote replaces the theme where the player's first
  vote put it), so a tie between easter and christmas goes to easter.
- A vote for a game with no session is an error, and no session is ever
  created. Nothing in `main.py` inserts into `gameVotes`. So `VoteBoard` is
  constructed from given sessions; seeding them is an assumption of the model.
- The "Voting not started." error is emitted with no room, so it reaches every
  client rather than only the voter.
- A repeated `readyup` for a game whose players are all ready emits
  `game_start` again (`ReadyUpTwice`).
- `createGame` is not all-or-nothing. When the player insert fails, the new
  game row stays, with no player.
- `joinGame` sends `player_update` with the joining username and game id. The
  full roster is sent only by the socket `join` event.

Assumptions about collaborators that are not shown:
- `db.py` is not part of this model.
- `db.update` is taken to return the number of rows matched.
- `Player.is_ready` is taken to default to FALSE on insert.
- Ids are taken to come from AUTOINCREMENT counters starting at 1.

## Model

| member | source | states |
|---|---|---|
| `Dicts.Dict.Put` | main.py:145 | `d[k] = v` stores `v` under `k` and keeps the dict well formed; keys already present keep their places, and at most `k` is appended |
| `Dicts.SizeIsEntryCount` | main.py:146 | `len(votes)` equals the number of distinct keys (distinct voters) |
| `Voting.Record` | main.py:145-146 | recording a vote overwrites that player's earlier vote, keeps `total_players`, and the vote count is the number of distinct voters |
| `Voting.Tally` | main.py:151-153 | `theme_counts` keys exactly the themes that got a ballot, each with its number of ballots |
| `Voting.TallyStep` | main.py:152-153 | the last ballot raises its theme's count to one more than the earlier ballots gave it and changes no other count; its theme is appended to the keys exactly when no earlier ballot named it |
| `Voting.TallyPrefix` | main.py:151-153 | themes keep their places in `theme_counts` as later ballots are tallied (order of first ballot) |
| `Voting.CountThemes` | main.py:151-153 | the counting loop computes the tally of the session's ballots (each player's latest theme, in the order the players first voted) |
| `Voting.MaxIndex` | main.py:154 | `max(theme_counts, key=theme_counts.get)` returns a key with the largest count, and every earlier key has a strictly smaller count |
| `Voting.TieFoundInPrefix` | main.py:152-154 | a ballot for a theme keyed at or after the chosen one comes after the first ballot for the chosen theme |
| `Voting.TallyWinner` | main.py:151-154 | the theme `max` picks from the tally is the winner: voted for, maximal count, and the earliest first ballot among tied themes |
| `Voting.WinningTheme` | main.py:151-154 | tally plus `max` on a non-empty session returns the winner |
| `Voting.WinnerIsUnique` | main.py:154 | the winner (maximal count, earliest first ballot among ties) is unique |
| `Voting.EvenTieGoesToFirstBallot` | main.py:152-154 | when all voted themes tie, the theme of the first ballot wins |
| `Voting.HalloweenWinsTie` | main.py:152-154 | ballots halloween, christmas, halloween, christmas: halloween and only halloween wins |
| `Voting.FirstKeyBeatsFirstToMaximum` | main.py:151-154 | ballots halloween, christmas, christmas, halloween: christmas reaches the shared maximum after three ballots, halloween only after four, and halloween and only halloween wins |
| `Dicts.PutKeepsPlace` | main.py:145 | on `values()`, storing a vote for a new player appends its theme; a revote replaces that player's theme where it stands and moves no other ballot |
| `VoteHandler.VoteBoard.constructor` | main.py:134 | the vote sessions are given state (the server itself never creates one) |
| `VoteHandler.VoteBoard.HandleVote` | main.py:135-158 | no session: error event, nothing changes. Below quorum: the session keeps the new vote and only `vote_update` with the count is emitted. At or above quorum: `vote_result` with the winner, then `vote_update` with the count, and only that game's session is removed |
| `Tables.NamesIn` | main.py:120-123 | `get_players` lists one name per player of the game: each name occurs exactly as many times as players of the game carry it (`CountNamed`), so it appears exactly when some player of the game has it |
| `Tables.JoinKeepsCapacity` | main.py:79-85 | inserting into a game with fewer than 5 players keeps every game at 5 players or fewer |
| `Tables.NoneUnreadyIffAllReady` | main.py:104-107 | the unready count is zero exactly when every player of the game is ready |
| `Tables.MarkReadyEffect` | main.py:100-101 | the UPDATE makes the matched player ready, leaves every other row alone, and is idempotent |
| `Tables.MarkReadyKeepsRoster` | main.py:100-101 | the UPDATE changes no game's player count or roster |
| `Tables.NewGameKeepsValid` | main.py:30-32 | a new game takes a fresh id with no players, and the table invariant holds |
| `Tables.InsertKeepsValid` | main.py:83-85 | a player insert under the 5-player bound keeps the table invariant (ids fresh and distinct, games exist, at most 5 per game) |
| `Tables.MarkReadyKeepsValid` | main.py:100-101 | marking ready keeps the table invariant |
| `Games.GameStore.CreateGame` | main.py:22-54 | username required; a failed game insert changes nothing; on success a fresh game with its first player, who is not ready, and both id counters advance; a failed player insert leaves the game without players and the player counter where it was |
| `Games.GameStore.AddPlayer` | main.py:83-85 | the insert appends one unready row with the next id and keeps the invariant |
| `Games.GameStore.JoinGame` | main.py:58-90 | rejects missing username, missing game id, unknown game, full game (5 or more) in that order, changing nothing; otherwise appends the player with the next player id, emits `player_update`, leaves the games and the game counter alone, and the game has at most 5 players |
| `Games.GameStore.ReadyUp` | main.py:92-111 | missing ids or no matching row: failure, nothing changes; otherwise the player is marked ready and the outcome is "started" (with `game_start`) exactly when every player of the game is ready |
| `Games.GameStore.RosterUpdate` | main.py:114-123 | the socket `join` event sends the game's roster: one name per player of the game, each name as many times as players of the game carry it, and exactly the names those players have |
| `Games.ReadyUpTwice` | main.py:92-111 | readying the same player twice gives the same outcome and events both times, and the second call changes no row: the table ends as one UPDATE left it |

## Left out

- Flask routing, header and JSON parsing and HTTP status codes. Only the outcome of each endpoint is kept, as a `Failure` value.
- Request fields of the wrong type (an id sent as a string, say). Ids are integers, and a missing field or 0 (or "" for a name) counts as absent, as Python's `not` does.
- `handle_vote` with a field missing from the socket payload. `data[...]` would raise `KeyError`; the model takes the three fields as given.
- The SocketIO transport: `emit`, `join_room`, delivery to rooms. Emits are returned as `Event` values in order.
- The `draw` relay: an opaque payload broadcast as is, with no logic.
- `handleReady`: it uses the undefined name `ready_players` and cannot run.
- `Games.GameStore.CreateGame`: timestamps (`datetime.now()`), the game's theme and status columns, and the player's role are not stored.
- SQLite reads that fail (`db.select` returning None). The in-memory tables always answer. Failed inserts (`insertAndFetch` returning None) are modelled as boolean parameters.
- The console `print` calls (main.py:108 and main.py:156): they write to the server's standard output only and affect no state or event.
- Row order: `SELECT` without `ORDER BY` does not promise any order, so `Tables.NamesIn` taking the table in insertion order is an assumption about SQLite; the length, membership and multiplicities it states hold in any order.
- Concurrency: the source has no locking and the model is sequential.
- Validation of themes against `THEMES`: the source never checks it, so any string is accepted.
