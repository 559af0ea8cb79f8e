/**
 * Identifiers, request fields and the SocketIO events the server emits.
 * Every emit of the source is returned to the caller as an `Event` value.
 */
module Messages {

  /** `game_id` and `player_id` are SQLite INTEGER PRIMARY KEYs. */
  type GameId = int
  type PlayerId = int
  /** A theme is any string: votes are never checked against THEMES. */
  type Theme = string

  datatype Option<T> = None | Some(value: T)

  /** Python truthiness of an id read from a request: a missing field and 0 are false. */
  predicate IdGiven(field: Option<int>)
  {
    field.Some? && field.value != 0
  }

  /** Python truthiness of a name read from a request: a missing field and "" are false. */
  predicate NameGiven(field: Option<string>)
  {
    field.Some? && field.value != ""
  }

  datatype Event =
      /** "error" {"message": "Voting not started."}, emitted with no room, so to every client */
    | VotingNotStarted
      /** "vote_update" {"votes": n} to the game's room */
    | VoteUpdate(room: GameId, votes: nat)
      /** "vote_result" {"theme": t} to the game's room */
    | VoteResult(room: GameId, theme: Theme)
      /** "player_update" {"username", "gameID"} after a join over HTTP */
    | PlayerJoined(room: GameId, username: string)
      /** "player_update" {"players": [...]} after a socket joins the room */
    | PlayerRoster(room: GameId, players: seq<string>)
      /** "game_start" with no payload */
    | GameStart(room: GameId)
}
