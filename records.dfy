/** The values of the lobby service: the two table rows of the persistence
    port (`db.Lobby`, `db.Player`), the core's own view of a lobby and a
    player (`core.Lobby`, `core.Player`), and the errors the core returns. */
module Records {

  /** A `uuid.UUID`; the core only ever compares identifiers for equality. */
  type Uuid = nat

  /** A `time.Time` taken from `time.Now()`; treated as an opaque value. */
  type Instant = int

  /** The free-form `map[string]interface{}` payload; a nil map is `Null`. */
  datatype Json =
    | Null
    | Bool(b: bool)
    | Number(n: int)
    | Str(s: string)
    | Arr(items: seq<Json>)
    | Obj(fields: map<string, Json>)

  /** The two lobby states the core distinguishes. */
  const LobbyOpen: string := "open"
  const LobbyPlaying: string := "playing"

  /** A row of the lobby table (`db.Lobby`). */
  datatype LobbyRec = LobbyRec(
    id: Uuid,
    status: string,
    name: string,
    owner: Uuid,
    password: string,
    difficulty: int,
    missionLength: int,
    crewMembers: int,
    maxPlayers: int,
    expansionPacks: seq<string>,
    payload: Json)

  /** A row of the player table (`db.Player`). The `team` column is the one
      the join path writes, although the port's record does not declare it. */
  datatype PlayerRec = PlayerRec(
    id: Uuid,
    name: string,
    lobbyId: Uuid,
    lastRefresh: Instant,
    payload: Json,
    team: string)

  /** The core's player (`core.Player`). */
  datatype Player = Player(
    id: Uuid,
    name: string,
    lastRefresh: Instant,
    lobbyId: Uuid,
    payload: Json,
    team: string)

  /** The core's lobby (`core.Lobby`): a row with its owner resolved (absent
      when the owner row is missing) and the members of the lobby. */
  datatype Lobby = Lobby(
    id: Uuid,
    status: string,
    name: string,
    owner: Option<Player>,
    password: string,
    difficulty: int,
    missionLength: int,
    crewMembers: int,
    maxPlayers: int,
    expansionPacks: seq<string>,
    players: seq<Player>)

  /** What an operation of the core can fail with. `NilDereference` stands
      for a Go panic on a nil pointer: the source dereferences a lookup that
      came back absent. */
  datatype Error =
    | StoreFailure
    | LobbyAlreadyExists
    | PlayerAlreadyExists
    | LobbyRequestMismatch
    | LobbyIsPlaying
    | WrongLobbyPassword
    | PlayerNotFound
    | NilDereference

  datatype Option<+T> = None | Some(value: T)

  datatype Result<+T> = Ok(value: T) | Err(error: Error)

  /** A Go `error` return: nil or an error. */
  datatype Outcome = Pass | Fail(error: Error)
}
