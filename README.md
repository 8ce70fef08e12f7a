# TheRedShirts lobby core in Dafny

This project models the lobby and player membership engine of the
TheRedShirts lobby service (`core/lobby.go` and `core/player.go`). It covers
creating, updating, deleting and reading lobbies, joining, leaving and
deleting players, and the ownership hand-over when an owner departs. The
persistence port (`db.DBTx`) is modelled as a class over two tables:

- `Records`: the stored rows (`db.Lobby`, `db.Player`), the core's `Lobby`
  and `Player`, and the errors. A Go panic on a nil pointer is the error
  `NilDereference`.
- `Tables`: the two tables as a value `Db`, the row-level writes, and the
  invariant `Consistent`. It says every player points at an existing lobby
  and every lobby's owner is one of its members.
- `Store`: class `Tx`, one method per port statement. Lookups return a
  missing row as absent, inserts report a taken key as "already exists",
  and a lost connection (`down`) makes every statement fail.
- `PlayerReads`: `mapToPlayer`, `mapToPlayers`, `getPlayer` and the
  `findPlayerNot` search.
- `LobbySpec` and `PlayerSpec`: each operation's effect as a pure function
  from the tables before the call to the tables after it and the outcome,
  with the lemmas that state what the operations promise.
- `LobbyOps` and `PlayerOps`: the operations as methods over a `Tx`. Each
  follows the Go code statement by statement. Each is proved to have exactly
  the effect its function describes when the store answers, and to fail with
  the store's error when it does not.
- `Scenarios`: one lobby's life, from founding, through a join and the
  owner's hand-over, to its deletion.

Writes happen one statement at a time, and a failed operation keeps what it
already wrote. That is what the code does (see Findings).

The code differs from the service's documented design in these ways. The
model follows the code.

- `updateLobby` and `deleteLobby` do not check who is asking. Any caller may
  change or delete any lobby.
- `updateLobby` writes whatever owner id the request names
  (core/lobby.go:66), even a player of another lobby or an unknown id. Such an
  update leaves a lobby that does not hold its owner
  (`LobbySpec.UpdateCanBreakConsistency`). An update whose owner is a member
  of the lobby keeps the invariant (`LobbySpec.UpdateKeepsConsistent`).
- `createPlayer` succeeds and changes nothing for any existing player id.
  It does this whatever name or lobby the request names.
- There are no capacity, spectator or `LobbyFull` checks. The core stages
  and publishes no events.
- `getLobby` dereferences an absent lobby instead of reporting "not found".
- `deletePlayer` hands a lobby over like a leave does, but it keeps the
  departing player's own row (`PlayerSpec.DeletePlayerKeepsMember`,
  `PlayerSpec.DeleteOwnerStaysMember`).
- `joinLobby` for a player who is in another lobby asks `leaveLobby` about
  the target lobby, not the player's own lobby (core/lobby.go:174). That
  leave does nothing, and the insert that follows fails on the duplicate
  id. So a player cannot move between lobbies
  (`LobbySpec.JoinFromOtherLobbyFails`). `LobbyOps.JoinLobbySwitching`
  models the call with the player's own lobby, and
  `LobbySpec.SwitchJoinMoves` proves that the player then moves.
- `core/player.go:115` calls `deleteLobby` with four arguments, but the
  function takes two, and `db.Player` has no team field although the
  player literal at `core/lobby.go:194` sets one. The model gives the lobby delete its two
  arguments and gives the stored player row a team column.
- The core's `Lobby`, `Player` and `Join` types, the status constants
  `lobby_open` and `lobby_playing`, and `mapToDBPlayer` are declared in a
  file that is not part of this model. The types carry the fields the core
  reads from them. The statuses are the strings `"open"` and `"playing"`.
  `mapToDBPlayer` copies every field and sets the given lobby id.

## Model

| member | source | states |
|---|---|---|
| `Store.Tx.CreateLobby` | internal/app/theredshirts/db/lobby.go:45-58 | inserting a lobby whose id is taken fails with "already exists" and writes nothing; otherwise the row is added |
| `Store.Tx.UpdateLobby` | internal/app/theredshirts/db/lobby.go:60-65 | the row with the record's id is replaced; a missing row changes nothing |
| `Store.Tx.DeleteLobby` | internal/app/theredshirts/db/lobby.go:67-72 | exactly the lobby row with that id is removed |
| `Store.Tx.GetLobbyById` | internal/app/theredshirts/db/lobby.go:74-89 | the stored row, or absent (not an error) when there is none |
| `Store.Tx.GetAllLobbies` | internal/app/theredshirts/db/lobby.go:91-98 | every stored lobby row exactly once, in some order |
| `Store.Tx.CreatePlayer` | internal/app/theredshirts/db/player.go:36-49 | inserting a player whose id is taken fails with "already exists" and writes nothing; otherwise the row is added |
| `Store.Tx.UpdatePlayer` | internal/app/theredshirts/db/player.go:51-56 | the row with the record's id is replaced; a missing row changes nothing |
| `Store.Tx.DeletePlayer` | internal/app/theredshirts/db/player.go:65-70 | exactly the player row with that id is removed |
| `Store.Tx.DeleteAllPlayerInLobby` | internal/app/theredshirts/db/player.go:72-77 | every player of the lobby is removed and every other row is kept |
| `Store.Tx.GetPlayerById` | internal/app/theredshirts/db/player.go:79-94 | the stored row, or absent (not an error) when there is none |
| `Store.Tx.GetAllPlayersInLobby` | internal/app/theredshirts/db/player.go:96-103 | the rows of exactly the lobby's members, each once, in some order |
| `Store.Tx.Rollback` | internal/app/theredshirts/db/lobby.go:37-43 | a rollback restores the tables to the snapshot |
| `Tables.DropLobby` | internal/app/theredshirts/core/lobby.go:90-99 | deleting a lobby removes its row and every member's row, keeps every other row, and leaves no player pointing at it |
| `Tables.DropLobbyKeepsConsistent` | internal/app/theredshirts/core/lobby.go:90-99 | deleting a lobby with its players keeps every other lobby's owner inside that lobby |
| `Tables.NonOwnerDropKeepsConsistent` | internal/app/theredshirts/core/lobby.go:233-253 | removing a member who is not the owner keeps the invariant |
| `Tables.HandOverKeepsConsistent` | internal/app/theredshirts/core/lobby.go:241-253 | handing the lobby to another member and removing the old owner keeps the invariant |
| `Tables.SetOwnerKeepsConsistent` | internal/app/theredshirts/core/player.go:118-124 | handing the lobby to another member without removing anyone keeps the invariant |
| `Tables.PutMemberKeepsConsistent` | internal/app/theredshirts/core/lobby.go:177-196 | inserting a player into an existing lobby, or rewriting a row in place, keeps the invariant |
| `Tables.NewLobbyWithOwnerKeepsConsistent` | internal/app/theredshirts/core/lobby.go:22-45 | a new lobby inserted together with its owner's row keeps the invariant |
| `Tables.SoleMemberGoesWithLobby` | internal/app/theredshirts/core/lobby.go:236-253 | when the owner is the only member, deleting the lobby already removes the owner's row, so the final player delete changes nothing |
| `PlayerReads.MapToPlayer` | internal/app/theredshirts/core/player.go:137-142 | a row read as a player and written back into its lobby loses only its team |
| `PlayerReads.PlayerRoundTrip` | internal/app/theredshirts/core/player.go:137-142 | a player written as a row of a lobby and read back is the player moved to that lobby, without its team |
| `PlayerReads.MapToPlayers` | internal/app/theredshirts/core/player.go:144-150 | one player per row, in the same order |
| `PlayerReads.MappedListingShowsMembers` | internal/app/theredshirts/core/lobby.go:115-125 | mapping a lobby's listed rows gives each member's view exactly once |
| `PlayerReads.FirstNot` | internal/app/theredshirts/core/player.go:152-159 | nothing is found exactly when every id equals the excluded one; a found player has another id and comes before every other such player |
| `PlayerReads.FindPlayerNot` | internal/app/theredshirts/core/player.go:152-159 | the scan returns the first player whose id differs |
| `PlayerReads.FirstNotInLobby` | internal/app/theredshirts/core/lobby.go:233-247 | over a lobby's members, nobody is found exactly when the owner is alone; otherwise another member is found |
| `PlayerReads.GetPlayer` | internal/app/theredshirts/core/player.go:129-135 | the mapped player, or absent for an unknown id, or the store's error |
| `LobbySpec.MapToDBLobby` | internal/app/theredshirts/core/lobby.go:262-264 | the stored row carries the same eight fields an update copies from a request onto any row, which keeps its own id, status and payload |
| `LobbySpec.MapToLobby` | internal/app/theredshirts/core/lobby.go:266-268 | a row read as a lobby with the owner it names and written back loses only its payload |
| `LobbySpec.LobbyRoundTrip` | internal/app/theredshirts/core/lobby.go:262-268 | a lobby stored and read back with the same owner and players is unchanged |
| `LobbySpec.UpdateEffect` | internal/app/theredshirts/core/lobby.go:54-79 | the update succeeds exactly when the lobby exists, is not playing and has an owner in the request; a failure writes nothing; success sets exactly name, difficulty, owner, password, mission length, crew, max players and expansions, and keeps id, status and payload |
| `LobbySpec.UpdateIsIdempotent` | internal/app/theredshirts/core/lobby.go:54-79 | repeating a successful update changes nothing more |
| `LobbySpec.UpdateKeepsConsistent` | internal/app/theredshirts/core/lobby.go:54-79 | an update whose owner is a member of the lobby keeps the invariant |
| `LobbySpec.UpdateCanBreakConsistency` | internal/app/theredshirts/core/lobby.go:66 | an update naming an owner who has no row succeeds and leaves a lobby that does not hold its owner |
| `LobbySpec.UpdateWithOwnView` | internal/app/theredshirts/core/lobby.go:241-246 | updating a lobby from its own view with a new owner changes only the owner column, or fails when the lobby is playing |
| `LobbySpec.HeirIsOtherMember` | internal/app/theredshirts/core/lobby.go:233-243 | the member found to inherit is another member of the lobby |
| `LobbySpec.LeaveOutcome` | internal/app/theredshirts/core/lobby.go:211-260 | a leave fails, writing nothing, exactly when an owner with company leaves a playing lobby; a non-owner leave removes only that row; an owner alone deletes the lobby with its rows whatever its status; an owner with company in an open lobby hands it to the heir and removes its own row; after a successful leave the player is gone and the lobby is gone or owned by another former member |
| `LobbySpec.LeaveKeepsConsistent` | internal/app/theredshirts/core/lobby.go:211-260 | every leave keeps the invariant |
| `LobbySpec.RejoinRefreshes` | internal/app/theredshirts/core/lobby.go:172-184 | a member joining its own lobby again passes without a password check; only its refresh time and team change |
| `LobbySpec.JoinPasswordGate` | internal/app/theredshirts/core/lobby.go:187-196 | a newcomer gets `WrongLobbyPassword` and no row exactly when the password differs; otherwise a row in the lobby stamped with now |
| `LobbySpec.JoinFromOtherLobbyFails` | internal/app/theredshirts/core/lobby.go:172-177 | a player of another lobby cannot join: the call fails and writes nothing |
| `LobbySpec.JoinKeepsConsistent` | internal/app/theredshirts/core/lobby.go:165-201 | every join keeps the invariant |
| `LobbySpec.SwitchJoinMoves` | internal/app/theredshirts/core/lobby.go:172-177 | when the leave names the player's own lobby, a player who has left it joins the target exactly when the target exists and the password matches |
| `LobbySpec.SwitchJoinKeepsConsistent` | internal/app/theredshirts/core/lobby.go:165-201 | the lobby switch keeps the invariant |
| `LobbySpec.OwnerPassesPasswordGate` | internal/app/theredshirts/core/lobby.go:40 | creating a lobby never fails the owner's join on the password |
| `LobbySpec.CreateConflict` | internal/app/theredshirts/core/lobby.go:25-37 | a taken id with another name or password fails with a mismatch before anything is written or joined |
| `LobbySpec.CreateStoresOpen` | internal/app/theredshirts/core/lobby.go:14-25 | a new lobby is stored as requested but with status open, whatever status was requested |
| `LobbySpec.CreateIsIdempotent` | internal/app/theredshirts/core/lobby.go:22-45 | repeating a successful create succeeds again and adds no row; only the owner's refresh time moves |
| `LobbySpec.CreateKeepsConsistent` | internal/app/theredshirts/core/lobby.go:22-45 | a successful create keeps the invariant |
| `LobbySpec.FailedCreateLeavesOrphan` | internal/app/theredshirts/core/lobby.go:14-45 | a create whose owner already plays elsewhere fails but leaves the new lobby row without its owner |
| `LobbySpec.AtomicCreateKeepsConsistent` | internal/app/theredshirts/core/lobby.go:14-20 | with a rollback on failure, every create keeps the invariant |
| `LobbyOps.GetLobby` | internal/app/theredshirts/core/lobby.go:109-126 | the stored lobby with its resolved owner and all its members; an absent lobby is a nil dereference |
| `LobbyOps.GetLobbies` | internal/app/theredshirts/core/lobby.go:128-153 | every stored lobby exactly once, each read as `GetLobby` reads it |
| `LobbyOps.UpdateLobby` | internal/app/theredshirts/core/lobby.go:54-79 | the statements have the update's effect |
| `LobbyOps.DeleteLobby` | internal/app/theredshirts/core/lobby.go:90-99 | deletes the players, then the lobby row |
| `LobbyOps.LeaveLobby` | internal/app/theredshirts/core/lobby.go:211-260 | the statements have the leave's effect, with the heir the first other member in the store's listing |
| `LobbyOps.JoinLobby` | internal/app/theredshirts/core/lobby.go:165-201 | the statements have the join's effect |
| `LobbyOps.JoinLobbySwitching` | internal/app/theredshirts/core/lobby.go:165-201 | the join with the leave asking about the player's own lobby |
| `LobbyOps.CreateLobbyInTx` | internal/app/theredshirts/core/lobby.go:22-45 | the statements have the create's effect; a missing owner is dereferenced before any statement |
| `LobbyOps.CreateLobby` | internal/app/theredshirts/core/lobby.go:14-20 | the create with the status forced to open, and no rollback |
| `LobbyOps.CreateLobbyAtomic` | internal/app/theredshirts/core/lobby.go:14-20 | the create with its failed writes rolled back |
| `PlayerSpec.CreateExistingPlayerIsNoOp` | internal/app/theredshirts/core/player.go:25-32 | creating an existing player succeeds and changes nothing, whatever the name or lobby |
| `PlayerSpec.CreateNewPlayer` | internal/app/theredshirts/core/player.go:34-47 | a new player is created exactly when the lobby exists and the password matches, with the given id, name, lobby and payload and refresh time now, and every other row kept; otherwise nothing is written, an absent lobby is a nil dereference and a wrong password gives `WrongLobbyPassword` |
| `PlayerSpec.CreatePlayerKeepsConsistent` | internal/app/theredshirts/core/player.go:23-48 | every player create keeps the invariant |
| `PlayerSpec.UpdatePlayerAsWrittenLosesUpdate` | internal/app/theredshirts/core/player.go:60-78 | as written, updating a stored player reports success and leaves its name unchanged |
| `PlayerSpec.UpdatePlayerApplies` | internal/app/theredshirts/core/player.go:60-78 | the corrected update gives the player the requested name and payload and refresh time now, keeps its lobby and team and every other row, and reports a missing player |
| `PlayerSpec.UpdatePlayerKeepsConsistent` | internal/app/theredshirts/core/player.go:60-78 | the corrected update keeps the invariant |
| `PlayerSpec.DeletePlayerKeepsMember` | internal/app/theredshirts/core/player.go:88-127 | deleting a non-owner succeeds and changes nothing, where a leave would remove the row |
| `PlayerSpec.DeleteOwnerStaysMember` | internal/app/theredshirts/core/player.go:110-124 | a deleted owner with company changes only the owner column, to the heir, and stays a member; in a playing lobby the call fails and writes nothing |
| `PlayerSpec.DeleteSoleOwnerDropsLobby` | internal/app/theredshirts/core/player.go:110-117 | a deleted owner who is alone deletes the lobby, and its own row goes with it |
| `PlayerSpec.DeletePlayerKeepsConsistent` | internal/app/theredshirts/core/player.go:88-127 | every player delete keeps the invariant |
| `PlayerOps.CreatePlayer` | internal/app/theredshirts/core/player.go:23-48 | the statements have the player create's effect |
| `PlayerOps.UpdatePlayerAsWritten` | internal/app/theredshirts/core/player.go:60-78 | as written: a found player is left untouched with success; a missing one is dereferenced |
| `PlayerOps.UpdatePlayer` | internal/app/theredshirts/core/player.go:60-78 | the corrected update's statements have its effect |
| `PlayerOps.DeletePlayer` | internal/app/theredshirts/core/player.go:88-127 | the statements have the player delete's effect, with the heir the first other member in the store's listing |
| `Scenarios.HandOverScenario` | internal/app/theredshirts/core/lobby.go:211-260 | founding, a join, the owner's leave (the other player inherits) and the last leave (the lobby disappears) |

## Left out

- The HTTP layer (`api/`), configuration, logging and process start-up are not part of this model.
- The SQL adapters are replaced by the two-table store. Their column losses (the lobby update persists only name, password and difficulty) and the spectator count query are not modelled.
- Transactions are not modelled as database I/O. The lobby adapters execute on the connection pool (db/lobby.go:45-98), and the player adapters on the transaction (db/player.go:36-103). The model lets every statement take effect when it runs. The handler never rolls back (see Findings), so the difference is not visible in the code as written.
- `LobbyOps.CreateLobbyAtomic`: its rollback restores both tables. A rollback of the real transaction would undo only the player statements, because the lobby row is written on the pool.
- Error messages are not modelled. The core wraps errors with `%v`, so callers can distinguish only `ErrWrongLobbyPassword`. The model keeps one error kind per failure cause.
- The chat service calls always return nil and are no-ops here. The messaging adapter, events and the scavenger (never started) are not part of this model.
- `time.Now()` is the parameter `now`. Identifiers are natural numbers. Payload maps are a JSON-like datatype.
- Concurrent requests are not modelled. Each operation runs alone on the store, while the real lobby statements run on the pool without isolation from other requests, so interleavings (two owners leaving at once, a join racing a delete) are not covered.
- A lost connection is modelled as one that fails every statement of the operation. A connection that fails partway through an operation is not modelled.
- The order in which the store lists rows is chosen nondeterministically. Which member inherits a lobby is therefore only known to be the first other member of some listing (`LobbySpec.ValidHeir`).

## Findings

| source | as written | input that shows it | evidently intended | confidence | as-written member | corrected member |
|---|---|---|---|---|---|---|
| internal/app/theredshirts/core/player.go:67 | `updatePlayer` returns early when the player is found, then writes through the nil pointer | a stored player with a new name: success, name unchanged; an unknown id: nil dereference | update the found player and report a missing one | high; not executed | `PlayerOps.UpdatePlayerAsWritten`, `PlayerSpec.UpdatePlayerAsWrittenLosesUpdate` | `PlayerOps.UpdatePlayer`, `PlayerSpec.UpdatePlayerApplies` |
| internal/app/theredshirts/core/lobby.go:16 | `defer tx.HandleTransaction(err)` evaluates `err` when the defer runs, so a failed operation is never rolled back | creating a new lobby whose owner is already in another lobby: the join fails with "already exists", and the new lobby row stays with no owner member. This shows the defect in the model's single transactional store; with the real adapters that row is written on the pool (db/lobby.go:45-46) and would stay even after a correct rollback (see `LobbyOps.CreateLobbyAtomic` under Left out) | roll back when the operation returns an error | high; not executed | `LobbyOps.CreateLobby`, `LobbySpec.FailedCreateLeavesOrphan` | `LobbyOps.CreateLobbyAtomic`, `LobbySpec.AtomicCreateKeepsConsistent` |
| internal/app/theredshirts/core/lobby.go:174 | a player in another lobby is asked to leave the target lobby, which does nothing | a player of lobby A joins lobby B with the right password: the insert fails on the duplicate id | leave the player's own lobby first, then join | high; not executed | `LobbyOps.JoinLobby`, `LobbySpec.JoinFromOtherLobbyFails` | `LobbyOps.JoinLobbySwitching`, `LobbySpec.SwitchJoinMoves` |
