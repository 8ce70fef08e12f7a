/** The player operations of the core, each running against one transaction
    (`Tx`) and proved to have the effect its function in `PlayerSpec`
    describes. Calls to the chat service are no-ops here; the clock is the
    parameter `now`. */
module PlayerOps {
  import opened Records
  import opened Tables
  import opened Store
  import opened PlayerReads
  import opened LobbySpec
  import opened PlayerSpec
  import LobbyOps

  /** `createPlayer`. */
  method CreatePlayer(tx: Tx, p: Uuid, name: string, l: Uuid, password: string, payload: Json, now: Instant)
    returns (r: Outcome)
    requires tx.Valid()
    modifies tx
    ensures tx.Valid()
    ensures tx.down ==> r == Fail(StoreFailure) && tx.State() == old(tx.State())
    ensures !tx.down ==> (tx.State(), r) == CreatePlayerEffect(old(tx.State()), p, name, l, password, payload, now)
  {
    var found := GetPlayer(tx, p);
    if found.Err? {
      return Fail(found.error);
    }
    if found.value.Some? {
      return Pass;
    }
    var row := tx.GetLobbyById(l);
    if row.Err? {
      return Fail(StoreFailure);
    }
    if row.value.None? {
      return Fail(NilDereference);
    }
    if row.value.value.password != password {
      return Fail(WrongLobbyPassword);
    }
    r := tx.CreatePlayer(PlayerRec(p, name, l, now, payload, ""));
  }

  /** `updatePlayer` as written, with its inverted nil check. */
  method UpdatePlayerAsWritten(tx: Tx, req: Player) returns (r: Outcome)
    requires tx.Valid()
    ensures tx.down ==> r == Fail(StoreFailure)
    ensures !tx.down ==> (tx.State(), r) == UpdatePlayerAsWrittenEffect(tx.State(), req)
  {
    var found := tx.GetPlayerById(req.id);
    if found.Err? {
      return Fail(found.error);
    }
    if found.value.Some? {
      return Pass;
    }
    r := Fail(NilDereference);
  }

  /** `updatePlayer` with the nil check the right way round. */
  method UpdatePlayer(tx: Tx, req: Player, now: Instant) returns (r: Outcome)
    requires tx.Valid()
    modifies tx
    ensures tx.Valid()
    ensures tx.down ==> r == Fail(StoreFailure) && tx.State() == old(tx.State())
    ensures !tx.down ==> (tx.State(), r) == UpdatePlayerEffect(old(tx.State()), req, now)
  {
    var found := tx.GetPlayerById(req.id);
    if found.Err? {
      return Fail(found.error);
    }
    if found.value.None? {
      return Fail(PlayerNotFound);
    }
    var row := found.value.value;
    r := tx.UpdatePlayer(row.(lastRefresh := now, name := req.name, payload := req.payload));
  }

  /** `deletePlayer`: the ownership step of a leave, without removing the
      player's row. */
  method DeletePlayer(tx: Tx, l: Uuid, p: Uuid) returns (r: Outcome, ghost heir: Uuid)
    requires tx.Valid()
    modifies tx
    ensures tx.Valid()
    ensures tx.down ==> r == Fail(StoreFailure) && tx.State() == old(tx.State())
    ensures !tx.down ==> ValidHeir(old(tx.State()), l, p, heir)
    ensures !tx.down ==> (tx.State(), r) == DeletePlayerEffect(old(tx.State()), l, p, heir)
  {
    heir := p;
    var found := GetPlayer(tx, p);
    if found.Err? {
      return Fail(found.error), heir;
    }
    if found.value.None? || found.value.value.lobbyId != l {
      return Pass, heir;
    }
    ghost var db := tx.State();
    var lobby := LobbyOps.GetLobby(tx, l);
    if lobby.Err? {
      return Fail(lobby.error), heir;
    }
    var view := lobby.value;
    if view.owner.None? {
      return Fail(NilDereference), heir;
    }
    r := Pass;
    if view.owner.value.id == p {
      var next := FindPlayerNot(view.players, p);
      FirstNotInLobby(view.players, db, l, p);
      if next.None? {
        r := LobbyOps.DeleteLobby(tx, l);
      } else {
        heir := next.value.id;
        UpdateWithOwnView(db, view, next.value);
        r := LobbyOps.UpdateLobby(tx, view.(owner := next));
      }
    }
  }
}
