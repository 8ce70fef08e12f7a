/** The lobby operations of the core, each running against one transaction
    (`Tx`). Every operation is proved to have the effect its function in
    `LobbySpec` describes when the store answers, and to fail with the
    store's error, writing nothing, when it does not. Calls to the chat
    service are no-ops here; the clock is the parameter `now`. */
module LobbyOps {
  import opened Records
  import opened Tables
  import opened Store
  import opened PlayerReads
  import opened LobbySpec

  /** `getLobby`: loads the lobby row, the rows of its members and its
      owner's row; an absent lobby is dereferenced. */
  method GetLobby(tx: Tx, l: Uuid) returns (r: Result<Lobby>)
    requires tx.Valid()
    ensures tx.down ==> r == Err(StoreFailure)
    ensures !tx.down && l !in tx.lobbies ==> r == Err(NilDereference)
    ensures !tx.down && l in tx.lobbies ==> r.Ok? && r.value.id == l && Shows(tx.State(), r.value)
  {
    var row := tx.GetLobbyById(l);
    if row.Err? {
      return Err(row.error);
    }
    var rows := tx.GetAllPlayersInLobby(l);
    if rows.Err? {
      return Err(StoreFailure);
    }
    if row.value.None? {
      return Err(NilDereference);
    }
    var lobby := row.value.value;
    var owner := GetPlayer(tx, lobby.owner);
    if owner.Err? {
      return Err(StoreFailure);
    }
    var ps := MapToPlayers(rows.value);
    MappedListingShowsMembers(rows.value, ps, tx.State(), l);
    r := Ok(MapToLobby(lobby, owner.value, ps));
  }

  /** `GetLobbies`: every lobby, each read as `getLobby` reads one, in the
      order the store lists them. */
  method GetLobbies(tx: Tx) returns (r: Result<seq<Lobby>>)
    requires tx.Valid()
    ensures tx.down ==> r == Err(StoreFailure)
    ensures !tx.down ==> r.Ok?
    ensures r.Ok? ==>
      && (forall i | 0 <= i < |r.value| :: Shows(tx.State(), r.value[i]))
      && (forall i, j | 0 <= i < j < |r.value| :: r.value[i].id != r.value[j].id)
      && (forall l | l in tx.lobbies :: exists i | 0 <= i < |r.value| :: r.value[i].id == l)
  {
    var rows := tx.GetAllLobbies();
    if rows.Err? {
      return Err(rows.error);
    }
    var all := rows.value;
    var out: seq<Lobby> := [];
    for k := 0 to |all|
      invariant |out| == k
      invariant forall i | 0 <= i < k :: out[i].id == all[i].id && Shows(tx.State(), out[i])
    {
      var members := tx.GetAllPlayersInLobby(all[k].id);
      if members.Err? {
        return Err(StoreFailure);
      }
      var owner := GetPlayer(tx, all[k].owner);
      if owner.Err? {
        return Err(StoreFailure);
      }
      var ps := MapToPlayers(members.value);
      MappedListingShowsMembers(members.value, ps, tx.State(), all[k].id);
      out := out + [MapToLobby(all[k], owner.value, ps)];
    }
    forall l | l in tx.lobbies ensures exists i | 0 <= i < |out| :: out[i].id == l {
      assert l in LobbyIds(all);
      var i :| 0 <= i < |all| && all[i].id == l;
      assert out[i].id == l;
    }
    r := Ok(out);
  }

  /** `updateLobby`. */
  method UpdateLobby(tx: Tx, req: Lobby) returns (r: Outcome)
    requires tx.Valid()
    modifies tx
    ensures tx.Valid()
    ensures tx.down ==> r == Fail(StoreFailure) && tx.State() == old(tx.State())
    ensures !tx.down ==> (tx.State(), r) == UpdateEffect(old(tx.State()), req)
  {
    var row := tx.GetLobbyById(req.id);
    if row.Err? {
      return Fail(row.error);
    }
    if row.value.None? {
      return Fail(NilDereference);
    }
    var stored := row.value.value;
    if stored.status == LobbyPlaying {
      return Fail(LobbyIsPlaying);
    }
    if req.owner.None? {
      return Fail(NilDereference);
    }
    r := tx.UpdateLobby(Overwrite(stored, req, req.owner.value.id));
  }

  /** `deleteLobby`: the lobby's players first, then the lobby row. */
  method DeleteLobby(tx: Tx, l: Uuid) returns (r: Outcome)
    requires tx.Valid()
    modifies tx
    ensures tx.Valid()
    ensures tx.down ==> r == Fail(StoreFailure) && tx.State() == old(tx.State())
    ensures !tx.down ==> r == Pass && tx.State() == DropLobby(old(tx.State()), l)
  {
    r := tx.DeleteAllPlayerInLobby(l);
    if r.Fail? {
      return;
    }
    r := tx.DeleteLobby(l);
  }

  /** `leaveLobby`. The returned `heir` is the member that inherits the
      lobby when its owner leaves; which member that is depends on the order
      the store lists the members in. */
  method LeaveLobby(tx: Tx, l: Uuid, p: Uuid) returns (r: Outcome, ghost heir: Uuid)
    requires tx.Valid()
    modifies tx
    ensures tx.Valid()
    ensures tx.down ==> r == Fail(StoreFailure) && tx.State() == old(tx.State())
    ensures !tx.down ==> ValidHeir(old(tx.State()), l, p, heir)
    ensures !tx.down ==> (tx.State(), r) == LeaveEffect(old(tx.State()), l, p, heir)
  {
    heir := p;
    var found := GetPlayer(tx, p);
    if found.Err? {
      return Fail(found.error), heir;
    }
    if found.value.None? || found.value.value.lobbyId != l {
      return Pass, heir;
    }
    ghost var db := tx.State();
    var lobby := GetLobby(tx, l);
    if lobby.Err? {
      return Fail(lobby.error), heir;
    }
    var view := lobby.value;
    if view.owner.None? {
      return Fail(NilDereference), heir;
    }
    if view.owner.value.id == p {
      var next := FindPlayerNot(view.players, p);
      FirstNotInLobby(view.players, db, l, p);
      if next.None? {
        var d := DeleteLobby(tx, l);
        if d.Fail? {
          return d, heir;
        }
      } else {
        heir := next.value.id;
        UpdateWithOwnView(db, view, next.value);
        var u := UpdateLobby(tx, view.(owner := next));
        if u.Fail? {
          return u, heir;
        }
      }
    }
    r := tx.DeletePlayer(p);
  }

  /** `joinLobby`. */
  method JoinLobby(tx: Tx, p: Uuid, name: string, team: string, l: Uuid, password: string, now: Instant)
    returns (r: Outcome)
    requires tx.Valid()
    modifies tx
    ensures tx.Valid()
    ensures tx.down ==> r == Fail(StoreFailure) && tx.State() == old(tx.State())
    ensures !tx.down ==> (tx.State(), r) == JoinEffect(old(tx.State()), p, name, team, l, password, now)
  {
    var found := GetPlayer(tx, p);
    if found.Err? {
      return Fail(found.error);
    }
    if found.value.Some? {
      var player := found.value.value;
      if l != player.lobbyId {
        var left;
        ghost var heir;
        left, heir := LeaveLobby(tx, l, p);
        if left.Fail? {
          return left;
        }
      } else {
        r := tx.UpdatePlayer(MapToDBPlayer(player.(lastRefresh := now, team := team), l));
        return;
      }
    }
    var row := tx.GetLobbyById(l);
    if row.Err? {
      return Fail(StoreFailure);
    }
    if row.value.None? {
      return Fail(NilDereference);
    }
    if row.value.value.password != password {
      return Fail(WrongLobbyPassword);
    }
    r := tx.CreatePlayer(PlayerRec(p, name, l, now, Null, team));
  }

  /** `joinLobby` with the leave asked about the lobby the player is in. */
  method JoinLobbySwitching(tx: Tx, p: Uuid, name: string, team: string, l: Uuid, password: string, now: Instant)
    returns (r: Outcome, ghost heir: Uuid)
    requires tx.Valid()
    modifies tx
    ensures tx.Valid()
    ensures tx.down ==> r == Fail(StoreFailure) && tx.State() == old(tx.State())
    ensures !tx.down && p in old(tx.players) && old(tx.players)[p].lobbyId != l ==>
              ValidHeir(old(tx.State()), old(tx.players)[p].lobbyId, p, heir)
    ensures !tx.down ==> (tx.State(), r) == SwitchJoinEffect(old(tx.State()), p, name, team, l, password, now, heir)
  {
    heir := p;
    var found := GetPlayer(tx, p);
    if found.Err? {
      return Fail(found.error), heir;
    }
    if found.value.Some? {
      var player := found.value.value;
      if l != player.lobbyId {
        var left;
        left, heir := LeaveLobby(tx, player.lobbyId, p);
        if left.Fail? {
          return left, heir;
        }
      } else {
        r := tx.UpdatePlayer(MapToDBPlayer(player.(lastRefresh := now, team := team), l));
        return;
      }
    }
    var row := tx.GetLobbyById(l);
    if row.Err? {
      return Fail(StoreFailure), heir;
    }
    if row.value.None? {
      return Fail(NilDereference), heir;
    }
    if row.value.value.password != password {
      return Fail(WrongLobbyPassword), heir;
    }
    r := tx.CreatePlayer(PlayerRec(p, name, l, now, Null, team));
  }

  /** `createLobby`: inserts the lobby row, or accepts an existing row with
      the same name and password, then joins the owner. */
  method CreateLobbyInTx(tx: Tx, lobby: Lobby, now: Instant) returns (r: Outcome)
    requires tx.Valid()
    modifies tx
    ensures tx.Valid()
    ensures tx.down ==> tx.State() == old(tx.State())
    ensures tx.down ==> r == if lobby.owner.None? then Fail(NilDereference) else Fail(StoreFailure)
    ensures !tx.down ==> (tx.State(), r) == CreateLobbyEffect(old(tx.State()), lobby, now)
  {
    if lobby.owner.None? {
      return Fail(NilDereference);
    }
    var inserted := tx.CreateLobby(MapToDBLobby(lobby));
    if inserted.Fail? {
      if inserted.error != LobbyAlreadyExists {
        return Fail(inserted.error);
      }
      var row := tx.GetLobbyById(lobby.id);
      if row.Err? {
        return Fail(StoreFailure);
      }
      if row.value.None? {
        return Fail(NilDereference);
      }
      var found := row.value.value;
      if lobby.name != found.name || lobby.password != found.password {
        return Fail(LobbyRequestMismatch);
      }
    }
    var owner := lobby.owner.value;
    r := JoinLobby(tx, owner.id, owner.name, owner.team, lobby.id, lobby.password, now);
  }

  /** `CreateLobby`: a new lobby is always stored as open. */
  method CreateLobby(tx: Tx, lobby: Lobby, now: Instant) returns (r: Outcome)
    requires tx.Valid()
    modifies tx
    ensures tx.Valid()
    ensures tx.down ==> tx.State() == old(tx.State())
    ensures tx.down ==> r == if lobby.owner.None? then Fail(NilDereference) else Fail(StoreFailure)
    ensures !tx.down ==> (tx.State(), r) == CreateLobbyEffect(old(tx.State()), lobby.(status := LobbyOpen), now)
  {
    r := CreateLobbyInTx(tx, lobby.(status := LobbyOpen), now);
  }

  /** `CreateLobby` with the rollback its transaction handler is meant to
      perform when the operation fails. */
  method CreateLobbyAtomic(tx: Tx, lobby: Lobby, now: Instant) returns (r: Outcome)
    requires tx.Valid()
    modifies tx
    ensures tx.Valid()
    ensures tx.down ==> tx.State() == old(tx.State())
    ensures tx.down ==> r == if lobby.owner.None? then Fail(NilDereference) else Fail(StoreFailure)
    ensures !tx.down ==> (tx.State(), r) == AtomicCreateEffect(old(tx.State()), lobby.(status := LobbyOpen), now)
  {
    var saved := tx.State();
    r := CreateLobby(tx, lobby, now);
    if r.Fail? {
      tx.Rollback(saved);
    }
  }
}
