/** What each player operation of the core does to the two tables, as a pure
    function of the tables before the call (the connection being up), with
    the lemmas that state what those effects promise. */
module PlayerSpec {
  import opened Records
  import opened Tables
  import opened PlayerReads
  import opened LobbySpec

  // createPlayer

  /** `createPlayer`: a player that already has a row is left alone, whatever
      name or lobby the request names; otherwise the lobby must exist and its
      password must match, and a fresh row without a team is inserted. */
  function CreatePlayerEffect(db: Db, p: Uuid, name: string, l: Uuid, password: string, payload: Json, now: Instant)
    : (Db, Outcome)
  {
    if p in db.players then (db, Pass)
    else if l !in db.lobbies then (db, Fail(NilDereference))
    else if db.lobbies[l].password != password then (db, Fail(WrongLobbyPassword))
    else (PutPlayer(db, PlayerRec(p, name, l, now, payload, "")), Pass)
  }

  /** Creating a player that already exists succeeds and changes nothing, so
      a retried create is harmless, but a request for another lobby or name
      is silently ignored. */
  lemma CreateExistingPlayerIsNoOp(db: Db, p: Uuid, name: string, l: Uuid, password: string, payload: Json, now: Instant)
    requires p in db.players
    ensures CreatePlayerEffect(db, p, name, l, password, payload, now) == (db, Pass)
  {
  }

  /** For a new player: success exactly when the lobby exists and the
      password matches; an absent lobby is dereferenced, and a wrong password
      is reported as such, with nothing written. On success the player is a
      member of that lobby with the request's name and payload, stamped with
      `now`. */
  lemma CreateNewPlayer(db: Db, p: Uuid, name: string, l: Uuid, password: string, payload: Json, now: Instant)
    requires WellKeyed(db) && p !in db.players
    ensures var (after, r) := CreatePlayerEffect(db, p, name, l, password, payload, now);
      && (r == Pass <==> l in db.lobbies && db.lobbies[l].password == password)
      && (l !in db.lobbies ==> r == Fail(NilDereference))
      && (l in db.lobbies && db.lobbies[l].password != password ==> r == Fail(WrongLobbyPassword))
      && (r != Pass ==> after == db)
      && (r == Pass ==>
            && IsMember(after, p, l)
            && MapToPlayer(after.players[p]) == Player(p, name, now, l, payload, "")
            && MembersOf(after, l) == MembersOf(db, l) + {p}
            && after == PutPlayer(db, PlayerRec(p, name, l, now, payload, "")))
  {
  }

  lemma CreatePlayerKeepsConsistent(db: Db, p: Uuid, name: string, l: Uuid, password: string, payload: Json, now: Instant)
    requires Consistent(db)
    ensures Consistent(CreatePlayerEffect(db, p, name, l, password, payload, now).0)
  {
    if p !in db.players && l in db.lobbies && db.lobbies[l].password == password {
      PutMemberKeepsConsistent(db, PlayerRec(p, name, l, now, payload, ""));
    }
  }

  // updatePlayer

  /** `updatePlayer` as written: the nil check is inverted, so a player that
      is found is returned from untouched and a missing one is
      dereferenced. */
  function UpdatePlayerAsWrittenEffect(db: Db, req: Player): (Db, Outcome) {
    if req.id in db.players then (db, Pass) else (db, Fail(NilDereference))
  }

  /** The update as written never changes anything: a stored player keeps
      its old name and payload even though the call reports success. */
  lemma UpdatePlayerAsWrittenLosesUpdate(db: Db, req: Player)
    requires req.id in db.players && db.players[req.id].name != req.name
    ensures var (after, r) := UpdatePlayerAsWrittenEffect(db, req);
      r == Pass && after.players[req.id].name != req.name
  {
  }

  /** `updatePlayer` as evidently intended: the stored player takes the
      request's name and payload and is refreshed at `now`; a missing player
      is reported. */
  function UpdatePlayerEffect(db: Db, req: Player, now: Instant): (Db, Outcome) {
    if req.id !in db.players then (db, Fail(PlayerNotFound))
    else (PutPlayer(db, db.players[req.id].(lastRefresh := now, name := req.name, payload := req.payload)), Pass)
  }

  /** The intended update: the stored player shows the requested name and
      payload, stays in its lobby with its team, and every other row is
      kept. */
  lemma UpdatePlayerApplies(db: Db, req: Player, now: Instant)
    requires WellKeyed(db)
    ensures var (after, r) := UpdatePlayerEffect(db, req, now);
      && (r == Pass <==> req.id in db.players)
      && (r != Pass ==> after == db && r == Fail(PlayerNotFound))
      && (r == Pass ==>
            && var before, updated := MapToPlayer(db.players[req.id]), MapToPlayer(after.players[req.id]);
            && updated == before.(name := req.name, payload := req.payload, lastRefresh := now)
            && after.players[req.id].team == db.players[req.id].team
            && after.lobbies == db.lobbies
            && after.players.Keys == db.players.Keys
            && forall q | q in db.players && q != req.id :: after.players[q] == db.players[q])
  {
  }

  lemma UpdatePlayerKeepsConsistent(db: Db, req: Player, now: Instant)
    requires Consistent(db)
    ensures Consistent(UpdatePlayerEffect(db, req, now).0)
  {
    if req.id in db.players {
      var row := db.players[req.id];
      PutMemberKeepsConsistent(db, row.(lastRefresh := now, name := req.name, payload := req.payload));
    }
  }

  // deletePlayer

  /** `deletePlayer`: like a leave, but without the final delete of the
      player's own row. */
  function DeletePlayerEffect(db: Db, l: Uuid, p: Uuid, heir: Uuid): (Db, Outcome) {
    if !IsMember(db, p, l) then (db, Pass) else HandOverEffect(db, l, p, heir)
  }

  /** A member who does not own the lobby is not removed: the call succeeds
      and nothing changes, where a leave removes the row. */
  lemma DeletePlayerKeepsMember(db: Db, l: Uuid, p: Uuid, heir: Uuid)
    requires Consistent(db) && IsMember(db, p, l) && db.lobbies[l].owner != p
    ensures DeletePlayerEffect(db, l, p, heir) == (db, Pass)
    ensures LeaveEffect(db, l, p, heir).1 == Pass && p !in LeaveEffect(db, l, p, heir).0.players
  {
  }

  /** An owner with company hands the lobby over, changing only the owner
      column and staying a member itself; in a playing lobby the call fails
      and writes nothing. */
  lemma DeleteOwnerStaysMember(db: Db, l: Uuid, p: Uuid, heir: Uuid)
    requires Consistent(db) && IsMember(db, p, l) && db.lobbies[l].owner == p
    requires MembersOf(db, l) - {p} != {}
    ensures db.lobbies[l].status == LobbyPlaying ==> DeletePlayerEffect(db, l, p, heir) == (db, Fail(LobbyIsPlaying))
    ensures db.lobbies[l].status != LobbyPlaying ==>
      && DeletePlayerEffect(db, l, p, heir) == (SetOwner(db, l, heir), Pass)
      && IsMember(SetOwner(db, l, heir), p, l) && SetOwner(db, l, heir).lobbies[l].owner == heir
  {
  }

  /** An owner who is alone in the lobby deletes it, and its own row goes
      with the lobby's. */
  lemma DeleteSoleOwnerDropsLobby(db: Db, l: Uuid, p: Uuid, heir: Uuid)
    requires Consistent(db) && MembersOf(db, l) == {p} && l in db.lobbies
    ensures DeletePlayerEffect(db, l, p, heir) == (DropLobby(db, l), Pass)
    ensures p !in DropLobby(db, l).players
  {
    OwnerIsMember(db, l);
    SoleMemberGoesWithLobby(db, l, p);
  }

  /** Deleting keeps the invariant (the player's row is simply kept). */
  lemma DeletePlayerKeepsConsistent(db: Db, l: Uuid, p: Uuid, heir: Uuid)
    requires Consistent(db) && ValidHeir(db, l, p, heir)
    ensures Consistent(DeletePlayerEffect(db, l, p, heir).0)
  {
    if IsMember(db, p, l) {
      OwnerIsMember(db, l);
      if db.lobbies[l].owner == p {
        if MembersOf(db, l) - {p} == {} {
          DropLobbyKeepsConsistent(db, l);
        } else if db.lobbies[l].status != LobbyPlaying {
          HeirIsOtherMember(db, l, p, heir);
          SetOwnerKeepsConsistent(db, l, heir);
        }
      }
    }
  }
}
