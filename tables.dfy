/** The contents of the store as a value: the lobby table and the player
    table, each keyed by its primary key, with the row-level writes the core
    issues and the consistency the service's design asks of the two tables. */
module Tables {
  import opened Records

  datatype Db = Db(lobbies: map<Uuid, LobbyRec>, players: map<Uuid, PlayerRec>)

  /** Every row is filed under its own id (the primary key). */
  ghost predicate WellKeyed(db: Db) {
    && (forall l | l in db.lobbies :: db.lobbies[l].id == l)
    && (forall p | p in db.players :: db.players[p].id == p)
  }

  /** Player `p` has a row, and the row points at lobby `l`. */
  predicate IsMember(db: Db, p: Uuid, l: Uuid) {
    p in db.players && db.players[p].lobbyId == l
  }

  /** The members of lobby `l`, as a set. */
  function MembersOf(db: Db, l: Uuid): (ms: set<Uuid>)
    ensures forall p :: p in ms <==> IsMember(db, p, l)
  {
    set p | p in db.players && IsMember(db, p, l)
  }

  /** The design's invariant: every player belongs to an existing lobby and
      every lobby's owner is one of its own players, so no lobby is empty. */
  ghost predicate Consistent(db: Db) {
    && WellKeyed(db)
    && (forall p | p in db.players :: db.players[p].lobbyId in db.lobbies)
    && (forall l | l in db.lobbies :: IsMember(db, db.lobbies[l].owner, l))
  }

  // Row-level writes

  /** INSERT or UPDATE of one lobby row. */
  function PutLobby(db: Db, rec: LobbyRec): (r: Db)
    ensures WellKeyed(db) ==> WellKeyed(r)
    ensures r.players == db.players && rec.id in r.lobbies && r.lobbies[rec.id] == rec
    ensures forall l | l != rec.id :: (l in r.lobbies <==> l in db.lobbies)
  {
    db.(lobbies := db.lobbies[rec.id := rec])
  }

  /** INSERT or UPDATE of one player row. */
  function PutPlayer(db: Db, rec: PlayerRec): (r: Db)
    ensures WellKeyed(db) ==> WellKeyed(r)
    ensures r.lobbies == db.lobbies && rec.id in r.players && r.players[rec.id] == rec
    ensures forall p | p != rec.id :: (p in r.players <==> p in db.players)
  {
    db.(players := db.players[rec.id := rec])
  }

  /** DELETE of one player row; deleting an absent row changes nothing. */
  function DropPlayer(db: Db, p: Uuid): (r: Db)
    ensures WellKeyed(db) ==> WellKeyed(r)
    ensures r.lobbies == db.lobbies && r.players.Keys == db.players.Keys - {p}
    ensures p !in db.players ==> r == db
  {
    db.(players := db.players - {p})
  }

  /** DELETE of every player row that points at lobby `l`. */
  function DropMembers(db: Db, l: Uuid): (r: Db)
    ensures WellKeyed(db) ==> WellKeyed(r)
    ensures r.lobbies == db.lobbies && MembersOf(r, l) == {}
    ensures forall p :: p in r.players <==> p in db.players && p !in MembersOf(db, l)
    ensures forall p | p in r.players :: r.players[p] == db.players[p]
  {
    db.(players := map p | p in db.players && db.players[p].lobbyId != l :: db.players[p])
  }

  /** DELETE of one lobby row; deleting an absent row changes nothing. */
  function DropLobbyRow(db: Db, l: Uuid): (r: Db)
    ensures WellKeyed(db) ==> WellKeyed(r)
    ensures r.players == db.players && r.lobbies.Keys == db.lobbies.Keys - {l}
    ensures l !in db.lobbies ==> r == db
  {
    db.(lobbies := db.lobbies - {l})
  }

  /** Deleting every player of lobby `l` and then the lobby row itself. */
  function DropLobby(db: Db, l: Uuid): (r: Db)
    ensures WellKeyed(db) ==> WellKeyed(r)
    ensures r.lobbies.Keys == db.lobbies.Keys - {l}
    ensures r.players.Keys == db.players.Keys - MembersOf(db, l)
    ensures MembersOf(r, l) == {}
    ensures forall x | x in r.lobbies :: r.lobbies[x] == db.lobbies[x]
    ensures forall p | p in r.players :: r.players[p] == db.players[p]
  {
    DropLobbyRow(DropMembers(db, l), l)
  }

  /** The owner column of lobby `l` set to `o`, everything else kept. */
  function SetOwner(db: Db, l: Uuid, o: Uuid): (r: Db)
    requires l in db.lobbies
    ensures WellKeyed(db) ==> WellKeyed(r)
    ensures r.players == db.players && r.lobbies.Keys == db.lobbies.Keys
    ensures r.lobbies[l] == db.lobbies[l].(owner := o)
    ensures forall x | x in db.lobbies && x != l :: r.lobbies[x] == db.lobbies[x]
  {
    db.(lobbies := db.lobbies[l := db.lobbies[l].(owner := o)])
  }

  // The invariant under each write

  /** A consistent store never holds an empty lobby. */
  lemma OwnerIsMember(db: Db, l: Uuid)
    requires Consistent(db) && l in db.lobbies
    ensures db.lobbies[l].owner in MembersOf(db, l) && MembersOf(db, l) != {}
  {
  }

  /** Deleting a lobby together with its players keeps the invariant: an
      owner of another lobby is a member of that other lobby, so survives. */
  lemma DropLobbyKeepsConsistent(db: Db, l: Uuid)
    requires Consistent(db)
    ensures Consistent(DropLobby(db, l))
  {
    var r := DropLobby(db, l);
    forall x | x in r.lobbies ensures IsMember(r, r.lobbies[x].owner, x) {
      var o := db.lobbies[x].owner;
      assert IsMember(db, o, x) && x != l;
      assert o in r.players;
    }
  }

  /** A player who does not own its lobby may leave without breaking the
      invariant. */
  lemma NonOwnerDropKeepsConsistent(db: Db, p: Uuid)
    requires Consistent(db) && p in db.players
    requires db.lobbies[db.players[p].lobbyId].owner != p
    ensures Consistent(DropPlayer(db, p))
  {
    var r := DropPlayer(db, p);
    forall x | x in r.lobbies ensures IsMember(r, r.lobbies[x].owner, x) {
      var o := db.lobbies[x].owner;
      assert IsMember(db, o, x);
    }
  }

  /** Handing lobby `l` from its owner `p` to another member `heir` and then
      deleting `p`'s row keeps the invariant. */
  lemma HandOverKeepsConsistent(db: Db, l: Uuid, p: Uuid, heir: Uuid)
    requires Consistent(db) && l in db.lobbies && db.lobbies[l].owner == p
    requires heir in MembersOf(db, l) && heir != p
    ensures Consistent(DropPlayer(SetOwner(db, l, heir), p))
  {
    var r := DropPlayer(SetOwner(db, l, heir), p);
    forall x | x in r.lobbies ensures IsMember(r, r.lobbies[x].owner, x) {
      if x != l {
        var o := db.lobbies[x].owner;
        assert IsMember(db, o, x);
        assert o != p by { assert IsMember(db, p, l); }
      }
    }
  }

  /** Reassigning the owner to another member, without deleting anything,
      keeps the invariant. */
  lemma SetOwnerKeepsConsistent(db: Db, l: Uuid, heir: Uuid)
    requires Consistent(db) && l in db.lobbies && heir in MembersOf(db, l)
    ensures Consistent(SetOwner(db, l, heir))
  {
  }

  /** A new player row that points at an existing lobby, or a rewrite of a
      row that stays in its lobby, keeps the invariant. */
  lemma PutMemberKeepsConsistent(db: Db, rec: PlayerRec)
    requires Consistent(db) && rec.lobbyId in db.lobbies
    requires rec.id in db.players ==> db.players[rec.id].lobbyId == rec.lobbyId
    ensures Consistent(PutPlayer(db, rec))
  {
    var r := PutPlayer(db, rec);
    forall x | x in r.lobbies ensures IsMember(r, r.lobbies[x].owner, x) {
      assert IsMember(db, db.lobbies[x].owner, x);
    }
  }

  /** A new lobby row inserted together with its owner's new row keeps the
      invariant. */
  lemma NewLobbyWithOwnerKeepsConsistent(db: Db, rec: LobbyRec, owner: PlayerRec)
    requires Consistent(db) && rec.id !in db.lobbies && owner.id !in db.players
    requires owner.lobbyId == rec.id && rec.owner == owner.id
    ensures Consistent(PutPlayer(PutLobby(db, rec), owner))
  {
    var r := PutPlayer(PutLobby(db, rec), owner);
    forall x | x in r.lobbies ensures IsMember(r, r.lobbies[x].owner, x) {
      if x != rec.id {
        assert IsMember(db, db.lobbies[x].owner, x);
      }
    }
  }

  /** Deleting a lobby whose only member is `p` leaves nothing of `p`
      behind: a later delete of `p`'s row changes nothing. */
  lemma SoleMemberGoesWithLobby(db: Db, l: Uuid, p: Uuid)
    requires MembersOf(db, l) == {p}
    ensures p !in DropLobby(db, l).players
    ensures DropPlayer(DropLobby(db, l), p) == DropLobby(db, l)
  {
    assert p in MembersOf(db, l);
  }
}
