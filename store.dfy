/** The persistence port (`db.DBTx`) as an object over two tables. Each
    method is one SQL statement of the PostgreSQL adapter: lookups report a
    missing row as absent rather than as an error, inserts report a taken
    primary key as "already exists", updates and deletes of missing rows
    change nothing. A lost connection makes every statement fail. */
module Store {
  import opened Records
  import opened Tables

  /** The ids of a sequence of player rows. */
  function RowIds(rows: seq<PlayerRec>): set<Uuid> {
    set i | 0 <= i < |rows| :: rows[i].id
  }

  /** The ids of a sequence of lobby rows. */
  function LobbyIds(rows: seq<LobbyRec>): set<Uuid> {
    set i | 0 <= i < |rows| :: rows[i].id
  }

  lemma RowIdsAppend(rows: seq<PlayerRec>, x: PlayerRec)
    ensures RowIds(rows + [x]) == RowIds(rows) + {x.id}
  {
    var r := rows + [x];
    assert r[|rows|] == x;
    forall id | id in RowIds(rows) ensures id in RowIds(r) {
      var i :| 0 <= i < |rows| && rows[i].id == id;
      assert r[i] == rows[i];
    }
  }

  lemma LobbyIdsAppend(rows: seq<LobbyRec>, x: LobbyRec)
    ensures LobbyIds(rows + [x]) == LobbyIds(rows) + {x.id}
  {
    var r := rows + [x];
    assert r[|rows|] == x;
    forall id | id in LobbyIds(rows) ensures id in LobbyIds(r) {
      var i :| 0 <= i < |rows| && rows[i].id == id;
      assert r[i] == rows[i];
    }
  }

  /** `rows` holds, once each and in some order, the stored row of every
      member of lobby `l`. */
  ghost predicate ListsMembers(rows: seq<PlayerRec>, db: Db, l: Uuid) {
    && (forall i | 0 <= i < |rows| :: rows[i].id in db.players && db.players[rows[i].id] == rows[i])
    && (forall i, j | 0 <= i < j < |rows| :: rows[i].id != rows[j].id)
    && RowIds(rows) == MembersOf(db, l)
  }

  /** `rows` holds, once each and in some order, every stored lobby row. */
  ghost predicate ListsLobbies(rows: seq<LobbyRec>, db: Db) {
    && (forall i | 0 <= i < |rows| :: rows[i].id in db.lobbies && db.lobbies[rows[i].id] == rows[i])
    && (forall i, j | 0 <= i < j < |rows| :: rows[i].id != rows[j].id)
    && LobbyIds(rows) == db.lobbies.Keys
  }

  class Tx {
    var lobbies: map<Uuid, LobbyRec>
    var players: map<Uuid, PlayerRec>
    /** The connection is lost: every statement returns an error. */
    const down: bool

    function State(): Db
      reads this
    {
      Db(lobbies, players)
    }

    ghost predicate Valid()
      reads this
    {
      WellKeyed(State())
    }

    constructor (db: Db, down: bool)
      requires WellKeyed(db)
      ensures Valid() && State() == db && this.down == down
    {
      lobbies, players := db.lobbies, db.players;
      this.down := down;
    }

    /** Restores a snapshot of both tables (a transaction rollback). */
    method Rollback(saved: Db)
      requires WellKeyed(saved)
      modifies this
      ensures Valid() && State() == saved
    {
      lobbies, players := saved.lobbies, saved.players;
    }

    method CreateLobby(rec: LobbyRec) returns (r: Outcome)
      requires Valid()
      modifies this
      ensures Valid()
      ensures down ==> r == Fail(StoreFailure) && State() == old(State())
      ensures !down && rec.id in old(lobbies) ==> r == Fail(LobbyAlreadyExists) && State() == old(State())
      ensures !down && rec.id !in old(lobbies) ==> r == Pass && State() == PutLobby(old(State()), rec)
    {
      if down {
        return Fail(StoreFailure);
      }
      if rec.id in lobbies {
        return Fail(LobbyAlreadyExists);
      }
      lobbies := lobbies[rec.id := rec];
      r := Pass;
    }

    method UpdateLobby(rec: LobbyRec) returns (r: Outcome)
      requires Valid()
      modifies this
      ensures Valid()
      ensures down ==> r == Fail(StoreFailure) && State() == old(State())
      ensures !down ==> r == Pass
      ensures !down && rec.id in old(lobbies) ==> State() == PutLobby(old(State()), rec)
      ensures !down && rec.id !in old(lobbies) ==> State() == old(State())
    {
      if down {
        return Fail(StoreFailure);
      }
      if rec.id in lobbies {
        lobbies := lobbies[rec.id := rec];
      }
      r := Pass;
    }

    method DeleteLobby(id: Uuid) returns (r: Outcome)
      requires Valid()
      modifies this
      ensures Valid()
      ensures down ==> r == Fail(StoreFailure) && State() == old(State())
      ensures !down ==> r == Pass && State() == DropLobbyRow(old(State()), id)
    {
      if down {
        return Fail(StoreFailure);
      }
      lobbies := lobbies - {id};
      r := Pass;
    }

    method GetLobbyById(id: Uuid) returns (r: Result<Option<LobbyRec>>)
      ensures down ==> r == Err(StoreFailure)
      ensures !down && id in lobbies ==> r == Ok(Some(lobbies[id]))
      ensures !down && id !in lobbies ==> r == Ok(None)
    {
      if down {
        return Err(StoreFailure);
      }
      r := if id in lobbies then Ok(Some(lobbies[id])) else Ok(None);
    }

    /** Every lobby row, in an order the store chooses. */
    method GetAllLobbies() returns (r: Result<seq<LobbyRec>>)
      requires Valid()
      ensures down ==> r == Err(StoreFailure)
      ensures !down ==> r.Ok? && ListsLobbies(r.value, State())
    {
      if down {
        return Err(StoreFailure);
      }
      var rest := lobbies.Keys;
      var rows: seq<LobbyRec> := [];
      while rest != {}
        invariant rest <= lobbies.Keys
        invariant forall i | 0 <= i < |rows| :: rows[i].id in lobbies && lobbies[rows[i].id] == rows[i]
        invariant forall i | 0 <= i < |rows| :: rows[i].id !in rest
        invariant forall i, j | 0 <= i < j < |rows| :: rows[i].id != rows[j].id
        invariant LobbyIds(rows) == lobbies.Keys - rest
        decreases |rest|
      {
        var id :| id in rest;
        LobbyIdsAppend(rows, lobbies[id]);
        rows := rows + [lobbies[id]];
        rest := rest - {id};
      }
      r := Ok(rows);
    }

    method CreatePlayer(rec: PlayerRec) returns (r: Outcome)
      requires Valid()
      modifies this
      ensures Valid()
      ensures down ==> r == Fail(StoreFailure) && State() == old(State())
      ensures !down && rec.id in old(players) ==> r == Fail(PlayerAlreadyExists) && State() == old(State())
      ensures !down && rec.id !in old(players) ==> r == Pass && State() == PutPlayer(old(State()), rec)
    {
      if down {
        return Fail(StoreFailure);
      }
      if rec.id in players {
        return Fail(PlayerAlreadyExists);
      }
      players := players[rec.id := rec];
      r := Pass;
    }

    method UpdatePlayer(rec: PlayerRec) returns (r: Outcome)
      requires Valid()
      modifies this
      ensures Valid()
      ensures down ==> r == Fail(StoreFailure) && State() == old(State())
      ensures !down ==> r == Pass
      ensures !down && rec.id in old(players) ==> State() == PutPlayer(old(State()), rec)
      ensures !down && rec.id !in old(players) ==> State() == old(State())
    {
      if down {
        return Fail(StoreFailure);
      }
      if rec.id in players {
        players := players[rec.id := rec];
      }
      r := Pass;
    }

    method DeletePlayer(id: Uuid) returns (r: Outcome)
      requires Valid()
      modifies this
      ensures Valid()
      ensures down ==> r == Fail(StoreFailure) && State() == old(State())
      ensures !down ==> r == Pass && State() == DropPlayer(old(State()), id)
    {
      if down {
        return Fail(StoreFailure);
      }
      players := players - {id};
      r := Pass;
    }

    method DeleteAllPlayerInLobby(lobbyId: Uuid) returns (r: Outcome)
      requires Valid()
      modifies this
      ensures Valid()
      ensures down ==> r == Fail(StoreFailure) && State() == old(State())
      ensures !down ==> r == Pass && State() == DropMembers(old(State()), lobbyId)
    {
      if down {
        return Fail(StoreFailure);
      }
      players := map p | p in players && players[p].lobbyId != lobbyId :: players[p];
      r := Pass;
    }

    method GetPlayerById(id: Uuid) returns (r: Result<Option<PlayerRec>>)
      ensures down ==> r == Err(StoreFailure)
      ensures !down && id in players ==> r == Ok(Some(players[id]))
      ensures !down && id !in players ==> r == Ok(None)
    {
      if down {
        return Err(StoreFailure);
      }
      r := if id in players then Ok(Some(players[id])) else Ok(None);
    }

    /** The rows of every member of a lobby, in an order the store chooses
        (the query has no ORDER BY). */
    method GetAllPlayersInLobby(lobbyId: Uuid) returns (r: Result<seq<PlayerRec>>)
      requires Valid()
      ensures down ==> r == Err(StoreFailure)
      ensures !down ==> r.Ok? && ListsMembers(r.value, State(), lobbyId)
    {
      if down {
        return Err(StoreFailure);
      }
      var members := MembersOf(State(), lobbyId);
      var rest := members;
      var rows: seq<PlayerRec> := [];
      while rest != {}
        invariant rest <= members
        invariant forall i | 0 <= i < |rows| :: rows[i].id in players && players[rows[i].id] == rows[i]
        invariant forall i | 0 <= i < |rows| :: rows[i].id !in rest
        invariant forall i, j | 0 <= i < j < |rows| :: rows[i].id != rows[j].id
        invariant RowIds(rows) == members - rest
        decreases |rest|
      {
        var id :| id in rest;
        RowIdsAppend(rows, players[id]);
        rows := rows + [players[id]];
        rest := rest - {id};
      }
      r := Ok(rows);
    }
  }
}
