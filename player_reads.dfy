/** The read side of the player half of the core: turning stored player rows
    into the core's players, loading one player, and the search for a member
    other than a given one that decides who inherits a lobby. */
module PlayerReads {
  import opened Records
  import opened Tables
  import opened Store

  /** A stored row as the core's player. The row's team is not carried over:
      the core player's team is left empty, so writing the player back into
      its lobby gives the row with its team cleared and nothing else lost. */
  function MapToPlayer(rec: PlayerRec): (p: Player)
    ensures MapToDBPlayer(p, rec.lobbyId) == rec.(team := "")
  {
    Player(rec.id, rec.name, rec.lastRefresh, rec.lobbyId, rec.payload, "")
  }

  /** A core player written back as a row of lobby `lobbyId`. */
  function MapToDBPlayer(p: Player, lobbyId: Uuid): PlayerRec {
    PlayerRec(p.id, p.name, lobbyId, p.lastRefresh, p.payload, p.team)
  }

  /** Writing a player as a row of lobby `l` and reading it back gives the
      player moved to `l`, with its team lost and nothing else. */
  lemma PlayerRoundTrip(p: Player, l: Uuid)
    ensures MapToPlayer(MapToDBPlayer(p, l)) == p.(lobbyId := l, team := "")
  {
  }

  function PlayerIds(ps: seq<Player>): set<Uuid> {
    set i | 0 <= i < |ps| :: ps[i].id
  }

  /** `ps` holds, once each and in some order, the core view of every member
      of lobby `l`. */
  ghost predicate ShowsMembers(ps: seq<Player>, db: Db, l: Uuid) {
    && (forall i | 0 <= i < |ps| :: ps[i].id in db.players && ps[i] == MapToPlayer(db.players[ps[i].id]))
    && (forall i, j | 0 <= i < j < |ps| :: ps[i].id != ps[j].id)
    && PlayerIds(ps) == MembersOf(db, l)
  }

  /** Maps every row, keeping the order of `rows`. */
  method MapToPlayers(rows: seq<PlayerRec>) returns (ps: seq<Player>)
    ensures |ps| == |rows|
    ensures forall i | 0 <= i < |rows| :: ps[i] == MapToPlayer(rows[i])
  {
    ps := [];
    for i := 0 to |rows|
      invariant |ps| == i
      invariant forall j | 0 <= j < i :: ps[j] == MapToPlayer(rows[j])
    {
      ps := ps + [MapToPlayer(rows[i])];
    }
  }

  /** Mapping a listing of a lobby's rows yields the core view of exactly
      that lobby's members. */
  lemma MappedListingShowsMembers(rows: seq<PlayerRec>, ps: seq<Player>, db: Db, l: Uuid)
    requires ListsMembers(rows, db, l)
    requires |ps| == |rows| && forall i | 0 <= i < |rows| :: ps[i] == MapToPlayer(rows[i])
    ensures ShowsMembers(ps, db, l)
  {
    assert forall i | 0 <= i < |ps| :: ps[i].id == rows[i].id;
    assert PlayerIds(ps) == RowIds(rows) by {
      forall id | id in RowIds(rows) ensures id in PlayerIds(ps) {
        var i :| 0 <= i < |rows| && rows[i].id == id;
        assert ps[i].id == id;
      }
    }
  }

  /** The first player of `players` whose id is not `notId`, if any. */
  function FirstNot(players: seq<Player>, notId: Uuid): (r: Option<Player>)
    ensures r.None? <==> forall i | 0 <= i < |players| :: players[i].id == notId
    ensures r.Some? ==> r.value.id != notId
    ensures r.Some? ==> exists k | 0 <= k < |players| ::
              players[k] == r.value && forall j | 0 <= j < k :: players[j].id == notId
  {
    if |players| == 0 then None
    else if players[0].id != notId then Some(players[0])
    else
      var r := FirstNot(players[1..], notId);
      assert r.Some? ==> exists k | 1 <= k < |players| ::
        players[k] == r.value && forall j | 0 <= j < k :: players[j].id == notId by {
        if r.Some? {
          var k' :| 0 <= k' < |players| - 1 && players[1..][k'] == r.value
                    && forall j | 0 <= j < k' :: players[1..][j].id == notId;
          assert players[k' + 1] == r.value;
          assert forall j | 0 <= j < k' + 1 :: players[j].id == notId by {
            forall j | 0 <= j < k' + 1 ensures players[j].id == notId {
              if j > 0 { assert players[j] == players[1..][j - 1]; }
            }
          }
        }
      }
      r
  }

  /** Scans `players` in order and returns the first one whose id is not
      `notId`. */
  method FindPlayerNot(players: seq<Player>, notId: Uuid) returns (r: Option<Player>)
    ensures r == FirstNot(players, notId)
  {
    var i := 0;
    while i < |players|
      invariant 0 <= i <= |players|
      invariant FirstNot(players[i..], notId) == FirstNot(players, notId)
    {
      if players[i].id != notId {
        return Some(players[i]);
      }
      assert players[i..][1..] == players[i + 1..];
      i := i + 1;
    }
    return None;
  }

  /** Over a lobby's members, the search finds nobody exactly when `p` is
      the only member, and otherwise finds another member. */
  lemma FirstNotInLobby(ps: seq<Player>, db: Db, l: Uuid, p: Uuid)
    requires ShowsMembers(ps, db, l) && p in MembersOf(db, l)
    ensures FirstNot(ps, p).None? <==> MembersOf(db, l) == {p}
    ensures FirstNot(ps, p).Some? ==> FirstNot(ps, p).value.id in MembersOf(db, l) - {p}
  {
    var r := FirstNot(ps, p);
    if r.None? {
      forall m | m in MembersOf(db, l) ensures m == p {
        var i :| 0 <= i < |ps| && ps[i].id == m;
      }
    } else {
      var k :| 0 <= k < |ps| && ps[k] == r.value;
      assert ps[k].id in PlayerIds(ps);
    }
  }

  /** Loads one player; a missing row is absent, not an error. */
  method GetPlayer(tx: Tx, id: Uuid) returns (r: Result<Option<Player>>)
    ensures tx.down ==> r == Err(StoreFailure)
    ensures !tx.down && id in tx.players ==> r == Ok(Some(MapToPlayer(tx.players[id])))
    ensures !tx.down && id !in tx.players ==> r == Ok(None)
  {
    var row := tx.GetPlayerById(id);
    if row.Err? {
      return Err(row.error);
    }
    r := match row.value
      case None => Ok(None)
      case Some(rec) => Ok(Some(MapToPlayer(rec)));
  }
}
