/** A life of one lobby told through the effects of the core's operations:
    an owner founds it, a second player joins, the owner leaves and the
    second player inherits it, and the lobby disappears when the last player
    leaves. */
module Scenarios {
  import opened Records
  import opened Tables
  import opened LobbySpec

  const L1: Uuid := 1
  const P1: Uuid := 10
  const P2: Uuid := 20

  function Founder(now: Instant): Player {
    Player(P1, "first", now, L1, Null, "red")
  }

  /** The founder asks for a playing lobby; the create stores it open. */
  function Request(now: Instant): Lobby {
    Lobby(L1, LobbyPlaying, "bridge", Some(Founder(now)), "pw", 1, 2, 3, 4, [], [])
  }

  /** Founding, a second join, the owner's leave (the only other member
      inherits) and the last leave (the lobby and every row are gone). */
  lemma HandOverScenario(t1: Instant, t2: Instant, heir: Uuid, last: Uuid)
    ensures var (db1, r1) := CreateLobbyEffect(Db(map[], map[]), Request(t1).(status := LobbyOpen), t1);
      && r1 == Pass && Consistent(db1)
      && db1.lobbies[L1].status == LobbyOpen && MembersOf(db1, L1) == {P1}
      && var (db2, r2) := JoinEffect(db1, P2, "second", "blue", L1, "pw", t2);
      && r2 == Pass && MembersOf(db2, L1) == {P1, P2}
      && (ValidHeir(db2, L1, P1, heir) ==>
            && var (db3, r3) := LeaveEffect(db2, L1, P1, heir);
            && r3 == Pass && db3.lobbies.Keys == {L1} && db3.lobbies[L1].owner == P2
            && MembersOf(db3, L1) == {P2}
            && var (db4, r4) := LeaveEffect(db3, L1, P2, last);
            && r4 == Pass && db4 == Db(map[], map[]))
  {
    var db0 := Db(map[], map[]);
    var (db1, r1) := CreateLobbyEffect(db0, Request(t1).(status := LobbyOpen), t1);
    assert db1.players.Keys == {P1};
    assert MembersOf(db1, L1) == {P1};
    var (db2, r2) := JoinEffect(db1, P2, "second", "blue", L1, "pw", t2);
    assert db2.players.Keys == {P1, P2};
    assert MembersOf(db2, L1) == {P1, P2};
    if ValidHeir(db2, L1, P1, heir) {
      HeirIsOtherMember(db2, L1, P1, heir);
      var (db3, r3) := LeaveEffect(db2, L1, P1, heir);
      assert db3.players.Keys == {P2};
      assert MembersOf(db3, L1) == {P2};
      var (db4, r4) := LeaveEffect(db3, L1, P2, last);
      assert db4.lobbies.Keys == {} && db4.players.Keys == {};
    }
  }
}
