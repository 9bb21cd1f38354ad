/** A two-player session traced through the pure model: two joins, the
    first player's report of the origin, and the second player's move. */
module Scenario {
  import opened Model
  import opened Registry
  import opened Broadcast

  const First: Client := Client(4, PlayerData(Origin, 0, false, true))
  const Second: Client := Client(5, PlayerData(Origin, 1, false, false))

  /** The first client joins an empty table and is It; the second is told
      only that id 0 is It, since the first has not reported a position. */
  lemma TwoPlayerJoin()
    ensures Joined([], 4, 0) == [First]
    ensures Joined([First], 5, 1) == [First, Second]
    ensures Snapshot([]) == []
    ensures Snapshot([First]) == [PlayerTagged(0)]
  {
    assert !Registered([First], 5) by {
      assert [First][0].socket != 5;
    }
    assert [First][..0] == [];
  }

  /** The first player's report of the origin is not forwarded: a missing
      cache entry reads as the origin. */
  lemma OriginReportSilent()
    ensures PositionFanout(Moved([First, Second], 0, Origin), map[], Moved([First, Second], 0, Origin)[0].data, 4) == []
  {
    var reg := Moved([First, Second], 0, Origin);
    FanoutSilent(reg, map[], reg[0].data, 4);
  }

  /** The second player's move to (1, 0, 0) then reaches the first as an
      update carrying id 1. */
  lemma SecondMoveReachesFirst()
    ensures
      var reg1 := Moved([First, Second], 0, Origin);
      var cache1 := Refreshed(map[], reg1, 4, Origin);
      var pos := Vec3(1.0, 0.0, 0.0);
      var reg2 := Moved(reg1, 1, pos);
      MessagesTo(PositionFanout(reg2, cache1, reg2[1].data, 5), 4) == [PositionUpdate(1, pos)]
  {
    var reg1 := Moved([First, Second], 0, Origin);
    var cache1 := Refreshed(map[], reg1, 4, Origin);
    var pos := Vec3(1.0, 0.0, 0.0);
    var reg2 := Moved(reg1, 1, pos);
    RefreshedAt(map[], reg1, 4, Origin, 4, 5);
    assert reg2[0].socket == 4;
    PositionFanoutTo(reg2, cache1, reg2[1].data, 5, 4);
  }
}
