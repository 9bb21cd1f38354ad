/** The relay server's shared state and the steps that change it. Each method
    is one step taken under the server's locks; sends are appended to
    `outbox` instead of being written to sockets. */
module GameServer {
  import opened Model
  import opened Registry
  import opened Broadcast
  import opened Tagging

  class Server {
    /** The socket -> player table, in iteration order. */
    var registry: seq<Client>
    /** The dedup cache: recipient -> sender -> last position forwarded. */
    var cache: Cache
    /** The next server id to hand out. */
    var idIndex: int
    /** How long the proximity scanner sleeps before its next scan, in ms. */
    var bufferTime: int
    /** Every message sent so far, in send order. */
    var outbox: seq<Envelope>

    /** Sockets are keys, ids are distinct and below idIndex, and at most one
        player is It. */
    ghost predicate Valid()
      reads this
    {
      && idIndex >= 0
      && WellFormed(registry, idIndex)
      && ItCount(registry) <= 1
    }

    constructor ()
      ensures Valid()
      ensures registry == [] && cache == map[] && idIndex == 0 && outbox == []
      ensures bufferTime == FirstScanDelay
    {
      registry := [];
      cache := map[];
      idIndex := 0;
      bufferTime := FirstScanDelay;
      outbox := [];
    }

    /** Tell every client who is It now: the sentinel to each client whose flag
        is set, the new tagger's id to the others. */
    method BroadcastTag(newTagger: PlayerData)
      modifies this`outbox
      ensures outbox == old(outbox) + TagNotices(registry, newTagger)
    {
      for i := 0 to |registry|
        invariant outbox == old(outbox) + TagNotices(registry[..i], newTagger)
      {
        var client := registry[i];
        if client.data.isIt {
          outbox := outbox + [Envelope(client.socket, PlayerTagged(YouAreIt))];
        } else {
          outbox := outbox + [Envelope(client.socket, PlayerTagged(newTagger.serverId))];
        }
        assert registry[..i + 1][..i] == registry[..i];
      }
      assert registry[..|registry|] == registry;
    }

    /** Forward a sender's position to every other client whose cache entry for
        the sender differs, recording it; nothing happens for an inactive sender. */
    method BroadcastPositionUpdate(data: PlayerData, senderSocket: Socket)
      requires UniqueSockets(registry)
      modifies this`outbox, this`cache
      ensures !data.active ==> outbox == old(outbox) && cache == old(cache)
      ensures data.active ==> outbox == old(outbox) + PositionFanout(registry, old(cache), data, senderSocket)
      ensures data.active ==> cache == Refreshed(old(cache), registry, senderSocket, data.position)
    {
      if !data.active {
        return;
      }
      for i := 0 to |registry|
        invariant outbox == old(outbox) + PositionFanout(registry[..i], old(cache), data, senderSocket)
        invariant cache == Refreshed(old(cache), registry[..i], senderSocket, data.position)
      {
        var client := registry[i].socket;
        FanoutStep(registry, old(cache), data, senderSocket, i);
        if client != senderSocket {
          assert LastSent(cache, client, senderSocket) == LastSent(old(cache), client, senderSocket) by {
            PrefixUnregistered(registry, i);
            RefreshedAt(old(cache), registry[..i], senderSocket, data.position, client, senderSocket);
          }
          // Looking the entry up creates it (at the origin) when it is missing.
          var row := if client in cache then cache[client] else map[];
          var last := if senderSocket in row then row[senderSocket] else Origin;
          if last == data.position {
            cache := cache[client := row[senderSocket := last]];
          } else {
            cache := cache[client := row[senderSocket := data.position]];
            outbox := outbox + [Envelope(client, Update(data))];
          }
        }
      }
      assert registry[..|registry|] == registry;
    }

    /** Send a joining client one update per active player, then one notice per
        player who is It. */
    method BroadcastCurrentState(client: Socket)
      modifies this`outbox
      ensures outbox == old(outbox) + Addressed(client, Snapshot(registry))
    {
      SendPositions(client, registry);
      SendTags(client, registry);
      AddressedAppend(client, PositionSnapshot(registry), TagSnapshot(registry));
    }

    /** The first loop of the snapshot: the active players' positions. */
    method SendPositions(client: Socket, players: seq<Client>)
      modifies this`outbox
      ensures outbox == old(outbox) + Addressed(client, PositionSnapshot(players))
    {
      for i := 0 to |players|
        invariant outbox == old(outbox) + Addressed(client, PositionSnapshot(players[..i]))
      {
        var data := players[i].data;
        SnapshotStep(players, i);
        if data.active {
          AddressedSnoc(client, PositionSnapshot(players[..i]), Update(data));
          outbox := outbox + [Envelope(client, Update(data))];
        }
      }
      assert players[..|players|] == players;
    }

    /** The second loop of the snapshot: who is It. */
    method SendTags(client: Socket, players: seq<Client>)
      modifies this`outbox
      ensures outbox == old(outbox) + Addressed(client, TagSnapshot(players))
    {
      for i := 0 to |players|
        invariant outbox == old(outbox) + Addressed(client, TagSnapshot(players[..i]))
      {
        var data := players[i].data;
        SnapshotStep(players, i);
        if data.isIt {
          AddressedSnoc(client, TagSnapshot(players[..i]), PlayerTagged(data.serverId));
          outbox := outbox + [Envelope(client, PlayerTagged(data.serverId))];
        }
      }
      assert players[..|players|] == players;
    }

    /** Tell every other client that an active player left; nothing for an
        inactive one. */
    method BroadcastPlayerLeft(data: PlayerData, senderSocket: Socket)
      modifies this`outbox
      ensures outbox == old(outbox) + (if data.active then LeftFanout(registry, data.serverId, senderSocket) else [])
    {
      if !data.active {
        return;
      }
      for i := 0 to |registry|
        invariant outbox == old(outbox) + LeftFanout(registry[..i], data.serverId, senderSocket)
      {
        var client := registry[i].socket;
        assert registry[..i + 1][..i] == registry[..i];
        if client != senderSocket {
          outbox := outbox + [Envelope(client, PlayerLeft(data.serverId))];
        }
      }
      assert registry[..|registry|] == registry;
    }

    /** Registration: the next id, the origin, inactive, It iff the table is
        empty. The id counter advances even if the socket is already present. */
    method Register(clientSocket: Socket)
      requires Valid()
      modifies this`registry, this`idIndex
      ensures Valid()
      ensures idIndex == old(idIndex) + 1
      ensures registry == Joined(old(registry), clientSocket, old(idIndex))
      ensures ItCount(registry) == if old(registry) == [] then 1 else ItCount(old(registry))
    {
      JoinedItCount(registry, clientSocket, idIndex);
      JoinedWellFormed(registry, clientSocket, idIndex);
      ghost var joined := Joined(registry, clientSocket, idIndex);
      var data := PlayerData(Origin, idIndex, false, false);
      idIndex := idIndex + 1;
      if |registry| < 1 {
        data := data.(isIt := true);
      }
      assert data == NewPlayer(registry, old(idIndex));
      registry := Emplaced(registry, Client(clientSocket, data));
      assert registry == joined;
    }

    /** A new connection: the snapshot is sent first, then the client registers,
        so the snapshot never describes the newcomer. */
    method Join(clientSocket: Socket)
      requires Valid()
      modifies this`registry, this`idIndex, this`outbox
      ensures Valid()
      ensures outbox == old(outbox) + Addressed(clientSocket, Snapshot(old(registry)))
      ensures forall m :: m in Snapshot(old(registry)) ==> m.serverId != old(idIndex)
      ensures idIndex == old(idIndex) + 1
      ensures registry == Joined(old(registry), clientSocket, old(idIndex))
    {
      SnapshotOmits(registry, idIndex);
      BroadcastCurrentState(clientSocket);
      Register(clientSocket);
    }

    /** A decoded position from a registered client: store it, mark the player
        active, and forward it. */
    method ReceivePosition(clientSocket: Socket, newPosition: Vec3)
      requires Valid() && Registered(registry, clientSocket)
      modifies this`registry, this`cache, this`outbox
      ensures Valid()
      ensures registry == Moved(old(registry), IndexOf(old(registry), clientSocket), newPosition)
      ensures ActiveKept(old(registry), registry)
      ensures outbox == old(outbox) + PositionFanout(registry, old(cache), registry[IndexOf(old(registry), clientSocket)].data, clientSocket)
      ensures cache == Refreshed(old(cache), registry, clientSocket, newPosition)
    {
      var k := IndexOf(registry, clientSocket);
      MovedKeeps(registry, k, newPosition, idIndex);
      var data := registry[k].data.(position := newPosition);
      if !data.active {
        data := data.(active := true);
      }
      registry := registry[k := Client(clientSocket, data)];
      BroadcastPositionUpdate(registry[k].data, clientSocket);
    }

    /** Disconnect: announce the leave, then erase the entry. It is not handed
        on and the cache keeps its rows. */
    method Disconnect(clientSocket: Socket)
      requires Valid() && Registered(registry, clientSocket)
      modifies this`registry, this`outbox
      ensures Valid()
      ensures var leaver := old(registry)[IndexOf(old(registry), clientSocket)].data;
        && outbox == old(outbox) + (if leaver.active then LeftFanout(old(registry), leaver.serverId, clientSocket) else [])
        && ItCount(registry) + (if leaver.isIt then 1 else 0) == ItCount(old(registry))
      ensures registry == Removed(old(registry), clientSocket)
      ensures |registry| + 1 == |old(registry)|
    {
      var k := IndexOf(registry, clientSocket);
      RemovedItCount(registry, clientSocket, k);
      RemovedWellFormed(registry, clientSocket, idIndex);
      BroadcastPlayerLeft(registry[k].data, clientSocket);
      registry := Removed(registry, clientSocket);
    }

    /** One round of the proximity scanner. `slept` is the wait that preceded
        it. The first pair in scan order that can tag swaps the It flag, the
        tag is announced, and the next wait becomes the cooldown. */
    method ProximityScan() returns (slept: int)
      requires Valid()
      modifies this`registry, this`outbox, this`bufferTime
      ensures Valid()
      ensures slept == old(bufferTime)
      ensures ItCount(registry) == ItCount(old(registry))
      ensures ActiveKept(old(registry), registry)
      ensures NoTag(old(registry)) ==>
        registry == old(registry) && outbox == old(outbox) && bufferTime == ScanInterval
      ensures !NoTag(old(registry)) ==> bufferTime == TagCooldown
      ensures !NoTag(old(registry)) ==> exists i, j ::
        && IsFirstTag(old(registry), i, j)
        && registry == Tagged(old(registry), i, j)
        && outbox == old(outbox) + TagNotices(registry, registry[j].data)
        && forall r :: Registered(registry, r) ==>
             MessagesTo(outbox[|old(outbox)|..], r)
               == [PlayerTagged(if r == registry[j].socket then YouAreIt else registry[j].data.serverId)]
    {
      slept := bufferTime;
      bufferTime := ScanInterval;
      var found, i, j := FindTag(registry);
      if found {
        ghost var before := registry;
        TagKeepsItCount(registry, i, j);
        WithItWellFormed(registry, i, false, idIndex);
        WithItWellFormed(registry[i := WithIt(registry[i], false)], j, true, idIndex);
        registry := Tagged(registry, i, j);
        bufferTime := TagCooldown;
        ghost var sent := outbox;
        BroadcastTag(registry[j].data);
        assert IsFirstTag(before, i, j) && registry == Tagged(before, i, j);
        ItCountZero(registry);
        SentinelOnlyToNewIt(registry, j);
        assert outbox[|sent|..] == TagNotices(registry, registry[j].data);
      }
    }

    /** One tick of the failsafe. With a non-empty table and nobody It, the
        player at `rnd` modulo the table size becomes It and the tag is
        announced; otherwise nothing happens. */
    method FailsafeTick(rnd: nat)
      requires Valid()
      modifies this`registry, this`outbox
      ensures Valid()
      ensures ActiveKept(old(registry), registry)
      ensures old(registry) == [] || HasIt(old(registry)) ==> registry == old(registry) && outbox == old(outbox)
      ensures old(registry) != [] && !HasIt(old(registry)) ==>
        var k := rnd % |old(registry)|;
        && registry == Assigned(old(registry), k)
        && ItCount(registry) == 1
        && outbox == old(outbox) + TagNotices(registry, registry[k].data)
        && forall r :: Registered(registry, r) ==>
             MessagesTo(outbox[|old(outbox)|..], r)
               == [PlayerTagged(if r == registry[k].socket then YouAreIt else registry[k].data.serverId)]
    {
      if |registry| == 0 {
        return;
      }
      var hasTag := HasTag(registry);
      if !hasTag {
        var k := rnd % |registry|;
        FailsafeMakesOneIt(registry, k);
        WithItWellFormed(registry, k, true, idIndex);
        registry := Assigned(registry, k);
        ghost var sent := outbox;
        BroadcastTag(registry[k].data);
        SentinelOnlyToNewIt(registry, k);
        assert outbox[|sent|..] == TagNotices(registry, registry[k].data);
      }
    }
  }
}
