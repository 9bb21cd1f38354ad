/** The broadcast engine's outputs as functions of the registry: what each
    broadcast queues, in registry order, and what each recipient receives. */
module Broadcast {
  import opened Model
  import opened Registry

  /** The messages a recipient finds in an outbox, in order. */
  function MessagesTo(out: seq<Envelope>, r: Socket): seq<Message>
  {
    if out == [] then []
    else (if out[0].to == r then [out[0].msg] else []) + MessagesTo(out[1..], r)
  }

  lemma {:induction false} MessagesToAppend(a: seq<Envelope>, b: seq<Envelope>, r: Socket)
    ensures MessagesTo(a + b, r) == MessagesTo(a, r) + MessagesTo(b, r)
  {
    if a == [] {
      assert a + b == b;
    } else {
      assert (a + b)[1..] == a[1..] + b;
      MessagesToAppend(a[1..], b, r);
    }
  }

  /** Appending one envelope to an outbox adds its message for its recipient only. */
  lemma MessagesToSnoc(a: seq<Envelope>, e: Envelope, r: Socket)
    ensures MessagesTo(a + [e], r) == MessagesTo(a, r) + (if e.to == r then [e.msg] else [])
  {
    MessagesToAppend(a, [e], r);
  }

  // ---------------------------------------------------------------------------
  // Position updates and the dedup cache

  function Row(cache: Cache, r: Socket): map<Socket, Vec3>
  {
    if r in cache then cache[r] else map[]
  }

  /** What the cache says r last received about s. A missing entry reads as
      the origin, as a value-initialised vector does. */
  function LastSent(cache: Cache, r: Socket, s: Socket): Vec3
  {
    if s in Row(cache, r) then Row(cache, r)[s] else Origin
  }

  /** The cache after a position broadcast from `sender` at `pos` reached the
      clients of `reg`: each other client's entry for the sender holds `pos`
      (the lookup materialises the entry even when nothing is sent). */
  function Refreshed(cache: Cache, reg: seq<Client>, sender: Socket, pos: Vec3): Cache
  {
    if reg == [] then cache
    else
      var m := Refreshed(cache, reg[..|reg| - 1], sender, pos);
      var r := reg[|reg| - 1].socket;
      if r == sender then m else m[r := Row(m, r)[sender := pos]]
  }

  /** After a broadcast, every other registered client's entry for the sender
      is the broadcast position; every other entry reads as before. */
  lemma {:induction false} RefreshedAt(cache: Cache, reg: seq<Client>, sender: Socket, pos: Vec3, r: Socket, s: Socket)
    ensures LastSent(Refreshed(cache, reg, sender, pos), r, s)
         == if s == sender && r != sender && Registered(reg, r) then pos else LastSent(cache, r, s)
  {
    if reg != [] {
      RegisteredSplit(reg);
      RefreshedAt(cache, reg[..|reg| - 1], sender, pos, r, s);
    }
  }

  /** The position updates a broadcast from `sender` with record `data` queues:
      one per other client whose cache entry differs from the position. */
  function PositionFanout(reg: seq<Client>, cache: Cache, data: PlayerData, sender: Socket): seq<Envelope>
  {
    if reg == [] then []
    else
      var r := reg[|reg| - 1].socket;
      PositionFanout(reg[..|reg| - 1], cache, data, sender)
        + (if r != sender && LastSent(cache, r, sender) != data.position then [Envelope(r, Update(data))] else [])
  }

  /** Each client receives at most one update: exactly when it is registered,
      is not the sender, and its cache entry differs from the position. */
  lemma {:induction false} PositionFanoutTo(reg: seq<Client>, cache: Cache, data: PlayerData, sender: Socket, r: Socket)
    requires UniqueSockets(reg)
    ensures MessagesTo(PositionFanout(reg, cache, data, sender), r)
         == if r != sender && Registered(reg, r) && LastSent(cache, r, sender) != data.position then [Update(data)] else []
  {
    if reg != [] {
      var p := reg[..|reg| - 1];
      var last := reg[|reg| - 1].socket;
      RegisteredSplit(reg);
      PositionFanoutTo(p, cache, data, sender, r);
      var step := if last != sender && LastSent(cache, last, sender) != data.position then [Envelope(last, Update(data))] else [];
      MessagesToAppend(PositionFanout(p, cache, data, sender), step, r);
    }
  }

  /** One more client of the table: its update, if any, goes last, and its
      cache entry for the sender is written. */
  lemma FanoutStep(reg: seq<Client>, cache: Cache, data: PlayerData, sender: Socket, i: nat)
    requires i < |reg|
    ensures PositionFanout(reg[..i + 1], cache, data, sender)
         == PositionFanout(reg[..i], cache, data, sender)
            + (if reg[i].socket != sender && LastSent(cache, reg[i].socket, sender) != data.position
               then [Envelope(reg[i].socket, Update(data))] else [])
    ensures var m := Refreshed(cache, reg[..i], sender, data.position);
      Refreshed(cache, reg[..i + 1], sender, data.position)
        == if reg[i].socket == sender then m else m[reg[i].socket := Row(m, reg[i].socket)[sender := data.position]]
  {
    assert reg[..i + 1][..i] == reg[..i];
  }

  /** A broadcast queues nothing when every other client already holds the position. */
  lemma {:induction false} FanoutSilent(reg: seq<Client>, cache: Cache, data: PlayerData, sender: Socket)
    requires forall i :: 0 <= i < |reg| && reg[i].socket != sender ==> LastSent(cache, reg[i].socket, sender) == data.position
    ensures PositionFanout(reg, cache, data, sender) == []
  {
    if reg != [] {
      FanoutSilent(reg[..|reg| - 1], cache, data, sender);
    }
  }

  /** Dedup: broadcasting the same record again, against the cache the first
      broadcast left, queues nothing. */
  lemma DedupSecondSilent(reg: seq<Client>, cache: Cache, data: PlayerData, sender: Socket)
    ensures PositionFanout(reg, Refreshed(cache, reg, sender, data.position), data, sender) == []
  {
    var c := Refreshed(cache, reg, sender, data.position);
    forall i | 0 <= i < |reg| && reg[i].socket != sender
      ensures LastSent(c, reg[i].socket, sender) == data.position
    {
      RefreshedAt(cache, reg, sender, data.position, reg[i].socket, sender);
    }
    FanoutSilent(reg, c, data, sender);
  }

  // ---------------------------------------------------------------------------
  // Tag notices

  /** The id a tag notice carries to one recipient: the sentinel for a player
      who is It, the new tagger's id for everyone else. */
  function TagPayload(recipient: PlayerData, tagger: PlayerData): int
  {
    if recipient.isIt then YouAreIt else tagger.serverId
  }

  function TagNotices(reg: seq<Client>, tagger: PlayerData): seq<Envelope>
  {
    if reg == [] then []
    else
      var c := reg[|reg| - 1];
      TagNotices(reg[..|reg| - 1], tagger) + [Envelope(c.socket, PlayerTagged(TagPayload(c.data, tagger)))]
  }

  /** One notice per client, in registry order. */
  lemma {:induction false} TagNoticesAt(reg: seq<Client>, tagger: PlayerData)
    ensures |TagNotices(reg, tagger)| == |reg|
    ensures forall i :: 0 <= i < |reg| ==>
      TagNotices(reg, tagger)[i] == Envelope(reg[i].socket, PlayerTagged(TagPayload(reg[i].data, tagger)))
  {
    if reg != [] {
      var p := reg[..|reg| - 1];
      TagNoticesAt(p, tagger);
      forall i | 0 <= i < |p| ensures reg[i] == p[i] { }
    }
  }

  /** Every registered client receives exactly one notice; nobody else receives any. */
  lemma {:induction false} TagNoticesTo(reg: seq<Client>, tagger: PlayerData, r: Socket)
    requires UniqueSockets(reg)
    ensures MessagesTo(TagNotices(reg, tagger), r)
         == if Registered(reg, r) then [PlayerTagged(TagPayload(reg[IndexOf(reg, r)].data, tagger))] else []
  {
    if reg != [] {
      var n := |reg|;
      var p := reg[..n - 1];
      var c := reg[n - 1];
      RegisteredSplit(reg);
      TagNoticesTo(p, tagger, r);
      MessagesToSnoc(TagNotices(p, tagger), Envelope(c.socket, PlayerTagged(TagPayload(c.data, tagger))), r);
      if Registered(p, r) {
        var k := IndexOf(p, r);
        assert reg[k] == p[k];
      }
    }
  }

  /** When the new tagger is the only player who is It, the sentinel reaches
      the tagger alone and every other client is told the tagger's id. */
  lemma SentinelOnlyToNewIt(reg: seq<Client>, k: nat)
    requires UniqueSockets(reg) && k < |reg| && reg[k].data.isIt && ItCount(reg) == 1
    requires reg[k].data.serverId != YouAreIt
    ensures forall r :: Registered(reg, r) ==>
      MessagesTo(TagNotices(reg, reg[k].data), r)
        == [PlayerTagged(if r == reg[k].socket then YouAreIt else reg[k].data.serverId)]
  {
    ItCountOne(reg, k);
    forall r | Registered(reg, r)
      ensures MessagesTo(TagNotices(reg, reg[k].data), r)
           == [PlayerTagged(if r == reg[k].socket then YouAreIt else reg[k].data.serverId)]
    {
      TagNoticesTo(reg, reg[k].data, r);
    }
  }

  // ---------------------------------------------------------------------------
  // Leave notices

  function LeftFanout(reg: seq<Client>, id: int, sender: Socket): seq<Envelope>
  {
    if reg == [] then []
    else
      var r := reg[|reg| - 1].socket;
      LeftFanout(reg[..|reg| - 1], id, sender) + (if r != sender then [Envelope(r, PlayerLeft(id))] else [])
  }

  /** Every registered client other than the leaver receives exactly one leave
      notice; the leaver and unknown sockets receive none. */
  lemma {:induction false} LeftFanoutTo(reg: seq<Client>, id: int, sender: Socket, r: Socket)
    requires UniqueSockets(reg)
    ensures MessagesTo(LeftFanout(reg, id, sender), r) == if r != sender && Registered(reg, r) then [PlayerLeft(id)] else []
  {
    if reg != [] {
      var p := reg[..|reg| - 1];
      var last := reg[|reg| - 1].socket;
      RegisteredSplit(reg);
      LeftFanoutTo(p, id, sender, r);
      MessagesToAppend(LeftFanout(p, id, sender), if last != sender then [Envelope(last, PlayerLeft(id))] else [], r);
    }
  }

  // ---------------------------------------------------------------------------
  // The snapshot a joining client receives

  function PositionSnapshot(reg: seq<Client>): seq<Message>
  {
    if reg == [] then []
    else
      var c := reg[|reg| - 1];
      PositionSnapshot(reg[..|reg| - 1]) + (if c.data.active then [Update(c.data)] else [])
  }

  function TagSnapshot(reg: seq<Client>): seq<Message>
  {
    if reg == [] then []
    else
      var c := reg[|reg| - 1];
      TagSnapshot(reg[..|reg| - 1]) + (if c.data.isIt then [PlayerTagged(c.data.serverId)] else [])
  }

  lemma SnapshotStep(reg: seq<Client>, i: nat)
    requires i < |reg|
    ensures PositionSnapshot(reg[..i + 1])
         == PositionSnapshot(reg[..i]) + (if reg[i].data.active then [Update(reg[i].data)] else [])
    ensures TagSnapshot(reg[..i + 1])
         == TagSnapshot(reg[..i]) + (if reg[i].data.isIt then [PlayerTagged(reg[i].data.serverId)] else [])
  {
    assert reg[..i + 1][..i] == reg[..i];
  }

  /** Positions first, then tag notices. */
  function Snapshot(reg: seq<Client>): seq<Message>
  {
    PositionSnapshot(reg) + TagSnapshot(reg)
  }

  /** All of `msgs`, addressed to one recipient, in order. */
  function Addressed(to: Socket, msgs: seq<Message>): seq<Envelope>
  {
    seq(|msgs|, i requires 0 <= i < |msgs| => Envelope(to, msgs[i]))
  }

  lemma AddressedAppend(to: Socket, a: seq<Message>, b: seq<Message>)
    ensures Addressed(to, a + b) == Addressed(to, a) + Addressed(to, b)
  {
  }

  lemma AddressedSnoc(to: Socket, msgs: seq<Message>, m: Message)
    ensures Addressed(to, msgs + [m]) == Addressed(to, msgs) + [Envelope(to, m)]
  {
  }

  /** Only the addressee receives anything, and it receives all of it in order. */
  lemma {:induction false} AddressedTo(to: Socket, msgs: seq<Message>, r: Socket)
    ensures MessagesTo(Addressed(to, msgs), r) == if r == to then msgs else []
  {
    if msgs != [] {
      var p := msgs[..|msgs| - 1];
      AddressedTo(to, p, r);
      assert p + [msgs[|msgs| - 1]] == msgs;
      AddressedSnoc(to, p, msgs[|msgs| - 1]);
      MessagesToSnoc(Addressed(to, p), Envelope(to, msgs[|msgs| - 1]), r);
    }
  }

  /** The position part holds one update for each active player and nothing else. */
  lemma {:induction false} PositionSnapshotMembers(reg: seq<Client>)
    ensures forall m :: m in PositionSnapshot(reg) <==> exists i :: 0 <= i < |reg| && reg[i].data.active && m == Update(reg[i].data)
  {
    if reg != [] {
      var n := |reg|;
      var p := reg[..n - 1];
      PositionSnapshotMembers(p);
      forall m ensures m in PositionSnapshot(reg) <==> exists i :: 0 <= i < n && reg[i].data.active && m == Update(reg[i].data)
      {
        if m in PositionSnapshot(p) {
          var i :| 0 <= i < |p| && p[i].data.active && m == Update(p[i].data);
          assert reg[i] == p[i];
        }
        if exists i :: 0 <= i < n && reg[i].data.active && m == Update(reg[i].data) {
          var i :| 0 <= i < n && reg[i].data.active && m == Update(reg[i].data);
          if i < |p| {
            assert p[i] == reg[i];
          }
        }
      }
    }
  }

  /** With distinct ids, each active player's update occurs exactly once. */
  lemma {:induction false} PositionSnapshotOnce(reg: seq<Client>)
    requires forall i, j :: 0 <= i < j < |reg| ==> reg[i].data.serverId != reg[j].data.serverId
    ensures forall i :: 0 <= i < |reg| && reg[i].data.active ==> multiset(PositionSnapshot(reg))[Update(reg[i].data)] == 1
  {
    if reg != [] {
      var n := |reg|;
      var p := reg[..n - 1];
      var c := reg[n - 1];
      var tail := if c.data.active then [Update(c.data)] else [];
      assert forall i :: 0 <= i < |p| ==> p[i] == reg[i];
      PositionSnapshotOnce(p);
      PositionSnapshotMembers(p);
      assert multiset(PositionSnapshot(reg)) == multiset(PositionSnapshot(p)) + multiset(tail);
      forall i | 0 <= i < n && reg[i].data.active
        ensures multiset(PositionSnapshot(reg))[Update(reg[i].data)] == 1
      {
        if i < n - 1 {
          assert Update(reg[i].data) != Update(c.data);
        } else {
          assert Update(c.data) !in PositionSnapshot(p);
        }
      }
    }
  }

  /** The tag part holds one notice per It player, naming that player. */
  lemma {:induction false} TagSnapshotSpec(reg: seq<Client>)
    ensures |TagSnapshot(reg)| == ItCount(reg)
    ensures forall m :: m in TagSnapshot(reg) <==> exists i :: 0 <= i < |reg| && reg[i].data.isIt && m == PlayerTagged(reg[i].data.serverId)
  {
    if reg != [] {
      var n := |reg|;
      var p := reg[..n - 1];
      TagSnapshotSpec(p);
      assert forall i :: 0 <= i < |p| ==> p[i] == reg[i];
      forall m ensures m in TagSnapshot(reg) <==> exists i :: 0 <= i < n && reg[i].data.isIt && m == PlayerTagged(reg[i].data.serverId)
      {
        if m in TagSnapshot(p) {
          var i :| 0 <= i < |p| && p[i].data.isIt && m == PlayerTagged(p[i].data.serverId);
          assert reg[i].data.isIt;
        }
        if exists i :: 0 <= i < n && reg[i].data.isIt && m == PlayerTagged(reg[i].data.serverId) {
          var i :| 0 <= i < n && reg[i].data.isIt && m == PlayerTagged(reg[i].data.serverId);
          if i < |p| {
            assert p[i].data.isIt;
          }
        }
      }
    }
  }

  /** A snapshot taken before a player with id `id` registers never mentions
      that id, when every registered id is below it. */
  lemma SnapshotOmits(reg: seq<Client>, id: int)
    requires WellFormed(reg, id)
    ensures forall m :: m in Snapshot(reg) ==> m.serverId != id
  {
    PositionSnapshotMembers(reg);
    TagSnapshotSpec(reg);
  }
}
