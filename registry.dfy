/** The session registry: the server's socket -> player table, held as a
    sequence whose order stands for the table's iteration order, fixed here
    as insertion order. */
module Registry {
  import opened Model

  predicate Registered(reg: seq<Client>, s: Socket)
  {
    exists i :: 0 <= i < |reg| && reg[i].socket == s
  }

  /** A socket is a key of the table: it appears at most once. */
  predicate UniqueSockets(reg: seq<Client>)
  {
    forall i, j :: 0 <= i < j < |reg| ==> reg[i].socket != reg[j].socket
  }

  /** Sockets are keys, every id was issued below `next`, and ids are distinct. */
  predicate WellFormed(reg: seq<Client>, next: int)
  {
    && UniqueSockets(reg)
    && (forall i :: 0 <= i < |reg| ==> 0 <= reg[i].data.serverId < next)
    && (forall i, j :: 0 <= i < j < |reg| ==> reg[i].data.serverId != reg[j].data.serverId)
  }

  /** Position of a socket's entry (the table lookup). */
  function IndexOf(reg: seq<Client>, s: Socket): (k: nat)
    requires Registered(reg, s)
    ensures k < |reg| && reg[k].socket == s
    ensures forall i :: 0 <= i < k ==> reg[i].socket != s
  {
    if reg[0].socket == s then 0
    else
      assert Registered(reg[1..], s) by {
        var i :| 0 <= i < |reg| && reg[i].socket == s;
        assert reg[1..][i - 1] == reg[i];
      }
      1 + IndexOf(reg[1..], s)
  }

  /** Splitting off the last entry, as the folds over the registry do. */
  lemma RegisteredSplit(reg: seq<Client>)
    requires |reg| > 0
    ensures forall r :: Registered(reg, r) <==> Registered(reg[..|reg| - 1], r) || reg[|reg| - 1].socket == r
    ensures UniqueSockets(reg) ==> UniqueSockets(reg[..|reg| - 1]) && !Registered(reg[..|reg| - 1], reg[|reg| - 1].socket)
  {
    var p := reg[..|reg| - 1];
    forall r ensures Registered(reg, r) <==> Registered(p, r) || reg[|reg| - 1].socket == r {
      if Registered(reg, r) {
        var i :| 0 <= i < |reg| && reg[i].socket == r;
        if i < |p| { assert p[i] == reg[i]; }
      }
      if Registered(p, r) {
        var i :| 0 <= i < |p| && p[i].socket == r;
        assert reg[i] == p[i];
      }
    }
  }

  // ---------------------------------------------------------------------------
  // Counting the players who are It

  function Bit(c: Client): nat
  {
    if c.data.isIt then 1 else 0
  }

  function ItCount(reg: seq<Client>): nat
  {
    if reg == [] then 0 else ItCount(reg[..|reg| - 1]) + Bit(reg[|reg| - 1])
  }

  predicate HasIt(reg: seq<Client>)
  {
    exists i :: 0 <= i < |reg| && reg[i].data.isIt
  }

  lemma {:induction false} ItCountZero(reg: seq<Client>)
    ensures ItCount(reg) == 0 <==> !HasIt(reg)
  {
    if reg != [] {
      var p := reg[..|reg| - 1];
      ItCountZero(p);
      if HasIt(p) {
        var i :| 0 <= i < |p| && p[i].data.isIt;
        assert reg[i] == p[i];
      }
      if HasIt(reg) {
        var i :| 0 <= i < |reg| && reg[i].data.isIt;
        if i < |p| { assert p[i] == reg[i]; }
      }
    }
  }

  lemma {:induction false} ItCountAppend(reg: seq<Client>, c: Client)
    ensures ItCount(reg + [c]) == ItCount(reg) + Bit(c)
  {
    assert (reg + [c])[..|reg|] == reg;
  }

  /** An entry's socket does not occur before it when sockets are unique. */
  lemma PrefixUnregistered(reg: seq<Client>, i: nat)
    requires UniqueSockets(reg) && i < |reg|
    ensures !Registered(reg[..i], reg[i].socket)
  {
    forall a | 0 <= a < i
      ensures reg[..i][a].socket != reg[i].socket
    {
      assert reg[..i][a] == reg[a];
    }
  }

  /** Replacing one entry changes the count by exactly the two entries' bits. */
  lemma {:induction false} ItCountUpdate(reg: seq<Client>, k: nat, c: Client)
    requires k < |reg|
    ensures ItCount(reg[k := c]) + Bit(reg[k]) == ItCount(reg) + Bit(c)
  {
    var n := |reg|;
    var p := reg[..n - 1];
    if k == n - 1 {
      assert reg[k := c][..n - 1] == p;
    } else {
      assert reg[k := c][..n - 1] == p[k := c];
      ItCountUpdate(p, k, c);
    }
  }

  /** When exactly one player is It, nobody else is. */
  lemma ItCountOne(reg: seq<Client>, k: nat)
    requires k < |reg| && reg[k].data.isIt && ItCount(reg) == 1
    ensures forall i :: 0 <= i < |reg| && i != k ==> !reg[i].data.isIt
  {
    forall i | 0 <= i < |reg| && i != k
      ensures !reg[i].data.isIt
    {
      var cleared := reg[i].(data := reg[i].data.(isIt := false));
      ItCountUpdate(reg, i, cleared);
      ItCountZero(reg[i := cleared]);
      assert reg[i := cleared][k].data.isIt;
    }
  }

  // ---------------------------------------------------------------------------
  // Registry updates

  /** Whether a player stays active: no entry that was active turns inactive. */
  predicate ActiveKept(before: seq<Client>, after: seq<Client>)
  {
    forall i, j :: 0 <= i < |before| && 0 <= j < |after| && before[i].socket == after[j].socket && before[i].data.active
      ==> after[j].data.active
  }

  /** `emplace`: the entry is added at the end unless its socket is already
      a key, in which case the table is left as is. */
  function Emplaced(reg: seq<Client>, c: Client): (r: seq<Client>)
    ensures Registered(r, c.socket)
  {
    if Registered(reg, c.socket) then reg
    else
      var r := reg + [c];
      assert r[|reg|] == c;
      r
  }

  /** The record a joining player gets: the origin, inactive, and It exactly
      when the table is empty. */
  function NewPlayer(reg: seq<Client>, id: int): PlayerData
  {
    PlayerData(Origin, id, false, |reg| < 1)
  }

  /** A join: `emplace` of the new record under the joining socket. */
  function Joined(reg: seq<Client>, s: Socket, id: int): seq<Client>
  {
    Emplaced(reg, Client(s, NewPlayer(reg, id)))
  }

  /** Joining keeps at most one It: the newcomer is It only in an empty table. */
  lemma JoinedItCount(reg: seq<Client>, s: Socket, id: int)
    ensures ItCount(Joined(reg, s, id)) == if reg == [] then 1 else ItCount(reg)
  {
    if !Registered(reg, s) {
      ItCountAppend(reg, Client(s, PlayerData(Origin, id, false, |reg| < 1)));
    }
  }

  /** Joining with the next id keeps sockets and ids unique. */
  lemma JoinedWellFormed(reg: seq<Client>, s: Socket, next: int)
    requires WellFormed(reg, next) && next >= 0
    ensures WellFormed(Joined(reg, s, next), next + 1)
  {
  }

  /** A received position: stored, and the player marked active. */
  function Moved(reg: seq<Client>, k: nat, pos: Vec3): seq<Client>
    requires k < |reg|
  {
    reg[k := reg[k].(data := reg[k].data.(position := pos, active := true))]
  }

  /** A move changes one player's position and activity and nothing else the
      invariants depend on. */
  lemma MovedKeeps(reg: seq<Client>, k: nat, pos: Vec3, next: int)
    requires k < |reg|
    ensures WellFormed(reg, next) ==> WellFormed(Moved(reg, k, pos), next)
    ensures UniqueSockets(reg) ==> ActiveKept(reg, Moved(reg, k, pos))
    ensures ItCount(Moved(reg, k, pos)) == ItCount(reg)
    ensures Moved(reg, k, pos)[k].data.active && Moved(reg, k, pos)[k].data.position == pos
  {
    ItCountUpdate(reg, k, Moved(reg, k, pos)[k]);
  }

  /** `erase` of a socket's entry; the order of the others is kept. */
  function Removed(reg: seq<Client>, s: Socket): (r: seq<Client>)
    ensures |r| <= |reg|
  {
    if reg == [] then []
    else
      var p := reg[..|reg| - 1];
      var last := reg[|reg| - 1];
      Removed(p, s) + (if last.socket == s then [] else [last])
  }

  /** Erasing leaves the socket unregistered, keeps every entry with another
      socket and adds nothing. */
  lemma {:induction false} RemovedMembers(reg: seq<Client>, s: Socket)
    ensures !Registered(Removed(reg, s), s)
    ensures forall c :: c in Removed(reg, s) <==> c in reg && c.socket != s
  {
    if reg != [] {
      var p := reg[..|reg| - 1];
      var last := reg[|reg| - 1];
      RemovedMembers(p, s);
      assert reg == p + [last];
      var r := Removed(reg, s);
      assert r == Removed(p, s) + (if last.socket == s then [] else [last]);
      forall c ensures c in r <==> c in reg && c.socket != s {
        assert c in reg <==> c in p || c == last;
      }
      forall i | 0 <= i < |r|
        ensures r[i].socket != s
      {
        assert r[i] in r;
      }
    }
  }

  /** Erasing a socket that is not registered changes nothing. */
  lemma {:induction false} RemovedAbsent(reg: seq<Client>, s: Socket)
    requires !Registered(reg, s)
    ensures Removed(reg, s) == reg
  {
    if reg != [] {
      var p := reg[..|reg| - 1];
      var last := reg[|reg| - 1];
      assert reg[|reg| - 1] == last;
      assert !Registered(p, s) by {
        forall i | 0 <= i < |p| ensures p[i].socket != s {
          assert p[i] == reg[i];
        }
      }
      RemovedAbsent(p, s);
      assert reg == p + [last];
    }
  }

  /** Erasing a registered socket drops exactly its entry: one entry fewer, and
      an It count lower by that entry's bit (It is never handed on). */
  lemma {:induction false} RemovedItCount(reg: seq<Client>, s: Socket, k: nat)
    requires UniqueSockets(reg) && k < |reg| && reg[k].socket == s
    ensures |Removed(reg, s)| + 1 == |reg|
    ensures ItCount(Removed(reg, s)) + Bit(reg[k]) == ItCount(reg)
  {
    var n := |reg|;
    var p := reg[..n - 1];
    var last := reg[n - 1];
    RegisteredSplit(reg);
    assert reg == p + [last];
    if k == n - 1 {
      RemovedAbsent(p, s);
      assert Removed(reg, s) == p;
    } else {
      assert p[k] == reg[k];
      RemovedItCount(p, s, k);
      ItCountAppend(Removed(p, s), last);
    }
  }

  /** Erasing keeps sockets and ids unique. */
  lemma {:induction false} RemovedWellFormed(reg: seq<Client>, s: Socket, next: int)
    requires WellFormed(reg, next)
    ensures WellFormed(Removed(reg, s), next)
  {
    if reg != [] {
      var p := reg[..|reg| - 1];
      var last := reg[|reg| - 1];
      assert WellFormed(p, next);
      RemovedWellFormed(p, s, next);
      var rp := Removed(p, s);
      if last.socket != s {
        var r := rp + [last];
        forall i | 0 <= i < |rp|
          ensures rp[i].socket != last.socket && rp[i].data.serverId != last.data.serverId
        {
          RemovedMembers(p, s);
          assert rp[i] in p;
          var j :| 0 <= j < |p| && p[j] == rp[i];
          assert reg[j] == p[j];
        }
        assert WellFormed(r, next);
      }
    }
  }
}
