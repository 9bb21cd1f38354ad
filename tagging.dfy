/** The tag rules: who may tag whom, the first qualifying pair in scan order,
    the flag changes of a tag and of a failsafe assignment, and the scan
    interval schedule. */
module Tagging {
  import opened Model
  import opened Registry

  /** Players within this many world units of each other can tag. */
  const TagDistance: real := 3.0

  /** Milliseconds the scanner waits: before its very first scan, after a scan
      that found no tag, and after a tag. */
  const FirstScanDelay: int := 20
  const ScanInterval: int := 100
  const TagCooldown: int := 3000

  function SqDist(a: Vec3, b: Vec3): real
  {
    (a.x - b.x) * (a.x - b.x) + (a.y - b.y) * (a.y - b.y) + (a.z - b.z) * (a.z - b.z)
  }

  /** Euclidean distance at most TagDistance, compared on squares. */
  predicate InReach(a: Vec3, b: Vec3)
  {
    SqDist(a, b) <= TagDistance * TagDistance
  }

  /** p1 tags p2: p1 is It, p2 is not, and they are close enough. */
  predicate CanTag(p1: PlayerData, p2: PlayerData)
  {
    InReach(p1.position, p2.position) && p1.isIt && !p2.isIt
  }

  predicate NoTag(reg: seq<Client>)
  {
    forall a, b :: 0 <= a < |reg| && 0 <= b < |reg| ==> !CanTag(reg[a].data, reg[b].data)
  }

  /** (i, j) can tag and no pair before it in the scan order (outer index
      first, then inner) can. */
  predicate IsFirstTag(reg: seq<Client>, i: int, j: int)
  {
    && 0 <= i < |reg| && 0 <= j < |reg|
    && CanTag(reg[i].data, reg[j].data)
    && forall a, b :: 0 <= a < |reg| && 0 <= b < |reg| && (a < i || (a == i && b < j)) ==> !CanTag(reg[a].data, reg[b].data)
  }

  function WithIt(c: Client, it: bool): Client
  {
    c.(data := c.data.(isIt := it))
  }

  /** The flag changes of a tag: i stops being It, j becomes It. */
  function Tagged(reg: seq<Client>, i: nat, j: nat): seq<Client>
    requires i < |reg| && j < |reg|
  {
    reg[i := WithIt(reg[i], false)][j := WithIt(reg[j], true)]
  }

  /** The failsafe's flag change: player k becomes It. */
  function Assigned(reg: seq<Client>, k: nat): seq<Client>
    requires k < |reg|
  {
    reg[k := WithIt(reg[k], true)]
  }

  /** Scan the ordered pairs in registry order and stop at the first pair that
      can tag. */
  method FindTag(reg: seq<Client>) returns (found: bool, i: nat, j: nat)
    ensures found ==> IsFirstTag(reg, i, j)
    ensures !found ==> NoTag(reg)
  {
    var a := 0;
    while a < |reg|
      invariant 0 <= a <= |reg|
      invariant forall a', b' :: 0 <= a' < a && 0 <= b' < |reg| ==> !CanTag(reg[a'].data, reg[b'].data)
    {
      var b := 0;
      while b < |reg|
        invariant 0 <= b <= |reg|
        invariant forall b' :: 0 <= b' < b ==> !CanTag(reg[a].data, reg[b'].data)
      {
        var p1, p2 := reg[a].data, reg[b].data;
        if InReach(p1.position, p2.position) && p1.isIt && !p2.isIt {
          return true, a, b;
        }
        b := b + 1;
      }
      a := a + 1;
    }
    return false, 0, 0;
  }

  /** The failsafe's check for a player who is It, stopping at the first. */
  method HasTag(reg: seq<Client>) returns (hasTag: bool)
    ensures hasTag <==> HasIt(reg)
  {
    hasTag := false;
    var a := 0;
    while a < |reg|
      invariant 0 <= a <= |reg|
      invariant !hasTag
      invariant forall a' :: 0 <= a' < a ==> !reg[a'].data.isIt
    {
      if reg[a].data.isIt {
        hasTag := true;
        break;
      }
      a := a + 1;
    }
  }

  /** A tag involves two different players and moves It from one to the other:
      the number of It players is unchanged. */
  lemma TagKeepsItCount(reg: seq<Client>, i: nat, j: nat)
    requires i < |reg| && j < |reg| && CanTag(reg[i].data, reg[j].data)
    ensures i != j
    ensures ItCount(Tagged(reg, i, j)) == ItCount(reg)
    ensures !Tagged(reg, i, j)[i].data.isIt && Tagged(reg, i, j)[j].data.isIt
  {
    var r1 := reg[i := WithIt(reg[i], false)];
    ItCountUpdate(reg, i, WithIt(reg[i], false));
    ItCountUpdate(r1, j, WithIt(reg[j], true));
  }

  /** Changing It flags keeps sockets and ids as they were. */
  lemma WithItWellFormed(reg: seq<Client>, k: nat, it: bool, next: int)
    requires k < |reg| && WellFormed(reg, next)
    ensures WellFormed(reg[k := WithIt(reg[k], it)], next)
    ensures ActiveKept(reg, reg[k := WithIt(reg[k], it)])
  {
    var r := reg[k := WithIt(reg[k], it)];
    assert forall a :: 0 <= a < |reg| ==>
      r[a].socket == reg[a].socket && r[a].data.serverId == reg[a].data.serverId && r[a].data.active == reg[a].data.active;
  }

  /** A failsafe assignment into a table without an It player leaves exactly one. */
  lemma FailsafeMakesOneIt(reg: seq<Client>, k: nat)
    requires k < |reg| && !HasIt(reg)
    ensures ItCount(Assigned(reg, k)) == 1
    ensures Assigned(reg, k)[k].data.isIt
  {
    ItCountZero(reg);
    ItCountUpdate(reg, k, WithIt(reg[k], true));
  }

  /** Two players, one of them It: a tag is possible exactly when they are
      within TagDistance. */
  lemma TwoPlayerTag(c1: Client, c2: Client)
    requires c1.data.isIt != c2.data.isIt
    ensures !NoTag([c1, c2]) <==> InReach(c1.data.position, c2.data.position)
  {
    var p, q := c1.data.position, c2.data.position;
    assert SqDist(p, q) == SqDist(q, p);
    var reg := [c1, c2];
    if InReach(p, q) {
      if c1.data.isIt {
        assert CanTag(reg[0].data, reg[1].data);
      } else {
        assert CanTag(reg[1].data, reg[0].data);
      }
    }
  }
}
