/**
 The lock-order register: every processor's chain of held locks and the graph of orders seen so far.
 An acquisition is accepted only if the graph stays free of cycles.
 */
module LockOrder {
  import opened LockGraph

  const DEPTH: nat := 16

  datatype Status = Accepted | Cycle | Recursive | Capacity | NotHeld | OutOfOrder

  /** The lowest slot that holds `v`, or the number of slots. */
  ghost function FirstAt(slots: seq<nat>, v: nat): (i: nat)
    ensures i <= |slots| && (i < |slots| ==> slots[i] == v) && forall j :: 0 <= j < i ==> slots[j] != v
  {
    if slots == [] || slots[0] == v then 0 else FirstAt(slots[1..], v) + 1
  }

  /** The slot a lock has or, if it is new, would get. */
  ghost function Seat(slots: seq<nat>, lock: nat): nat {
    if lock in slots then FirstAt(slots, lock) else FirstAt(slots, 0)
  }

  /** Slots name locks by address; 0 is a vacant slot. */
  class LockOrder {
    var slots: seq<nat>
    var names: seq<nat>
    var edges: Graph
    var held: seq<seq<nat>>

    ghost predicate Valid()
      reads this
    {
      && |slots| == LOCKS && |names| == LOCKS && Shaped(edges) && Acyclic(edges)
      && (forall i, j :: 0 <= i < j < LOCKS && slots[i] == slots[j] ==> slots[i] == 0)
      && (forall a: nat, b: nat :: Leads(edges, a, b) ==> slots[a] != 0 && slots[b] != 0)
      && (forall c :: 0 <= c < |held| ==> ChainOk(held[c]))
    }

    ghost predicate ChainOk(chain: seq<nat>)
      reads this
    {
      |chain| <= DEPTH && Ordered(edges, chain) && forall h :: h in chain ==> h < |slots| && slots[h] != 0
    }

    constructor (cpus: nat)
      ensures Valid() && held == seq(cpus, i => [])
    {
      slots := seq(LOCKS, i => 0);
      names := seq(LOCKS, i => 0);
      edges := seq(LOCKS, i => {});
      held := seq(cpus, i => []);
      new;
      EmptyAcyclic(edges);
    }

    method FindFirst(v: nat) returns (i: nat)
      requires |slots| == LOCKS
      ensures i == FirstAt(slots, v)
    {
      i := 0;
      while i < LOCKS && slots[i] != v
        invariant i <= LOCKS && forall j :: 0 <= j < i ==> slots[j] != v
      {
        i := i + 1;
      }
    }

    /** The slot of a lock, or LOCKS; nothing is never resident. */
    method FindLock(lock: nat) returns (i: nat)
      requires |slots| == LOCKS
      ensures i == if lock == 0 then LOCKS else FirstAt(slots, lock)
    {
      if lock == 0 {
        return LOCKS;
      }
      i := FindFirst(lock);
    }

    /** Records that a processor took a lock, unless that could close a cycle of waiting. */
    method Acquire(cpu: nat, lock: nat) returns (status: Status)
      requires Valid() && cpu < |held|
      modifies this
      ensures Valid() && names == old(names)
      ensures status == Capacity <==>
                lock == 0 || |old(held[cpu])| == DEPTH || (lock !in old(slots) && 0 !in old(slots))
      ensures status == Recursive <==> status != Capacity && Seat(old(slots), lock) in old(held[cpu])
      ensures status == Cycle <==> status != Capacity && Seat(old(slots), lock) !in old(held[cpu])
                                   && exists h :: h in old(held[cpu]) && Reaches(old(edges), Seat(old(slots), lock), h)
      ensures status in {Accepted, Capacity, Recursive, Cycle}
      ensures status == Accepted ==>
                && Seat(old(slots), lock) < LOCKS
                && slots == old(slots)[Seat(old(slots), lock) := lock]
                && edges == Connected(old(edges), old(held[cpu]), Seat(old(slots), lock))
                && held == old(held)[cpu := old(held[cpu]) + [Seat(old(slots), lock)]]
      ensures status != Accepted ==> slots == old(slots) && edges == old(edges) && held == old(held)
    {
      if lock == 0 || |held[cpu]| == DEPTH {
        return Capacity;
      }
      var index := FindLock(lock);
      if index == LOCKS {
        index := FindFirst(0);
        if index == LOCKS {
          return Capacity;
        }
      }
      status := Clash(cpu, index);
      if status == Accepted {
        Record(cpu, index, lock);
      }
    }

    /** Whether a processor holds the lock already, or the lock leads back to one it holds. */
    method Clash(cpu: nat, index: nat) returns (status: Status)
      requires Valid() && cpu < |held| && index < LOCKS
      ensures status in {Accepted, Recursive, Cycle}
      ensures status == Recursive <==> index in held[cpu]
      ensures status == Cycle <==> index !in held[cpu] && exists h :: h in held[cpu] && Reaches(edges, index, h)
    {
      hide Acyclic, Reaches, Ordered;
      assert ChainOk(held[cpu]);
      var k := 0;
      while k < |held[cpu]|
        invariant 0 <= k <= |held[cpu]|
        invariant forall j :: 0 <= j < k ==> !Reaches(edges, index, held[cpu][j])
      {
        if held[cpu][k] == index {
          return Recursive;
        }
        var back := Search(edges, index, held[cpu][k]);
        if back {
          NotInChain(held[cpu], k, index);
          return Cycle;
        }
        k := k + 1;
      }
      NotReached(held[cpu], index);
      status := Accepted;
    }

    /** Draws an edge from every held lock to the new one and puts it on the chain. */
    method Record(cpu: nat, index: nat, lock: nat)
      requires Valid() && cpu < |held| && index < LOCKS && |held[cpu]| < DEPTH && lock != 0
      requires slots[index] == lock || (slots[index] == 0 && lock !in slots)
      requires forall h :: h in held[cpu] ==> !Reaches(edges, index, h)
      modifies this`slots, this`edges, this`held
      ensures Valid()
      ensures slots == old(slots)[index := lock] && edges == Connected(old(edges), old(held[cpu]), index)
      ensures held == old(held)[cpu := old(held[cpu]) + [index]]
    {
      hide Acyclic, Reaches, Ordered;
      if slots[index] == 0 {
        slots := slots[index := lock];
      }
      ghost var chain, start := held[cpu], edges;
      assert ChainOk(chain);
      var k := 0;
      while k < |held[cpu]|
        invariant 0 <= k <= |held[cpu]| && |edges| == |start|
        invariant forall i :: 0 <= i < |edges| ==> edges[i] == if i in chain[..k] then start[i] + {index} else start[i]
        modifies this`edges
      {
        assert held[cpu][k] in held[cpu] && chain[..k + 1] == chain[..k] + [held[cpu][k]];
        edges := edges[held[cpu][k] := edges[held[cpu][k]] + {index}];
        k := k + 1;
      }
      assert chain[..k] == chain;
      assert edges == Connected(start, chain, index);
      ConnectedAcyclic(start, chain, index);
      held := held[cpu := held[cpu] + [index]];
      ConnectedExtends(start, chain, index);
      forall c | 0 <= c < |held|
        ensures ChainOk(held[c])
      {
        assert old(ChainOk(held[c]));
        ConnectedKeepsOrder(start, chain, index, old(held[c]));
      }
      ConnectedOccupied(start, chain, index);
    }

    /** An index later in a chain than one it reaches would close a cycle. */
    lemma NotInChain(chain: seq<nat>, k: nat, index: nat)
      requires Valid() && ChainOk(chain) && k < |chain| && index < LOCKS && Reaches(edges, index, chain[k])
      requires index != chain[k]
      requires forall j :: 0 <= j < k ==> !Reaches(edges, index, chain[j])
      ensures index !in chain
    {
      forall j | 0 <= j < |chain|
        ensures chain[j] != index
      {
        if j < k {
          ReachesSelf(edges, index);
        } else if j > k && chain[j] == index {
          assert Leads(edges, chain[k], chain[j]);
          NoWayBack(edges, index, chain[k]);
        }
      }
    }

    lemma NotReached(chain: seq<nat>, index: nat)
      requires Shaped(edges) && index < LOCKS && forall j :: 0 <= j < |chain| ==> !Reaches(edges, index, chain[j])
      ensures index !in chain && forall h :: h in chain ==> !Reaches(edges, index, h)
    {
      ReachesSelf(edges, index);
    }

    /** Lets go of the innermost lock. */
    method Release(cpu: nat, lock: nat) returns (status: Status)
      requires Valid() && cpu < |held|
      modifies this`held
      ensures Valid()
      ensures status == NotHeld <==> lock !in old(slots) || FirstAt(old(slots), lock) !in old(held[cpu])
      ensures status == OutOfOrder <==> status != NotHeld && Awaited(old(held), cpu) != FirstAt(old(slots), lock)
      ensures status in {Accepted, NotHeld, OutOfOrder}
      ensures held == if status == Accepted then old(held)[cpu := Possessed(old(held), cpu)] else old(held)
    {
      hide Acyclic;
      assert ChainOk(held[cpu]);
      var index := FindLock(lock);
      if index == LOCKS || index !in held[cpu] {
        return NotHeld;
      }
      if held[cpu][|held[cpu]| - 1] != index {
        return OutOfOrder;
      }
      held := held[cpu := held[cpu][..|held[cpu]| - 1]];
      status := Accepted;
    }

    /** Drops a destroyed lock and all its edges, unless some processor holds it. */
    method Forget(lock: nat) returns (ok: bool)
      requires Valid()
      modifies this`slots, this`names, this`edges
      ensures Valid()
      ensures ok <==> lock == 0 || lock !in old(slots) || forall c :: 0 <= c < |held| ==>
                FirstAt(old(slots), lock) !in held[c]
      ensures if ok && lock != 0 && lock in old(slots)
              then && lock !in slots && slots == old(slots)[FirstAt(old(slots), lock) := 0]
                   && names == old(names)[FirstAt(old(slots), lock) := 0]
                   && edges == Erased(old(edges), FirstAt(old(slots), lock))
              else slots == old(slots) && names == old(names) && edges == old(edges)
    {
      hide Acyclic, Ordered, Erased;
      var index := FindLock(lock);
      if index == LOCKS {
        return true;
      }
      var c := 0;
      while c < |held|
        invariant 0 <= c <= |held| && forall d :: 0 <= d < c ==> index !in held[d]
        modifies {}
      {
        if index in held[c] {
          return false;
        }
        c := c + 1;
      }
      ghost var start := edges;
      slots := slots[index := 0];
      names := names[index := 0];
      edges := Erased(edges, index);
      ErasedAcyclic(start, index);
      ErasedOccupied(start, index);
      forall d | 0 <= d < |held|
        ensures ChainOk(held[d])
      {
        assert old(ChainOk(held[d]));
        ErasedKeepsOrder(start, index, held[d]);
      }
      ok := true;
    }

    /** Gives a lock a slot and a name before it is first taken. */
    method NameLock(lock: nat, name: nat) returns (ok: bool)
      requires Valid()
      modifies this`slots, this`names
      ensures Valid()
      ensures ok <==> lock == 0 || name == 0 || lock in old(slots) || 0 in old(slots)
      ensures lock != 0 && name != 0 && ok ==> lock in slots && Seat(old(slots), lock) < LOCKS
      ensures names == if lock != 0 && name != 0 && ok then old(names)[Seat(old(slots), lock) := name] else old(names)
      ensures slots == if lock != 0 && name != 0 && ok then old(slots)[Seat(old(slots), lock) := lock] else old(slots)
    {
      hide Acyclic, Ordered;
      if lock == 0 || name == 0 {
        return true;
      }
      var index := FindLock(lock);
      if index == LOCKS {
        index := FindFirst(0);
        if index == LOCKS {
          return false;
        }
        slots := slots[index := lock];
      }
      assert slots[index] == lock;
      names := names[index := name];
      ok := true;
    }

    /** Processors that passed Acquire for the lock they wait for never wait in a ring. */
    lemma NeverDeadlocked(cpus: seq<nat>)
      requires Valid()
      ensures !WaitRing(held, cpus)
    {
      forall c | 0 <= c < |held|
        ensures Ordered(edges, held[c])
      {
        assert ChainOk(held[c]);
      }
      NoWaitRing(edges, held, cpus);
    }
  }
}
