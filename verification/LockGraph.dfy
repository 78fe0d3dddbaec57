/**
 The graph of lock orders: an edge leads from a lock to every lock that was taken while it was held.
 */
module LockGraph {
  const LOCKS: nat := 64

  /** For every slot the slots its edges lead to. */
  type Graph = seq<set<nat>>

  ghost predicate Shaped(g: Graph) {
    |g| == LOCKS && forall a, b :: 0 <= a < |g| && b in g[a] ==> b < LOCKS
  }

  /** A walk along edges; one slot alone is a walk of length zero. */
  ghost predicate Walk(g: Graph, p: seq<nat>) {
    p != [] && p[0] < |g| && forall i :: 0 <= i < |p| - 1 ==> Leads(g, p[i], p[i + 1])
  }

  ghost predicate Leads(g: Graph, a: nat, b: nat) {
    a < |g| && b in g[a]
  }

  ghost predicate Reaches(g: Graph, a: nat, b: nat) {
    exists p :: Walk(g, p) && p[0] == a && p[|p| - 1] == b
  }

  /** No walk of one edge or more comes back to where it started. */
  ghost predicate Acyclic(g: Graph) {
    forall p :: Walk(g, p) && |p| > 1 ==> p[0] != p[|p| - 1]
  }

  lemma WalkPart(g: Graph, p: seq<nat>, from: nat, to: nat)
    requires Shaped(g) && Walk(g, p) && from < to <= |p|
    ensures Walk(g, p[from..to])
  {
    var q := p[from..to];
    forall i | 0 <= i < |q| - 1
      ensures Leads(g, q[i], q[i + 1])
    {
      var k := from + i;
      assert q[i] == p[k] && q[i + 1] == p[k + 1] && Leads(g, p[k], p[k + 1]);
    }
    if from > 0 {
      var k := from - 1;
      assert Leads(g, p[k], p[k + 1]);
    }
  }

  lemma WalkJoin(g: Graph, p: seq<nat>, q: seq<nat>)
    requires Walk(g, p) && Walk(g, q) && Leads(g, p[|p| - 1], q[0])
    ensures Walk(g, p + q)
  {
    var r := p + q;
    forall i | 0 <= i < |r| - 1
      ensures Leads(g, r[i], r[i + 1])
    {
      if i < |p| - 1 {
        assert r[i] == p[i] && r[i + 1] == p[i + 1] && Leads(g, p[i], p[i + 1]);
      } else if i >= |p| {
        var k := i - |p|;
        assert r[i] == q[k] && r[i + 1] == q[k + 1] && Leads(g, q[k], q[k + 1]);
      }
    }
  }

  /** A set closed under edges is never left. */
  lemma {:induction false} Closed(g: Graph, s: set<nat>, p: seq<nat>)
    requires Shaped(g) && Walk(g, p) && p[0] in s
    requires forall a, b :: a in s && Leads(g, a, b) ==> b in s
    ensures p[|p| - 1] in s
    decreases |p|
  {
    if |p| <= 1 {
    } else {
      assert Leads(g, p[0], p[0 + 1]);
      WalkPart(g, p, 1, |p|);
      var rest := p[1..|p|];
      Closed(g, s, rest);
      assert rest[|rest| - 1] == p[|p| - 1];
    }
  }

  lemma ClosedMisses(g: Graph, s: set<nat>, a: nat, b: nat)
    requires Shaped(g) && a in s && b !in s && forall c, d :: c in s && Leads(g, c, d) ==> d in s
    ensures !Reaches(g, a, b)
  {
    forall p | Walk(g, p) && p[0] == a
      ensures p[|p| - 1] != b
    {
      Closed(g, s, p);
    }
  }

  lemma ReachesSelf(g: Graph, a: nat)
    requires a < |g|
    ensures Reaches(g, a, a)
  {
    assert Walk(g, [a]);
  }

  lemma ReachesOn(g: Graph, a: nat, b: nat, c: nat)
    requires Shaped(g) && Reaches(g, a, b) && Leads(g, b, c)
    ensures Reaches(g, a, c)
  {
    var p :| Walk(g, p) && p[0] == a && p[|p| - 1] == b;
    assert Walk(g, [c]);
    WalkJoin(g, p, [c]);
    assert (p + [c])[0] == a && (p + [c])[|p|] == c;
  }

  /** The search through the slots not seen yet, lowest first. */
  method Search(g: Graph, source: nat, target: nat) returns (found: bool)
    requires Shaped(g) && source < LOCKS
    ensures found <==> Reaches(g, source, target)
  {
    hide Reaches, Walk;
    var pending: set<nat> := {source};
    var seen: set<nat> := {};
    ReachesSelf(g, source);
    while pending != {}
      invariant forall a :: a in seen + pending ==> a < LOCKS && Reaches(g, source, a)
      invariant source in seen + pending && target !in seen && seen !! pending
      invariant forall a, b :: a in seen && Leads(g, a, b) ==> b in seen + pending
      decreases LOCKS - |seen|
    {
      var slot := Lowest(pending);
      if slot == target {
        return true;
      }
      forall b | b in g[slot]
        ensures Reaches(g, source, b)
      {
        ReachesOn(g, source, slot, b);
      }
      Bounded(seen + {slot});
      seen := seen + {slot};
      pending := (pending - {slot}) + (g[slot] - seen);
    }
    ClosedMisses(g, seen, source, target);
    found := false;
  }

  method Lowest(s: set<nat>) returns (slot: nat)
    requires s != {} && forall a :: a in s ==> a < LOCKS
    ensures slot in s && forall a :: a in s ==> slot <= a
  {
    slot := 0;
    ghost var some :| some in s;
    while slot !in s
      invariant forall a :: a in s ==> slot <= a
      decreases some - slot
    {
      slot := slot + 1;
    }
  }

  lemma Bounded(s: set<nat>)
    requires forall a :: a in s ==> a < LOCKS
    ensures |s| <= LOCKS
  {
    SubsetSize(s, Below(LOCKS));
  }

  ghost function Below(n: nat): (s: set<nat>)
    ensures |s| == n && forall k: nat :: k in s <==> k < n
  {
    if n == 0 then {} else Below(n - 1) + {n - 1}
  }

  lemma {:induction false} SubsetSize(s: set<nat>, t: set<nat>)
    requires s <= t
    ensures |s| <= |t|
  {
    if s == {} {
    } else {
      var a :| a in s;
      SubsetSize(s - {a}, t - {a});
    }
  }

  // ------------------------------------------------------------------ adding and removing edges

  /** Edges from every slot of `held` to `to`. */
  function Connected(g: Graph, held: seq<nat>, to: nat): Graph {
    seq(|g|, i requires 0 <= i < |g| => if i in held then g[i] + {to} else g[i])
  }

  lemma ConnectedOccupied(g: Graph, held: seq<nat>, to: nat)
    ensures forall a: nat, b: nat ::
              Leads(Connected(g, held, to), a, b) <==> Leads(g, a, b) || (a < |g| && a in held && b == to)
  {
  }

  /** All edges at `v` gone. */
  function Erased(g: Graph, v: nat): Graph {
    seq(|g|, i requires 0 <= i < |g| => if i == v then {} else g[i] - {v})
  }

  lemma ErasedOccupied(g: Graph, v: nat)
    ensures forall a: nat, b: nat :: Leads(Erased(g, v), a, b) <==> Leads(g, a, b) && a != v && b != v
  {
  }

  /** After the new edges, a walk from `to` still uses only old ones. */
  lemma {:induction false} WalkFromNew(g: Graph, held: seq<nat>, to: nat, p: seq<nat>)
    requires Shaped(g) && to < LOCKS && (forall h :: h in held ==> !Reaches(g, to, h))
    requires Walk(Connected(g, held, to), p) && p[0] == to
    ensures Walk(g, p)
    decreases |p|
  {
    var g' := Connected(g, held, to);
    if |p| <= 1 {
    } else {
      var n := |p| - 1;
      var front := p[0..n];
      assert Shaped(g');
      WalkPart(g', p, 0, n);
      WalkFromNew(g, held, to, front);
      var last := front[n - 1];
      assert Reaches(g, to, last);
      assert Leads(g', p[n - 1], p[n - 1 + 1]);
      assert Walk(g, [p[n]]);
      WalkJoin(g, front, [p[n]]);
      assert p == front + [p[n]];
    }
  }

  /** From behind any edge of a cycle the cycle leads back to before it. */
  lemma RoundTrip(g: Graph, p: seq<nat>, i: nat)
    requires Shaped(g) && Walk(g, p) && p[0] == p[|p| - 1] && i < |p| - 1
    ensures Reaches(g, p[i + 1], p[i])
  {
    var tail := p[i + 1..|p|];
    WalkPart(g, p, i + 1, |p|);
    if i == 0 {
      assert tail[0] == p[1] && tail[|tail| - 1] == p[0];
    } else {
      var front := p[1..i + 1];
      assert Leads(g, p[0], p[0 + 1]);
      WalkPart(g, p, 1, i + 1);
      WalkJoin(g, tail, front);
      var round := tail + front;
      assert round[0] == p[i + 1] && round[|round| - 1] == p[i];
    }
  }

  /** A new edge on a cycle would close a walk from `to` to one of the held slots. */
  lemma ConnectedAcyclic(g: Graph, held: seq<nat>, to: nat)
    requires Shaped(g) && Acyclic(g) && to < LOCKS
    requires forall h :: h in held ==> h < LOCKS && !Reaches(g, to, h)
    ensures Shaped(Connected(g, held, to)) && Acyclic(Connected(g, held, to))
  {
    var g' := Connected(g, held, to);
    assert Shaped(g');
    forall p | Walk(g', p) && |p| > 1
      ensures p[0] != p[|p| - 1]
    {
      if p[0] == p[|p| - 1] {
        forall i | 0 <= i < |p| - 1
          ensures Leads(g, p[i], p[i + 1])
        {
          OldEdge(g, held, to, p, i);
        }
        assert Walk(g, p);
      }
    }
  }

  lemma OldEdge(g: Graph, held: seq<nat>, to: nat, p: seq<nat>, i: nat)
    requires Shaped(g) && to < LOCKS && (forall h :: h in held ==> h < LOCKS && !Reaches(g, to, h))
    requires Walk(Connected(g, held, to), p) && p[0] == p[|p| - 1] && i < |p| - 1
    ensures Leads(g, p[i], p[i + 1])
  {
    var g' := Connected(g, held, to);
    assert Shaped(g') && Leads(g', p[i], p[i + 1]);
    if p[i] in held && p[i + 1] == to {
      RoundTrip(g', p, i);
      var q :| Walk(g', q) && q[0] == to && q[|q| - 1] == p[i];
      WalkFromNew(g, held, to, q);
    }
  }

  lemma ErasedAcyclic(g: Graph, v: nat)
    requires Shaped(g) && Acyclic(g)
    ensures Shaped(Erased(g, v)) && Acyclic(Erased(g, v))
  {
    var g' := Erased(g, v);
    forall p | Walk(g', p) && |p| > 1
      ensures p[0] != p[|p| - 1]
    {
      forall i | 0 <= i < |p| - 1
        ensures Leads(g, p[i], p[i + 1])
      {
        assert Leads(g', p[i], p[i + 1]);
      }
      assert Walk(g, p);
    }
  }

  lemma Ends(p: seq<nat>, a: nat)
    requires p != []
    ensures (p + [a])[0] == p[0] && (p + [a])[|p|] == a
  {
  }

  lemma FirstEdge(g: Graph, p: seq<nat>)
    requires Walk(g, p) && |p| > 1
    ensures g[p[0]] != {}
  {
    assert Leads(g, p[0], p[0 + 1]);
  }

  lemma EmptyAcyclic(g: Graph)
    requires forall i :: 0 <= i < |g| ==> g[i] == {}
    ensures Acyclic(g)
  {
    forall p | Walk(g, p)
      ensures |p| == 1
    {
      if |p| > 1 {
        FirstEdge(g, p);
        assert false;
      }
    }
  }

  lemma NoWayBack(g: Graph, a: nat, b: nat)
    requires Shaped(g) && Acyclic(g) && Leads(g, b, a)
    ensures !Reaches(g, a, b)
  {
    if Reaches(g, a, b) {
      var p :| Walk(g, p) && p[0] == a && p[|p| - 1] == b;
      assert Walk(g, [a]);
      WalkJoin(g, p, [a]);
      Ends(p, a);
    }
  }

  // ------------------------------------------------------------------ held chains and waiting

  /** Every lock of a chain was taken under all locks before it. */
  ghost predicate Ordered(g: Graph, chain: seq<nat>) {
    forall i, j :: 0 <= i < j < |chain| ==> Leads(g, chain[i], chain[j])
  }

  lemma ConnectedKeepsOrder(g: Graph, held: seq<nat>, to: nat, chain: seq<nat>)
    requires Ordered(g, chain)
    ensures Ordered(Connected(g, held, to), chain)
  {
    var g' := Connected(g, held, to);
    forall i, j | 0 <= i < j < |chain|
      ensures Leads(g', chain[i], chain[j])
    {
      assert Leads(g, chain[i], chain[j]);
    }
  }

  lemma ErasedKeepsOrder(g: Graph, v: nat, chain: seq<nat>)
    requires Ordered(g, chain) && v !in chain
    ensures Ordered(Erased(g, v), chain)
  {
    var g' := Erased(g, v);
    forall i, j | 0 <= i < j < |chain|
      ensures Leads(g', chain[i], chain[j])
    {
      assert Leads(g, chain[i], chain[j]) && chain[i] in chain && chain[j] in chain;
    }
  }

  lemma ConnectedExtends(g: Graph, held: seq<nat>, to: nat)
    requires Ordered(g, held) && forall h :: h in held ==> h < |g|
    ensures Ordered(Connected(g, held, to), held + [to])
  {
    ConnectedKeepsOrder(g, held, to, held);
    var chain, g' := held + [to], Connected(g, held, to);
    forall i, j | 0 <= i < j < |chain|
      ensures Leads(g', chain[i], chain[j])
    {
      if j < |held| {
        assert Leads(g', held[i], held[j]);
      } else {
        assert held[i] in held;
      }
    }
  }

  /**
   Processors that wait for one another in a ring: the last lock of each chain is the one waited for,
   and the next processor holds it below its own last one.
   */
  ghost predicate WaitRing(held: seq<seq<nat>>, cpus: seq<nat>) {
    && cpus != []
    && (forall k :: 0 <= k < |cpus| ==> cpus[k] < |held| && held[cpus[k]] != [])
    && forall k :: 0 <= k < |cpus| ==> Awaited(held, cpus[k]) in Possessed(held, cpus[Wrap(k, |cpus|)])
  }

  ghost function Wrap(k: nat, n: nat): nat
    requires k < n
  {
    if k + 1 < n then k + 1 else 0
  }

  ghost function Awaited(held: seq<seq<nat>>, cpu: nat): nat
    requires cpu < |held| && held[cpu] != []
  {
    held[cpu][|held[cpu]| - 1]
  }

  ghost function Possessed(held: seq<seq<nat>>, cpu: nat): seq<nat>
    requires cpu < |held| && held[cpu] != []
  {
    held[cpu][..|held[cpu]| - 1]
  }

  /** A ring of waiting processors is a cycle of edges. */
  lemma RingWalks(g: Graph, held: seq<seq<nat>>, cpus: seq<nat>) returns (p: seq<nat>)
    requires Shaped(g) && (forall c :: 0 <= c < |held| ==> Ordered(g, held[c])) && WaitRing(held, cpus)
    ensures Walk(g, p) && |p| > 1 && p[0] == p[|p| - 1]
  {
    var n := |cpus|;
    var locks := seq(n, k requires 0 <= k < n => Awaited(held, cpus[k]));
    forall k | 0 <= k < n
      ensures Leads(g, locks[k], locks[Wrap(k, n)])
    {
      var next := cpus[Wrap(k, n)];
      var chain := held[next];
      var i :| 0 <= i < |chain| - 1 && Possessed(held, next)[i] == locks[k];
      assert Leads(g, chain[i], chain[|chain| - 1]);
    }
    p := locks + [locks[0]];
    forall k | 0 <= k < |p| - 1
      ensures Leads(g, p[k], p[k + 1])
    {
      assert Leads(g, locks[k], locks[Wrap(k, n)]);
    }
  }

  /** In an acyclic graph with ordered chains nobody waits in a ring. */
  lemma NoWaitRing(g: Graph, held: seq<seq<nat>>, cpus: seq<nat>)
    requires Shaped(g) && Acyclic(g) && forall c :: 0 <= c < |held| ==> Ordered(g, held[c])
    ensures !WaitRing(held, cpus)
  {
    if WaitRing(held, cpus) {
      var p := RingWalks(g, held, cpus);
    }
  }
}
