/**
 Recorded stretches of user memory as a list of regions, and the map from addresses to promises that
 the list stands for. The lemmas say what cutting, adding and repainting regions does to that map.
 */
module VmaSpans {
  import opened Wrappers

  datatype Error = InvalidArgument | AlreadyExists | OutOfMemory | NotFound
  type Outcome<T> = Result<T, Error>

  datatype Kind = Anonymous | File | Stack | Device
  datatype Perms = Perms(readable: bool, writable: bool, executable: bool)

  /** One region: the bytes [start, end) and what stands behind them; `backing` names the file. */
  datatype Region = Region(start: nat, end: nat, kind: Kind, floor: nat, perms: Perms, backing: nat, offset: nat)

  /** What is promised of one address; `fileByte` is the file position it shows. */
  datatype Facts = Facts(kind: Kind, floor: nat, perms: Perms, backing: nat, fileByte: nat)

  predicate Covers(r: Region, a: nat) {
    r.start <= a < r.end
  }

  predicate OverlapsSpan(r: Region, start: nat, end: nat) {
    r.start < end && start < r.end
  }

  function FactsAt(r: Region, a: nat): Facts
    requires Covers(r, a)
  {
    Facts(r.kind, r.floor, r.perms, r.backing, (r.offset + (a - r.start)) % WORD)
  }

  /** The promise for one address. */
  function Lookup(s: seq<Region>, a: nat): Option<Facts> {
    if s == [] then None else if Covers(s[0], a) then Some(FactsAt(s[0], a)) else Lookup(s[1..], a)
  }

  ghost predicate Listed(s: seq<Region>) {
    forall r :: r in s ==> r.start < r.end < WORD && r.offset < WORD
  }

  /** Two regions share no address. */
  ghost predicate Apart(p: Region, q: Region) {
    p.end <= q.start || q.end <= p.start || p.start >= p.end || q.start >= q.end
  }

  ghost predicate ApartFrom(p: Region, s: seq<Region>) {
    forall r :: r in s ==> Apart(p, r)
  }

  ghost predicate Disjoint(s: seq<Region>) {
    forall i, j :: 0 <= i < j < |s| ==> Apart(s[i], s[j])
  }

  // ------------------------------------------------------------------ reading the map

  lemma {:induction false} LookupMiss(s: seq<Region>, a: nat)
    ensures Lookup(s, a).None? <==> forall r :: r in s ==> !Covers(r, a)
  {
    if s == [] {
    } else {
      LookupMiss(s[1..], a);
      assert s == [s[0]] + s[1..];
    }
  }

  lemma DisjointTail(s: seq<Region>)
    requires Disjoint(s) && s != []
    ensures Disjoint(s[1..]) && ApartFrom(s[0], s[1..])
  {
    var rest := s[1..];
    forall j, k | 0 <= j < k < |rest|
      ensures Apart(rest[j], rest[k])
    {
      var j', k' := j + 1, k + 1;
      assert rest[j] == s[j'] && rest[k] == s[k'] && Apart(s[j'], s[k']);
    }
  }

  /** In a disjoint list the order does not matter. */
  lemma {:induction false} LookupIn(s: seq<Region>, i: nat, a: nat)
    requires Disjoint(s) && i < |s| && Covers(s[i], a)
    ensures Lookup(s, a) == Some(FactsAt(s[i], a))
  {
    if i == 0 {
    } else {
      var rest := s[1..];
      DisjointTail(s);
      assert Apart(s[0], s[i]);
      LookupIn(rest, i - 1, a);
    }
  }

  lemma {:induction false} LookupSplit(xs: seq<Region>, ys: seq<Region>, a: nat)
    ensures Lookup(xs + ys, a) == if Lookup(xs, a).Some? then Lookup(xs, a) else Lookup(ys, a)
  {
    if xs == [] {
      assert xs + ys == ys;
    } else {
      assert (xs + ys)[1..] == xs[1..] + ys;
      LookupSplit(xs[1..], ys, a);
    }
  }

  lemma DisjointConcat(xs: seq<Region>, ys: seq<Region>)
    requires Disjoint(xs) && Disjoint(ys) && forall x :: x in xs ==> ApartFrom(x, ys)
    ensures Disjoint(xs + ys)
  {
    var s := xs + ys;
    forall i, j | 0 <= i < j < |s|
      ensures Apart(s[i], s[j])
    {
      if i < |xs| <= j {
        assert s[i] in xs && s[j] in ys;
      } else if j < |xs| {
        assert Apart(xs[i], xs[j]);
      } else {
        assert Apart(ys[i - |xs|], ys[j - |xs|]);
      }
    }
  }

  // ------------------------------------------------------------------ changing the list

  /** One more region: its own addresses change, no other. */
  lemma AppendOne(s: seq<Region>, t: Region, a: nat)
    requires Disjoint(s) && ApartFrom(t, s)
    ensures Disjoint(s + [t])
    ensures Lookup(s + [t], a) == if Covers(t, a) then Some(FactsAt(t, a)) else Lookup(s, a)
  {
    DisjointConcat(s, [t]);
    LookupSplit(s, [t], a);
    LookupMiss(s, a);
  }

  /** `p` is a stretch of `r` that promises the same at every address. */
  ghost predicate Part(p: Region, r: Region) {
    && r.start <= p.start < p.end <= r.end
    && p.kind == r.kind && p.floor == r.floor && p.perms == r.perms && p.backing == r.backing
    && p.offset == (r.offset + (p.start - r.start)) % WORD
  }

  lemma PartFacts(p: Region, r: Region, a: nat)
    requires Part(p, r) && Covers(p, a)
    ensures Covers(r, a) && FactsAt(p, a) == FactsAt(r, a)
  {
    SumWraps(r.offset + (p.start - r.start), a - p.start);
  }

  lemma SumWraps(x: nat, y: nat)
    ensures (x % WORD + y) % WORD == (x + y) % WORD
  {
    var q, m := x / WORD, x % WORD;
    var q', m' := (m + y) / WORD, (m + y) % WORD;
    assert x + y == WORD * (q + q') + m' && 0 <= m' < WORD;
    DivisionIsUnique(x + y, q + q', m');
  }

  lemma DivisionIsUnique(n: nat, q: nat, m: nat)
    requires n == WORD * q + m && m < WORD
    ensures n % WORD == m
  {
  }

  /** Trimming region `i` to a part of it takes away exactly the addresses trimmed off. */
  lemma TrimAt(s: seq<Region>, i: nat, p: Region, a: nat)
    requires Disjoint(s) && i < |s| && Part(p, s[i])
    ensures Disjoint(s[i := p])
    ensures Lookup(s[i := p], a) == if Covers(s[i], a) && !Covers(p, a) then None else Lookup(s, a)
  {
    var s' := s[i := p];
    forall j, k | 0 <= j < k < |s'|
      ensures Apart(s'[j], s'[k])
    {
      assert Apart(s[j], s[k]);
    }
    if Covers(s[i], a) {
      LookupIn(s, i, a);
      if Covers(p, a) {
        PartFacts(p, s[i], a);
        assert s'[i] == p;
        LookupIn(s', i, a);
      } else {
        NoOther(s, i, p, a);
      }
    } else {
      SameElsewhere(s, i, p, a);
    }
  }

  lemma NoOther(s: seq<Region>, i: nat, p: Region, a: nat)
    requires Disjoint(s) && i < |s| && Covers(s[i], a) && !Covers(p, a)
    ensures Lookup(s[i := p], a) == None
  {
    var s' := s[i := p];
    LookupMiss(s', a);
    forall r | r in s'
      ensures !Covers(r, a)
    {
      var j :| 0 <= j < |s'| && s'[j] == r;
      if j < i {
        assert Apart(s[j], s[i]);
      } else if j > i {
        assert Apart(s[i], s[j]);
      }
    }
  }

  lemma {:induction false} SameElsewhere(s: seq<Region>, i: nat, p: Region, a: nat)
    requires i < |s| && !Covers(s[i], a) && !Covers(p, a)
    ensures Lookup(s[i := p], a) == Lookup(s, a)
  {
    if i == 0 {
    } else {
      SameElsewhere(s[1..], i - 1, p, a);
      assert s[i := p][1..] == s[1..][i - 1 := p];
    }
  }

  /** Dropping region `i` takes away exactly its addresses. */
  lemma RemoveAt(s: seq<Region>, i: nat, a: nat)
    requires Disjoint(s) && i < |s|
    ensures Disjoint(s[..i] + s[i + 1..])
    ensures Lookup(s[..i] + s[i + 1..], a) == if Covers(s[i], a) then None else Lookup(s, a)
  {
    var xs, ys := s[..i], s[i + 1..];
    var s' := xs + ys;
    forall j, k | 0 <= j < k < |s'|
      ensures Apart(s'[j], s'[k])
    {
      var j', k' := if j < i then j else j + 1, if k < i then k else k + 1;
      assert s'[j] == s[j'] && s'[k] == s[k'] && Apart(s[j'], s[k']);
    }
    assert s == xs + ([s[i]] + ys);
    LookupSplit(xs, [s[i]] + ys, a);
    LookupSplit(xs, ys, a);
    assert ([s[i]] + ys)[1..] == ys;
    if Covers(s[i], a) {
      LookupMiss(s', a);
      forall r | r in s'
        ensures !Covers(r, a)
      {
        var j :| 0 <= j < |s'| && s'[j] == r;
        if j < i {
          assert r == s[j] && Apart(s[j], s[i]);
        } else {
          assert r == s[j + 1] && Apart(s[i], s[j + 1]);
        }
      }
    }
  }

  /** Splitting region `i` into two parts takes away exactly the addresses between them. */
  lemma SplitAt(s: seq<Region>, i: nat, p: Region, t: Region, a: nat)
    requires Disjoint(s) && i < |s| && Part(p, s[i]) && Part(t, s[i]) && p.end <= t.start
    ensures Disjoint(s[i := p] + [t])
    ensures Lookup(s[i := p] + [t], a) == if Covers(s[i], a) && !Covers(p, a) && !Covers(t, a) then None
              else Lookup(s, a)
  {
    TrimAt(s, i, p, a);
    var s' := s[i := p];
    forall r | r in s'
      ensures Apart(t, r)
    {
      var j :| 0 <= j < |s'| && s'[j] == r;
      if j < i {
        assert Apart(s[j], s[i]);
      } else if j > i {
        assert Apart(s[i], s[j]);
      }
    }
    AppendOne(s', t, a);
    if Covers(t, a) {
      PartFacts(t, s[i], a);
      LookupIn(s, i, a);
    }
  }

  // ------------------------------------------------------------------ repainting

  /** The stretch [from, to) of a region. */
  function Piece(r: Region, from: nat, to: nat): Region
    requires r.start <= from
  {
    r.(start := from, end := to, offset := (r.offset + (from - r.start)) % WORD)
  }

  function Slice(r: Region, from: nat, to: nat): seq<Region>
    requires r.start <= from
  {
    if from == to then [] else [Piece(r, from, to)]
  }

  /** A region cut at the edges of [start, end), the middle repainted. */
  function Pieces(r: Region, start: nat, end: nat, terms: Perms): seq<Region>
    requires OverlapsSpan(r, start, end) && r.start < r.end
  {
    var lo, hi := Max(start, r.start), Min(end, r.end);
    Slice(r, r.start, lo) + Slice(r.(perms := terms), lo, hi) + Slice(r, hi, r.end)
  }

  /** The promise with its permissions changed, if the address lies in the stretch. */
  function Repaint(f: Option<Facts>, a: nat, start: nat, end: nat, terms: Perms): Option<Facts> {
    if f.Some? && start <= a < end then Some(f.value.(perms := terms)) else f
  }

  function Kept(s: seq<Region>, start: nat, end: nat): seq<Region> {
    if s == [] then [] else if OverlapsSpan(s[0], start, end) then Kept(s[1..], start, end)
      else [s[0]] + Kept(s[1..], start, end)
  }

  function Hit(s: seq<Region>, start: nat, end: nat): seq<Region> {
    if s == [] then [] else if OverlapsSpan(s[0], start, end) then [s[0]] + Hit(s[1..], start, end)
      else Hit(s[1..], start, end)
  }

  function Staged(s: seq<Region>, start: nat, end: nat, terms: Perms): seq<Region>
    requires forall r :: r in s ==> r.start < r.end
  {
    if s == [] then []
    else if OverlapsSpan(s[0], start, end) then Pieces(s[0], start, end, terms) + Staged(s[1..], start, end, terms)
    else Staged(s[1..], start, end, terms)
  }

  lemma SliceLookup(r: Region, from: nat, to: nat, a: nat)
    requires r.start <= from <= to <= r.end
    ensures Lookup(Slice(r, from, to), a) == if from <= a < to then Some(FactsAt(r, a)) else None
  {
    if from < to {
      assert Slice(r, from, to)[1..] == [];
      if from <= a < to {
        SumWraps(r.offset + (from - r.start), a - from);
      }
    }
  }

  /** The pieces show what the region showed, repainted. */
  lemma PiecesLookup(r: Region, start: nat, end: nat, terms: Perms, a: nat)
    requires OverlapsSpan(r, start, end) && r.start < r.end && start < end
    ensures Lookup(Pieces(r, start, end, terms), a) == if Covers(r, a)
              then Repaint(Some(FactsAt(r, a)), a, start, end, terms) else None
  {
    hide Lookup, Slice;
    var lo, hi := Max(start, r.start), Min(end, r.end);
    var x, y, z := Slice(r, r.start, lo), Slice(r.(perms := terms), lo, hi), Slice(r, hi, r.end);
    LookupSplit(x + y, z, a);
    LookupSplit(x, y, a);
    SliceLookup(r, r.start, lo, a);
    SliceLookup(r.(perms := terms), lo, hi, a);
    SliceLookup(r, hi, r.end, a);
  }

  lemma {:induction false} StagedLookup(s: seq<Region>, start: nat, end: nat, terms: Perms, a: nat)
    requires Listed(s) && start < end
    ensures Lookup(Staged(s, start, end, terms), a) == Repaint(Lookup(Hit(s, start, end), a), a, start, end, terms)
  {
    if s == [] {
    } else {
      var rest := s[1..];
      StagedLookup(rest, start, end, terms, a);
      if OverlapsSpan(s[0], start, end) {
        PiecesLookup(s[0], start, end, terms, a);
        LookupSplit(Pieces(s[0], start, end, terms), Staged(rest, start, end, terms), a);
        LookupSplit([s[0]], Hit(rest, start, end), a);
      }
    }
  }

  /** Regions outside the stretch and regions that meet it make up the list. */
  lemma {:induction false} KeptOrHit(s: seq<Region>, start: nat, end: nat, a: nat)
    requires Disjoint(s)
    ensures Lookup(s, a) == if Lookup(Kept(s, start, end), a).Some? then Lookup(Kept(s, start, end), a)
              else Lookup(Hit(s, start, end), a)
    ensures Lookup(Kept(s, start, end), a).Some? ==> !(start <= a < end)
  {
    if s == [] {
    } else {
      var rest := s[1..];
      DisjointTail(s);
      KeptOrHit(rest, start, end, a);
      LookupSplit([s[0]], Kept(rest, start, end), a);
      LookupSplit([s[0]], Hit(rest, start, end), a);
      assert [s[0]][1..] == [];
      if OverlapsSpan(s[0], start, end) && Covers(s[0], a) {
        KeptSubset(rest, start, end);
        LookupMiss(Kept(rest, start, end), a);
      }
    }
  }

  lemma KeptNext(s: seq<Region>, i: nat, start: nat, end: nat)
    requires i < |s|
    ensures Kept(s[i..], start, end) == if OverlapsSpan(s[i], start, end) then Kept(s[i + 1..], start, end)
              else [s[i]] + Kept(s[i + 1..], start, end)
  {
    assert s[i..][1..] == s[i + 1..];
  }

  lemma KeptNone(s: seq<Region>, start: nat, end: nat)
    requires s == []
    ensures Kept(s, start, end) == []
  {
  }

  lemma {:induction false} KeptSubset(s: seq<Region>, start: nat, end: nat)
    ensures forall r :: r in Kept(s, start, end) ==> r in s && !OverlapsSpan(r, start, end)
  {
    if s == [] {
    } else {
      KeptSubset(s[1..], start, end);
    }
  }

  /** Replacing the regions that meet the stretch by their pieces repaints exactly the stretch. */
  lemma RepaintedLookup(s: seq<Region>, start: nat, end: nat, terms: Perms, a: nat)
    requires Listed(s) && Disjoint(s) && start < end
    ensures Lookup(Kept(s, start, end) + Staged(s, start, end, terms), a) == Repaint(Lookup(s, a), a, start, end, terms)
  {
    hide Lookup, Kept, Hit, Staged;
    LookupSplit(Kept(s, start, end), Staged(s, start, end, terms), a);
    StagedLookup(s, start, end, terms, a);
    KeptOrHit(s, start, end, a);
  }

  // ------------------------------------------------------------------ the pieces stay apart

  ghost predicate Within(p: Region, r: Region) {
    r.start <= p.start < p.end <= r.end && p.offset < WORD
  }

  ghost predicate AllWithin(ps: seq<Region>, s: seq<Region>) {
    forall p :: p in ps ==> exists r :: r in s && Within(p, r)
  }

  lemma WithinApart(ps: seq<Region>, s: seq<Region>, q: Region)
    requires AllWithin(ps, s) && ApartFrom(q, s)
    ensures ApartFrom(q, ps)
  {
    forall p | p in ps
      ensures Apart(q, p)
    {
      var r :| r in s && Within(p, r);
      assert Apart(q, r);
    }
  }

  lemma PiecesApart(r: Region, start: nat, end: nat, terms: Perms)
    requires OverlapsSpan(r, start, end) && r.start < r.end && start < end
    ensures Disjoint(Pieces(r, start, end, terms)) && AllWithin(Pieces(r, start, end, terms), [r])
  {
    forall p | p in Pieces(r, start, end, terms)
      ensures Within(p, r)
    {
    }
  }

  lemma {:induction false} StagedApart(s: seq<Region>, start: nat, end: nat, terms: Perms)
    requires Listed(s) && Disjoint(s) && start < end
    ensures Disjoint(Staged(s, start, end, terms)) && AllWithin(Staged(s, start, end, terms), Hit(s, start, end))
  {
    if s == [] {
    } else {
      var rest := s[1..];
      DisjointTail(s);
      StagedApart(rest, start, end, terms);
      if OverlapsSpan(s[0], start, end) {
        var ps, more := Pieces(s[0], start, end, terms), Staged(rest, start, end, terms);
        PiecesApart(s[0], start, end, terms);
        HitSubset(rest, start, end);
        WithinApart(more, Hit(rest, start, end), s[0]);
        forall p | p in ps
          ensures ApartFrom(p, more)
        {
        }
        DisjointConcat(ps, more);
        forall p | p in ps + more
          ensures exists r :: r in Hit(s, start, end) && Within(p, r)
        {
          if p in ps {
            assert s[0] in Hit(s, start, end);
          }
        }
      }
    }
  }

  lemma {:induction false} HitSubset(s: seq<Region>, start: nat, end: nat)
    ensures forall r :: r in Hit(s, start, end) ==> r in s
  {
    if s == [] {
    } else {
      HitSubset(s[1..], start, end);
    }
  }

  lemma {:induction false} KeptApart(s: seq<Region>, start: nat, end: nat)
    requires Disjoint(s)
    ensures Disjoint(Kept(s, start, end))
    ensures forall p, q :: p in Kept(s, start, end) && q in Hit(s, start, end) ==> Apart(p, q)
  {
    if s == [] {
    } else {
      DisjointTail(s);
      KeptApart(s[1..], start, end);
      KeptSubset(s[1..], start, end);
      HitSubset(s[1..], start, end);
      DisjointConcat([s[0]], Kept(s[1..], start, end));
    }
  }

  lemma RepaintedApart(s: seq<Region>, start: nat, end: nat, terms: Perms)
    requires Listed(s) && Disjoint(s) && start < end
    ensures Disjoint(Kept(s, start, end) + Staged(s, start, end, terms))
    ensures Listed(Kept(s, start, end) + Staged(s, start, end, terms))
    ensures AllWithin(Kept(s, start, end) + Staged(s, start, end, terms), s)
  {
    hide Kept, Hit, Staged;
    var kept, staged := Kept(s, start, end), Staged(s, start, end, terms);
    KeptApart(s, start, end);
    KeptSubset(s, start, end);
    StagedApart(s, start, end, terms);
    HitSubset(s, start, end);
    forall p | p in kept
      ensures ApartFrom(p, staged)
    {
      WithinApart(staged, Hit(s, start, end), p);
    }
    DisjointConcat(kept, staged);
    forall p | p in kept + staged
      ensures exists r :: r in s && Within(p, r)
    {
      if p in kept {
        assert Within(p, p);
      } else {
        var r :| r in Hit(s, start, end) && Within(p, r);
      }
    }
  }

  // ------------------------------------------------------------------ cutting one region

  /** The list after [start, end) was cut out of region `i`; a second remainder goes to the back. */
  function CutStep(s: seq<Region>, i: nat, start: nat, end: nat): seq<Region>
    requires i < |s| && OverlapsSpan(s[i], start, end)
  {
    var r := s[i];
    if r.start < start && end < r.end then s[i := r.(end := start)] + [Piece(r, end, r.end)]
    else if r.start < start then s[i := r.(end := start)]
    else if end < r.end then s[i := Piece(r, end, r.end)]
    else s[..i] + s[i + 1..]
  }

  lemma CutStepLookup(s: seq<Region>, i: nat, start: nat, end: nat, a: nat)
    requires Disjoint(s) && Listed(s) && i < |s| && OverlapsSpan(s[i], start, end) && start < end
    ensures Disjoint(CutStep(s, i, start, end))
    ensures Lookup(CutStep(s, i, start, end), a) == if Covers(s[i], a) && start <= a < end then None else Lookup(s, a)
  {
    hide Lookup, Disjoint;
    var r := s[i];
    assert r in s;
    if r.start < start && end < r.end {
      SplitAt(s, i, r.(end := start), Piece(r, end, r.end), a);
    } else if r.start < start {
      TrimAt(s, i, r.(end := start), a);
    } else if end < r.end {
      TrimAt(s, i, Piece(r, end, r.end), a);
    } else {
      RemoveAt(s, i, a);
    }
  }

  lemma CutStepWithin(s: seq<Region>, i: nat, start: nat, end: nat)
    requires Listed(s) && i < |s| && OverlapsSpan(s[i], start, end) && start < end
    ensures Listed(CutStep(s, i, start, end)) && AllWithin(CutStep(s, i, start, end), s)
  {
    var s', r := CutStep(s, i, start, end), s[i];
    assert r in s;
    forall p | p in s'
      ensures exists q :: q in s && Within(p, q)
    {
      if p in s {
        assert Within(p, p);
      } else {
        assert Within(p, r);
      }
    }
  }

  /** The region reaches past both ends of the stretch, so cutting leaves two remainders. */
  predicate Straddles(r: Region, start: nat, end: nat) {
    r.start < start && end < r.end
  }

  ghost predicate Straddled(s: seq<Region>, start: nat, end: nat) {
    exists r :: r in s && Straddles(r, start, end)
  }

  /** None of the first `n` regions meets the stretch. */
  ghost predicate ClearUpTo(s: seq<Region>, n: nat, start: nat, end: nat) {
    n <= |s| && forall j :: 0 <= j < n ==> !OverlapsSpan(s[j], start, end)
  }

  /** The list promises what it did, except that addresses of the stretch may be forgotten. */
  ghost predicate CutOut(was: seq<Region>, s: seq<Region>, start: nat, end: nat) {
    forall a: nat :: CutOutAt(was, s, start, end, a)
  }

  ghost predicate CutOutAt(was: seq<Region>, s: seq<Region>, start: nat, end: nat, a: nat) {
    Lookup(s, a) == Lookup(was, a) || (start <= a < end && Lookup(s, a) == None)
  }

  /** Where the scan goes on after region `i` was cut; the region after it was looked up before the cut. */
  function NextScan(s: seq<Region>, i: nat, start: nat, end: nat): nat
    requires i < |s|
  {
    if Straddles(s[i], start, end) && i + 1 == |s| then i + 2
    else if start <= s[i].start && s[i].end <= end then i
    else i + 1
  }

  lemma CutStepScans(s: seq<Region>, i: nat, start: nat, end: nat)
    requires i < |s| && OverlapsSpan(s[i], start, end) && start < end && ClearUpTo(s, i, start, end)
    ensures ClearUpTo(CutStep(s, i, start, end), NextScan(s, i, start, end), start, end)
  {
    var s', n := CutStep(s, i, start, end), NextScan(s, i, start, end);
    forall j | 0 <= j < n
      ensures !OverlapsSpan(s'[j], start, end)
    {
      if j < i {
        assert s'[j] == s[j];
      }
    }
  }

  lemma CutStepCuts(was: seq<Region>, s: seq<Region>, i: nat, start: nat, end: nat)
    requires Listed(s) && Disjoint(s) && i < |s| && OverlapsSpan(s[i], start, end) && start < end
    requires CutOut(was, s, start, end)
    ensures Disjoint(CutStep(s, i, start, end)) && CutOut(was, CutStep(s, i, start, end), start, end)
  {
    hide Lookup, CutStep;
    forall a: nat
      ensures CutOutAt(was, CutStep(s, i, start, end), start, end, a)
    {
      CutStepLookup(s, i, start, end, a);
      assert CutOutAt(was, s, start, end, a);
    }
    CutStepLookup(s, i, start, end, 0);
  }

  /** A region past both ends leaves no address of the stretch to another one. */
  lemma OnlyStraddler(s: seq<Region>, k: nat, i: nat, start: nat, end: nat)
    requires Listed(s) && Disjoint(s) && k < |s| && Straddles(s[k], start, end) && start < end
    requires i < |s| && OverlapsSpan(s[i], start, end)
    ensures k == i
  {
    assert s[i] in s;
  }

  /** Once the region past both ends is cut, nothing of the stretch is left. */
  lemma StraddlerCut(s: seq<Region>, i: nat, start: nat, end: nat)
    requires Listed(s) && Disjoint(s) && i < |s| && Straddles(s[i], start, end) && start < end
    ensures var s' := CutStep(s, i, start, end); ClearUpTo(s', |s'|, start, end)
  {
    var s' := CutStep(s, i, start, end);
    forall j | 0 <= j < |s'|
      ensures !OverlapsSpan(s'[j], start, end)
    {
      if j != i && j < |s| && OverlapsSpan(s[j], start, end) {
        OnlyStraddler(s, i, j, start, end);
      }
    }
  }

  /** Cutting makes no region reach past both ends that did not before. */
  lemma StillNoStraddler(s: seq<Region>, s': seq<Region>, start: nat, end: nat)
    requires AllWithin(s', s) && !Straddled(s, start, end)
    ensures !Straddled(s', start, end)
  {
    forall p | p in s'
      ensures !Straddles(p, start, end)
    {
      var r :| r in s && Within(p, r);
      assert !Straddles(r, start, end);
    }
  }

  lemma CutNothing(s: seq<Region>, start: nat, end: nat)
    ensures ClearUpTo(s, 0, start, end) && CutOut(s, s, start, end)
  {
  }

  lemma NextClear(s: seq<Region>, i: nat, start: nat, end: nat)
    requires ClearUpTo(s, i, start, end) && i < |s| && !OverlapsSpan(s[i], start, end)
    ensures ClearUpTo(s, i + 1, start, end)
  {
  }

  /**
   One cut of a scan that started from `was`. The region it cuts reaches past both ends exactly when one
   of `was` did, and then the scan has changed nothing before and has nothing left to do after.
   */
  lemma CutKeeps(was: seq<Region>, s: seq<Region>, i: nat, start: nat, end: nat, split: bool)
    requires Listed(s) && Disjoint(s) && i < |s| && OverlapsSpan(s[i], start, end) && start < end
    requires ClearUpTo(s, i, start, end) && CutOut(was, s, start, end)
    requires split ==> ClearUpTo(s, |s|, start, end)
    requires if Straddled(was, start, end) then split || s == was else !Straddled(s, start, end)
    ensures var s', next := CutStep(s, i, start, end), NextScan(s, i, start, end);
            && Listed(s') && Disjoint(s') && CutOut(was, s', start, end) && ClearUpTo(s', next, start, end)
            && (Straddles(s[i], start, end) ==> ClearUpTo(s', |s'|, start, end))
            && next <= |s'| && (!Straddles(s[i], start, end) ==> |s'| - next < |s| - i)
            && (!Straddled(was, start, end) ==> !Straddled(s', start, end))
    ensures !split && (Straddles(s[i], start, end) <==> Straddled(was, start, end))
  {
    hide Lookup, CutOut, Disjoint, Listed;
    CutStepWithin(s, i, start, end);
    CutStepCuts(was, s, i, start, end);
    CutStepScans(s, i, start, end);
    assert s[i] in s && !split;
    if Straddled(was, start, end) {
      var k :| 0 <= k < |s| && Straddles(s[k], start, end);
      OnlyStraddler(s, k, i, start, end);
      StraddlerCut(s, i, start, end);
    } else {
      StillNoStraddler(s, CutStep(s, i, start, end), start, end);
    }
  }

  lemma ClearIsNotStraddled(s: seq<Region>, start: nat, end: nat)
    requires ClearUpTo(s, |s|, start, end) && start < end
    ensures !Straddled(s, start, end)
  {
  }

  lemma CutKeepsApart(s: seq<Region>, i: nat, start: nat, end: nat, h: Region)
    requires Listed(s) && i < |s| && OverlapsSpan(s[i], start, end) && start < end
    ensures ApartFrom(h, s) ==> ApartFrom(h, CutStep(s, i, start, end))
  {
    hide CutStep;
    CutStepWithin(s, i, start, end);
    if ApartFrom(h, s) {
      WithinApart(CutStep(s, i, start, end), s, h);
    }
  }

  lemma AllCut(was: seq<Region>, s: seq<Region>, start: nat, end: nat, a: nat)
    requires CutOut(was, s, start, end) && ClearUpTo(s, |s|, start, end)
    ensures Lookup(s, a) == if start <= a < end then None else Lookup(was, a)
  {
    hide Lookup;
    assert CutOutAt(was, s, start, end, a);
    ClearRange(s, start, end);
  }

  lemma StraddledWith(s: seq<Region>, h: Region, start: nat, end: nat)
    ensures Straddled(s + [h], start, end) <==> Straddled(s, start, end) || Straddles(h, start, end)
  {
    assert h in s + [h];
  }

  lemma ClearRange(s: seq<Region>, start: nat, end: nat)
    requires forall r :: r in s ==> !OverlapsSpan(r, start, end)
    ensures forall a: nat :: start <= a < end ==> Lookup(s, a) == None
  {
    forall a: nat | start <= a < end
      ensures Lookup(s, a) == None
    {
      LookupMiss(s, a);
      assert forall r :: r in s && Covers(r, a) ==> OverlapsSpan(r, start, end);
    }
  }

  /** Repainting the list and, in the list's order, the pieces of one more region kept apart from it. */
  lemma RepaintedWith(s: seq<Region>, h: Region, start: nat, end: nat, terms: Perms, a: nat)
    requires Listed(s) && Disjoint(s) && start < end && ApartFrom(h, s)
    requires OverlapsSpan(h, start, end) && h.start < h.end < WORD && h.offset < WORD
    ensures var s' := Kept(s, start, end) + (Staged(s, start, end, terms) + Pieces(h, start, end, terms));
            && Listed(s') && Disjoint(s')
            && Lookup(s', a) ==
                 Repaint(if Covers(h, a) then Some(FactsAt(h, a)) else Lookup(s, a), a, start, end, terms)
  {
    hide Lookup, Kept, Hit, Staged, Pieces;
    var front, ps := Kept(s, start, end) + Staged(s, start, end, terms), Pieces(h, start, end, terms);
    assert Kept(s, start, end) + (Staged(s, start, end, terms) + ps) == front + ps;
    RepaintedApart(s, start, end, terms);
    RepaintedLookup(s, start, end, terms, a);
    PiecesApart(h, start, end, terms);
    PiecesLookup(h, start, end, terms, a);
    WithinApart(front, s, h);
    forall x | x in front
      ensures ApartFrom(x, ps)
    {
      assert Apart(h, x);
    }
    DisjointConcat(front, ps);
    LookupSplit(front, ps, a);
    LookupMiss(s, a);
    assert forall r :: r in s ==> Apart(h, r);
    assert forall p :: p in ps ==> Within(p, h);
  }
}
