/**
 Copy-on-write at the level of leaves: which page of which space maps which frame under which terms,
 how often each frame is counted as shared, and what the frames hold. The functions are the effects
 of the kernel's operations on that ledger; the lemmas show that each keeps the accounts straight.
 */
module CowLedger {
  import opened PageTree
  import opened Pmm

  /**
   The ledger. `may` is the range register's word on each mapped page: whether stores are promised
   there. `live` holds the data frames in use.
   */
  datatype Kernel = Kernel(
    leaves: map<Key, Entry>, may: map<Key, bool>,
    shares: map<Frame, nat>, pages: map<Frame, Content>, live: set<Frame>)

  function Count(k: Kernel, f: Frame): nat {
    if f in k.shares then k.shares[f] else 0
  }

  type Leaves = map<Key, Entry>

  /** The pages that map `f` as their own, and the pages that map it copy-on-write. */
  ghost function Owners(leaves: Leaves, f: Frame): set<Key> {
    set x | x in leaves && leaves[x].frame == f && !leaves[x].cow
  }

  ghost function Sharers(leaves: Leaves, f: Frame): set<Key> {
    set x | x in leaves && leaves[x].frame == f && leaves[x].cow
  }

  // ------------------------------------------------------------------ the account

  ghost predicate LeafSound(k: Kernel, x: Key, e: Entry) {
    && e.present && !e.large && e.frame < TOTAL_PAGES && e.frame in k.live && e.frame in k.pages
    && x.page < USER_PAGES && x in k.may
    && (if e.cow then !e.writable else e.writable == k.may[x])
    && (k.may[x] ==> e.user)
  }

  /** A frame has one owner and no count, or is counted once for each of its sharers. */
  ghost predicate Balanced(leaves: Leaves, f: Frame, count: nat) {
    if Owners(leaves, f) == {} then count == |Sharers(leaves, f)|
    else |Owners(leaves, f)| == 1 && Sharers(leaves, f) == {} && count == 0
  }

  /** A frame in use is mapped by someone, and the count is right. */
  ghost predicate FrameSound(k: Kernel, f: Frame) {
    && Balanced(k.leaves, f, Count(k, f))
    && (f in k.live ==> Owners(k.leaves, f) != {} || Sharers(k.leaves, f) != {})
  }

  ghost predicate Accounts(k: Kernel) {
    && (forall x :: x in k.leaves ==> LeafSound(k, x, k.leaves[x]))
    && (forall f: Frame :: FrameSound(k, f))
    && k.may.Keys == k.leaves.Keys
  }

  // ------------------------------------------------------------------ operations

  /** The entry a shared page is left with: read-only, marked copy-on-write. */
  function SharedEntry(e: Entry): Entry {
    MakeTableEntry(e.frame, Terms(false, e.user, true, e.noExec))
  }

  /** The entry fork first gives the child: the parent's permissions, not yet marked. */
  function ChildEntry(e: Entry): Entry {
    var terms := UserLeafTerms(e.writable, !e.noExec);
    MakeTableEntry(e.frame, if e.user then terms else terms.(user := false))
  }

  function MarkPageShared(k: Kernel, x: Key): Kernel
    requires x in k.leaves
  {
    var e := k.leaves[x];
    if e.cow && !e.writable then k
    else k.(leaves := k.leaves[x := SharedEntry(e)], shares := k.shares[e.frame := Count(k, e.frame) + 1])
  }

  /** Fork's work on one page of the parent. */
  function ShareLeaf(k: Kernel, parent: Frame, child: Frame, page: nat): Kernel
    requires Key(parent, page) in k.leaves && Key(parent, page) in k.may
  {
    var p, c := Key(parent, page), Key(child, page);
    var mapped := k.(leaves := k.leaves[c := ChildEntry(k.leaves[p])], may := k.may[c := k.may[p]]);
    MarkPageShared(MarkPageShared(mapped, p), c)
  }

  /** Fork's work on the parent's pages below `n`, in ascending order. */
  ghost function ShareUpTo(k: Kernel, parent: Frame, child: Frame, n: nat): Kernel {
    if n == 0 then k
    else
      var k' := ShareUpTo(k, parent, child, n - 1);
      var p := Key(parent, n - 1);
      if p in k'.leaves && p in k'.may then ShareLeaf(k', parent, child, n - 1) else k'
  }

  /** Sharing the pages below `n` leaves the parent's other pages alone. */
  lemma {:induction false} ShareKeepsParentAhead(k: Kernel, parent: Frame, child: Frame, n: nat)
    requires parent != child
    ensures forall p: nat :: p >= n ==>
              (Key(parent, p) in ShareUpTo(k, parent, child, n).leaves <==> Key(parent, p) in k.leaves)
    ensures forall p: nat :: p >= n && Key(parent, p) in k.leaves ==>
              ShareUpTo(k, parent, child, n).leaves[Key(parent, p)] == k.leaves[Key(parent, p)]
  {
    if n == 0 {
    } else {
      ShareKeepsParentAhead(k, parent, child, n - 1);
    }
  }

  /** Pages the parent does not map are passed over. */
  lemma {:induction false} ShareSkips(k: Kernel, parent: Frame, child: Frame, a: nat, b: nat)
    requires a <= b
    requires forall p: nat :: a <= p < b ==> Key(parent, p) !in ShareUpTo(k, parent, child, a).leaves
    ensures ShareUpTo(k, parent, child, b) == ShareUpTo(k, parent, child, a)
    decreases b - a
  {
    hide ShareLeaf, MarkPageShared;
    if a == b {
    } else {
      ShareSkips(k, parent, child, a, b - 1);
      assert Key(parent, b - 1) !in ShareUpTo(k, parent, child, a).leaves;
    }
  }

  /** A frame loses one mapping: one sharer less on the count, and free when nobody is left. */
  function ReleaseFrame(k: Kernel, f: Frame): Kernel {
    var company := if Count(k, f) == 0 then 0 else Count(k, f) - 1;
    k.(shares := if Count(k, f) == 0 then k.shares else k.shares[f := company],
       live := if company == 0 then k.live - {f} else k.live)
  }

  function Unmap(k: Kernel, x: Key): Kernel {
    if x !in k.leaves then k
    else ReleaseFrame(k.(leaves := k.leaves - {x}, may := k.may - {x}), k.leaves[x].frame)
  }

  /** Teardown's work on the pages of `space` below `n`. */
  ghost function UnmapUpTo(k: Kernel, space: Frame, n: nat): Kernel {
    if n == 0 then k else Unmap(UnmapUpTo(k, space, n - 1), Key(space, n - 1))
  }

  /** A page the register promised gets a frame of its own. */
  function FillPage(k: Kernel, x: Key, f: Frame, content: Content, writable: bool, executable: bool): Kernel {
    k.(leaves := k.leaves[x := MakeTableEntry(f, UserLeafTerms(writable, executable))], may := k.may[x := writable],
       pages := k.pages[f := content], live := k.live + {f})
  }

  /** Whether a write fault on this page is one the copy-on-write resolver answers. */
  predicate Resolvable(k: Kernel, x: Key) {
    x in k.leaves && k.leaves[x].present && !k.leaves[x].writable && k.leaves[x].cow
  }

  /** Somebody else shares the frame too, so the page needs a copy of it. */
  predicate NeedsCopy(k: Kernel, x: Key)
    requires x in k.leaves
  {
    Count(k, k.leaves[x].frame) > 1
  }

  function PrivateEntry(f: Frame, e: Entry): Entry {
    MakeTableEntry(f, UserLeafTerms(true, !e.noExec))
  }

  /** The last sharer takes the frame over; anyone else gets a copy in frame `copy`. */
  function ResolveFault(k: Kernel, x: Key, copy: Frame): Kernel
    requires Resolvable(k, x) && k.leaves[x].frame in k.pages
  {
    var e := k.leaves[x];
    var company := if Count(k, e.frame) == 0 then 0 else Count(k, e.frame) - 1;
    var shares := if Count(k, e.frame) == 0 then k.shares else k.shares[e.frame := company];
    if company == 0 then k.(leaves := k.leaves[x := PrivateEntry(e.frame, e)], shares := shares)
    else k.(leaves := k.leaves[x := PrivateEntry(copy, e)], shares := shares,
            pages := k.pages[copy := k.pages[e.frame]], live := k.live + {copy})
  }

  /** The register's promise for a page is rewritten, and the leaf with it; a shared leaf stays read-only. */
  function ProtectPage(k: Kernel, x: Key, readable: bool, writable: bool, executable: bool): Kernel
    requires x in k.leaves
  {
    var e := k.leaves[x];
    var terms := UserLeafTerms(writable && !e.cow, executable);
    var user := readable || writable || executable;
    k.(leaves := k.leaves[x := MakeTableEntry(e.frame, terms.(cow := e.cow, user := user))],
       may := k.may[x := writable])
  }

  /** A store through a writable leaf. */
  function Store(k: Kernel, x: Key, offset: nat, byte: bv8): Kernel
    requires x in k.leaves && k.leaves[x].frame in k.pages && offset < 4096
  {
    var f := k.leaves[x].frame;
    k.(pages := k.pages[f := k.pages[f][offset := byte]])
  }

  // ------------------------------------------------------------------ accounts kept

  lemma SetLeaf(leaves: Leaves, x: Key, e: Entry, f: Frame)
    ensures Owners(leaves[x := e], f) == if e.frame == f && !e.cow then Owners(leaves, f) + {x}
              else Owners(leaves, f) - {x}
    ensures Sharers(leaves[x := e], f) == if e.frame == f && e.cow then Sharers(leaves, f) + {x}
              else Sharers(leaves, f) - {x}
  {
  }

  lemma ElsewhereSame(leaves: Leaves, x: Key, e: Entry, f: Frame)
    requires e.frame != f && (x in leaves ==> leaves[x].frame != f)
    ensures Owners(leaves[x := e], f) == Owners(leaves, f) && Sharers(leaves[x := e], f) == Sharers(leaves, f)
  {
  }

  lemma DropLeaf(leaves: Leaves, x: Key, f: Frame)
    ensures Owners(leaves - {x}, f) == Owners(leaves, f) - {x}
    ensures Sharers(leaves - {x}, f) == Sharers(leaves, f) - {x}
  {
  }

  lemma Singleton<T>(s: set<T>, x: T)
    requires |s| == 1 && x in s
    ensures s == {x}
  {
    assert |s - {x}| == 0;
  }

  lemma OwnLeaf(k: Kernel, x: Key)
    requires Accounts(k) && x in k.leaves
    ensures var e := k.leaves[x];
            && LeafSound(k, x, e)
            && (e.cow ==> x in Sharers(k.leaves, e.frame) && Owners(k.leaves, e.frame) == {} && Count(k, e.frame) >= 1)
            && (!e.cow ==>
                 Owners(k.leaves, e.frame) == {x} && Sharers(k.leaves, e.frame) == {} && Count(k, e.frame) == 0)
  {
    var e := k.leaves[x];
    assert FrameSound(k, e.frame);
    if e.cow {
      assert x in Sharers(k.leaves, e.frame);
    } else {
      assert x in Owners(k.leaves, e.frame);
      Singleton(Owners(k.leaves, e.frame), x);
    }
  }

  lemma UnusedFrame(k: Kernel, f: Frame)
    requires Accounts(k) && f !in k.live
    ensures Owners(k.leaves, f) == {} && Sharers(k.leaves, f) == {} && Count(k, f) == 0
  {
    assert forall x :: x in k.leaves ==> LeafSound(k, x, k.leaves[x]);
    assert FrameSound(k, f);
  }

  /** Sharing one page leaves the parent's and the child's page on the same terms, counted for both. */
  lemma ShareLeafEffect(k: Kernel, parent: Frame, child: Frame, page: nat)
    requires Accounts(k) && Key(parent, page) in k.leaves && Key(child, page) !in k.leaves && parent != child
    ensures var p, c := Key(parent, page), Key(child, page);
            var e := k.leaves[p];
            ShareLeaf(k, parent, child, page) ==
              k.(leaves := k.leaves[p := SharedEntry(e)][c := SharedEntry(e)], may := k.may[c := k.may[p]],
                 shares := k.shares[e.frame := Count(k, e.frame) + (if e.cow then 1 else 2)])
  {
    var p, c := Key(parent, page), Key(child, page);
    var e := k.leaves[p];
    OwnLeaf(k, p);
    var mapped := k.(leaves := k.leaves[c := ChildEntry(e)], may := k.may[c := k.may[p]]);
    var once := MarkPageShared(mapped, p);
    assert SharedEntry(ChildEntry(e)) == SharedEntry(e);
    if e.cow {
      assert once == mapped && SharedEntry(e) == e;
      assert k.leaves[c := ChildEntry(e)][c := SharedEntry(e)] == k.leaves[p := SharedEntry(e)][c := SharedEntry(e)];
    } else {
      assert once.leaves[c] == ChildEntry(e);
      assert once.leaves[c := SharedEntry(e)] == k.leaves[p := SharedEntry(e)][c := SharedEntry(e)];
      assert once.shares[e.frame := Count(once, e.frame) + 1] == k.shares[e.frame := Count(k, e.frame) + 2];
    }
  }

  lemma ShareLeafSets(leaves: Leaves, p: Key, c: Key)
    requires p in leaves && c !in leaves && leaves[p].frame < FRAME_FIELD
    ensures var e := leaves[p];
            var after := leaves[p := SharedEntry(e)][c := SharedEntry(e)];
            && Owners(after, e.frame) == Owners(leaves, e.frame) - {p}
            && Sharers(after, e.frame) == Sharers(leaves, e.frame) + {p, c}
            && c !in Sharers(leaves, e.frame)
  {
    var e := leaves[p];
    SetLeaf(leaves, p, SharedEntry(e), e.frame);
    SetLeaf(leaves[p := SharedEntry(e)], c, SharedEntry(e), e.frame);
    assert c !in Owners(leaves, e.frame);
  }

  lemma ShareLeafBalances(leaves: Leaves, p: Key, c: Key, count: nat)
    requires p in leaves && c !in leaves && leaves[p].frame < FRAME_FIELD
    requires Balanced(leaves, leaves[p].frame, count)
    ensures var e := leaves[p];
            var after := leaves[p := SharedEntry(e)][c := SharedEntry(e)];
            && Balanced(after, e.frame, count + (if e.cow then 1 else 2))
            && c in Sharers(after, e.frame)
  {
    var e := leaves[p];
    ShareLeafSets(leaves, p, c);
    if e.cow {
      assert p in Sharers(leaves, e.frame);
      assert Sharers(leaves, e.frame) + {p, c} == Sharers(leaves, e.frame) + {c};
    } else {
      assert p in Owners(leaves, e.frame);
      Singleton(Owners(leaves, e.frame), p);
      assert Sharers(leaves, e.frame) + {p, c} == {p, c};
    }
  }

  lemma ShareLeafKeepsAccounts(k: Kernel, parent: Frame, child: Frame, page: nat)
    requires Accounts(k) && Key(parent, page) in k.leaves && Key(child, page) !in k.leaves && parent != child
    ensures Accounts(ShareLeaf(k, parent, child, page))
  {
    var p, c := Key(parent, page), Key(child, page);
    var k' := ShareLeaf(k, parent, child, page);
    ShareLeafEffect(k, parent, child, page);
    OwnLeaf(k, p);
    forall x | x in k'.leaves
      ensures LeafSound(k', x, k'.leaves[x])
    {
      assert x != p && x != c ==> LeafSound(k, x, k.leaves[x]);
    }
    forall f: Frame
      ensures FrameSound(k', f)
    {
      assert FrameSound(k, f);
      var e := k.leaves[p];
      if f == e.frame {
        ShareLeafBalances(k.leaves, p, c, Count(k, f));
      } else {
        ElsewhereSame(k.leaves, p, SharedEntry(e), f);
        ElsewhereSame(k.leaves[p := SharedEntry(e)], c, SharedEntry(e), f);
      }
    }
  }

  lemma FillPageKeepsAccounts(k: Kernel, x: Key, f: Frame, content: Content, writable: bool, executable: bool)
    requires Accounts(k) && x !in k.leaves && x.page < USER_PAGES && f !in k.live && f < TOTAL_PAGES
    ensures Accounts(FillPage(k, x, f, content, writable, executable))
  {
    var k' := FillPage(k, x, f, content, writable, executable);
    UnusedFrame(k, f);
    forall y | y in k'.leaves
      ensures LeafSound(k', y, k'.leaves[y])
    {
      assert y != x ==> LeafSound(k, y, k.leaves[y]);
    }
    forall g: Frame
      ensures FrameSound(k', g)
    {
      assert FrameSound(k, g);
      if g == f {
        SetLeaf(k.leaves, x, k'.leaves[x], g);
        assert Owners(k'.leaves, g) == {x};
      } else {
        ElsewhereSame(k.leaves, x, k'.leaves[x], g);
      }
    }
  }

  lemma UnmapBalances(leaves: Leaves, x: Key, f: Frame, count: nat)
    requires x in leaves && Balanced(leaves, f, count)
    ensures var e := leaves[x];
            Balanced(leaves - {x}, f, if f == e.frame && count > 0 then count - 1 else count)
    ensures f == leaves[x].frame && count <= 1 ==> Owners(leaves - {x}, f) == {} && Sharers(leaves - {x}, f) == {}
    ensures f == leaves[x].frame && count > 1 ==> Sharers(leaves - {x}, f) != {}
    ensures f != leaves[x].frame ==>
              Owners(leaves - {x}, f) == Owners(leaves, f) && Sharers(leaves - {x}, f) == Sharers(leaves, f)
  {
    DropLeaf(leaves, x, f);
    if f == leaves[x].frame {
      if leaves[x].cow {
        assert x in Sharers(leaves, f);
        assert |Sharers(leaves, f) - {x}| == |Sharers(leaves, f)| - 1;
      } else {
        assert x in Owners(leaves, f);
        Singleton(Owners(leaves, f), x);
      }
    } else {
      assert x !in Owners(leaves, f) && x !in Sharers(leaves, f);
    }
  }

  /** Unmapping a page frees its frame exactly when no other page maps it. */
  lemma UnmapKeepsAccounts(k: Kernel, x: Key)
    requires Accounts(k)
    ensures Accounts(Unmap(k, x))
    ensures x in k.leaves ==>
              (k.leaves[x].frame in Unmap(k, x).live <==>
                exists y :: y in k.leaves && y != x && k.leaves[y].frame == k.leaves[x].frame)
  {
    if x in k.leaves {
      var k' := Unmap(k, x);
      var f := k.leaves[x].frame;
      assert FrameSound(k, f);
      OwnLeaf(k, x);
      UnmapBalances(k.leaves, x, f, Count(k, f));
      forall y | y in k'.leaves
        ensures LeafSound(k', y, k'.leaves[y])
      {
        assert LeafSound(k, y, k.leaves[y]);
        assert k.leaves[y].frame == f ==> y in Owners(k'.leaves, f) || y in Sharers(k'.leaves, f);
      }
      forall g: Frame
        ensures FrameSound(k', g)
      {
        assert FrameSound(k, g);
        UnmapBalances(k.leaves, x, g, Count(k, g));
      }
      if f in k'.live {
        var y :| y in Sharers(k'.leaves, f);
      } else {
        forall y | y in k.leaves && y != x
          ensures k.leaves[y].frame != f
        {
          assert y in k'.leaves && LeafSound(k', y, k'.leaves[y]);
        }
      }
    }
  }

  lemma TakeOverBalances(leaves: Leaves, x: Key, e: Entry)
    requires x in leaves && leaves[x].cow && !e.cow && e.frame == leaves[x].frame
    requires Balanced(leaves, e.frame, 1)
    ensures Balanced(leaves[x := e], e.frame, 0) && Owners(leaves[x := e], e.frame) != {}
  {
    assert x in Sharers(leaves, e.frame);
    Singleton(Sharers(leaves, e.frame), x);
    SetLeaf(leaves, x, e, e.frame);
    assert Owners(leaves[x := e], e.frame) == {x};
  }

  lemma MoveAwayBalances(leaves: Leaves, x: Key, e: Entry, count: nat)
    requires x in leaves && leaves[x].cow && !e.cow && e.frame != leaves[x].frame && count > 1
    requires Balanced(leaves, leaves[x].frame, count)
    requires Owners(leaves, e.frame) == {} && Sharers(leaves, e.frame) == {}
    ensures Balanced(leaves[x := e], leaves[x].frame, count - 1)
    ensures Sharers(leaves[x := e], leaves[x].frame) != {}
    ensures Balanced(leaves[x := e], e.frame, 0) && Owners(leaves[x := e], e.frame) != {}
  {
    var f := leaves[x].frame;
    SetLeaf(leaves, x, e, f);
    SetLeaf(leaves, x, e, e.frame);
    assert x in Sharers(leaves, f);
    assert |Sharers(leaves, f) - {x}| == |Sharers(leaves, f)| - 1;
    assert Owners(leaves[x := e], e.frame) == {x};
  }

  /**
   The resolver makes the page writable without asking the range register: the accounts stay straight
   exactly when stores are promised there.
   */
  lemma ResolveKeepsAccounts(k: Kernel, x: Key, copy: Frame)
    requires Accounts(k) && Resolvable(k, x)
    requires NeedsCopy(k, x) ==> copy !in k.live && copy < TOTAL_PAGES
    ensures k.leaves[x].frame in k.pages
    ensures Accounts(ResolveFault(k, x, copy)) <==> k.may[x]
  {
    hide FrameSound;
    if k.may[x] {
      ResolvePromised(k, x, copy);
    } else {
      var k' := ResolveFault(k, x, copy);
      assert !LeafSound(k', x, k'.leaves[x]);
    }
  }

  lemma ResolvePromised(k: Kernel, x: Key, copy: Frame)
    requires Accounts(k) && Resolvable(k, x) && k.may[x]
    requires NeedsCopy(k, x) ==> copy !in k.live && copy < TOTAL_PAGES
    ensures k.leaves[x].frame in k.pages
    ensures Accounts(ResolveFault(k, x, copy))
  {
    hide Owners, Sharers;
    var e := k.leaves[x];
    OwnLeaf(k, x);
    if NeedsCopy(k, x) {
      UnusedFrame(k, copy);
    }
    var k' := ResolveFault(k, x, copy);
    forall y | y in k'.leaves
      ensures LeafSound(k', y, k'.leaves[y])
    {
      assert y != x ==> LeafSound(k, y, k.leaves[y]);
    }
    forall f: Frame
      ensures FrameSound(k', f)
    {
      assert FrameSound(k, f);
      if Count(k, e.frame) == 1 && f == e.frame {
        TakeOverBalances(k.leaves, x, k'.leaves[x]);
      } else if Count(k, e.frame) > 1 && (f == e.frame || f == copy) {
        assert FrameSound(k, e.frame);
        MoveAwayBalances(k.leaves, x, k'.leaves[x], Count(k, e.frame));
      } else {
        ElsewhereSame(k.leaves, x, k'.leaves[x], f);
      }
    }
  }

  lemma ProtectKeepsAccounts(k: Kernel, x: Key, readable: bool, writable: bool, executable: bool)
    requires Accounts(k) && x in k.leaves
    ensures Accounts(ProtectPage(k, x, readable, writable, executable))
  {
    var k' := ProtectPage(k, x, readable, writable, executable);
    OwnLeaf(k, x);
    forall y | y in k'.leaves
      ensures LeafSound(k', y, k'.leaves[y])
    {
      assert y != x ==> LeafSound(k, y, k.leaves[y]);
    }
    forall f: Frame
      ensures FrameSound(k', f)
    {
      assert FrameSound(k, f);
      assert Owners(k'.leaves, f) == Owners(k.leaves, f) && Sharers(k'.leaves, f) == Sharers(k.leaves, f);
    }
  }

  lemma StoreKeepsAccounts(k: Kernel, x: Key, offset: nat, byte: bv8)
    requires Accounts(k) && x in k.leaves && k.leaves[x].frame in k.pages && offset < 4096
    ensures Accounts(Store(k, x, offset, byte))
  {
    var k' := Store(k, x, offset, byte);
    forall y | y in k'.leaves
      ensures LeafSound(k', y, k'.leaves[y])
    {
      assert LeafSound(k, y, k.leaves[y]);
    }
    forall f: Frame
      ensures FrameSound(k', f)
    {
      assert FrameSound(k, f);
    }
  }

  /** Teardown's work keeps the accounts, removes the pages it passed and leaves the other leaves alone. */
  lemma {:induction false} UnmapUpToEffect(k: Kernel, space: Frame, n: nat)
    requires Accounts(k)
    ensures var k' := UnmapUpTo(k, space, n);
            && Accounts(k') && k'.pages == k.pages
            && k'.leaves == (map x | x in k.leaves && !(x.space == space && x.page < n) :: k.leaves[x])
            && k'.may == (map x | x in k.may && !(x.space == space && x.page < n) :: k.may[x])
  {
    hide FrameSound, LeafSound;
    if n == 0 {
    } else {
      UnmapUpToEffect(k, space, n - 1);
      UnmapKeepsAccounts(UnmapUpTo(k, space, n - 1), Key(space, n - 1));
    }
  }

  /** Pages the space does not map are passed over. */
  lemma {:induction false} UnmapSkips(k: Kernel, space: Frame, a: nat, b: nat)
    requires a <= b
    requires forall p: nat :: a <= p < b ==> Key(space, p) !in UnmapUpTo(k, space, a).leaves
    ensures UnmapUpTo(k, space, b) == UnmapUpTo(k, space, a)
    decreases b - a
  {
    if a == b {
    } else {
      UnmapSkips(k, space, a, b - 1);
      assert Key(space, b - 1) !in UnmapUpTo(k, space, a).leaves;
    }
  }

  /** With nothing mapped, every data frame has been given back and no count is left over. */
  lemma EmptyLedger(k: Kernel)
    requires Accounts(k) && k.leaves == map[]
    ensures k.live == {} && forall f: Frame :: Count(k, f) == 0
  {
    forall f: Frame
      ensures f !in k.live && Count(k, f) == 0
    {
      assert FrameSound(k, f);
      assert Owners(k.leaves, f) == {} && Sharers(k.leaves, f) == {};
    }
  }
}
