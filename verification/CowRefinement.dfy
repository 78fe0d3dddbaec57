/**
 Copy-on-write against the simplest thing fork could do: copy every page at once. Over every run of
 fork, store, fill, unmap, protect and teardown, each space reads at each page exactly the bytes, and
 may store, reach and execute exactly where, it would under eager copying.
 */
module CowRefinement {
  import opened Wrappers
  import opened PageTree
  import opened Pmm
  import opened CowLedger

  // ------------------------------------------------------------------ eager copying

  /** A page that belongs to one space alone, and whether the space may store, reach it at all, and execute. */
  datatype Cell = Cell(content: Content, may: bool, reachable: bool, executable: bool)

  type Eager = map<Key, Cell>

  datatype Op =
    | Fork(parent: Frame, child: Frame)
    | Write(at: Key, offset: nat, byte: bv8, copy: Frame)
    | Fill(at: Key, frame: Frame, content: Content, writable: bool, executable: bool)
    | Drop(at: Key)
    | Protect(at: Key, readable: bool, writable: bool, executable: bool)
    | Teardown(space: Frame)

  /** A copy of every page of `parent`, for `child`. */
  ghost function Copies(v: Eager, parent: Frame, child: Frame): Eager {
    map y | y in v && y.space == parent :: Key(child, y.page) := v[y]
  }

  ghost function EagerStep(v: Eager, op: Op): Eager {
    match op
    case Fork(parent, child) => v + Copies(v, parent, child)
    case Write(at, offset, byte, _) =>
      if at in v && v[at].may && offset < 4096
      then v[at := v[at].(content := v[at].content[offset := byte])] else v
    case Fill(at, _, content, writable, executable) =>
      if at in v then v else v[at := Cell(content, writable, true, executable)]
    case Drop(at) => v - {at}
    case Protect(at, readable, writable, executable) =>
      if at in v then v[at := Cell(v[at].content, writable, readable || writable || executable, executable)] else v
    case Teardown(space) => map y | y in v && y.space != space :: v[y]
  }

  ghost function EagerRun(v: Eager, ops: seq<Op>): Eager {
    if ops == [] then v else EagerStep(EagerRun(v, ops[..|ops| - 1]), ops[|ops| - 1])
  }

  // ------------------------------------------------------------------ copy-on-write

  /**
   One operation on the ledger. None means the machine stopped: a share count overflowed its byte or
   no frame was left for a copy (the frame named in the operation is not free).
   */
  ghost function CowStep(k: Kernel, op: Op): Option<Kernel> {
    match op
    case Fork(parent, child) =>
      var k' := ShareUpTo(k, parent, child, USER_PAGES);
      if parent == child || (exists x :: x in k.leaves && x.space == child)
        || (exists f: Frame :: Count(k', f) > MAX_SHARES)
      then None else Some(k')
    case Write(at, offset, byte, copy) =>
      if at !in k.leaves || k.leaves[at].frame !in k.pages || offset >= 4096 then Some(k)
      else if k.leaves[at].writable then Some(Store(k, at, offset, byte))
      else if at !in k.may || !k.may[at] || !Resolvable(k, at) then Some(k)
      else if NeedsCopy(k, at) && (copy in k.live || copy >= TOTAL_PAGES) then None
      else
        var k' := ResolveFault(k, at, copy);
        if k'.leaves[at].frame in k'.pages then Some(Store(k', at, offset, byte)) else None
    case Fill(at, frame, content, writable, executable) =>
      if at in k.leaves then Some(k)
      else if frame in k.live || frame >= TOTAL_PAGES || at.page >= USER_PAGES then None
      else Some(FillPage(k, at, frame, content, writable, executable))
    case Drop(at) => Some(Unmap(k, at))
    case Protect(at, readable, writable, executable) =>
      if at in k.leaves then Some(ProtectPage(k, at, readable, writable, executable)) else Some(k)
    case Teardown(space) => Some(UnmapUpTo(k, space, USER_PAGES))
  }

  ghost function CowRun(k: Kernel, ops: seq<Op>): Option<Kernel> {
    if ops == [] then Some(k)
    else
      match CowRun(k, ops[..|ops| - 1])
      case None => None
      case Some(k') => CowStep(k', ops[|ops| - 1])
  }

  const BOOT := Kernel(map[], map[], map[], map[], {})

  /** What each space reads at each of its pages, and whether it may store there, reach it and execute it. */
  ghost function View(k: Kernel): Eager {
    map x | x in k.leaves && k.leaves[x].frame in k.pages && x in k.may ::
      Cell(k.pages[k.leaves[x].frame], k.may[x], k.leaves[x].user, !k.leaves[x].noExec)
  }

  lemma ViewOfAll(k: Kernel)
    requires Accounts(k)
    ensures View(k).Keys == k.leaves.Keys
  {
    assert forall x :: x in k.leaves ==> LeafSound(k, x, k.leaves[x]);
  }

  // ------------------------------------------------------------------ fork

  ghost predicate Childless(k: Kernel, child: Frame) {
    forall x :: x in k.leaves ==> x.space != child
  }

  /** The page of the parent that decides the leaf at `x` once fork has passed page `n`. */
  ghost function Source(x: Key, parent: Frame, child: Frame, n: nat): Key {
    if x.page < n && x.space == child then Key(parent, x.page) else x
  }

  /**
   After fork has worked on the pages below `n`: the child maps exactly the parent's pages; on those
   pages parent and child have the same read-only leaf on the parent's old frame; nothing else moved.
   */
  ghost predicate Forked(k: Kernel, k': Kernel, parent: Frame, child: Frame, n: nat) {
    && Accounts(k')
    && k'.pages == k.pages && k'.live == k.live
    && forall x :: ForkedAt(k, k', parent, child, n, x)
  }

  ghost predicate ForkedAt(k: Kernel, k': Kernel, parent: Frame, child: Frame, n: nat, x: Key) {
    var s := Source(x, parent, child, n);
    && (x in k'.leaves <==> s in k.leaves)
    && (x in k'.leaves ==>
          && k'.leaves[x] ==
               (if x.page < n && x.space in {parent, child} then SharedEntry(k.leaves[s]) else k.leaves[s])
          && x in k'.may && s in k.may && k'.may[x] == k.may[s])
  }

  lemma {:induction false} ForkEffect(k: Kernel, parent: Frame, child: Frame, n: nat)
    requires Accounts(k) && Childless(k, child) && parent != child
    ensures Forked(k, ShareUpTo(k, parent, child, n), parent, child, n)
  {
    if n == 0 {
    } else {
      ForkEffect(k, parent, child, n - 1);
      ForkStep(k, ShareUpTo(k, parent, child, n - 1), parent, child, n - 1);
    }
  }

  lemma ForkStep(k: Kernel, k': Kernel, parent: Frame, child: Frame, n: nat)
    requires Accounts(k) && Childless(k, child) && parent != child
    requires Forked(k, k', parent, child, n)
    ensures var p := Key(parent, n);
            var next := if p in k'.leaves && p in k'.may then ShareLeaf(k', parent, child, n) else k';
            Forked(k, next, parent, child, n + 1)
  {
    hide Accounts, ShareLeaf, SharedEntry;
    var p, c, m := Key(parent, n), Key(child, n), n + 1;
    assert ForkedAt(k, k', parent, child, n, p) && ForkedAt(k, k', parent, child, n, c);
    if p in k'.leaves {
      ShareLeafEffect(k', parent, child, n);
      ShareLeafKeepsAccounts(k', parent, child, n);
      var k'' := ShareLeaf(k', parent, child, n);
      forall x
        ensures ForkedAt(k, k'', parent, child, m, x)
      {
        assert ForkedAt(k, k', parent, child, n, x);
      }
    } else {
      forall x
        ensures ForkedAt(k, k', parent, child, m, x)
      {
        assert ForkedAt(k, k', parent, child, n, x);
      }
    }
  }

  // ------------------------------------------------------------------ each step

  /** Fork shows the child the parent's pages, as if each had been copied. */
  lemma ForkRefines(k: Kernel, parent: Frame, child: Frame)
    requires Accounts(k) && Childless(k, child) && parent != child
    ensures var k' := ShareUpTo(k, parent, child, USER_PAGES);
            Accounts(k') && View(k') == EagerStep(View(k), Fork(parent, child))
  {
    hide Accounts, EagerStep, SharedEntry;
    ForkEffect(k, parent, child, USER_PAGES);
    var k' := ShareUpTo(k, parent, child, USER_PAGES);
    var v, want := View(k), EagerStep(View(k), Fork(parent, child));
    ViewOfAll(k);
    ViewOfAll(k');
    forall x
      ensures x in View(k') <==> x in want
      ensures x in View(k') ==> View(k')[x] == want[x]
    {
      assert ForkedAt(k, k', parent, child, USER_PAGES, x);
      ForkSource(k, parent, child, x);
    }
  }

  /**
   After fork parent and child map the same pages to the same frames as the parent did before, and
   neither may store through any of them.
   */
  lemma CloneTranslatesAlike(k: Kernel, parent: Frame, child: Frame, page: nat)
    requires Accounts(k) && Childless(k, child) && parent != child && page < USER_PAGES
    ensures var k', p, c := ShareUpTo(k, parent, child, USER_PAGES), Key(parent, page), Key(child, page);
            && (p in k'.leaves <==> p in k.leaves) && (c in k'.leaves <==> p in k.leaves)
            && (p in k.leaves ==>
                  k'.leaves[c] == k'.leaves[p] && k'.leaves[p].frame == k.leaves[p].frame && !k'.leaves[p].writable
                    && k'.leaves[p].cow)
  {
    hide ShareUpTo, FrameSound;
    var k' := ShareUpTo(k, parent, child, USER_PAGES);
    assert Key(parent, page) in k.leaves ==> LeafSound(k, Key(parent, page), k.leaves[Key(parent, page)]);
    ForkEffect(k, parent, child, USER_PAGES);
    assert ForkedAt(k, k', parent, child, USER_PAGES, Key(parent, page));
    assert ForkedAt(k, k', parent, child, USER_PAGES, Key(child, page));
  }

  /** The same frame, reachable and executable alike. */
  ghost predicate SameAccess(e: Entry, f: Entry) {
    e.frame == f.frame && e.user == f.user && e.noExec == f.noExec
  }

  lemma ForkSource(k: Kernel, parent: Frame, child: Frame, x: Key)
    requires Accounts(k) && Childless(k, child) && parent != child
    ensures var s := Source(x, parent, child, USER_PAGES);
            var want := EagerStep(View(k), Fork(parent, child));
            && (x in want <==> s in View(k))
            && (x in want ==> want[x] == View(k)[s])
            && (s in k.leaves ==> SameAccess(SharedEntry(k.leaves[s]), k.leaves[s]))
  {
    hide FrameSound, View, Accounts;
    ViewOfAll(k);
    var s := Source(x, parent, child, USER_PAGES);
    var p := Key(parent, x.page);
    if s in k.leaves {
      SoundLeaf(k, s);
    }
    if p in k.leaves {
      SoundLeaf(k, p);
    }
    CopiesAt(View(k), parent, child, x);
  }

  lemma SoundLeaf(k: Kernel, x: Key)
    requires Accounts(k) && x in k.leaves
    ensures LeafSound(k, x, k.leaves[x])
  {
  }

  lemma CopiesAt(v: Eager, parent: Frame, child: Frame, x: Key)
    ensures x in Copies(v, parent, child) <==> x.space == child && Key(parent, x.page) in v
    ensures x in Copies(v, parent, child) ==> Copies(v, parent, child)[x] == v[Key(parent, x.page)]
  {
    if x.space == child && Key(parent, x.page) in v {
      assert Key(child, Key(parent, x.page).page) == x;
    }
  }

  lemma StoreRefines(k: Kernel, x: Key, offset: nat, byte: bv8)
    requires Accounts(k) && x in k.leaves && k.leaves[x].writable && offset < 4096
    ensures k.leaves[x].frame in k.pages
    ensures var k' := Store(k, x, offset, byte);
            && Accounts(k')
            && View(k') == View(k)[x := View(k)[x].(content := View(k)[x].content[offset := byte])]
  {
    OwnLeaf(k, x);
    StoreKeepsAccounts(k, x, offset, byte);
    ViewOfAll(k);
    ViewOfAll(Store(k, x, offset, byte));
    var f := k.leaves[x].frame;
    assert forall y :: y in k.leaves && k.leaves[y].frame == f ==>
      y in Owners(k.leaves, f) || y in Sharers(k.leaves, f);
  }

  /** The page keeps its bytes, in the old frame or in the copy, and no other page is affected. */
  lemma ResolveKeepsBytes(k: Kernel, x: Key, copy: Frame, y: Key)
    requires Accounts(k) && Resolvable(k, x) && y in k.leaves
    requires NeedsCopy(k, x) ==> copy !in k.live && copy < TOTAL_PAGES
    requires k.leaves[x].frame in k.pages && k.leaves[x].frame < TOTAL_PAGES
    ensures var k' := ResolveFault(k, x, copy);
            && y in k'.leaves && k.leaves[y].frame in k.pages && k'.leaves[y].frame in k'.pages
            && k'.pages[k'.leaves[y].frame] == k.pages[k.leaves[y].frame]
            && k'.leaves[y].noExec == k.leaves[y].noExec
            && (k.may[x] || y != x ==> k'.leaves[y].user == k.leaves[y].user)
  {
    assert LeafSound(k, y, k.leaves[y]);
  }

  lemma ResolveShape(k: Kernel, x: Key, copy: Frame)
    requires Resolvable(k, x) && k.leaves[x].frame in k.pages
    ensures var k' := ResolveFault(k, x, copy);
            k'.leaves.Keys == k.leaves.Keys && k'.leaves[x].writable && k'.may == k.may
  {
  }

  lemma ResolveRefines(k: Kernel, x: Key, copy: Frame)
    requires Accounts(k) && Resolvable(k, x) && k.may[x]
    requires NeedsCopy(k, x) ==> copy !in k.live && copy < TOTAL_PAGES
    ensures k.leaves[x].frame in k.pages
    ensures var k' := ResolveFault(k, x, copy);
            Accounts(k') && View(k') == View(k) && k'.leaves[x].writable
  {
    hide FrameSound, ResolveFault;
    OwnLeaf(k, x);
    ResolveKeepsAccounts(k, x, copy);
    ResolveShape(k, x, copy);
    var k' := ResolveFault(k, x, copy);
    ViewOfAll(k);
    ViewOfAll(k');
    forall y | y in k.leaves
      ensures View(k')[y] == View(k)[y]
    {
      ResolveKeepsBytes(k, x, copy, y);
    }
  }

  /** A store is granted exactly when eager copying would grant it, and then lands in that page alone. */
  lemma WriteRefines(k: Kernel, op: Op)
    requires Accounts(k) && op.Write? && CowStep(k, op).Some?
    ensures Accounts(CowStep(k, op).value)
    ensures View(CowStep(k, op).value) == EagerStep(View(k), op)
  {
    var x := op.at;
    ViewOfAll(k);
    if x in k.leaves && op.offset < 4096 {
      OwnLeaf(k, x);
      if k.leaves[x].writable {
        StoreRefines(k, x, op.offset, op.byte);
      } else if k.may[x] {
        ResolveRefines(k, x, op.copy);
        StoreRefines(ResolveFault(k, x, op.copy), x, op.offset, op.byte);
      }
    }
  }

  lemma UnmapRefines(k: Kernel, x: Key)
    requires Accounts(k)
    ensures Accounts(Unmap(k, x)) && View(Unmap(k, x)) == View(k) - {x}
  {
    UnmapKeepsAccounts(k, x);
    ViewOfAll(k);
    ViewOfAll(Unmap(k, x));
  }

  ghost function Without(v: Eager, space: Frame, n: nat): Eager {
    map y | y in v && (y.space != space || y.page >= n) :: v[y]
  }

  lemma {:induction false} TeardownRefines(k: Kernel, space: Frame, n: nat)
    requires Accounts(k)
    ensures Accounts(UnmapUpTo(k, space, n)) && View(UnmapUpTo(k, space, n)) == Without(View(k), space, n)
  {
    hide Accounts, View, Unmap;
    if n == 0 {
    } else {
      TeardownRefines(k, space, n - 1);
      UnmapRefines(UnmapUpTo(k, space, n - 1), Key(space, n - 1));
      assert Without(View(k), space, n - 1) - {Key(space, n - 1)} == Without(View(k), space, n);
    }
  }

  lemma FillRefines(k: Kernel, x: Key, f: Frame, content: Content, writable: bool, executable: bool)
    requires Accounts(k) && x !in k.leaves && x.page < USER_PAGES && f !in k.live && f < TOTAL_PAGES
    ensures var k' := FillPage(k, x, f, content, writable, executable);
            Accounts(k') && View(k') == View(k)[x := Cell(content, writable, true, executable)]
  {
    hide Accounts, View, FillPage;
    var k' := FillPage(k, x, f, content, writable, executable);
    FillPageKeepsAccounts(k, x, f, content, writable, executable);
    forall y
      ensures y in View(k') <==> y in View(k) || y == x
      ensures y in View(k') ==>
                View(k')[y] == if y == x then Cell(content, writable, true, executable) else View(k)[y]
    {
      FillShows(k, x, f, content, writable, executable, y);
    }
    assert View(k') == View(k)[x := Cell(content, writable, true, executable)];
  }

  lemma FillShows(k: Kernel, x: Key, f: Frame, content: Content, writable: bool, executable: bool, y: Key)
    requires Accounts(k) && x !in k.leaves && f !in k.live && f < TOTAL_PAGES
    ensures var k' := FillPage(k, x, f, content, writable, executable);
            && (y in View(k') <==> y in View(k) || y == x)
            && (y in View(k') ==>
                  View(k')[y] == if y == x then Cell(content, writable, true, executable) else View(k)[y])
  {
    hide Accounts, View;
    var k' := FillPage(k, x, f, content, writable, executable);
    ViewAt(k, y);
    ViewAt(k', y);
    EntryFrame(f, UserLeafTerms(writable, executable));
    if y in k.leaves {
      SoundLeaf(k, y);
    }
  }

  lemma ViewAt(k: Kernel, y: Key)
    ensures y in View(k) <==> y in k.leaves && k.leaves[y].frame in k.pages && y in k.may
    ensures y in View(k) ==>
              View(k)[y] == Cell(k.pages[k.leaves[y].frame], k.may[y], k.leaves[y].user, !k.leaves[y].noExec)
  {
  }

  lemma EntryFrame(f: Frame, terms: Terms)
    requires f < TOTAL_PAGES
    ensures MakeTableEntry(f, terms).frame == f
  {
  }

  lemma ProtectRefines(k: Kernel, x: Key, readable: bool, writable: bool, executable: bool)
    requires Accounts(k) && x in k.leaves
    ensures var k' := ProtectPage(k, x, readable, writable, executable);
            && Accounts(k')
            && View(k') ==
                 View(k)[x := Cell(View(k)[x].content, writable, readable || writable || executable, executable)]
  {
    ProtectKeepsAccounts(k, x, readable, writable, executable);
    OwnLeaf(k, x);
    ViewOfAll(k);
    ViewOfAll(ProtectPage(k, x, readable, writable, executable));
  }

  /** Every operation that does not stop the machine keeps the accounts and acts as eager copying would. */
  lemma StepRefines(k: Kernel, op: Op)
    requires Accounts(k) && CowStep(k, op).Some?
    ensures Accounts(CowStep(k, op).value)
    ensures View(CowStep(k, op).value) == EagerStep(View(k), op)
  {
    hide Accounts, View, ShareUpTo, UnmapUpTo, FillPage, ProtectPage, Unmap;
    ViewOfAll(k);
    match op
    case Fork(parent, child) =>
      ForkRefines(k, parent, child);
    case Write(_, _, _, _) =>
      WriteRefines(k, op);
    case Fill(at, frame, content, writable, executable) =>
      if at !in k.leaves {
        FillRefines(k, at, frame, content, writable, executable);
      }
    case Drop(at) =>
      UnmapRefines(k, at);
    case Protect(at, readable, writable, executable) =>
      if at in k.leaves {
        ProtectRefines(k, at, readable, writable, executable);
      }
    case Teardown(space) =>
      TeardownRefines(k, space, USER_PAGES);
      UserPagesOnly(k);
  }

  lemma UserPagesOnly(k: Kernel)
    requires Accounts(k)
    ensures forall y :: y in View(k) ==> y.page < USER_PAGES
  {
    assert forall y :: y in k.leaves ==> LeafSound(k, y, k.leaves[y]);
  }

  // ------------------------------------------------------------------ whole runs

  /** Copy-on-write refines eager copying over every run from boot. */
  lemma {:induction false} RunRefines(ops: seq<Op>)
    requires CowRun(BOOT, ops).Some?
    ensures Accounts(CowRun(BOOT, ops).value)
    ensures View(CowRun(BOOT, ops).value) == EagerRun(map[], ops)
  {
    if ops == [] {
      forall f: Frame
        ensures FrameSound(BOOT, f)
      {
        assert Owners(BOOT.leaves, f) == {} && Sharers(BOOT.leaves, f) == {};
      }
    } else {
      RunRefines(ops[..|ops| - 1]);
      StepRefines(CowRun(BOOT, ops[..|ops| - 1]).value, ops[|ops| - 1]);
    }
  }

  /** No store is ever visible in another space, nor at another page. */
  lemma StoresStayPrivate(ops: seq<Op>, at: Key, offset: nat, byte: bv8, copy: Frame, x: Key)
    requires CowRun(BOOT, ops + [Write(at, offset, byte, copy)]).Some? && x != at
    ensures CowRun(BOOT, ops).Some? && Accounts(CowRun(BOOT, ops).value)
    ensures var before, after := CowRun(BOOT, ops).value, CowRun(BOOT, ops + [Write(at, offset, byte, copy)]).value;
            && Accounts(after)
            && (x in View(before) <==> x in View(after))
            && (x in View(before) ==> View(after)[x] == View(before)[x])
  {
    var more := ops + [Write(at, offset, byte, copy)];
    assert more[..|more| - 1] == ops;
    RunRefines(ops);
    RunRefines(more);
  }

  /**
   A page promised read-only that fork has shared looks to the resolver like any shared page: were it
   called there, the space could store where the register forbids it.
   */
  lemma ResolverWouldWiden(at: Key, child: Frame, f: Frame, content: Content, executable: bool, copy: Frame)
    requires at.page < USER_PAGES && at.space != child && f < TOTAL_PAGES && copy < TOTAL_PAGES && copy != f
    ensures var run := CowRun(BOOT, [Fill(at, f, content, false, executable), Fork(at.space, child)]);
            && run.Some? && Accounts(run.value)
            && at in run.value.may && !run.value.may[at] && Resolvable(run.value, at)
            && run.value.leaves[at].frame in run.value.pages
            && ResolveFault(run.value, at, copy).leaves[at].writable
            && !Accounts(ResolveFault(run.value, at, copy))
  {
    hide ShareUpTo, Accounts;
    var fill, fork := Fill(at, f, content, false, executable), Fork(at.space, child);
    var k := FillPage(BOOT, at, f, content, false, executable);
    assert [fill, fork][..1] == [fill] && [fill][..0] == [];
    assert CowRun(BOOT, [fill]) == CowStep(BOOT, fill) == Some(k);
    RunRefines([fill]);
    ForkEffect(k, at.space, child, USER_PAGES);
    var k' := ShareUpTo(k, at.space, child, USER_PAGES);
    forall g: Frame
      ensures Count(k', g) <= 2
    {
      TwoSharers(k, k', at, child, g);
    }
    assert CowRun(BOOT, [fill, fork]) == CowStep(k, fork) == Some(k');
    assert ForkedAt(k, k', at.space, child, USER_PAGES, at);
    ResolveKeepsAccounts(k', at, copy);
  }

  lemma TwoSharers(k: Kernel, k': Kernel, at: Key, child: Frame, g: Frame)
    requires k.leaves.Keys == {at} && Forked(k, k', at.space, child, USER_PAGES)
    ensures Count(k', g) <= 2
  {
    var c := Key(child, at.page);
    assert Sharers(k'.leaves, g) <= {at, c} by {
      forall x | x in k'.leaves
        ensures x in {at, c}
      {
        assert ForkedAt(k, k', at.space, child, USER_PAGES, x);
      }
    }
    assert {at, c} - Sharers(k'.leaves, g) + Sharers(k'.leaves, g) == {at, c};
    assert FrameSound(k', g);
  }

  /** When no space maps anything any more, every data frame has been given back and no count is left over. */
  lemma NothingLeaks(ops: seq<Op>)
    requires CowRun(BOOT, ops).Some? && CowRun(BOOT, ops).value.leaves == map[]
    ensures CowRun(BOOT, ops).value.live == {}
    ensures forall f: Frame :: Count(CowRun(BOOT, ops).value, f) == 0
  {
    RunRefines(ops);
    EmptyLedger(CowRun(BOOT, ops).value);
  }

  /** In every reachable state a data frame has one private leaf and count 0, or k shared leaves and count k. */
  lemma FrameAccounting(ops: seq<Op>, f: Frame)
    requires CowRun(BOOT, ops).Some?
    ensures var k := CowRun(BOOT, ops).value;
            || (|Owners(k.leaves, f)| == 1 && Sharers(k.leaves, f) == {} && Count(k, f) == 0)
            || (Owners(k.leaves, f) == {} && |Sharers(k.leaves, f)| == Count(k, f))
  {
    RunRefines(ops);
    assert FrameSound(CowRun(BOOT, ops).value, f);
  }
}
