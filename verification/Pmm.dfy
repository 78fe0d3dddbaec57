/**
 The physical-page ledger: which frames are in use, and how many copy-on-write leaves share each
 data frame. Memory itself holds tables in table frames and bytes in data frames.
 */
module Pmm {
  import opened Wrappers
  import opened PageTree

  const TOTAL_PAGES: nat := 0x40_0000 // 16 GiB of 4 KiB pages
  const MAX_SHARES: nat := 0xFF       // shares are counted in one byte

  /** No frame is left to hand out. */
  ghost predicate NoneFree(used: set<Frame>) {
    forall g: Frame :: g < TOTAL_PAGES ==> g in used
  }

  /** Some frame has as many sharers as its count can hold. */
  ghost predicate CountFull(shares: map<Frame, nat>) {
    exists f :: f in shares && shares[f] == MAX_SHARES
  }

  /** The bytes of one page. */
  type Content = s: seq<bv8> | |s| == 4096 witness seq(4096, _ => 0)

  class Memory {
    var used: set<Frame>
    var shares: map<Frame, nat>
    var tables: Tables
    var pages: map<Frame, Content>

    /** Roots of the live trees, and how many of their slots each has to itself. */
    ghost var roots: set<Frame>
    ghost const limit: nat
    /** The unique name of each table under those slots. */
    ghost var places: map<Frame, Place>

    /** Frames the kernel keeps for itself: never a user page, never an owned table. */
    ghost var pinned: set<Frame>
    /** The range registers' word on each mapped user page: whether stores are promised there. */
    ghost var may: map<Key, bool>

    ghost function Woods(): Woods
      reads this
    {
      PageTree.Woods(tables, roots, limit, places, used)
    }

    ghost predicate Grown()
      reads this
    {
      Sound(Woods())
    }

    function Shares(f: Frame): nat
      reads this
    {
      if f in shares then shares[f] else 0
    }

    /**
     First fit over the bitmap: claims the lowest run of `count` free frames and returns its base,
     or 0 when there is none.
     */
    method AllocateRun(count: nat) returns (base: Frame)
      requires 0 in used
      modifies this`used
      ensures base == 0 ==> used == old(used)
      ensures base == 0 ==> count == 0 || forall b :: 0 <= b && b + count <= TOTAL_PAGES ==>
                !ClearRun(old(used), b, count)
      ensures base != 0 ==> count > 0 && base + count <= TOTAL_PAGES && ClearRun(old(used), base, count)
      ensures base != 0 ==> forall b :: 0 <= b < base ==> !ClearRun(old(used), b, count)
      ensures base != 0 ==> used == old(used) + Run(base, count)
    {
      if count == 0 || count > TOTAL_PAGES {
        return 0;
      }
      var run := 0;
      for index := 0 to TOTAL_PAGES
        invariant run < count && run <= index
        invariant forall f :: index - run <= f < index ==> f !in used
        invariant run < index ==> index - run - 1 in used
        invariant forall b :: 0 <= b < index - run ==> !ClearRun(used, b, count)
        invariant used == old(used)
      {
        if index in used {
          forall b | 0 <= b < index + 1
            ensures !ClearRun(used, b, count)
          {
            if index - run <= b {
              assert index in used && b <= index < b + count;
            }
          }
          run := 0;
        } else {
          run := run + 1;
          if run == count {
            base := index + 1 - count;
            used := used + Run(base, count);
            return;
          }
        }
      }
      return 0;
    }

    /** Claims one frame; frame 0 means refusal. */
    method AllocatePage() returns (f: Frame)
      requires 0 in used
      modifies this`used
      ensures f == 0 ==> used == old(used) && NoneFree(used)
      ensures f != 0 ==> f < TOTAL_PAGES && f !in old(used) && used == old(used) + {f}
    {
      f := AllocateRun(1);
      if f == 0 {
        forall g: Frame | g < TOTAL_PAGES
          ensures g in used
        {
          assert !ClearRun(used, g, 1);
        }
      } else {
        assert ClearRun(old(used), f, 1);
        assert Run(f, 1) == {f};
      }
    }

    /** Gives one frame back. Frame 0 stands for "no frame" and is left alone. */
    method FreePage(f: Frame)
      modifies this`used
      ensures used == if f == 0 then old(used) else old(used) - {f}
    {
      if f != 0 {
        used := used - {f};
      }
    }

    /** Counts one more sharer. The machine stops when the byte is full or the frame is unknown. */
    method RetainFrame(f: Frame) returns (running: bool)
      modifies this`shares
      ensures running <==> f < TOTAL_PAGES && old(Shares(f)) != MAX_SHARES
      ensures shares == if running then old(shares)[f := old(Shares(f)) + 1] else old(shares)
    {
      if f >= TOTAL_PAGES || Shares(f) == MAX_SHARES {
        return false;
      }
      shares := shares[f := Shares(f) + 1];
      return true;
    }

    /** Counts one sharer less and reports how many remain; an unshared frame stays at zero. */
    method ReleaseShare(f: Frame) returns (company: nat)
      modifies this`shares
      ensures company == if f >= TOTAL_PAGES || old(Shares(f)) == 0 then 0 else old(Shares(f)) - 1
      ensures shares == if f >= TOTAL_PAGES || old(Shares(f)) == 0 then old(shares) else old(shares)[f := company]
    {
      if f >= TOTAL_PAGES || Shares(f) == 0 {
        return 0;
      }
      shares := shares[f := Shares(f) - 1];
      return Shares(f);
    }

    /** Draws one zeroed page as a new table; frame 0 means refusal. */
    method TakePage() returns (f: Frame)
      requires 0 in used
      modifies this`used, this`tables
      ensures f == 0 ==> used == old(used) && tables == old(tables) && NoneFree(used)
      ensures f != 0 ==> f < TOTAL_PAGES && f !in old(used) && used == old(used) + {f}
      ensures f != 0 ==> tables == old(tables)[f := Zeroed()]
    {
      f := AllocatePage();
      if f != 0 {
        tables := tables[f := Zeroed()];
      }
    }
  }

  /** The trees are a forest, and frame 0 (whose address means refusal) is never handed out. */
  ghost predicate Sound(w: PageTree.Woods) {
    && Forest(w) && Surveyed(w)
    && 0 in w.taken
    && forall f :: f in w.taken ==> f < TOTAL_PAGES
  }

  /** The frames base, base + 1, ..., base + count - 1. */
  function Run(base: Frame, count: nat): (run: set<Frame>)
    ensures forall f: Frame :: f in run <==> base <= f < base + count
  {
    if count == 0 then {} else Run(base, count - 1) + {base + count - 1}
  }

  ghost predicate ClearRun(used: set<Frame>, base: nat, count: nat) {
    forall f :: base <= f < base + count ==> f !in used
  }
}
