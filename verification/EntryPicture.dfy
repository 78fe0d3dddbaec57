/**
 Writes the picture of EntryLayout into a stack page: words climb, texts descend, and the measure
 taken beforehand tells exactly whether they meet.
 */
module EntryPicture {
  import opened Wrappers
  import opened EntryLayout

  /** Memory with `src` copied to `at`. */
  function Spliced(m: seq<Byte>, at: nat, src: seq<Byte>): seq<Byte>
    requires at + |src| <= |m|
  {
    m[..at] + src + m[at + |src|..]
  }

  lemma SplicedBelow(m: seq<Byte>, at: nat, src: seq<Byte>, a: nat, b: nat)
    requires at + |src| <= |m| && a <= b <= at
    ensures |Spliced(m, at, src)| == |m| && Spliced(m, at, src)[a..b] == m[a..b]
  {
    var x, y := Spliced(m, at, src)[a..b], m[a..b];
    assert |x| == |y| && forall i :: 0 <= i < |x| ==> x[i] == y[i];
  }

  lemma SplicedAbove(m: seq<Byte>, at: nat, src: seq<Byte>, a: nat)
    requires at + |src| <= a <= |m|
    ensures |Spliced(m, at, src)| == |m| && Spliced(m, at, src)[a..] == m[a..]
  {
    var x, y := Spliced(m, at, src)[a..], m[a..];
    assert |x| == |y| && forall i :: 0 <= i < |x| ==> x[i] == y[i];
  }

  lemma SplicedAt(m: seq<Byte>, at: nat, src: seq<Byte>)
    requires at + |src| <= |m|
    ensures Spliced(m, at, src)[at..at + |src|] == src
  {
  }

  lemma SplicedNone(m: seq<Byte>, at: nat)
    requires at <= |m|
    ensures Spliced(m, at, []) == m
  {
  }

  lemma SplicedMore(m: seq<Byte>, at: nat, src: seq<Byte>, i: nat)
    requires at + |src| <= |m| && i < |src|
    ensures |Spliced(m, at, src[..i])| == |m|
    ensures Spliced(m, at, src[..i + 1]) == Spliced(m, at, src[..i])[at + i := src[i]]
  {
    var x, y := Spliced(m, at, src[..i + 1]), Spliced(m, at, src[..i])[at + i := src[i]];
    assert |x| == |y| && forall k :: 0 <= k < |x| ==> x[k] == y[k];
  }

  lemma Rejoin(m: seq<Byte>, a: nat, b: nat, c: nat)
    requires a <= b <= c <= |m|
    ensures m[a..c] == m[a..b] + m[b..c]
  {
  }

  lemma PutKeeps(m: seq<Byte>, start: nat, words: seq<nat>, blobs: seq<Text>, w: nat)
    requires Holds(m, start, words, blobs) && start + 8 * |words| + 8 + |Layout(blobs)| <= |m|
    ensures Holds(Spliced(m, start + 8 * |words|, WordBytes(w, 8)), start, words + [w], blobs)
  {
    hide Bytes, Layout, WordBytes, Spliced;
    BytesMore(words, w);
    var at, size, src := start + 8 * |words|, |Layout(blobs)|, WordBytes(w, 8);
    SplicedBelow(m, at, src, start, at);
    SplicedAt(m, at, src);
    SplicedAbove(m, at, src, |m| - size);
    Rejoin(Spliced(m, at, src), start, at, at + 8);
  }

  lemma LandKeeps(m: seq<Byte>, start: nat, words: seq<nat>, blobs: seq<Text>, b: Text)
    requires Holds(m, start, words, blobs) && start + 8 * |words| + |b| + |Layout(blobs)| <= |m|
    ensures Holds(Spliced(m, |m| - |Layout(blobs)| - |b|, b), start, words, blobs + [b])
  {
    hide Bytes, Layout, Spliced;
    LayoutMore(blobs, b);
    var at, size := |m| - |Layout(blobs)| - |b|, |Layout(blobs)|;
    SplicedBelow(m, at, b, start, start + 8 * |words|);
    SplicedAt(m, at, b);
    SplicedAbove(m, at, b, |m| - size);
    var m' := Spliced(m, at, b);
    Rejoin(m', at, |m| - size, |m|);
    assert m'[at..|m|] == m'[at..] && m'[|m| - size..|m|] == m'[|m| - size..];
  }

  /** Outside the words and the texts every byte is as it was found. */
  ghost predicate Around(m: seq<Byte>, found: seq<Byte>, start: nat, wordsAt: nat, stringsAt: nat) {
    && |m| == |found| && start <= wordsAt <= stringsAt <= |m|
    && m[..start] == found[..start] && m[wordsAt..stringsAt] == found[wordsAt..stringsAt]
  }

  lemma Narrower(m: seq<Byte>, found: seq<Byte>, a: nat, b: nat, c: nat, d: nat)
    requires a <= c <= d <= b <= |m| == |found| && m[a..b] == found[a..b]
    ensures m[c..d] == found[c..d]
  {
    SliceOfSlice(m, a, b, c - a, d - a);
    SliceOfSlice(found, a, b, c - a, d - a);
  }

  lemma AroundPut(m: seq<Byte>, found: seq<Byte>, start: nat, wordsAt: nat, stringsAt: nat, src: seq<Byte>)
    requires Around(m, found, start, wordsAt, stringsAt) && wordsAt + |src| <= stringsAt
    ensures Around(Spliced(m, wordsAt, src), found, start, wordsAt + |src|, stringsAt)
  {
    hide Spliced;
    var m', to := Spliced(m, wordsAt, src), wordsAt + |src|;
    SplicedBelow(m, wordsAt, src, 0, start);
    SplicedAbove(m, wordsAt, src, to);
    Narrower(m, found, wordsAt, stringsAt, to, stringsAt);
    assert m'[to..|m|] == m'[to..] && m[to..|m|] == m[to..];
    Narrower(m', m, to, |m|, to, stringsAt);
  }

  lemma AroundLand(m: seq<Byte>, found: seq<Byte>, start: nat, wordsAt: nat, stringsAt: nat, src: seq<Byte>)
    requires Around(m, found, start, wordsAt, stringsAt) && wordsAt + |src| <= stringsAt
    ensures Around(Spliced(m, stringsAt - |src|, src), found, start, wordsAt, stringsAt - |src|)
  {
    hide Spliced;
    SplicedBelow(m, stringsAt - |src|, src, 0, start);
    SplicedBelow(m, stringsAt - |src|, src, wordsAt, stringsAt - |src|);
    Narrower(m, found, wordsAt, stringsAt, wordsAt, stringsAt - |src|);
  }

  class Plane {
    const page: array<Byte>
    const base: nat
    var stringsAt: nat
    var wordsAt: nat
    ghost const start: nat
    /** The words and texts put down so far. */
    ghost var words: seq<nat>
    ghost var blobs: seq<Text>
    /** The bytes the page held before. */
    ghost const found: seq<Byte>

    ghost predicate Valid()
      reads this, page
    {
      && Holds(page[..], start, words, blobs) && base + page.Length <= WORD
      && wordsAt == start + 8 * |words| && stringsAt == page.Length - |Layout(blobs)|
      && Around(page[..], found, start, wordsAt, stringsAt)
    }

    constructor (page: array<Byte>, base: nat, start: nat)
      requires start <= page.Length && base + page.Length <= WORD
      ensures Valid() && this.page == page && this.base == base && this.start == start && words == [] && blobs == []
      ensures found == old(page[..])
    {
      this.page, this.base, this.start, this.found := page, base, start, page[..];
      stringsAt, wordsAt := page.Length, start;
      words, blobs := [], [];
    }

    method CopyBytes(at: nat, src: seq<Byte>)
      requires at + |src| <= page.Length
      modifies page
      ensures page[..] == Spliced(old(page[..]), at, src)
    {
      hide Spliced;
      ghost var m := page[..];
      SplicedNone(m, at);
      var i := 0;
      assert src[..i] == [];
      while i < |src|
        invariant 0 <= i <= |src|
        invariant page[..] == Spliced(m, at, src[..i])
      {
        SplicedMore(m, at, src, i);
        page[at + i] := src[i];
        i := i + 1;
      }
      assert src[..i] == src;
    }

    method PutWord(w: nat)
      requires Valid() && wordsAt + 8 <= stringsAt
      modifies this, page
      ensures Valid() && words == old(words) + [w] && blobs == old(blobs)
    {
      hide Layout, Bytes, Spliced, Around;
      PutKeeps(page[..], start, words, blobs, w);
      AroundPut(page[..], found, start, wordsAt, stringsAt, WordBytes(w, 8));
      CopyBytes(wordsAt, WordBytes(w, 8));
      wordsAt := wordsAt + 8;
      words := words + [w];
    }

    /** Puts a text below the others. */
    method Land(b: Text)
      requires Valid() && |b| <= stringsAt - wordsAt
      modifies this, page
      ensures Valid() && words == old(words) && blobs == old(blobs) + [b]
    {
      hide Bytes, Layout, Spliced, Around;
      LandKeeps(page[..], start, words, blobs, b);
      AroundLand(page[..], found, start, wordsAt, stringsAt, b);
      LayoutMore(blobs, b);
      stringsAt := stringsAt - |b|;
      CopyBytes(stringsAt, b);
      blobs := blobs + [b];
    }

    method PutPair(kind: nat, value: nat) returns (ok: bool)
      requires Valid()
      modifies this, page
      ensures Valid() && (ok <==> old(wordsAt) + 16 <= old(stringsAt))
      ensures words == (if ok then old(words) + [kind, value] else old(words)) && blobs == old(blobs)
    {
      if wordsAt + 16 > stringsAt {
        return false;
      }
      PutWord(kind);
      PutWord(value);
      ok := true;
    }

    /** Puts a text down and its address among the words, keeping room for one more pair. */
    method PutString(t: Text) returns (ok: bool)
      requires Valid()
      modifies this, page
      ensures Valid() && (ok <==> |t| + 1 + 8 + 16 <= old(stringsAt) - old(wordsAt))
      ensures blobs == if ok then old(blobs) + [CString(t)] else old(blobs)
      ensures words == if ok then old(words) + [base + stringsAt] else old(words)
    {
      if |t| + 1 + 8 + 16 > stringsAt - wordsAt {
        return false;
      }
      Land(CString(t));
      PutWord(base + stringsAt);
      ok := true;
    }

    /** Puts a text down; the answer is its address, or 0 for want of room. */
    method LandString(t: Text) returns (landed: nat)
      requires Valid()
      modifies this, page
      ensures Valid() && words == old(words)
      ensures if |t| + 1 + 16 <= old(stringsAt) - old(wordsAt)
              then blobs == old(blobs) + [CString(t)] && landed == base + stringsAt > 0
              else blobs == old(blobs) && landed == 0
    {
      if |t| + 1 + 16 > stringsAt - wordsAt {
        return 0;
      }
      Land(CString(t));
      landed := base + stringsAt;
    }

    method LandRandomness(facts: Facts) returns (landed: nat)
      requires Valid() && stringsAt - wordsAt >= 16
      modifies this, page
      ensures Valid() && words == old(words)
      ensures if RandomBlobs(facts) != [] && |facts.randomness.value| <= old(stringsAt) - old(wordsAt) - 16
              then blobs == old(blobs) + RandomBlobs(facts) && landed == base + stringsAt > 0
              else blobs == old(blobs) && landed == 0
    {
      if facts.randomness.None? || |facts.randomness.value| == 0
        || |facts.randomness.value| > (stringsAt - wordsAt - 16) % WORD {
        return 0;
      }
      Land(facts.randomness.value);
      landed := base + stringsAt;
    }

    // ---------------------------------------------------------------- how far the picture has come

    /** The first `k` words and the first `m` texts of the picture are down, and the rest has room. */
    ghost predicate Progress(runs: Runs, facts: Facts, k: nat, m: nat)
      reads this, page
    {
      var w, b := Words(runs, facts, base + page.Length), Blobs(runs, facts);
      && Valid() && k <= |w| && m <= |b| && words == w[..k] && blobs == b[..m]
      && start + PictureBytes(runs, facts) <= page.Length
    }

    /** What is still to come fits between the words and the texts. */
    lemma Room(runs: Runs, facts: Facts, k: nat, m: nat)
      requires Progress(runs, facts, k, m)
      ensures var w, b := Words(runs, facts, base + page.Length), Blobs(runs, facts);
              && stringsAt - wordsAt >= 8 * (|w| - k)
              && (m < |b| ==> stringsAt - wordsAt >= 8 * (|w| - k) + |b[m]|)
    {
      hide Words, Blobs, Layout, Holds, Around, Bytes;
      var b := Blobs(runs, facts);
      WordsLength(runs, facts, base + page.Length);
      assert b == b[..m] + b[m..];
      LayoutSize(b[..m], b[m..]);
      if m < |b| {
        BlobInLayout(b, m);
      }
    }

    /** A text put down next lands where the picture wants it. */
    lemma Landed(runs: Runs, facts: Facts, m: nat)
      requires Valid() && m < |Blobs(runs, facts)| && blobs == Blobs(runs, facts)[..m + 1]
      ensures base + stringsAt == Address(base + page.Length, Blobs(runs, facts), m)
    {
    }

    lemma Complete(runs: Runs, facts: Facts)
      requires Progress(runs, facts, |Words(runs, facts, base + page.Length)|, |Blobs(runs, facts)|)
      ensures Holds(page[..], start, Words(runs, facts, base + page.Length), Blobs(runs, facts))
      ensures Around(page[..], found, start, start + 8 * |Words(runs, facts, base + page.Length)|,
                     page.Length - |Layout(Blobs(runs, facts))|)
    {
      hide Words, Blobs, Holds, Around;
      var w, b := Words(runs, facts, base + page.Length), Blobs(runs, facts);
      assert w[..|w|] == w && b[..|b|] == b;
    }

    lemma Started(runs: Runs, facts: Facts)
      requires Valid() && words == [] && blobs == [] && start + PictureBytes(runs, facts) <= page.Length
      ensures Progress(runs, facts, 0, 0)
    {
      hide Words, Blobs, Holds, PictureBytes;
      assert Words(runs, facts, base + page.Length)[..0] == [] && Blobs(runs, facts)[..0] == [];
    }

    /** The next word of the picture. */
    method PutNextWord(w: nat, ghost runs: Runs, ghost facts: Facts, ghost k: nat, ghost m: nat)
      requires Progress(runs, facts, k, m) && k < |Words(runs, facts, base + page.Length)|
      requires Words(runs, facts, base + page.Length)[k] == w
      modifies this, page
      ensures Progress(runs, facts, k + 1, m)
    {
      hide Words, Blobs, Layout, Holds, PictureBytes;
      Room(runs, facts, k, m);
      ghost var all := Words(runs, facts, base + page.Length);
      assert all[..k + 1] == all[..k] + [all[k]];
      PutWord(w);
    }

    /** The next text of the picture, and the word that points to it. */
    method PutNextString(t: Text, ghost runs: Runs, ghost facts: Facts, ghost k: nat, ghost m: nat) returns (ok: bool)
      requires Progress(runs, facts, k, m) && k + 3 <= |Words(runs, facts, base + page.Length)|
      requires m < |Blobs(runs, facts)|
      requires Blobs(runs, facts)[m] == CString(t)
      requires Words(runs, facts, base + page.Length)[k] == Address(base + page.Length, Blobs(runs, facts), m)
      modifies this, page
      ensures ok && Progress(runs, facts, k + 1, m + 1)
      ensures base + stringsAt == Address(base + page.Length, Blobs(runs, facts), m)
    {
      hide Words, Blobs, Layout, Holds, PictureBytes, Address;
      Room(runs, facts, k, m);
      ghost var w, b := Words(runs, facts, base + page.Length), Blobs(runs, facts);
      assert w[..k + 1] == w[..k] + [w[k]] && b[..m + 1] == b[..m] + [b[m]];
      ok := PutString(t);
      Landed(runs, facts, m);
    }

    /** The texts of one vector, each with the word that points to it. */
    method PutVector(ts: seq<Text>, ghost runs: Runs, ghost facts: Facts, ghost k: nat, ghost m: nat)
      returns (ok: bool, first: nat)
      requires Progress(runs, facts, k, m) && |ts| + k + 3 <= |Words(runs, facts, base + page.Length)|
      requires Vector(Words(runs, facts, base + page.Length), k, base + page.Length, Blobs(runs, facts), m, ts)
      modifies this, page
      ensures ok && Progress(runs, facts, k + |ts|, m + |ts|)
      ensures first == if ts == [] then 0 else Address(base + page.Length, Blobs(runs, facts), m)
    {
      hide Words, Blobs, Address, Progress;
      first, ok := 0, true;
      ghost var w, b := Words(runs, facts, base + page.Length), Blobs(runs, facts);
      var i := 0;
      while i < |ts|
        invariant 0 <= i <= |ts| && ok && Progress(runs, facts, k + i, m + i)
        invariant first == if i == 0 then 0 else Address(base + page.Length, b, m)
      {
        assert Points(w, k, base + page.Length, b, m, ts, i);
        ok := PutNextString(ts[i], runs, facts, k + i, m + i);
        if i == 0 {
          first := base + stringsAt;
        }
        i := i + 1;
      }
    }

    /** The random bytes, the first blob to land. */
    method LandRandomFirst(facts: Facts, ghost runs: Runs) returns (landed: nat)
      requires Progress(runs, facts, 0, 0)
      modifies this, page
      ensures Progress(runs, facts, 0, |RandomBlobs(facts)|)
      ensures RandomPair(runs, facts, base + page.Length) == if landed == 0 then [] else [(25, landed)]
    {
      hide Words, Blobs, Layout, Holds, PictureBytes, Address;
      ghost var b := Blobs(runs, facts);
      BlobsAt(runs, facts);
      Room(runs, facts, 0, 0);
      WordsLength(runs, facts, base + page.Length);
      landed := LandRandomness(facts);
      if RandomBlobs(facts) != [] {
        assert b[..1] == b[..0] + [b[0]];
        Landed(runs, facts, 0);
      } else {
        assert b[..0] == [];
      }
    }

    /** The executable's name; without one the first argument stands for it. */
    method LandExecutable(facts: Facts, first: nat, ghost runs: Runs) returns (landed: nat)
      requires Progress(runs, facts, Before(runs), |RandomBlobs(facts)| + |runs.arguments| + |runs.environment|)
      requires first == if runs.arguments == [] then 0
                 else Address(base + page.Length, Blobs(runs, facts), |RandomBlobs(facts)|)
      modifies this, page
      ensures Progress(runs, facts, Before(runs), |Blobs(runs, facts)| - |TextBlobs(facts.platform)|)
      ensures NamePair(runs, facts, base + page.Length) == if landed == 0 then [] else [(31, landed)]
    {
      hide Words, Blobs, Layout, Holds, PictureBytes, Address;
      ghost var b, m := Blobs(runs, facts), |RandomBlobs(facts)| + |runs.arguments| + |runs.environment|;
      BlobsAt(runs, facts);
      if facts.executable.None? {
        landed := first;
        if runs.arguments != [] {
          assert b[|RandomBlobs(facts)| + 0] == CString(runs.arguments[0]);
          AddressPositive(runs, facts, Before(runs), m, |RandomBlobs(facts)|);
        }
      } else {
        Room(runs, facts, Before(runs), m);
        WordsLength(runs, facts, base + page.Length);
        landed := LandString(facts.executable.value);
        assert b[..m + 1] == b[..m] + [b[m]];
        Landed(runs, facts, m);
      }
    }

    lemma AddressPositive(runs: Runs, facts: Facts, k: nat, m: nat, i: nat)
      requires Progress(runs, facts, k, m) && i < |Blobs(runs, facts)| && k > 0
      ensures Address(base + page.Length, Blobs(runs, facts), i) > 0
    {
      hide Words, Blobs, Layout, Holds;
      var b := Blobs(runs, facts);
      BlobInLayout(b, i);
      WordsLength(runs, facts, base + page.Length);
    }

    /** One auxiliary pair, the `j`th of the picture. */
    method PutNextPair(kind: nat, value: nat, ghost runs: Runs, ghost facts: Facts, ghost j: nat, ghost m: nat)
      returns (ok: bool)
      requires Progress(runs, facts, Before(runs) + 2 * j, m) && j < |Pairs(runs, facts, base + page.Length)|
      requires Pairs(runs, facts, base + page.Length)[j] == (kind, value)
      modifies this, page
      ensures ok && Progress(runs, facts, Before(runs) + 2 * (j + 1), m)
    {
      hide Words, Blobs, Layout, Holds, Address, PictureBytes, Pairs;
      Room(runs, facts, Before(runs) + 2 * j, m);
      WordsLength(runs, facts, base + page.Length);
      NextPair(runs, facts, base + page.Length, j);
      ok := PutPair(kind, value);
    }

    /** The pairs every picture has. */
    method PutFixed(facts: Facts, ghost runs: Runs, ghost m: nat) returns (ok: bool)
      requires Progress(runs, facts, Before(runs), m)
      modifies this, page
      ensures ok && Progress(runs, facts, Before(runs) + 2 * 12, m)
    {
      hide Progress, Pairs, FixedPairs, PlatformPair, RandomPair, NamePair;
      PairsLaid(runs, facts, base + page.Length);
      var fixed := FixedPairs(facts);
      ok := true;
      for j := 0 to |fixed|
        invariant ok && Progress(runs, facts, Before(runs) + 2 * j, m)
      {
        ok := PutNextPair(fixed[j].0, fixed[j].1, runs, facts, j, m);
      }
    }

    /** The platform's name, the last text to land, and its pair. */
    method PutPlatform(facts: Facts, ghost runs: Runs) returns (ok: bool)
      requires Progress(runs, facts, Before(runs) + 2 * 12, |Blobs(runs, facts)| - |TextBlobs(facts.platform)|)
      modifies this, page
      ensures ok
      ensures Progress(runs, facts, Before(runs) + 2 * (12 + |PlatformPair(runs, facts, base + page.Length)|),
                |Blobs(runs, facts)|)
    {
      hide Words, Blobs, Layout, Holds, Address, PictureBytes, RandomPair, NamePair, FixedPairs, Pairs;
      BlobsAt(runs, facts);
      ghost var top, b := base + page.Length, Blobs(runs, facts);
      if facts.platform.Some? {
        ghost var m := |b| - 1;
        PairsLaid(runs, facts, top);
        Room(runs, facts, Before(runs) + 2 * 12, m);
        WordsLength(runs, facts, top);
        var platformLanded := LandString(facts.platform.value);
        assert b[..m + 1] == b[..m] + [b[m]];
        Landed(runs, facts, m);
        assert PlatformPair(runs, facts, top)[0] == (15, platformLanded);
        ok := PutNextPair(15, platformLanded, runs, facts, 12, m + 1);
      }
      ok := true;
    }

    /** The auxiliary pairs. */
    method PutFacts(facts: Facts, firstRunLanded: nat, randomLanded: nat, ghost runs: Runs) returns (ok: bool)
      requires Progress(runs, facts, Before(runs), |Blobs(runs, facts)| - |TextBlobs(facts.platform)|)
      requires RandomPair(runs, facts, base + page.Length) == if randomLanded == 0 then [] else [(25, randomLanded)]
      requires NamePair(runs, facts, base + page.Length) == if firstRunLanded == 0 then [] else [(31, firstRunLanded)]
      modifies this, page
      ensures ok
      ensures Progress(runs, facts, Before(runs) + 2 * |Pairs(runs, facts, base + page.Length)|, |Blobs(runs, facts)|)
    {
      hide Progress, Pairs, FixedPairs, PlatformPair, RandomPair, NamePair, Blobs, TextBlobs, Before;
      BlobsAt(runs, facts);
      ghost var top, b := base + page.Length, Blobs(runs, facts);
      PairsLaid(runs, facts, top);
      ok := PutFixed(facts, runs, |b| - |TextBlobs(facts.platform)|);
      ok := PutPlatform(facts, runs);
      ghost var p := 12 + |PlatformPair(runs, facts, top)|;
      if randomLanded != 0 {
        assert RandomPair(runs, facts, top)[0] == (25, randomLanded);
        ok := PutNextPair(25, randomLanded, runs, facts, p, |b|);
      }
      if firstRunLanded != 0 {
        assert NamePair(runs, facts, top)[0] == (31, firstRunLanded);
        ok := PutNextPair(31, firstRunLanded, runs, facts, |Pairs(runs, facts, top)| - 1, |b|);
      }
    }
  }

  /** The number of words before the auxiliary pairs. */
  ghost function Before(runs: Runs): nat {
    3 + |runs.arguments| + |runs.environment|
  }

  lemma NextPair(runs: Runs, facts: Facts, top: nat, j: nat)
    requires j < |Pairs(runs, facts, top)|
    ensures var w, k := Words(runs, facts, top), Before(runs) + 2 * j;
            k + 4 <= |w| && w[..k + 2] == w[..k] + [Pairs(runs, facts, top)[j].0, Pairs(runs, facts, top)[j].1]
  {
    hide Words, Pairs, PairWords;
    var w, pairs, from := Words(runs, facts, top), Pairs(runs, facts, top), Before(runs);
    PairsPart(runs, facts, top);
    PairWordsAt(pairs, j);
    var part := w[from..from + 2 * |pairs|];
    assert w[from + 2 * j] == part[2 * j] && w[from + 2 * j + 1] == part[2 * j + 1];
  }

  lemma PairsLaid(runs: Runs, facts: Facts, top: nat)
    ensures var pairs, p := Pairs(runs, facts, top), |PlatformPair(runs, facts, top)|;
            var r, n := |RandomPair(runs, facts, top)|, |NamePair(runs, facts, top)|;
            && |FixedPairs(facts)| == 12 && |pairs| == 12 + p + r + n
            && (forall j :: 0 <= j < 12 ==> pairs[j] == FixedPairs(facts)[j])
            && (forall j :: 0 <= j < p ==> pairs[12 + j] == PlatformPair(runs, facts, top)[j])
            && (forall j :: 0 <= j < r ==> pairs[12 + p + j] == RandomPair(runs, facts, top)[j])
            && (forall j :: 0 <= j < n ==> pairs[12 + p + r + j] == NamePair(runs, facts, top)[j])
  {
    hide PlatformPair, RandomPair, NamePair;
  }

  /** The measure: how many bytes the picture takes. */
  method EntryPictureBytes(runs: Runs, facts: Facts) returns (n: nat)
    ensures n == PictureBytes(runs, facts)
  {
    hide Layout, CStrings, Blobs, Words, Pairs, Address;
    var count, strings := 0, 0;
    var i := 0;
    Nothing();
    assert runs.arguments[..0] == [] && runs.environment[..0] == [];
    while i < |runs.arguments|
      invariant 0 <= i <= |runs.arguments| && count == i && strings == |Layout(CStrings(runs.arguments[..i]))|
    {
      MoreText(runs.arguments, i);
      count := count + 1;
      strings := strings + |runs.arguments[i]| + 1;
      i := i + 1;
    }
    i := 0;
    assert runs.arguments[..|runs.arguments|] == runs.arguments;
    while i < |runs.environment|
      invariant 0 <= i <= |runs.environment| && count == |runs.arguments| + i
      invariant strings == |Layout(CStrings(runs.arguments))| + |Layout(CStrings(runs.environment[..i]))|
    {
      MoreText(runs.environment, i);
      count := count + 1;
      strings := strings + |runs.environment[i]| + 1;
      i := i + 1;
    }
    assert runs.environment[..|runs.environment|] == runs.environment;
    var pairs := |FixedPairs(facts)| + 1;
    if facts.platform.Some? {
      pairs := pairs + 1;
      strings := strings + |facts.platform.value| + 1;
    }
    if facts.randomness.Some? && |facts.randomness.value| != 0 {
      pairs := pairs + 1;
      strings := strings + |facts.randomness.value|;
    }
    if facts.executable.Some? {
      strings := strings + |facts.executable.value| + 1;
    }
    if facts.executable.Some? || runs.arguments != [] {
      pairs := pairs + 1;
    }
    BlobsSize(runs, facts);
    WordsLength(runs, facts, 0);
    PairsLaid(runs, facts, 0);
    n := strings + (count + 3 + pairs * 2) * 8;
  }

  lemma Nothing()
    ensures |Layout(CStrings([]))| == 0
  {
    assert CStrings([]) == [];
  }

  lemma MoreText(ts: seq<Text>, i: nat)
    requires i < |ts|
    ensures |Layout(CStrings(ts[..i + 1]))| == |Layout(CStrings(ts[..i]))| + |ts[i]| + 1
  {
    assert CStrings(ts[..i + 1]) == CStrings(ts[..i]) + [CString(ts[i])];
    LayoutMore(CStrings(ts[..i]), CString(ts[i]));
  }

  lemma OneBlob(b: Text)
    ensures |Layout([b])| == |b|
  {
    LayoutMore([], b);
    assert [] + [b] == [b];
  }

  lemma BlobsSize(runs: Runs, facts: Facts)
    ensures |Layout(Blobs(runs, facts))| == |Layout(CStrings(runs.arguments))| + |Layout(CStrings(runs.environment))|
            + (if RandomBlobs(facts) != [] then |facts.randomness.value| else 0)
            + (if facts.executable.Some? then |facts.executable.value| + 1 else 0)
            + (if facts.platform.Some? then |facts.platform.value| + 1 else 0)
  {
    hide CStrings;
    var r, a, e := RandomBlobs(facts), CStrings(runs.arguments), CStrings(runs.environment);
    var x, p := TextBlobs(facts.executable), TextBlobs(facts.platform);
    LayoutSize(r + a + e + x, p);
    LayoutSize(r + a + e, x);
    LayoutSize(r + a, e);
    LayoutSize(r, a);
    if r != [] {
      OneBlob(r[0]);
    }
    if x != [] {
      OneBlob(x[0]);
    }
    if p != [] {
      OneBlob(p[0]);
    }
  }

  lemma WordsLength(runs: Runs, facts: Facts, top: nat)
    ensures |Words(runs, facts, top)| == |Words(runs, facts, 0)|
    ensures |Words(runs, facts, top)| == 5 + |runs.arguments| + |runs.environment| + 2 * |Pairs(runs, facts, top)|
  {
    hide Blobs, Address;
  }

  lemma HoldsFits(m: seq<Byte>, start: nat, words: seq<nat>, blobs: seq<Text>)
    requires Holds(m, start, words, blobs)
    ensures start + 8 * |words| <= |m|
  {
  }

  ghost predicate Fits(capacity: nat, base: nat, rsp: nat, runs: Runs, facts: Facts) {
    base <= rsp && rsp - base <= capacity && PictureBytes(runs, facts) <= capacity - (rsp - base)
  }

  /** Lays the picture down if, by the measure, it fits; a picture that fits never fails half-way. */
  method WriteEntryPicture(page: array<Byte>, base: nat, rsp: nat, runs: Runs, facts: Facts) returns (r: nat)
    requires Sane(runs, facts) && base + page.Length <= WORD
    modifies page
    ensures if Fits(page.Length, base, rsp, runs, facts)
            then var words, blobs := Words(runs, facts, base + page.Length), Blobs(runs, facts);
                 && r == rsp && Holds(page[..], rsp - base, words, blobs)
                 && Around(page[..], old(page[..]), rsp - base, rsp - base + 8 * |words|, page.Length - |Layout(blobs)|)
            else r == 0 && page[..] == old(page[..])
    ensures Fits(page.Length, base, rsp, runs, facts) ==>
              rsp - base + 8 <= page.Length &&
              ReadPicture(page[..], base, rsp - base)
              == Seen(|runs.arguments|, runs.arguments, runs.environment, Pairs(runs, facts, base + page.Length))
    ensures Fits(page.Length, base, rsp, runs, facts) ==>
              && rsp - base + 8 <= page.Length
              && TellsFacts(ReadPicture(page[..], base, rsp - base).pairs, facts)
              && PointsRight(page[..], base, ReadPicture(page[..], base, rsp - base).pairs, runs, facts)
  {
    hide Words, Blobs, Layout, Holds, PictureBytes, ReadPicture, Pairs, RandomPair, NamePair, Vector, Sane, TellsFacts,
      PointsRight;
    var bytes := EntryPictureBytes(runs, facts);
    if rsp < base || rsp - base > page.Length || bytes > page.Length - (rsp - base) {
      return 0;
    }
    var plane := new Plane(page, base, rsp - base);
    plane.Started(runs, facts);
    FillPlane(plane, runs, facts);
    WordsLength(runs, facts, base + page.Length);
    HoldsFits(page[..], rsp - base, Words(runs, facts, base + page.Length), Blobs(runs, facts));
    PictureIsReadable(page[..], base, rsp - base, runs, facts);
    PairsPointRight(page[..], base, rsp - base, runs, facts);
    r := rsp;
  }

  /** Puts the whole picture down. */
  method FillPlane(plane: Plane, runs: Runs, facts: Facts)
    requires Sane(runs, facts) && plane.Progress(runs, facts, 0, 0)
    modifies plane, plane.page
    ensures Holds(plane.page[..], plane.start, Words(runs, facts, plane.base + plane.page.Length), Blobs(runs, facts))
    ensures Around(plane.page[..], plane.found, plane.start,
                   plane.start + 8 * |Words(runs, facts, plane.base + plane.page.Length)|,
                   plane.page.Length - |Layout(Blobs(runs, facts))|)
  {
    hide Words, Blobs, Pairs, Address, Sane, RandomPair, NamePair, Plane.Progress;
    ghost var top := plane.base + plane.page.Length;
    ghost var r, argc, envc, p := |RandomBlobs(facts)|, |runs.arguments|, |runs.environment|, |Pairs(runs, facts, top)|;
    WordsLength(runs, facts, top);
    BlobsAt(runs, facts);
    ArgumentWords(runs, facts, top);
    PairsPart(runs, facts, top);
    var randomLanded := plane.LandRandomFirst(facts, runs);
    plane.PutNextWord(|runs.arguments|, runs, facts, 0, r);
    var ok, firstRunLanded := plane.PutVector(runs.arguments, runs, facts, 1, r);
    plane.PutNextWord(0, runs, facts, 1 + argc, r + argc);
    var firstVariable: nat;
    ok, firstVariable := plane.PutVector(runs.environment, runs, facts, 2 + argc, r + argc);
    plane.PutNextWord(0, runs, facts, 2 + argc + envc, r + argc + envc);
    firstRunLanded := plane.LandExecutable(facts, firstRunLanded, runs);
    ok := plane.PutFacts(facts, firstRunLanded, randomLanded, runs);
    plane.PutNextWord(0, runs, facts, Before(runs) + 2 * p, |Blobs(runs, facts)|);
    plane.PutNextWord(0, runs, facts, Before(runs) + 2 * p + 1, |Blobs(runs, facts)|);
    plane.Complete(runs, facts);
  }
}
