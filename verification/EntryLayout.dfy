/**
 The picture a program finds on its stack at entry: machine words climbing from the stack pointer
 (argument count, argument and environment pointers, auxiliary pairs) and the texts they point to
 descending from the top. A reader that starts at the stack pointer recovers everything.
 */
module EntryLayout {
  import opened Wrappers

  type Text = seq<Byte>

  datatype Runs = Runs(arguments: seq<Text>, environment: seq<Text>)

  datatype Facts = Facts(programEntry: nat, programHeaders: nat, headerEntryBytes: nat, headerCount: nat,
                         interpreterBase: nat, pageBytes: nat, hwcap: nat,
                         platform: Option<Text>, executable: Option<Text>, randomness: Option<Text>)

  // ------------------------------------------------------------------ words and texts as bytes

  function Power(n: nat): nat {
    if n == 0 then 1 else 256 * Power(n - 1)
  }

  /** A word as `n` bytes, lowest first. */
  function WordBytes(w: nat, n: nat): (bytes: seq<Byte>)
    ensures |bytes| == n
  {
    if n == 0 then [] else [w % 256] + WordBytes(w / 256, n - 1)
  }

  function Decode(bytes: seq<Byte>): nat {
    if bytes == [] then 0 else bytes[0] + 256 * Decode(bytes[1..])
  }

  lemma {:induction false} DecodeWord(w: nat, n: nat)
    requires w < Power(n)
    ensures Decode(WordBytes(w, n)) == w
  {
    if n == 0 {
    } else {
      DecodeWord(w / 256, n - 1);
      assert WordBytes(w, n)[1..] == WordBytes(w / 256, n - 1);
    }
  }

  lemma EightBytes()
    ensures Power(8) == WORD
  {
    assert Power(2) == 0x1_0000;
    assert Power(4) == 0x1_0000_0000;
    assert Power(6) == 0x1_0000_0000_0000;
  }

  lemma WordDecodes(w: nat)
    requires w < WORD
    ensures Decode(WordBytes(w, 8)) == w
  {
    hide Decode, WordBytes, Power;
    EightBytes();
    DecodeWord(w, 8);
  }

  /** Words one after the other. */
  function Bytes(words: seq<nat>): (bytes: seq<Byte>)
    ensures |bytes| == 8 * |words|
  {
    if words == [] then [] else Bytes(words[..|words| - 1]) + WordBytes(words[|words| - 1], 8)
  }

  /** Blobs stacked downwards: the last one lowest. */
  function Layout(blobs: seq<Text>): Text {
    if blobs == [] then [] else blobs[|blobs| - 1] + Layout(blobs[..|blobs| - 1])
  }

  lemma BytesMore(words: seq<nat>, w: nat)
    ensures Bytes(words + [w]) == Bytes(words) + WordBytes(w, 8)
  {
    assert (words + [w])[..|words|] == words;
  }

  lemma LayoutMore(blobs: seq<Text>, b: Text)
    ensures Layout(blobs + [b]) == b + Layout(blobs)
  {
    assert (blobs + [b])[..|blobs|] == blobs;
  }

  lemma {:induction false} LayoutSize(xs: seq<Text>, ys: seq<Text>)
    ensures |Layout(xs + ys)| == |Layout(xs)| + |Layout(ys)|
  {
    if ys == [] {
      assert xs + ys == xs;
    } else {
      var front, last := ys[..|ys| - 1], ys[|ys| - 1];
      LayoutSize(xs, front);
      assert xs + ys == (xs + front) + [last];
      LayoutMore(xs + front, last);
    }
  }

  // ------------------------------------------------------------------ what goes into the picture

  function CString(t: Text): Text {
    t + [0]
  }

  function CStrings(ts: seq<Text>): (r: seq<Text>)
    ensures |r| == |ts|
  {
    seq(|ts|, i requires 0 <= i < |ts| => CString(ts[i]))
  }

  function RandomBlobs(facts: Facts): (r: seq<Text>)
    ensures |r| <= 1
  {
    if facts.randomness.Some? && facts.randomness.value != [] then [facts.randomness.value] else []
  }

  function TextBlobs(t: Option<Text>): (r: seq<Text>)
    ensures |r| <= 1
  {
    if t.Some? then [CString(t.value)] else []
  }

  /** All texts, in the order they are put down. */
  function Blobs(runs: Runs, facts: Facts): seq<Text> {
    RandomBlobs(facts) + CStrings(runs.arguments) + CStrings(runs.environment) + TextBlobs(facts.executable)
      + TextBlobs(facts.platform)
  }

  /** Where blob `k` lands below `top`. */
  function Address(top: nat, blobs: seq<Text>, k: nat): nat
    requires k < |blobs|
  {
    var depth := |Layout(blobs[..k + 1])|;
    if depth <= top then top - depth else 0
  }

  function Addresses(top: nat, blobs: seq<Text>, from: nat, n: nat): (r: seq<nat>)
    requires from + n <= |blobs|
    ensures |r| == n
  {
    seq<nat>(n, i requires 0 <= i < n => Address(top, blobs, from + i))
  }

  function FixedPairs(facts: Facts): seq<(nat, nat)> {
    [(3, facts.programHeaders), (4, facts.headerEntryBytes), (5, facts.headerCount), (6, facts.pageBytes),
     (7, facts.interpreterBase), (9, facts.programEntry), (11, 0), (12, 0), (13, 0), (14, 0), (23, 0),
       (16, facts.hwcap)]
  }

  function PlatformPair(runs: Runs, facts: Facts, top: nat): seq<(nat, nat)> {
    if facts.platform.Some? then [(15, Address(top, Blobs(runs, facts), |Blobs(runs, facts)| - 1))] else []
  }

  function RandomPair(runs: Runs, facts: Facts, top: nat): seq<(nat, nat)> {
    if RandomBlobs(facts) != [] then [(25, Address(top, Blobs(runs, facts), 0))] else []
  }

  /** The name the program was started by: the executable's, else the first argument. */
  function NamePair(runs: Runs, facts: Facts, top: nat): seq<(nat, nat)> {
    var r := |RandomBlobs(facts)|;
    if facts.executable.Some? then [(31, Address(top, Blobs(runs, facts), r + |runs.arguments| + |runs.environment|))]
    else if runs.arguments != [] then [(31, Address(top, Blobs(runs, facts), r))] else []
  }

  function Pairs(runs: Runs, facts: Facts, top: nat): seq<(nat, nat)> {
    FixedPairs(facts) + PlatformPair(runs, facts, top) + RandomPair(runs, facts, top) + NamePair(runs, facts, top)
  }

  function PairWords(pairs: seq<(nat, nat)>): (r: seq<nat>)
    ensures |r| == 2 * |pairs|
  {
    if pairs == [] then [] else PairWords(pairs[..|pairs| - 1]) + [pairs[|pairs| - 1].0, pairs[|pairs| - 1].1]
  }

  /** All words, from the stack pointer up. */
  function Words(runs: Runs, facts: Facts, top: nat): seq<nat> {
    var blobs, r, argc, envc := Blobs(runs, facts), |RandomBlobs(facts)|, |runs.arguments|, |runs.environment|;
    [argc] + Addresses(top, blobs, r, argc) + [0] + Addresses(top, blobs, r + argc, envc) + [0]
    + PairWords(Pairs(runs, facts, top)) + [0, 0]
  }

  function PictureBytes(runs: Runs, facts: Facts): nat {
    |Layout(Blobs(runs, facts))| + 8 * |Words(runs, facts, 0)|
  }

  // ------------------------------------------------------------------ the reader

  function ReadWord(mem: seq<Byte>, at: nat): nat
    requires at + 8 <= |mem|
  {
    Decode(mem[at..at + 8])
  }

  function ReadText(mem: seq<Byte>, at: nat): Text
    decreases |mem| - at
  {
    if at >= |mem| || mem[at] == 0 then [] else [mem[at]] + ReadText(mem, at + 1)
  }

  /** Follows pointers up to a null word. `base` is the address of the first byte of memory. */
  function ReadTexts(mem: seq<Byte>, base: nat, at: nat): seq<Text>
    decreases |mem| - at
  {
    if at + 8 > |mem| || ReadWord(mem, at) == 0 || ReadWord(mem, at) < base then []
    else [ReadText(mem, ReadWord(mem, at) - base)] + ReadTexts(mem, base, at + 8)
  }

  function ReadPairs(mem: seq<Byte>, at: nat): seq<(nat, nat)>
    decreases |mem| - at
  {
    if at + 16 > |mem| || ReadWord(mem, at) == 0 then []
    else [(ReadWord(mem, at), ReadWord(mem, at + 8))] + ReadPairs(mem, at + 16)
  }

  datatype Seen = Seen(argc: nat, arguments: seq<Text>, environment: seq<Text>, pairs: seq<(nat, nat)>)

  /** What a program reads from its stack pointer on. */
  function ReadPicture(mem: seq<Byte>, base: nat, at: nat): Seen
    requires at + 8 <= |mem|
  {
    var argc := ReadWord(mem, at);
    var arguments := ReadTexts(mem, base, at + 8);
    var environment := ReadTexts(mem, base, at + 8 * (2 + |arguments|));
    Seen(argc, arguments, environment, ReadPairs(mem, at + 8 * (3 + |arguments| + |environment|)))
  }

  // ------------------------------------------------------------------ reading what was written

  ghost predicate NoNul(t: Text) {
    forall i :: 0 <= i < |t| ==> t[i] != 0
  }

  lemma {:induction false} WordInBytes(words: seq<nat>, j: nat)
    requires j < |words|
    ensures Bytes(words)[8 * j..8 * j + 8] == WordBytes(words[j], 8)
  {
    var n := |words| - 1;
    var front := words[..n];
    if j >= n {
    } else {
      WordInBytes(front, j);
      assert Bytes(words)[8 * j..8 * j + 8] == Bytes(front)[8 * j..8 * j + 8];
    }
  }

  lemma WordRead(mem: seq<Byte>, start: nat, words: seq<nat>, j: nat)
    requires start + 8 * |words| <= |mem| && mem[start..start + 8 * |words|] == Bytes(words)
    requires j < |words| && words[j] < WORD
    ensures ReadWord(mem, start + 8 * j) == words[j]
  {
    hide Bytes, WordBytes, Decode, Power;
    var n, k := 8 * |words|, 8 * j;
    WordInBytes(words, j);
    SliceOfSlice(mem, start, start + n, k, k + 8);
    WordDecodes(words[j]);
  }

  lemma {:induction false} TextRead(mem: seq<Byte>, at: nat, t: Text)
    requires at + |t| < |mem| && mem[at..at + |t| + 1] == CString(t) && NoNul(t)
    ensures ReadText(mem, at) == t
    decreases |t|
  {
    var s := mem[at..at + |t| + 1];
    assert s[0] == mem[at];
    if t == [] {
    } else {
      var rest := t[1..];
      assert mem[at + 1..at + 1 + |rest| + 1] == s[1..] == CString(rest);
      TextRead(mem, at + 1, rest);
      assert t == [t[0]] + rest;
    }
  }

  /** Blob `k` is found at its address. */
  lemma {:induction false} BlobInLayout(blobs: seq<Text>, k: nat)
    requires k < |blobs|
    ensures |Layout(blobs[..k])| + |blobs[k]| == |Layout(blobs[..k + 1])| <= |Layout(blobs)|
    ensures var p := |Layout(blobs)| - |Layout(blobs[..k + 1])|;
            Layout(blobs)[p..p + |blobs[k]|] == blobs[k]
  {
    var n := |blobs| - 1;
    var front := blobs[..n];
    assert blobs[..k + 1][..k] == blobs[..k];
    if k < n {
      BlobInLayout(front, k);
      assert front[..k] == blobs[..k] && front[..k + 1] == blobs[..k + 1];
      var p := |Layout(front)| - |Layout(front[..k + 1])|;
      SliceBehind(blobs[n], Layout(front), p, p + |blobs[k]|);
    } else {
      assert blobs[..k + 1] == blobs;
    }
  }

  lemma BlobRead(mem: seq<Byte>, base: nat, blobs: seq<Text>, k: nat)
    requires k < |blobs| && |Layout(blobs)| <= |mem| && mem[|mem| - |Layout(blobs)|..] == Layout(blobs)
    ensures var a := Address(base + |mem|, blobs, k);
            base + |mem| - |Layout(blobs)| <= a && a - base + |blobs[k]| <= |mem|
              && mem[a - base..a - base + |blobs[k]|] == blobs[k]
  {
    hide Layout;
    BlobInLayout(blobs, k);
    var size := |Layout(blobs)|;
    var p := size - |Layout(blobs[..k + 1])|;
    var at := |mem| - |Layout(blobs[..k + 1])|;
    SliceOfSlice(mem, |mem| - size, |mem|, p, p + |blobs[k]|);
    assert mem[|mem| - size..|mem|] == mem[|mem| - size..];
  }

  /** Memory holds these words at `start` and these blobs at its top. */
  ghost predicate Holds(mem: seq<Byte>, start: nat, words: seq<nat>, blobs: seq<Text>) {
    && start + 8 * |words| + |Layout(blobs)| <= |mem|
    && mem[start..start + 8 * |words|] == Bytes(words)
    && mem[|mem| - |Layout(blobs)|..] == Layout(blobs)
  }

  /** The words `from..` point to the texts `ts`, laid down from blob `first` on, and a null word ends them. */
  ghost predicate Vector(words: seq<nat>, from: nat, top: nat, blobs: seq<Text>, first: nat, ts: seq<Text>) {
    && from + |ts| < |words| && first + |ts| <= |blobs| && words[from + |ts|] == 0
    && forall i :: 0 <= i < |ts| ==> Points(words, from, top, blobs, first, ts, i)
  }

  ghost predicate Points(words: seq<nat>, from: nat, top: nat, blobs: seq<Text>, first: nat, ts: seq<Text>, i: nat)
    requires i < |ts| && from + |ts| < |words| && first + |ts| <= |blobs|
  {
    words[from + i] == Address(top, blobs, first + i) && blobs[first + i] == CString(ts[i]) && NoNul(ts[i])
  }

  lemma PointerRead(mem: seq<Byte>, base: nat, start: nat, words: seq<nat>, blobs: seq<Text>, j: nat, k: nat, t: Text)
    requires Holds(mem, start, words, blobs) && words != [] && base + |mem| <= WORD
    requires j < |words| && k < |blobs| && words[j] == Address(base + |mem|, blobs, k) && blobs[k] == CString(t)
    requires NoNul(t)
    ensures ReadWord(mem, start + 8 * j) == words[j] && words[j] != 0 && base <= words[j]
    ensures ReadText(mem, words[j] - base) == t
  {
    hide Bytes, Layout, ReadWord, ReadText, NoNul;
    BlobRead(mem, base, blobs, k);
    WordRead(mem, start, words, j);
    TextRead(mem, words[j] - base, t);
  }

  lemma {:induction false} VectorRead(mem: seq<Byte>, base: nat, start: nat, words: seq<nat>, blobs: seq<Text>,
                                      from: nat, first: nat, ts: seq<Text>, i: nat)
    requires Holds(mem, start, words, blobs) && base + |mem| <= WORD && i <= |ts|
    requires Vector(words, from, base + |mem|, blobs, first, ts)
    ensures ReadTexts(mem, base, start + 8 * (from + i)) == ts[i..]
    decreases |ts| - i
  {
    hide Bytes, Layout, ReadWord, ReadText, NoNul;
    if i == |ts| {
      WordRead(mem, start, words, from + i);
    } else {
      assert Points(words, from, base + |mem|, blobs, first, ts, i);
      PointerRead(mem, base, start, words, blobs, from + i, first + i, ts[i]);
      VectorRead(mem, base, start, words, blobs, from, first, ts, i + 1);
      assert ts[i..] == [ts[i]] + ts[i + 1..];
    }
  }

  lemma {:induction false} PairWordsAt(pairs: seq<(nat, nat)>, k: nat)
    requires k < |pairs|
    ensures PairWords(pairs)[2 * k] == pairs[k].0 && PairWords(pairs)[2 * k + 1] == pairs[k].1
  {
    if k >= |pairs| - 1 {
    } else {
      PairWordsAt(pairs[..|pairs| - 1], k);
    }
  }

  lemma {:induction false} PairsRead(mem: seq<Byte>, start: nat, words: seq<nat>, blobs: seq<Text>, from: nat,
                                     pairs: seq<(nat, nat)>, k: nat)
    requires Holds(mem, start, words, blobs) && k <= |pairs| && from + 2 * |pairs| + 2 == |words|
    requires words[from..from + 2 * |pairs|] == PairWords(pairs) && words[from + 2 * |pairs|] == 0
    requires PairsOk(pairs)
    ensures ReadPairs(mem, start + 8 * (from + 2 * k)) == pairs[k..]
    decreases |pairs| - k
  {
    hide Bytes, Layout, ReadWord, PairWords;
    if k == |pairs| {
      WordRead(mem, start, words, from + 2 * k);
    } else {
      PairWordsAt(pairs, k);
      assert words[from + 2 * k] == words[from..from + 2 * |pairs|][2 * k];
      assert words[from + 2 * k + 1] == words[from..from + 2 * |pairs|][2 * k + 1];
      WordRead(mem, start, words, from + 2 * k);
      WordRead(mem, start, words, from + 2 * k + 1);
      PairsRead(mem, start, words, blobs, from, pairs, k + 1);
      assert pairs[k..] == [pairs[k]] + pairs[k + 1..];
    }
  }

  // ------------------------------------------------------------------ the whole picture

  /** Texts hold no NUL and numbers are machine words. */
  ghost predicate Sane(runs: Runs, facts: Facts) {
    && (forall t :: t in runs.arguments ==> NoNul(t)) && (forall t :: t in runs.environment ==> NoNul(t))
    && (facts.platform.Some? ==> NoNul(facts.platform.value))
    && (facts.executable.Some? ==> NoNul(facts.executable.value))
    && facts.programEntry < WORD && facts.programHeaders < WORD && facts.headerEntryBytes < WORD
    && facts.headerCount < WORD
    && facts.interpreterBase < WORD && facts.pageBytes < WORD && facts.hwcap < WORD
  }

  lemma ArgumentWords(runs: Runs, facts: Facts, top: nat)
    requires Sane(runs, facts)
    ensures var r, argc, envc := |RandomBlobs(facts)|, |runs.arguments|, |runs.environment|;
            && Words(runs, facts, top)[0] == argc
            && Vector(Words(runs, facts, top), 1, top, Blobs(runs, facts), r, runs.arguments)
            && Vector(Words(runs, facts, top), 2 + argc, top, Blobs(runs, facts), r + argc, runs.environment)
  {
    hide Address, NoNul, PairWords, Pairs, Blobs, Words;
    var words, blobs := Words(runs, facts, top), Blobs(runs, facts);
    var r, argc, envc := |RandomBlobs(facts)|, |runs.arguments|, |runs.environment|;
    BlobsAt(runs, facts);
    WordsAt(runs, facts, top);
    forall i | 0 <= i < argc
      ensures Points(words, 1, top, blobs, r, runs.arguments, i)
    {
      assert words[1 + i] == Addresses(top, blobs, r, argc)[i];
      assert runs.arguments[i] in runs.arguments;
    }
    var from, first := 2 + argc, r + argc;
    forall i | 0 <= i < envc
      ensures Points(words, from, top, blobs, first, runs.environment, i)
    {
      assert words[from + i] == Addresses(top, blobs, first, envc)[i];
      assert runs.environment[i] in runs.environment;
    }
  }

  ghost predicate Lists(words: seq<nat>, from: nat, part: seq<nat>) {
    from + |part| <= |words| && forall i :: 0 <= i < |part| ==> words[from + i] == part[i]
  }

  lemma WordsAt(runs: Runs, facts: Facts, top: nat)
    ensures var w, b, r, argc, envc := Words(runs, facts, top), Blobs(runs, facts), |RandomBlobs(facts)|,
              |runs.arguments|, |runs.environment|;
            && |w| >= 5 + argc + envc && r + argc + envc <= |b| && w[0] == argc && w[1 + argc] == 0
            && w[2 + argc + envc] == 0
            && Lists(w, 1, Addresses(top, b, r, argc)) && Lists(w, 2 + argc, Addresses(top, b, r + argc, envc))
  {
    hide Address, PairWords, Pairs, Addresses, Blobs;
    BlobsAt(runs, facts);
    var b, r, argc, envc := Blobs(runs, facts), |RandomBlobs(facts)|, |runs.arguments|, |runs.environment|;
    var xs, ys := Addresses(top, b, r, argc), Addresses(top, b, r + argc, envc);
    var rest := PairWords(Pairs(runs, facts, top)) + [0, 0];
    assert Words(runs, facts, top) == [argc] + xs + [0] + ys + [0] + rest;
  }

  lemma BlobsAt(runs: Runs, facts: Facts)
    ensures var blobs, r, argc, envc := Blobs(runs, facts), |RandomBlobs(facts)|, |runs.arguments|, |runs.environment|;
            && |blobs| == r + argc + envc + |TextBlobs(facts.executable)| + |TextBlobs(facts.platform)|
            && (r == 1 ==> blobs[0] == facts.randomness.value)
            && (forall i :: 0 <= i < argc ==> blobs[r + i] == CString(runs.arguments[i]))
            && (forall i :: 0 <= i < envc ==> blobs[r + argc + i] == CString(runs.environment[i]))
            && (facts.executable.Some? ==> blobs[r + argc + envc] == CString(facts.executable.value))
            && (facts.platform.Some? ==> blobs[|blobs| - 1] == CString(facts.platform.value))
  {
  }

  lemma PairsPart(runs: Runs, facts: Facts, top: nat)
    ensures var words, pairs, from := Words(runs, facts, top), Pairs(runs, facts, top),
              3 + |runs.arguments| + |runs.environment|;
            && from + 2 * |pairs| + 2 == |words| && words[from + 2 * |pairs|] == 0 && words[from + 2 * |pairs| + 1] == 0
            && words[from..from + 2 * |pairs|] == PairWords(pairs)
  {
    hide Address, PairWords, Pairs, Blobs;
  }

  /** Pairs of a type that does not end the list and a value that is a machine word. */
  ghost predicate PairsOk(pairs: seq<(nat, nat)>) {
    forall i :: 0 <= i < |pairs| ==> 0 < pairs[i].0 < WORD && pairs[i].1 < WORD
  }

  lemma PairsJoin(xs: seq<(nat, nat)>, ys: seq<(nat, nat)>)
    requires PairsOk(xs) && PairsOk(ys)
    ensures PairsOk(xs + ys)
  {
  }

  lemma FixedOk(facts: Facts)
    requires Sane(Runs([], []), facts)
    ensures PairsOk(FixedPairs(facts))
  {
  }

  /** Addresses are machine words, as long as memory ends within the address space. */
  lemma PairsSane(runs: Runs, facts: Facts, top: nat)
    requires Sane(runs, facts) && top <= WORD
    ensures PairsOk(Pairs(runs, facts, top))
  {
    hide Address, NoNul, FixedPairs, PairsOk;
    var fixed, platform, random, name := FixedPairs(facts), PlatformPair(runs, facts, top),
      RandomPair(runs, facts, top), NamePair(runs, facts, top);
    FixedOk(facts);
    PointersOk(runs, facts, top);
    PairsJoin(fixed, platform);
    PairsJoin(fixed + platform, random);
    PairsJoin(fixed + platform + random, name);
  }

  lemma PointersOk(runs: Runs, facts: Facts, top: nat)
    requires top <= WORD
    ensures PairsOk(PlatformPair(runs, facts, top)) && PairsOk(RandomPair(runs, facts, top))
    ensures PairsOk(NamePair(runs, facts, top))
  {
    hide Address, Blobs;
    var blobs, r := Blobs(runs, facts), |RandomBlobs(facts)|;
    BlobsAt(runs, facts);
    if facts.platform.Some? {
      AddressSane(top, blobs, |blobs| - 1);
    }
    if r == 1 {
      AddressSane(top, blobs, 0);
    }
    if facts.executable.Some? {
      AddressSane(top, blobs, r + |runs.arguments| + |runs.environment|);
    } else if runs.arguments != [] {
      assert blobs[r + 0] == CString(runs.arguments[0]);
      AddressSane(top, blobs, r);
    }
  }

  lemma AddressSane(top: nat, blobs: seq<Text>, k: nat)
    requires k < |blobs| && blobs[k] != [] && top <= WORD
    ensures Address(top, blobs, k) < WORD
  {
    BlobInLayout(blobs, k);
  }

  // ------------------------------------------------------------------ what the auxiliary pairs say

  /** The value a program finds under a key: the first pair with it. */
  function Aux(pairs: seq<(nat, nat)>, key: nat): Option<nat> {
    if pairs == [] then None else if pairs[0].0 == key then Some(pairs[0].1) else Aux(pairs[1..], key)
  }

  ghost predicate NoKeyTwice(pairs: seq<(nat, nat)>) {
    forall i, j :: 0 <= i < j < |pairs| ==> pairs[i].0 != pairs[j].0
  }

  lemma {:induction false} AuxAt(pairs: seq<(nat, nat)>, i: nat)
    requires NoKeyTwice(pairs) && i < |pairs|
    ensures Aux(pairs, pairs[i].0) == Some(pairs[i].1)
  {
    if i == 0 {
    } else {
      var rest := pairs[1..];
      assert pairs[0].0 != pairs[i].0 && rest[i - 1] == pairs[i];
      forall j, k | 0 <= j < k < |rest|
        ensures rest[j].0 != rest[k].0
      {
        assert rest[j] == pairs[j + 1] && rest[k] == pairs[k + 1];
      }
      AuxAt(rest, i - 1);
    }
  }

  lemma {:induction false} AuxMissing(pairs: seq<(nat, nat)>, key: nat)
    requires forall i :: 0 <= i < |pairs| ==> pairs[i].0 != key
    ensures Aux(pairs, key) == None
  {
    if pairs == [] {
    } else {
      AuxMissing(pairs[1..], key);
    }
  }

  // The keys, by the names of the System V ABI (AMD64 supplement, section 3.4.3) and of Linux.
  const AT_PHDR: nat := 3
  const AT_PHENT: nat := 4
  const AT_PHNUM: nat := 5
  const AT_PAGESZ: nat := 6
  const AT_BASE: nat := 7
  const AT_ENTRY: nat := 9
  const AT_UID: nat := 11
  const AT_EUID: nat := 12
  const AT_GID: nat := 13
  const AT_EGID: nat := 14
  const AT_PLATFORM: nat := 15
  const AT_HWCAP: nat := 16
  const AT_SECURE: nat := 23
  const AT_RANDOM: nat := 25
  const AT_EXECFN: nat := 31

  /** What each key that is a number tells the program. */
  ghost predicate TellsFacts(pairs: seq<(nat, nat)>, facts: Facts) {
    && NoKeyTwice(pairs)
    && Aux(pairs, AT_PHDR) == Some(facts.programHeaders) && Aux(pairs, AT_PHENT) == Some(facts.headerEntryBytes)
    && Aux(pairs, AT_PHNUM) == Some(facts.headerCount) && Aux(pairs, AT_PAGESZ) == Some(facts.pageBytes)
    && Aux(pairs, AT_BASE) == Some(facts.interpreterBase) && Aux(pairs, AT_ENTRY) == Some(facts.programEntry)
    && Aux(pairs, AT_UID) == Some(0) && Aux(pairs, AT_EUID) == Some(0)
    && Aux(pairs, AT_GID) == Some(0) && Aux(pairs, AT_EGID) == Some(0)
    && Aux(pairs, AT_SECURE) == Some(0) && Aux(pairs, AT_HWCAP) == Some(facts.hwcap)
  }

  /** A text lies behind a pointer; memory starts at address `base`. */
  ghost predicate TextBehind(mem: seq<Byte>, base: nat, a: Option<nat>, t: Text) {
    a.Some? && base <= a.value && ReadText(mem, a.value - base) == t
  }

  ghost predicate BytesBehind(mem: seq<Byte>, base: nat, a: Option<nat>, t: Text) {
    && a.Some? && base <= a.value && a.value - base + |t| <= |mem|
    && mem[a.value - base..a.value - base + |t|] == t
  }

  /** Where each key that is a pointer leads: the platform, the random bytes, the name the program was started by. */
  ghost predicate PointsRight(mem: seq<Byte>, base: nat, pairs: seq<(nat, nat)>, runs: Runs, facts: Facts) {
    && (if facts.platform.Some? then TextBehind(mem, base, Aux(pairs, AT_PLATFORM), facts.platform.value)
        else Aux(pairs, AT_PLATFORM).None?)
    && (if RandomBlobs(facts) != [] then BytesBehind(mem, base, Aux(pairs, AT_RANDOM), facts.randomness.value)
        else Aux(pairs, AT_RANDOM).None?)
    && (if facts.executable.Some? then TextBehind(mem, base, Aux(pairs, AT_EXECFN), facts.executable.value)
        else if runs.arguments != [] then TextBehind(mem, base, Aux(pairs, AT_EXECFN), runs.arguments[0])
        else Aux(pairs, AT_EXECFN).None?)
  }

  /** The place of a key among all that can occur. */
  function Rank(key: nat): nat {
    match key
    case 3 => 0
    case 4 => 1
    case 5 => 2
    case 6 => 3
    case 7 => 4
    case 9 => 5
    case 11 => 6
    case 12 => 7
    case 13 => 8
    case 14 => 9
    case 23 => 10
    case 16 => 11
    case 15 => 12
    case 25 => 13
    case 31 => 14
    case _ => 15
  }

  ghost predicate KeyFree(pairs: seq<(nat, nat)>, key: nat) {
    forall i :: 0 <= i < |pairs| ==> pairs[i].0 != key
  }

  ghost predicate AtMostOne(pairs: seq<(nat, nat)>, key: nat) {
    |pairs| <= 1 && (pairs != [] ==> pairs[0].0 == key)
  }

  lemma FixedFree(facts: Facts, key: nat)
    requires key == AT_PLATFORM || key == AT_RANDOM || key == AT_EXECFN
    ensures KeyFree(FixedPairs(facts), key)
  {
  }

  lemma PairKeys(runs: Runs, facts: Facts, top: nat)
    ensures forall key :: key != AT_PLATFORM ==> KeyFree(PlatformPair(runs, facts, top), key)
    ensures forall key :: key != AT_RANDOM ==> KeyFree(RandomPair(runs, facts, top), key)
    ensures forall key :: key != AT_EXECFN ==> KeyFree(NamePair(runs, facts, top), key)
    ensures AtMostOne(PlatformPair(runs, facts, top), AT_PLATFORM)
    ensures AtMostOne(RandomPair(runs, facts, top), AT_RANDOM) && AtMostOne(NamePair(runs, facts, top), AT_EXECFN)
  {
    hide Address, Blobs;
  }

  lemma PairsRanked(runs: Runs, facts: Facts, top: nat)
    ensures var pairs := Pairs(runs, facts, top);
            && |pairs| >= 12
            && (forall i :: 0 <= i < 12 ==> pairs[i] == FixedPairs(facts)[i] && Rank(pairs[i].0) == i)
            && (forall i :: 12 <= i < |pairs| ==> 12 <= Rank(pairs[i].0) <= 14)
            && (forall i, j :: 12 <= i < j < |pairs| ==> Rank(pairs[i].0) < Rank(pairs[j].0))
  {
    hide PlatformPair, RandomPair, NamePair, FixedPairs, KeyFree, Rank;
    FixedRanked(facts);
    PairKeys(runs, facts, top);
    var a, b, c := PlatformPair(runs, facts, top), RandomPair(runs, facts, top), NamePair(runs, facts, top);
    TailRanked(a, b, c);
    assert Pairs(runs, facts, top) == FixedPairs(facts) + (a + b + c);
  }

  lemma TailRanked(a: seq<(nat, nat)>, b: seq<(nat, nat)>, c: seq<(nat, nat)>)
    requires AtMostOne(a, AT_PLATFORM) && AtMostOne(b, AT_RANDOM) && AtMostOne(c, AT_EXECFN)
    ensures forall i :: 0 <= i < |a + b + c| ==> 12 <= Rank((a + b + c)[i].0) <= 14
    ensures forall i, j :: 0 <= i < j < |a + b + c| ==> Rank((a + b + c)[i].0) < Rank((a + b + c)[j].0)
  {
  }

  lemma FixedRanked(facts: Facts)
    ensures |FixedPairs(facts)| == 12
    ensures forall i :: 0 <= i < 12 ==> Rank(FixedPairs(facts)[i].0) == i
  {
  }

  lemma NoPairTwice(runs: Runs, facts: Facts, top: nat)
    ensures NoKeyTwice(Pairs(runs, facts, top))
  {
    hide Pairs, FixedPairs;
    PairsRanked(runs, facts, top);
    var pairs := Pairs(runs, facts, top);
    forall i, j | 0 <= i < j < |pairs|
      ensures pairs[i].0 != pairs[j].0
    {
      assert Rank(pairs[i].0) < Rank(pairs[j].0);
    }
  }

  /** Every key that is a number tells its fact, and no key occurs twice. */
  lemma PairsTellFacts(runs: Runs, facts: Facts, top: nat)
    ensures TellsFacts(Pairs(runs, facts, top), facts)
  {
    hide Pairs, Aux;
    var pairs := Pairs(runs, facts, top);
    NoPairTwice(runs, facts, top);
    PairsRanked(runs, facts, top);
    forall i | 0 <= i < 12
      ensures Aux(pairs, FixedPairs(facts)[i].0) == Some(FixedPairs(facts)[i].1)
    {
      AuxAt(pairs, i);
    }
    var p := FixedPairs(facts);
    assert Aux(pairs, p[0].0) == Some(p[0].1) && Aux(pairs, p[1].0) == Some(p[1].1);
    assert Aux(pairs, p[2].0) == Some(p[2].1) && Aux(pairs, p[3].0) == Some(p[3].1);
    assert Aux(pairs, p[4].0) == Some(p[4].1) && Aux(pairs, p[5].0) == Some(p[5].1);
    assert Aux(pairs, p[6].0) == Some(p[6].1) && Aux(pairs, p[7].0) == Some(p[7].1);
    assert Aux(pairs, p[8].0) == Some(p[8].1) && Aux(pairs, p[9].0) == Some(p[9].1);
    assert Aux(pairs, p[10].0) == Some(p[10].1);
    assert Aux(pairs, p[11].0) == Some(p[11].1);
  }

  /** The reader recovers the count, every argument and environment text, and the auxiliary pairs with their facts. */
  lemma PictureIsReadable(mem: seq<Byte>, base: nat, start: nat, runs: Runs, facts: Facts)
    requires Sane(runs, facts) && base + |mem| <= WORD
    requires Holds(mem, start, Words(runs, facts, base + |mem|), Blobs(runs, facts))
    ensures ReadPicture(mem, base, start) ==
              Seen(|runs.arguments|, runs.arguments, runs.environment, Pairs(runs, facts, base + |mem|))
    ensures TellsFacts(ReadPicture(mem, base, start).pairs, facts)
  {
    hide TellsFacts, Bytes, Layout, ReadWord, ReadTexts, ReadPairs, Pairs, PairWords, Address, Sane, Blobs, Words,
      Vector;
    var top := base + |mem|;
    var words, blobs, r := Words(runs, facts, top), Blobs(runs, facts), |RandomBlobs(facts)|;
    var argc, envc, pairs := |runs.arguments|, |runs.environment|, Pairs(runs, facts, top);
    PairsTellFacts(runs, facts, top);
    ArgumentWords(runs, facts, top);
    PairsPart(runs, facts, top);
    PairsSane(runs, facts, top);
    WordRead(mem, start, words, 0);
    VectorRead(mem, base, start, words, blobs, 1, r, runs.arguments, 0);
    VectorRead(mem, base, start, words, blobs, 2 + argc, r + argc, runs.environment, 0);
    PairsRead(mem, start, words, blobs, 3 + argc + envc, pairs, 0);
  }

  /** Each pointer pair is found under its key, or is not there. */
  lemma PointerKeys(runs: Runs, facts: Facts, top: nat)
    ensures var pairs := Pairs(runs, facts, top);
            && Aux(pairs, AT_PLATFORM) == ValueOf(PlatformPair(runs, facts, top))
            && Aux(pairs, AT_RANDOM) == ValueOf(RandomPair(runs, facts, top))
            && Aux(pairs, AT_EXECFN) == ValueOf(NamePair(runs, facts, top))
  {
    hide Aux, FixedPairs, PlatformPair, RandomPair, NamePair, ValueOf, NoKeyTwice;
    var f := FixedPairs(facts);
    var a, b, c := PlatformPair(runs, facts, top), RandomPair(runs, facts, top), NamePair(runs, facts, top);
    var pairs := Pairs(runs, facts, top);
    NoPairTwice(runs, facts, top);
    PairKeys(runs, facts, top);
    FixedFree(facts, AT_PLATFORM);
    FixedFree(facts, AT_RANDOM);
    FixedFree(facts, AT_EXECFN);
    KeyFound(pairs, f, [], a, b, c, AT_PLATFORM);
    KeyFound(pairs, f, a, b, [], c, AT_RANDOM);
    KeyFound(pairs, f, a, c, b, [], AT_EXECFN);
  }

  function ValueOf(pair: seq<(nat, nat)>): Option<nat> {
    if pair == [] then None else Some(pair[0].1)
  }

  lemma KeyFound(pairs: seq<(nat, nat)>, f: seq<(nat, nat)>, a: seq<(nat, nat)>, own: seq<(nat, nat)>,
          b: seq<(nat, nat)>, c: seq<(nat, nat)>, key: nat)
    requires pairs == f + a + own + b + c || pairs == f + a + b + own + c
    requires NoKeyTwice(pairs) && AtMostOne(own, key)
    requires KeyFree(f, key) && KeyFree(a, key) && KeyFree(b, key) && KeyFree(c, key)
    ensures Aux(pairs, key) == ValueOf(own)
  {
    if own == [] {
      AuxMissing(pairs, key);
    } else {
      var at := if pairs == f + a + own + b + c then |f| + |a| else |f| + |a| + |b|;
      assert pairs[at] == own[0];
      AuxAt(pairs, at);
    }
  }

  /** The pointers among the auxiliary pairs lead to the platform name, the random bytes and the program's name. */
  lemma PairsPointRight(mem: seq<Byte>, base: nat, start: nat, runs: Runs, facts: Facts)
    requires Sane(runs, facts) && base + |mem| <= WORD
    requires Holds(mem, start, Words(runs, facts, base + |mem|), Blobs(runs, facts))
    ensures PointsRight(mem, base, Pairs(runs, facts, base + |mem|), runs, facts)
  {
    hide Bytes, Layout, ReadText, Address, NoNul, Words, Blobs, Pairs, Aux;
    var blobs, r := Blobs(runs, facts), |RandomBlobs(facts)|;
    PointerKeys(runs, facts, base + |mem|);
    BlobsAt(runs, facts);
    if facts.platform.Some? {
      TextAt(mem, base, blobs, |blobs| - 1, facts.platform.value);
    }
    if r == 1 {
      BlobRead(mem, base, blobs, 0);
    }
    if facts.executable.Some? {
      TextAt(mem, base, blobs, r + |runs.arguments| + |runs.environment|, facts.executable.value);
    } else if runs.arguments != [] {
      assert runs.arguments[0] in runs.arguments && blobs[r + 0] == CString(runs.arguments[0]);
      TextAt(mem, base, blobs, r, runs.arguments[0]);
    }
  }

  lemma TextAt(mem: seq<Byte>, base: nat, blobs: seq<Text>, k: nat, t: Text)
    requires |Layout(blobs)| <= |mem| && mem[|mem| - |Layout(blobs)|..] == Layout(blobs)
    requires k < |blobs| && blobs[k] == CString(t) && NoNul(t)
    ensures var a := Address(base + |mem|, blobs, k);
            base <= a && ReadText(mem, a - base) == t
  {
    hide Layout, ReadText, NoNul, Address;
    BlobRead(mem, base, blobs, k);
    var at := Address(base + |mem|, blobs, k) - base;
    assert |blobs[k]| == |t| + 1;
    TextRead(mem, at, t);
  }
}
