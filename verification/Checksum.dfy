/**
 The Internet checksum of RFC 1071: the ones' complement of the ones' complement sum of the bytes
 taken as big-endian 16-bit words, fed in any number of pieces.
 */
module Checksum {
  import opened Wrappers

  const ONES: nat := 65535
  const WORD32: nat := 0x1_0000_0000
  /** The most bytes a 32-bit sum can take, whatever they are, without wrapping around. */
  const MOST: nat := 131074

  /** The plain sum of the words; a last odd byte counts as a high byte. */
  function WordSum(b: seq<Byte>): nat {
    if b == [] then 0 else if |b| == 1 then 256 * b[0] else 256 * b[0] + b[1] + WordSum(b[2..])
  }

  /** The sum with all carries added back in. */
  function Fold(n: nat): nat {
    if n == 0 then 0 else (n - 1) % ONES + 1
  }

  function ChecksumOf(b: seq<Byte>): nat {
    ONES - Fold(WordSum(b))
  }

  // ------------------------------------------------------------------ sums

  lemma {:induction false} WordSumSplit(xs: seq<Byte>, ys: seq<Byte>)
    requires |xs| % 2 == 0
    ensures WordSum(xs + ys) == WordSum(xs) + WordSum(ys)
    decreases |xs|
  {
    if xs == [] {
      assert xs + ys == ys;
    } else {
      assert (xs + ys)[2..] == xs[2..] + ys;
      WordSumSplit(xs[2..], ys);
    }
  }

  lemma {:induction false} WordSumBound(b: seq<Byte>)
    ensures WordSum(b) <= ONES * ((|b| + 1) / 2)
    decreases |b|
  {
    if |b| <= 1 {
    } else {
      WordSumBound(b[2..]);
    }
  }

  lemma WordSumPair(x: Byte, y: Byte)
    ensures WordSum([x, y]) == 256 * x + y
  {
    assert [x, y][2..] == [];
  }

  lemma WordSumMore(b: seq<Byte>, x: Byte, y: Byte)
    requires |b| % 2 == 0
    ensures WordSum(b + [x, y]) == WordSum(b) + 256 * x + y
  {
    WordSumSplit(b, [x, y]);
    WordSumPair(x, y);
  }

  /** A word put in place of two zero bytes at an even place adds just itself. */
  lemma WordSumField(pre: seq<Byte>, x: Byte, y: Byte, post: seq<Byte>)
    requires |pre| % 2 == 0
    ensures WordSum(pre + [x, y] + post) == WordSum(pre + [0, 0] + post) + 256 * x + y
  {
    WordSumSplit(pre + [x, y], post);
    WordSumSplit(pre + [0, 0], post);
    WordSumMore(pre, x, y);
    WordSumMore(pre, 0, 0);
  }

  // ------------------------------------------------------------------ folding

  lemma Residue(n: nat, q: nat, m: nat)
    requires n == ONES * q + m && m < ONES
    ensures n % ONES == m
  {
  }

  /** Adding the carries in once changes nothing. */
  lemma FoldStep(n: nat)
    requires n >= 65536
    ensures Fold(n % 65536 + n / 65536) == Fold(n) && 0 < n % 65536 + n / 65536 < n
  {
    var h, l := n / 65536, n % 65536;
    var s := l + h;
    assert n == s + ONES * h;
    var q, m := (s - 1) / ONES, (s - 1) % ONES;
    assert s - 1 == ONES * q + m;
    Residue(n - 1, q + h, m);
  }

  /** The checksum, or all ones in place of zero, makes the sum come out as all ones. */
  lemma SumsToOnes(sum: nat, checksum: nat)
    requires sum > 0 && (checksum == ONES - Fold(sum) || (Fold(sum) == ONES && checksum == ONES))
    ensures Fold(sum + checksum) == ONES
  {
    var q, m := (sum - 1) / ONES, (sum - 1) % ONES;
    assert sum - 1 == ONES * q + m;
    if checksum == ONES - Fold(sum) {
      Residue(sum + checksum - 1, q, ONES - 1);
    } else {
      Residue(sum + checksum - 1, q + 1, ONES - 1);
    }
  }

  method FoldCarries(total: nat) returns (r: nat)
    ensures r == Fold(total) <= ONES
  {
    r := total;
    while r >= 65536
      invariant Fold(r) == Fold(total)
    {
      FoldStep(r);
      r := r % 65536 + r / 65536;
    }
  }

  // ------------------------------------------------------------------ the running sum

  /** One more word, in 32-bit arithmetic. */
  function AddWord(sum: nat, high: Byte, low: Byte): nat {
    (sum + 256 * high + low) % WORD32
  }

  class InternetChecksum {
    var sum: nat
    var pending: Byte
    var hasPending: bool
    /** All bytes added so far. */
    ghost var fed: seq<Byte>

    ghost predicate Valid()
      reads this
    {
      && (hasPending <==> |fed| % 2 == 1)
      && sum == WordSum(fed[..|fed| - |fed| % 2]) % WORD32
      && (hasPending ==> pending == fed[|fed| - 1])
    }

    constructor ()
      ensures Valid() && fed == []
    {
      sum, pending, hasPending, fed := 0, 0, false, [];
    }

    /** Adds more bytes; where the pieces are cut does not matter. */
    method Add(data: seq<Byte>)
      requires Valid()
      modifies this
      ensures Valid() && fed == old(fed) + data
    {
      hide WordSum, AddWord;
      ghost var all := fed + data;
      ghost var e := |fed| - |fed| % 2;
      assert fed[..e] == all[..e];
      var index := 0;
      if hasPending && |data| != 0 {
        Step(all, e, pending, data[0]);
        sum := AddWord(sum, pending, data[0]);
        index := 1;
        hasPending := false;
        e := e + 2;
      }
      while index + 1 < |data|
        invariant 0 <= index <= |data| && e == |fed| + index - (if hasPending then 1 else 0) && e % 2 == 0
        invariant sum == WordSum(all[..e]) % WORD32 && (hasPending ==> |data| == 0 && pending == all[e])
        modifies this`sum
      {
        Step(all, e, data[index], data[index + 1]);
        sum := AddWord(sum, data[index], data[index + 1]);
        index := index + 2;
        e := e + 2;
      }
      if index < |data| {
        pending := data[index];
        hasPending := true;
      }
      EvenPart(|all|, e);
      fed := all;
    }

    method Value() returns (r: nat)
      requires Valid()
      ensures r == ONES - Fold(WordSum(fed) % WORD32)
      ensures |fed| <= MOST ==> r == ChecksumOf(fed)
    {
      hide Fold;
      var total := sum;
      if hasPending {
        ghost var front := fed[..|fed| - 1];
        assert fed == front + [pending];
        WordSumSplit(front, [pending]);
        AddModulo(WordSum(front), 256 * pending);
        total := (total + 256 * pending) % WORD32;
      } else {
        assert fed[..|fed|] == fed;
      }
      if |fed| <= MOST {
        SumFits(fed);
      }
      var folded := FoldCarries(total);
      r := ONES - folded;
    }
  }

  /** The even part of a length. */
  lemma EvenPart(n: nat, e: nat)
    requires e % 2 == 0 && e <= n <= e + 1
    ensures e == n - n % 2 && (n == e + 1 <==> n % 2 == 1)
  {
  }

  lemma Step(all: seq<Byte>, e: nat, x: Byte, y: Byte)
    requires e % 2 == 0 && e + 2 <= |all| && all[e] == x && all[e + 1] == y
    ensures WordSum(all[..e + 2]) % WORD32 == AddWord(WordSum(all[..e]) % WORD32, x, y)
  {
    hide WordSum;
    assert all[..e + 2] == all[..e] + [x, y];
    WordSumMore(all[..e], x, y);
    AddModulo(WordSum(all[..e]), 256 * x + y);
  }

  lemma AddModulo(a: nat, b: nat)
    ensures (a % WORD32 + b) % WORD32 == (a + b) % WORD32
  {
    var q := a / WORD32;
    assert a + b == a % WORD32 + b + q * WORD32;
    DropMultiple(a % WORD32 + b, q);
  }

  lemma DropMultiple(n: nat, q: nat)
    ensures (n + q * WORD32) % WORD32 == n % WORD32
  {
  }

  lemma SumFits(b: seq<Byte>)
    requires |b| <= MOST
    ensures WordSum(b) < WORD32
  {
    WordSumBound(b);
  }

  /**
   The 32-bit sum loses its carries when it wraps around. The checksum is right all the same exactly when
   it wrapped a multiple of 65535 times and did not end on zero.
   */
  lemma WrappedSumIff(w: nat)
    ensures Fold(w % WORD32) == Fold(w) <==> w < WORD32 || (w / WORD32 % ONES == 0 && w % WORD32 != 0)
  {
    var q, r := w / WORD32, w % WORD32;
    assert w == ONES * (65537 * q) + q + r;
    if r > 0 {
      var a, b := (r - 1) / ONES, (r - 1) % ONES;
      var c, d := q / ONES, q % ONES;
      assert r - 1 == ONES * a + b && q == ONES * c + d;
      Residue(r - 1, a, b);
      if b + d < ONES {
        Residue(w - 1, 65537 * q + a + c, b + d);
      } else {
        Residue(w - 1, 65537 * q + a + c + 1, b + d - ONES);
      }
    }
  }

  function Repeated(n: nat, x: Byte): (b: seq<Byte>)
    ensures |b| == n
  {
    seq(n, _ => x)
  }

  lemma {:induction false} RepeatedSum(k: nat, x: Byte)
    ensures WordSum(Repeated(2 * k, x)) == 257 * x * k
  {
    if k == 0 {
    } else {
      var b := Repeated(2 * k, x);
      assert b[2..] == Repeated(2 * (k - 1), x);
      RepeatedSum(k - 1, x);
      assert 257 * x * k == 257 * x * (k - 1) + 257 * x;
    }
  }

  lemma ZeroSum(n: nat)
    ensures WordSum(Repeated(n, 0)) == 0
  {
    RepeatedSum(n / 2, 0);
    if n % 2 == 1 {
      assert Repeated(n, 0) == Repeated(2 * (n / 2), 0) + [0];
      WordSumSplit(Repeated(2 * (n / 2), 0), [0]);
    } else {
      assert Repeated(n, 0) == Repeated(2 * (n / 2), 0);
    }
  }

  /** As many bytes as fit, all 255, one more 255, and zeroes. */
  function TooMany(n: nat): (b: seq<Byte>)
    requires n > MOST
    ensures |b| == n
  {
    Repeated(MOST, 255) + ([255] + Repeated(n - MOST - 1, 0))
  }

  /** One byte too many: the words add up to 2^32 + 65279, and the carry that wraps around is lost. */
  lemma CarryIsLost(n: nat)
    requires n > MOST
    ensures WordSum(TooMany(n)) == WORD32 + 65279
    ensures Fold(WordSum(TooMany(n)) % WORD32) == 65279 && Fold(WordSum(TooMany(n))) == 65280
  {
    hide WordSum;
    var tail := [255] + Repeated(n - MOST - 1, 0);
    WordSumSplit(Repeated(MOST, 255), tail);
    assert MOST == 2 * 65537;
    RepeatedSum(65537, 255);
    HighByteSum(n - MOST - 1);
  }

  lemma HighByteSum(n: nat)
    ensures WordSum([255] + Repeated(n, 0)) == 65280
  {
    var b := [255] + Repeated(n, 0);
    if n == 0 {
    } else {
      assert b[2..] == Repeated(n - 1, 0);
      ZeroSum(n - 1);
    }
  }

  /** The checksum is right for all strings of a length exactly when the length is at most 131074. */
  lemma RightLengths(n: nat)
    ensures n <= MOST <==> forall b: seq<Byte> :: |b| == n ==> ONES - Fold(WordSum(b) % WORD32) == ChecksumOf(b)
  {
    hide WordSum;
    if n <= MOST {
      forall b: seq<Byte> | |b| == n
        ensures ONES - Fold(WordSum(b) % WORD32) == ChecksumOf(b)
      {
        SumFits(b);
      }
    } else {
      CarryIsLost(n);
      assert |TooMany(n)| == n;
    }
  }
}
