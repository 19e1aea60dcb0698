/**
 Internet checksum (src/sock/csum.c): the word-parallel, alignment-sensitive sum, the
 pseudo-header sums and the four functions that fill a checksum field in place.
 Machine integers are written out: 32-bit sums wrap at W32.
 */
module Checksum {
  import opened Common

  /** BYTE_ORDER of the host. */
  datatype Endian = Little | Big

  const W16 := 0x1_0000
  const W32 := 0x1_0000_0000
  const ONES := 0xFFFF
  const IPPROTO_TCP := 6
  const TH_SUM := 16
  const ICMP_CKSUM := 2
  const IP_SUM := 10

  type Word32 = w: int | 0 <= w < W32

  // ---------------------------------------------------------------------------
  // Specification (sections 1 and 2 of RFC 1071)
  // ---------------------------------------------------------------------------

  /** The 16-bit value of the byte pair `a`, `b` as the host reads it from memory. */
  function Pair(e: Endian, a: Byte, b: Byte): int
  {
    if e.Little? then a + 256 * b else 256 * a + b
  }

  /** Ones'-complement addition of 16-bit words: the carry comes back in at the low end. */
  function OnesAdd(a: int, b: int): int
  {
    if a + b < W16 then a + b else a + b - ONES
  }

  /** Ones'-complement sum of the 16-bit words of `m`; an odd last byte is padded with zero. */
  ghost function WordSum(e: Endian, m: seq<Byte>): (r: int)
    ensures 0 <= r <= ONES
    decreases |m|
  {
    if |m| == 0 then 0
    else if |m| % 2 == 1 then OnesAdd(WordSum(e, m[..|m| - 1]), Pair(e, m[|m| - 1], 0))
    else OnesAdd(WordSum(e, m[..|m| - 2]), Pair(e, m[|m| - 2], m[|m| - 1]))
  }

  /** The receiver's test: with the checksum field included the words add up to all ones. */
  ghost predicate Verifies(m: seq<Byte>)
  {
    WordSum(Big, m) == ONES
  }

  // ---------------------------------------------------------------------------
  // Arithmetic of the unreduced sum
  // ---------------------------------------------------------------------------

  /** Contribution of byte `b` at an even (`even`) or odd position of a 16-bit word. */
  function Lane(e: Endian, even: bool, b: Byte): int
  {
    if e.Little? == even then b else 256 * b
  }

  /** Plain sum of the first `n` bytes of `m`; `odd` exchanges the two lanes. */
  ghost function LaneSum(e: Endian, odd: bool, m: seq<Byte>, n: nat): (r: nat)
    requires n <= |m|
  {
    if n == 0 then 0 else LaneSum(e, odd, m, n - 1) + Lane(e, ((n - 1) % 2 == 0) != odd, m[n - 1])
  }

  ghost function Total(e: Endian, m: seq<Byte>): (r: nat)
  {
    LaneSum(e, false, m, |m|)
  }

  /** The 16-bit representative of a sum: cast out 65535 until it fits. */
  ghost function Reduce(s: nat): (r: nat)
    ensures r <= ONES && (r == 0 <==> s == 0)
  {
    if s <= ONES then s else Reduce(s - ONES)
  }

  /** Reduce in closed form: zero for zero, else the representative in 1..65535. */
  lemma {:induction false} ReduceIsModulo(s: nat)
    ensures Reduce(s) == if s == 0 then 0 else (s - 1) % ONES + 1
  {
    if s > ONES {
      ReduceIsModulo(s - ONES);
      assert (s - 1) % ONES == (s - ONES - 1) % ONES;
    }
  }

  lemma {:induction false} ReduceMultiple(a: nat, k: nat)
    requires a > 0 || k == 0
    ensures Reduce(a + ONES * k) == Reduce(a)
  {
    if k > 0 {
      ReduceMultiple(a, k - 1);
      assert a + ONES * k == a + ONES * (k - 1) + ONES;
    }
  }

  lemma {:induction false} ReduceFirst(a: nat, b: nat)
    ensures Reduce(a + b) == Reduce(Reduce(a) + b)
  {
    if a > ONES {
      ReduceFirst(a - ONES, b);
    }
  }

  /** Sums may be taken of any numbers with the same representatives. */
  lemma ReduceSum(a: nat, a': nat, b: nat, b': nat)
    requires Reduce(a) == Reduce(a') && Reduce(b) == Reduce(b')
    ensures Reduce(a + b) == Reduce(a' + b')
  {
    ReduceFirst(a, b);
    ReduceFirst(a', b);
    ReduceFirst(b, a');
    ReduceFirst(b', a');
  }

  lemma {:induction false} ReduceTimes256(a: nat)
    ensures Reduce(256 * a) == Reduce(256 * Reduce(a))
  {
    if a > ONES {
      ReduceTimes256(a - ONES);
      ReduceMultiple(256 * (a - ONES), 256);
    }
  }

  lemma OnesAddIsReduce(a: nat, w: nat)
    requires w <= ONES
    ensures OnesAdd(Reduce(a), w) == Reduce(a + w)
  {
    ReduceFirst(a, w);
  }

  lemma {:induction false} WordSumIsReducedTotal(e: Endian, m: seq<Byte>, n: nat)
    requires n <= |m|
    ensures WordSum(e, m[..n]) == Reduce(LaneSum(e, false, m, n))
  {
    if n > 0 {
      var k := if n % 2 == 1 then n - 1 else n - 2;
      WordSumIsReducedTotal(e, m, k);
      var w := LastWord(e, m, n);
      OnesAddIsReduce(LaneSum(e, false, m, k), w);
    }
  }

  /** The last word of the first `n` bytes, in both sums. */
  lemma LastWord(e: Endian, m: seq<Byte>, n: nat) returns (w: nat)
    requires 0 < n <= |m|
    ensures w <= ONES
    ensures var k := if n % 2 == 1 then n - 1 else n - 2;
            && WordSum(e, m[..n]) == OnesAdd(WordSum(e, m[..k]), w)
            && LaneSum(e, false, m, n) == LaneSum(e, false, m, k) + w
  {
    if n % 2 == 1 {
      assert m[..n][..n - 1] == m[..n - 1];
      w := Pair(e, m[n - 1], 0);
    } else {
      assert m[..n][..n - 2] == m[..n - 2];
      assert LaneSum(e, false, m, n - 1) == LaneSum(e, false, m, n - 2) + Lane(e, true, m[n - 2]);
      w := Pair(e, m[n - 2], m[n - 1]);
    }
  }

  lemma WordSumIsReduced(e: Endian, m: seq<Byte>)
    ensures WordSum(e, m) == Reduce(Total(e, m))
  {
    WordSumIsReducedTotal(e, m, |m|);
    assert m[..|m|] == m;
  }

  /** Exchanging the lanes multiplies the sum by 256 (section 2(B) of RFC 1071). */
  lemma {:induction false} SwappedLanes(e: Endian, odd: bool, e': Endian, odd': bool, m: seq<Byte>, n: nat)
    requires n <= |m| && (e == e') != (odd == odd')
    ensures Reduce(LaneSum(e, odd, m, n)) == Reduce(256 * LaneSum(e', odd', m, n))
  {
    if n > 0 {
      SwappedLanes(e, odd, e', odd', m, n - 1);
      var b := m[n - 1];
      var x := Lane(e, ((n - 1) % 2 == 0) != odd, b);
      var y := Lane(e', ((n - 1) % 2 == 0) != odd', b);
      if y != b {
        ReduceMultiple(b, b);
      }
      ReduceSum(LaneSum(e, odd, m, n - 1), 256 * LaneSum(e', odd', m, n - 1), x, 256 * y);
    }
  }

  /** The receiver's test does not depend on the byte order in which the sum is taken. */
  lemma VerifiesInEitherOrder(e: Endian, m: seq<Byte>)
    ensures Verifies(m) <==> WordSum(e, m) == ONES
  {
    if WordSum(e, m) == ONES && e == Little {
      SameTest(Big, e, m);
    } else if WordSum(Big, m) == ONES && e == Little {
      SameTest(e, Big, m);
    }
  }

  lemma SameTest(e: Endian, e': Endian, m: seq<Byte>)
    requires e != e' && WordSum(e', m) == ONES
    ensures WordSum(e, m) == ONES
  {
    WordSumIsReduced(e, m);
    WordSumIsReduced(e', m);
    SwappedLanes(e, false, e', false, m, |m|);
    ReduceTimes256(Total(e', m));
    ReduceMultiple(ONES, 255);
  }

  lemma {:induction false} ConcatTotal(e: Endian, a: seq<Byte>, b: seq<Byte>, n: nat)
    requires |a| % 2 == 0 && n <= |b|
    ensures LaneSum(e, false, a + b, |a| + n) == Total(e, a) + LaneSum(e, false, b, n)
    decreases n
  {
    if n == 0 {
      PrefixTotal(e, a, a + b, |a|);
    } else {
      ConcatTotal(e, a, b, n - 1);
      assert (a + b)[|a| + n - 1] == b[n - 1];
    }
  }

  lemma {:induction false} PrefixTotal(e: Endian, a: seq<Byte>, b: seq<Byte>, n: nat)
    requires n <= |a| && n <= |b| && a[..n] == b[..n]
    ensures LaneSum(e, false, a, n) == LaneSum(e, false, b, n)
  {
    if n > 0 {
      assert a[n - 1] == a[..n][n - 1] == b[..n][n - 1] == b[n - 1];
      assert a[..n - 1] == a[..n][..n - 1] == b[..n][..n - 1] == b[..n - 1];
      PrefixTotal(e, a, b, n - 1);
    }
  }

  /** Storing one byte adds the change of that byte's lane to the sum. */
  lemma {:induction false} StoreByte(e: Endian, m: seq<Byte>, k: nat, v: Byte, n: nat)
    requires k < |m| && n <= |m|
    ensures LaneSum(e, false, m[k := v], n)
         == LaneSum(e, false, m, n) + (if k < n then Lane(e, k % 2 == 0, v) - Lane(e, k % 2 == 0, m[k]) else 0)
  {
    if n > 0 {
      StoreByte(e, m, k, v, n - 1);
    }
  }

  lemma {:induction false} ZeroTotal(e: Endian, odd: bool, m: seq<Byte>, n: nat)
    requires n <= |m|
    ensures LaneSum(e, odd, m, n) == 0 <==> forall k :: 0 <= k < n ==> m[k] == 0
  {
    if n > 0 {
      ZeroTotal(e, odd, m, n - 1);
    }
  }

  // ---------------------------------------------------------------------------
  // do_csum
  // ---------------------------------------------------------------------------

  function Read16(e: Endian, m: seq<Byte>, i: nat): (r: int)
    requires i + 2 <= |m|
    ensures 0 <= r < W16
  {
    Pair(e, m[i], m[i + 1])
  }

  function Read32(e: Endian, m: seq<Byte>, i: nat): (r: Word32)
    requires i + 4 <= |m|
  {
    if e.Little? then Read16(e, m, i) + W16 * Read16(e, m, i + 2)
    else W16 * Read16(e, m, i) + Read16(e, m, i + 2)
  }

  lemma LastByteLane(e: Endian, odd: bool, m: seq<Byte>, i: nat)
    requires i < |m| && (i % 2 == 0) != odd
    ensures LaneSum(e, odd, m, i + 1) == LaneSum(e, odd, m, i) + Lane(e, true, m[i])
  {
  }

  lemma Read16Lanes(e: Endian, odd: bool, m: seq<Byte>, i: nat)
    requires i + 2 <= |m| && (i % 2 == 0) != odd
    ensures LaneSum(e, odd, m, i + 2) == LaneSum(e, odd, m, i) + Read16(e, m, i)
  {
    assert LaneSum(e, odd, m, i + 1) == LaneSum(e, odd, m, i) + Lane(e, true, m[i]);
  }

  lemma Read32Lanes(e: Endian, odd: bool, m: seq<Byte>, i: nat)
    requires i + 4 <= |m| && (i % 2 == 0) != odd
    ensures LaneSum(e, odd, m, i + 4) == LaneSum(e, odd, m, i) + Read16(e, m, i) + Read16(e, m, i + 2)
    ensures Reduce(Read32(e, m, i)) == Reduce(Read16(e, m, i) + Read16(e, m, i + 2))
  {
    Read16Lanes(e, odd, m, i);
    Read16Lanes(e, odd, m, i + 2);
    if e.Little? {
      FoldedHalves(Read16(e, m, i), Read16(e, m, i + 2));
    } else {
      FoldedHalves(Read16(e, m, i + 2), Read16(e, m, i));
    }
  }

  /** A word and the sum of its halves have the same representative. */
  lemma FoldedHalves(lo: nat, hi: nat)
    requires lo < W16
    ensures Reduce(lo + W16 * hi) == Reduce(lo + hi)
  {
    if lo + hi > 0 {
      ReduceMultiple(lo + hi, hi);
    }
  }

  /** One folding step adds the high part to the low 16 bits. */
  function Fold(x: nat): (r: nat)
    ensures x > 0 ==> r > 0
  {
    x % W16 + x / W16
  }

  lemma FoldKeepsSum(x: nat)
    ensures Reduce(Fold(x)) == Reduce(x)
  {
    if x > 0 {
      ReduceMultiple(Fold(x), x / W16);
      assert x == Fold(x) + ONES * (x / W16);
    }
  }

  function From32to16(x: Word32): (r: nat)
    ensures r <= ONES
  {
    Fold(Fold(x))
  }

  lemma From32to16IsReduce(x: Word32)
    ensures From32to16(x) == Reduce(x)
  {
    FoldKeepsSum(x);
    FoldKeepsSum(Fold(x));
  }

  function SwapBytes(x: nat): (r: nat)
    requires x <= ONES
    ensures r <= ONES
  {
    x / 256 + 256 * (x % 256)
  }

  lemma SwapIsTimes256(x: nat)
    requires x <= ONES
    ensures SwapBytes(x) == Reduce(256 * x)
  {
    if x > 0 {
      ReduceMultiple(SwapBytes(x), x / 256);
      assert 256 * x == SwapBytes(x) + ONES * (x / 256);
    }
  }

  /** Addition of 32-bit words that notices the carry by comparing with an operand. */
  lemma WrappedSum(r: Word32, w: Word32)
    ensures (r + w) % W32 == if r + w < W32 then r + w else r + w - W32
    ensures w > (r + w) % W32 <==> r + w >= W32
  {
  }

  /** The carry out of 32 bits counts as one. */
  lemma CarryCounts(x: nat)
    requires W32 <= x
    ensures Reduce(x - W32 + 1) == Reduce(x)
  {
    ReduceMultiple(x - W32 + 1, 65537);
  }

  /** One round of the 32-bit loop: the carry out of the last addition is added before the next. */
  lemma CarryRound(result: Word32, carry: int, w: Word32, s: nat, u: nat)
    requires carry == 0 || (carry == 1 && result < W32 - 1)
    requires Reduce(result + carry) == Reduce(s) && Reduce(w) == Reduce(u)
    ensures var r := ((result + carry) % W32 + w) % W32;
            var c := if w > r then 1 else 0;
            && (c == 1 ==> r < W32 - 1)
            && Reduce(r + c) == Reduce(s + u)
  {
    ReduceSum(result + carry, s, w, u);
    WrappedSum(result + carry, w);
    if result + carry + w >= W32 {
      CarryCounts(result + carry + w);
    }
  }

  /** One round at position `p` turns the sum of the bytes before it into that of the next four. */
  lemma WordStep(e: Endian, odd: bool, m: seq<Byte>, p: nat, result: Word32, carry: int)
    requires p + 4 <= |m| && (p % 2 == 0) != odd
    requires carry == 0 || (carry == 1 && result < W32 - 1)
    requires Reduce(result + carry) == Reduce(LaneSum(e, odd, m, p))
    ensures var w := Read32(e, m, p);
            var r := ((result + carry) % W32 + w) % W32;
            var c := if w > r then 1 else 0;
            && (c == 1 ==> r < W32 - 1)
            && Reduce(r + c) == Reduce(LaneSum(e, odd, m, p + 4))
  {
    Read32Lanes(e, odd, m, p);
    var u := Read16(e, m, p) + Read16(e, m, p + 2);
    CarryRound(result, carry, Read32(e, m, p), LaneSum(e, odd, m, p), u);
  }

  lemma HalfStep(e: Endian, odd: bool, m: seq<Byte>, p: nat, acc: nat)
    requires p + 2 <= |m| && (p % 2 == 0) != odd
    requires Reduce(acc) == Reduce(LaneSum(e, odd, m, p))
    ensures Reduce(acc + Read16(e, m, p)) == Reduce(LaneSum(e, odd, m, p + 2))
  {
    Read16Lanes(e, odd, m, p);
    var w := Read16(e, m, p);
    ReduceSum(acc, LaneSum(e, odd, m, p), w, w);
  }

  lemma ByteStep(e: Endian, odd: bool, m: seq<Byte>, p: nat, acc: nat)
    requires p < |m| && (p % 2 == 0) != odd
    requires Reduce(acc) == Reduce(LaneSum(e, odd, m, p))
    ensures Reduce(acc + Lane(e, true, m[p])) == Reduce(LaneSum(e, odd, m, p + 1))
  {
    LastByteLane(e, odd, m, p);
    var w := Lane(e, true, m[p]);
    ReduceSum(acc, LaneSum(e, odd, m, p), w, w);
  }

  /** All that the code looks at of an address: its two low bits. */
  type Align = a: int | 0 <= a < 4

  ghost predicate Odd(align: Align)
  {
    align == 1 || align == 3
  }

  /** An offset from a buffer at `align` that is a multiple of four bytes, or of two. */
  ghost predicate Aligned32(align: Align, p: int)
  {
    align + p == 0 || align + p == 4
  }

  ghost predicate Aligned16(align: Align, p: int)
  {
    Aligned32(align, p) || align + p == 2
  }

  /**
   The `n` 32-bit words from `start` on, and the fold that follows them.
   `start` is on a 32-bit boundary, hence so is every word.
   */
  method SumWords(e: Endian, align: Align, buff: seq<Byte>, start: nat, n: nat, seed: Word32)
    returns (result: Word32)
    requires start < 4 && start + 4 * n <= |buff| && Aligned32(align, start)
    requires Reduce(seed) == Reduce(LaneSum(e, Odd(align), buff, start))
    ensures Reduce(result) == Reduce(LaneSum(e, Odd(align), buff, start + 4 * n))
    ensures result <= 2 * ONES
  {
    ghost var odd := Odd(align);
    result := seed;
    var carry := 0;
    for k := 0 to n
      invariant carry == 0 || (carry == 1 && result < W32 - 1)
      invariant Reduce(result + carry) == Reduce(LaneSum(e, odd, buff, start + 4 * k))
    {
      var p := start + 4 * k;
      WordParity(start, k);
      var w := Read32(e, buff, p);
      WordStep(e, odd, buff, p, result, carry);
      result := (result + carry) % W32;
      result := (result + w) % W32;
      carry := if w > result then 1 else 0;
    }
    result := result + carry;
    FoldKeepsSum(result);
    result := Fold(result);
  }

  lemma {:induction false} WordParity(start: nat, k: nat)
    ensures (start + 4 * k) % 2 == start % 2
  {
    if k > 0 {
      WordParity(start, k - 1);
      var x := start + 4 * (k - 1);
      assert (x + 4) % 2 == x % 2;
    }
  }

  /** The odd first byte and the half word that bring the cursor to a 32-bit boundary. */
  method SumHead(e: Endian, align: Align, buff: seq<Byte>) returns (acc: Word32, p: nat)
    ensures p <= |buff| && p < 4 && acc <= 2 * ONES
    ensures acc == LaneSum(e, Odd(align), buff, p)
    ensures |buff| - p >= 1 ==> Aligned16(align, p)
    ensures |buff| - p >= 2 ==> Aligned32(align, p)
  {
    acc, p := 0, 0;
    if (align == 1 || align == 3) && |buff| > 0 {
      acc := Lane(e, false, buff[0]);
      p := 1;
      assert LaneSum(e, true, buff, 1) == LaneSum(e, true, buff, 0) + Lane(e, false, buff[0]);
    }
    if |buff| - p >= 2 && align + p == 2 {
      Read16Lanes(e, Odd(align), buff, p);
      acc := acc + Read16(e, buff, p);
      p := p + 2;
    }
  }

  /** What is left after the last whole word: a half word, a byte, both or nothing. */
  method SumTail(e: Endian, ghost odd: bool, buff: seq<Byte>, start: nat, seed: Word32) returns (acc: Word32)
    requires start <= |buff| < start + 4 && seed <= 2 * ONES
    requires start < |buff| ==> (start % 2 == 0) != odd
    requires Reduce(seed) == Reduce(LaneSum(e, odd, buff, start))
    ensures Reduce(acc) == Reduce(LaneSum(e, odd, buff, |buff|))
  {
    var p := start;
    acc := seed;
    if |buff| - start >= 2 {
      HalfStep(e, odd, buff, p, acc);
      acc := acc + Read16(e, buff, p);
      p := p + 2;
    }
    if p < |buff| {
      ByteStep(e, odd, buff, p, acc);
      acc := acc + Lane(e, true, buff[p]);
    }
  }

  /** Everything up to the final fold: an accumulator for the lanes as the address sets them. */
  method SumBytes(e: Endian, align: Align, buff: seq<Byte>) returns (acc: Word32)
    ensures Reduce(acc) == Reduce(LaneSum(e, Odd(align), buff, |buff|))
  {
    var p: nat;
    acc, p := SumHead(e, align, buff);
    var n := (|buff| - p) / 4;
    WordParity(p, n);
    if n > 0 {
      acc := SumWords(e, align, buff, p, n, acc);
    }
    acc := SumTail(e, Odd(align), buff, p + 4 * n, acc);
  }

  /** do_csum on bytes at any alignment: the value does not depend on it. */
  method DoCsum(e: Endian, align: Align, buff: seq<Byte>) returns (result: nat)
    ensures result == WordSum(e, buff)
  {
    if |buff| <= 0 {
      return 0;
    }
    var acc := SumBytes(e, align, buff);
    From32to16IsReduce(acc);
    WordSumIsReduced(e, buff);
    result := From32to16(acc);
    if align == 1 || align == 3 {
      SwappedIsPlain(e, buff);
      result := SwapBytes(result);
    }
  }

  /** Swapping the reduced sum of exchanged lanes gives the reduced sum of the bytes. */
  lemma SwappedIsPlain(e: Endian, m: seq<Byte>)
    ensures SwapBytes(Reduce(LaneSum(e, true, m, |m|))) == Reduce(Total(e, m))
  {
    var s := LaneSum(e, true, m, |m|);
    SwapIsTimes256(Reduce(s));
    ReduceTimes256(s);
    SwappedLanes(e, false, e, true, m, |m|);
  }

  // ---------------------------------------------------------------------------
  // Partial sums, pseudo-headers and folding
  // ---------------------------------------------------------------------------

  /** 32-bit addition with end-around carry, as csum_partial and csum_ipv6_magic write it. */
  function AddCarry(sum: Word32, w: Word32): (r: Word32)
  {
    var s := (sum + w) % W32;
    if s < w then s + 1 else s
  }

  lemma AddCarryAdds(sum: Word32, w: Word32, s: nat, u: nat)
    requires Reduce(sum) == Reduce(s) && Reduce(w) == Reduce(u)
    ensures Reduce(AddCarry(sum, w)) == Reduce(s + u)
  {
    ReduceSum(sum, s, w, u);
    WrappedSum(sum, w);
    if sum + w >= W32 {
      CarryCounts(sum + w);
    }
  }

  method CsumPartial(e: Endian, align: Align, buff: seq<Byte>, wsum: Word32) returns (r: Word32)
    ensures Reduce(r) == Reduce(Total(e, buff) + wsum)
    ensures r == if WordSum(e, buff) + wsum < W32 then WordSum(e, buff) + wsum else WordSum(e, buff) + wsum - W32 + 1
  {
    var c := DoCsum(e, align, buff);
    WordSumIsReduced(e, buff);
    ReduceFirst(Total(e, buff), 0);
    AddCarryAdds(c, wsum, Total(e, buff), wsum);
    r := AddCarry(c, wsum);
  }

  function From64to32(x: nat): (r: Word32)
    requires x < W32 * W32
  {
    var y := x % W32 + x / W32;
    y % W32 + y / W32
  }

  /** Folding at 32 bits keeps the sum as well, because 2^32 is congruent to one too. */
  lemma Fold32KeepsSum(x: nat)
    ensures x > 0 ==> x % W32 + x / W32 > 0
    ensures Reduce(x % W32 + x / W32) == Reduce(x)
  {
    if x > 0 {
      var q := x / W32;
      ReduceMultiple(x % W32 + q, 65537 * q);
      assert x == x % W32 + q + ONES * (65537 * q);
    }
  }

  lemma From64to32KeepsSum(x: nat)
    requires x < W32 * W32
    ensures Reduce(From64to32(x)) == Reduce(x)
  {
    Fold32KeepsSum(x);
    Fold32KeepsSum(x % W32 + x / W32);
  }

  /** Pseudo-header of TCP over IPv4 (section 3.1 of RFC 9293). */
  function PseudoHeader4(src: seq<Byte>, dst: seq<Byte>, proto: Byte, len: nat): (m: seq<Byte>)
    requires len < W16
  {
    src + dst + [0, proto, len / 256, len % 256]
  }

  /** Big-endian image of a 32-bit number. */
  function Be32(x: Word32): (m: seq<Byte>)
    ensures |m| == 4
  {
    [x / 0x100_0000, x / 0x1_0000 % 256, x / 256 % 256, x % 256]
  }

  /** Pseudo-header of an upper layer over IPv6 (section 8.1 of RFC 8200). */
  function PseudoHeader6(src: seq<Byte>, dst: seq<Byte>, proto: Byte, len: Word32): (m: seq<Byte>)
  {
    src + dst + Be32(len) + Be32(proto)
  }

  lemma Total4(e: Endian, m: seq<Byte>)
    requires |m| == 4
    ensures Total(e, m) == Read16(e, m, 0) + Read16(e, m, 2)
    ensures Reduce(Read32(e, m, 0)) == Reduce(Total(e, m))
  {
    Read32Lanes(e, false, m, 0);
  }

  lemma TotalOfConcat(e: Endian, a: seq<Byte>, b: seq<Byte>)
    requires |a| % 2 == 0
    ensures Total(e, a + b) == Total(e, a) + Total(e, b)
  {
    ConcatTotal(e, a, b, |b|);
  }

  /** The length and protocol term of csum_tcpudp_nofold in host order. */
  function LengthProto(e: Endian, len: nat, proto: nat): nat
  {
    if e.Big? then proto + len else (proto + len) * 256
  }

  lemma LengthProtoIsTrailer(e: Endian, len: nat, proto: Byte)
    requires len < W16
    ensures Reduce(LengthProto(e, len, proto)) == Reduce(Total(e, [0, proto, len / 256, len % 256]))
  {
    var m: seq<Byte> := [0, proto, len / 256, len % 256];
    Total4(e, m);
    if e.Little? {
      var s := 256 * proto + len / 256 + 256 * (len % 256);
      assert LengthProto(e, len, proto) == s + ONES * (len / 256);
      if s > 0 {
        ReduceMultiple(s, len / 256);
      }
    }
  }

  method CsumTcpudpNofold(e: Endian, src: seq<Byte>, dst: seq<Byte>, len: nat, proto: Byte, sum: Word32)
    returns (r: Word32)
    requires |src| == 4 && |dst| == 4 && len < W16
    ensures Reduce(r) == Reduce(Total(e, PseudoHeader4(src, dst, proto, len)) + sum)
  {
    var saddr, daddr := Read32(e, src, 0), Read32(e, dst, 0);
    var s := sum + saddr;
    s := s + daddr;
    s := s + LengthProto(e, len, proto);
    PseudoHeader4Adds(e, src, dst, len, proto, sum);
    From64to32KeepsSum(s);
    r := From64to32(s);
  }

  lemma PseudoHeader4Adds(e: Endian, src: seq<Byte>, dst: seq<Byte>, len: nat, proto: Byte, sum: nat)
    requires |src| == 4 && |dst| == 4 && len < W16
    ensures Reduce(sum + Read32(e, src, 0) + Read32(e, dst, 0) + LengthProto(e, len, proto))
         == Reduce(Total(e, PseudoHeader4(src, dst, proto, len)) + sum)
  {
    var trailer: seq<Byte> := [0, proto, len / 256, len % 256];
    Total4(e, src);
    Total4(e, dst);
    LengthProtoIsTrailer(e, len, proto);
    TotalOfConcat(e, src, dst);
    TotalOfConcat(e, src + dst, trailer);
    ReduceSum(sum, sum, Read32(e, src, 0), Total(e, src));
    ReduceSum(sum + Read32(e, src, 0), sum + Total(e, src), Read32(e, dst, 0), Total(e, dst));
    ReduceSum(sum + Read32(e, src, 0) + Read32(e, dst, 0), sum + Total(e, src) + Total(e, dst),
              LengthProto(e, len, proto), Total(e, trailer));
  }

  function CsumFold(csum: Word32): (r: nat)
    ensures r <= ONES
  {
    ONES - From32to16(csum)
  }

  /** Adding the four 32-bit words of an address, one carry at a time. */
  method AddAddress(e: Endian, a: seq<Byte>, sum: Word32) returns (r: Word32)
    requires |a| == 16
    ensures Reduce(r) == Reduce(sum + Total(e, a))
  {
    r := sum;
    for i := 0 to 4
      invariant Reduce(r) == Reduce(sum + LaneSum(e, false, a, 4 * i))
    {
      var w := Read32(e, a, 4 * i);
      Read32Lanes(e, false, a, 4 * i);
      AddCarryAdds(r, w, sum + LaneSum(e, false, a, 4 * i), Read16(e, a, 4 * i) + Read16(e, a, 4 * i + 2));
      r := AddCarry(r, w);
    }
  }

  /** Adding a number in network byte order: htobe32, then one carry. */
  method AddBe32(e: Endian, x: Word32, sum: Word32) returns (r: Word32)
    ensures Reduce(r) == Reduce(sum + Total(e, Be32(x)))
  {
    Total4(e, Be32(x));
    var w := Read32(e, Be32(x), 0);
    AddCarryAdds(sum, w, sum, Total(e, Be32(x)));
    r := AddCarry(sum, w);
  }

  lemma PseudoHeader6Total(e: Endian, src: seq<Byte>, dst: seq<Byte>, len: Word32, proto: Byte)
    requires |src| == 16 && |dst| == 16
    ensures Total(e, PseudoHeader6(src, dst, proto, len))
         == Total(e, src) + Total(e, dst) + Total(e, Be32(len)) + Total(e, Be32(proto))
  {
    TotalOfConcat(e, src, dst);
    TotalOfConcat(e, src + dst, Be32(len));
    TotalOfConcat(e, src + dst + Be32(len), Be32(proto));
  }

  /** Replacing the summed part of `x + y` by another number that stands for it. */
  lemma ChainSum(r: nat, x: nat, r': nat, y: nat)
    requires Reduce(r) == Reduce(x) && Reduce(r') == Reduce(r + y)
    ensures Reduce(r') == Reduce(x + y)
  {
    ReduceSum(r, x, y, y);
  }

  method CsumIpv6Magic(e: Endian, src: seq<Byte>, dst: seq<Byte>, len: Word32, proto: Byte, csum: Word32)
    returns (r: nat)
    requires |src| == 16 && |dst| == 16
    ensures r == ONES - Reduce(Total(e, PseudoHeader6(src, dst, proto, len)) + csum)
  {
    ghost var s, d, l, p := Total(e, src), Total(e, dst), Total(e, Be32(len)), Total(e, Be32(proto));
    var sum1 := AddAddress(e, src, csum);
    var sum2 := AddAddress(e, dst, sum1);
    ChainSum(sum1, csum + s, sum2, d);
    var sum3 := AddBe32(e, len, sum2);
    ChainSum(sum2, csum + s + d, sum3, l);
    var sum4 := AddBe32(e, proto, sum3);
    ChainSum(sum3, csum + s + d + l, sum4, p);
    PseudoHeader6Total(e, src, dst, len, proto);
    From32to16IsReduce(sum4);
    r := CsumFold(sum4);
  }

  // ---------------------------------------------------------------------------
  // Filling a checksum field
  // ---------------------------------------------------------------------------

  /** The bytes of a 16-bit store in host order. */
  function Stored(e: Endian, m: seq<Byte>, off: nat, v: nat): (r: seq<Byte>)
    requires off + 2 <= |m| && v <= ONES
    ensures |r| == |m|
  {
    if e.Little? then m[off := v % 256][off + 1 := v / 256]
    else m[off := v / 256][off + 1 := v % 256]
  }

  method Store16(e: Endian, m: array<Byte>, off: nat, v: nat)
    requires off + 2 <= m.Length && v <= ONES
    modifies m
    ensures m[..] == Stored(e, old(m[..]), off, v)
  {
    if e.Little? {
      m[off], m[off + 1] := v % 256, v / 256;
    } else {
      m[off], m[off + 1] := v / 256, v % 256;
    }
  }

  /** Filling a zeroed field that the first `n` bytes cover adds the value to their sum. */
  lemma StoredTotal(e: Endian, m: seq<Byte>, off: nat, v: nat, n: nat)
    requires off % 2 == 0 && off + 2 <= n <= |m| && v <= ONES
    requires m[off] == 0 && m[off + 1] == 0
    ensures LaneSum(e, false, Stored(e, m, off, v), n) == LaneSum(e, false, m, n) + v
  {
    var a, b := if e.Little? then v % 256 else v / 256, if e.Little? then v / 256 else v % 256;
    StoreByte(e, m, off, a, n);
    StoreByte(e, m[off := a], off + 1, b, n);
  }

  /** The complement of the sum, put into the zeroed field, makes the packet verify. */
  lemma ComplementVerifies(e: Endian, head: seq<Byte>, m: seq<Byte>, off: nat, n: nat, v: nat)
    requires |head| % 2 == 0 && off % 2 == 0 && off + 2 <= n <= |m|
    requires m[off] == 0 && m[off + 1] == 0
    requires v == ONES - Reduce(Total(e, head) + Total(e, m[..n]))
    ensures Verifies(head + Stored(e, m, off, v)[..n])
  {
    var m' := Stored(e, m, off, v);
    var s := Total(e, head) + Total(e, m[..n]);
    StoredTotal(e, m, off, v, n);
    PrefixTotal(e, m'[..n], m', n);
    PrefixTotal(e, m[..n], m, n);
    TotalOfConcat(e, head, m'[..n]);
    assert Total(e, head + m'[..n]) == s + v;
    ReduceFirst(s, v);
    WordSumIsReduced(e, head + m'[..n]);
    VerifiesInEitherOrder(e, head + m'[..n]);
  }

  lemma ComplementOfWordSum(e: Endian, m: seq<Byte>, off: nat, n: nat, v: nat)
    requires off % 2 == 0 && off + 2 <= n <= |m|
    requires m[off] == 0 && m[off + 1] == 0
    requires v == ONES - WordSum(e, m[..n])
    ensures Verifies(Stored(e, m, off, v)[..n])
  {
    WordSumIsReduced(e, m[..n]);
    ComplementVerifies(e, [], m, off, n, v);
    assert [] + Stored(e, m, off, v)[..n] == Stored(e, m, off, v)[..n];
  }

  /** Everything but the two bytes of the field is left alone. */
  ghost predicate OnlyField(before: seq<Byte>, after: seq<Byte>, off: nat)
  {
    && |before| == |after|
    && forall k :: 0 <= k < |before| && k != off && k != off + 1 ==> after[k] == before[k]
  }

  /** The 16-bit field at `off` in network byte order. */
  function Field(m: seq<Byte>, off: nat): (v: nat)
    requires off + 2 <= |m|
  {
    var high: int, low: int := m[off], m[off + 1];
    256 * high + low
  }

  /** The sum in network byte order is the byte-swapped one of a little-endian host. */
  lemma WordSumInNetworkOrder(m: seq<Byte>)
    ensures WordSum(Big, m) == SwapBytes(WordSum(Little, m))
  {
    WordSumIsReduced(Big, m);
    WordSumIsReduced(Little, m);
    SwappedLanes(Big, false, Little, false, m, |m|);
    ReduceTimes256(Total(Little, m));
    SwapIsTimes256(Reduce(Total(Little, m)));
  }

  /** A complement that the host stores reads as the complement of the sum in network byte order. */
  lemma StoredComplement(e: Endian, m: seq<Byte>, off: nat, v: nat, summed: seq<Byte>)
    requires off + 2 <= |m| && v == ONES - WordSum(e, summed)
    ensures Field(Stored(e, m, off, v), off) == ONES - WordSum(Big, summed)
  {
    if e.Little? {
      WordSumInNetworkOrder(summed);
      var x := WordSum(e, summed);
      assert v / 256 == 255 - x / 256 && v % 256 == 255 - x % 256;
    }
  }

  /** The complement of the sum of a pseudo-header and a packet with a zero field, put into that field. */
  lemma FilledField(e: Endian, head: seq<Byte>, m: seq<Byte>, off: nat, n: nat, v: nat)
    requires |head| % 2 == 0 && off % 2 == 0 && off + 2 <= n <= |m|
    requires m[off] == 0 && m[off + 1] == 0
    requires v == ONES - Reduce(Total(e, head) + Total(e, m[..n]))
    ensures Verifies(head + Stored(e, m, off, v)[..n])
    ensures Field(Stored(e, m, off, v), off) == ONES - WordSum(Big, head + m[..n])
  {
    ComplementVerifies(e, head, m, off, n, v);
    TotalOfConcat(e, head, m[..n]);
    WordSumIsReduced(e, head + m[..n]);
    StoredComplement(e, m, off, v, head + m[..n]);
  }

  lemma Quotient(q: nat, r: nat)
    requires r < 256
    ensures (256 * q + r) / 256 == q && (256 * q + r) % 256 == r
  {
  }

  /** The length in the pseudo-header is the low half of the given one. */
  lemma ShortLength(src: seq<Byte>, dst: seq<Byte>, len: nat)
    ensures PseudoHeader4(src, dst, IPPROTO_TCP, len % W16) == src + dst + [0, 6, len / 256 % 256, len % 256]
  {
    var k, low := len / W16, len % W16;
    var high := low / 256;
    assert len == W16 * k + low && low == 256 * high + low % 256 && 0 <= high < 256;
    assert len == 256 * (256 * k + high) + low % 256;
    Quotient(256 * k + high, low % 256);
    Quotient(k, high);
  }

  /**
   neb_sock_csum_tcp4_fill: the field gets the complement of the sum of the pseudo-header and the
   segment with a zero field; the length enters the pseudo-header as an unsigned short.
   */
  method Tcp4Fill(e: Endian, align: Align, src: seq<Byte>, dst: seq<Byte>, tcp: array<Byte>, l4len: nat)
    requires |src| == 4 && |dst| == 4 && 18 <= l4len <= tcp.Length
    modifies tcp
    ensures OnlyField(old(tcp[..]), tcp[..], 16)
    ensures Verifies(src + dst + [0, 6, l4len / 256 % 256, l4len % 256] + tcp[..l4len])
    ensures Field(tcp[..], 16)
         == 0xFFFF - WordSum(Big, src + dst + [0, 6, l4len / 256 % 256, l4len % 256] + old(tcp[..])[16 := 0][17 := 0][..l4len])
  {
    hide PseudoHeader4, Verifies, Field;
    ghost var zeroed := tcp[..][16 := 0][17 := 0];
    Store16(e, tcp, TH_SUM, 0);
    assert tcp[..] == zeroed && tcp[..l4len] == zeroed[..l4len];
    var partial := CsumPartial(e, align, tcp[..l4len], 0);
    var sum := CsumTcpudpNofold(e, src, dst, l4len % W16, IPPROTO_TCP, partial);
    ghost var head := src + dst + [0, 6, l4len / 256 % 256, l4len % 256];
    ShortLength(src, dst, l4len);
    ReduceSum(Total(e, head), Total(e, head), partial, Total(e, zeroed[..l4len]));
    From32to16IsReduce(sum);
    var v := CsumFold(sum);
    FilledField(e, head, zeroed, 16, l4len, v);
    Store16(e, tcp, TH_SUM, v);
    assert tcp[..l4len] == tcp[..][..l4len];
  }

  lemma LongLength(src: seq<Byte>, dst: seq<Byte>, len: Word32)
    ensures PseudoHeader6(src, dst, IPPROTO_TCP, len)
         == src + dst + [len / 0x100_0000, len / 0x1_0000 % 256, len / 256 % 256, len % 256, 0, 0, 0, 6]
  {
    assert Be32(len) + Be32(IPPROTO_TCP) == [len / 0x100_0000, len / 0x1_0000 % 256, len / 256 % 256, len % 256, 0, 0, 0, 6];
  }

  /** neb_sock_csum_tcp6_fill. */
  method Tcp6Fill(e: Endian, align: Align, src: seq<Byte>, dst: seq<Byte>, tcp: array<Byte>, l4len: nat)
    requires |src| == 16 && |dst| == 16 && 18 <= l4len <= tcp.Length && l4len < W32
    modifies tcp
    ensures OnlyField(old(tcp[..]), tcp[..], 16)
    ensures Verifies(src + dst + [l4len / 0x100_0000, l4len / 0x1_0000 % 256, l4len / 256 % 256, l4len % 256, 0, 0, 0, 6] + tcp[..l4len])
    ensures Field(tcp[..], 16)
         == 0xFFFF - WordSum(Big, src + dst + [l4len / 0x100_0000, l4len / 0x1_0000 % 256, l4len / 256 % 256, l4len % 256, 0, 0, 0, 6] + old(tcp[..])[16 := 0][17 := 0][..l4len])
  {
    hide PseudoHeader6, Verifies, Field;
    ghost var zeroed := tcp[..][16 := 0][17 := 0];
    Store16(e, tcp, TH_SUM, 0);
    assert tcp[..] == zeroed && tcp[..l4len] == zeroed[..l4len];
    var partial := CsumPartial(e, align, tcp[..l4len], 0);
    var v := CsumIpv6Magic(e, src, dst, l4len, IPPROTO_TCP, partial);
    ghost var head := src + dst + [l4len / 0x100_0000, l4len / 0x1_0000 % 256, l4len / 256 % 256, l4len % 256, 0, 0, 0, 6];
    LongLength(src, dst, l4len);
    ReduceSum(Total(e, head), Total(e, head), partial, Total(e, zeroed[..l4len]));
    FilledField(e, head, zeroed, 16, l4len, v);
    Store16(e, tcp, TH_SUM, v);
    assert tcp[..l4len] == tcp[..][..l4len];
  }

  /** neb_sock_csum_icmp4_fill. */
  method Icmp4Fill(e: Endian, align: Align, icmp: array<Byte>, l4len: nat)
    requires 4 <= l4len <= icmp.Length
    modifies icmp
    ensures OnlyField(old(icmp[..]), icmp[..], 2)
    ensures Verifies(icmp[..l4len])
    ensures Field(icmp[..], 2) == 0xFFFF - WordSum(Big, old(icmp[..])[2 := 0][3 := 0][..l4len])
  {
    ghost var zeroed := icmp[..][2 := 0][3 := 0];
    Store16(e, icmp, ICMP_CKSUM, 0);
    assert icmp[..] == zeroed && zeroed[..l4len] == icmp[..l4len];
    var partial := CsumPartial(e, align, icmp[..l4len], 0);
    From32to16IsReduce(partial);
    WordSumIsReduced(e, zeroed[..l4len]);
    var v := CsumFold(partial);
    ComplementOfWordSum(e, zeroed, 2, l4len, v);
    StoredComplement(e, zeroed, 2, v, zeroed[..l4len]);
    Store16(e, icmp, ICMP_CKSUM, v);
    assert icmp[..l4len] == icmp[..][..l4len];
  }

  /** Header length in bytes as the header itself states it (ip_hl, 32-bit words). */
  function HeaderBytes(first: Byte): (n: nat)
    ensures n <= 60
  {
    first % 16 * 4
  }

  /**
   neb_sock_csum_ip4_fill. The header length comes from the packet: `ihl` words, next to the
   version in the first byte. With three words or more the field is covered and the header
   verifies afterwards; with fewer the field lies outside, and the covered part verifies exactly
   when it did before. In both cases the field gets the complement of the sum.
   */
  method Ip4Fill(e: Endian, align: Align, ip: array<Byte>, ghost version: nat, ghost ihl: nat)
    requires 12 <= ip.Length && version < 16 && ihl < 16 && ip[0] == 16 * version + ihl && 4 * ihl <= ip.Length
    modifies ip
    ensures OnlyField(old(ip[..]), ip[..], 10)
    ensures Verifies(ip[..4 * ihl]) <==> ihl >= 3 || Verifies(old(ip[..4 * ihl]))
    ensures Field(ip[..], 10) == 0xFFFF - WordSum(Big, old(ip[..])[10 := 0][11 := 0][..4 * ihl])
  {
    hide Verifies, Field;
    var n := HeaderBytes(ip[0]);
    assert n == 4 * ihl;
    ghost var zeroed := ip[..][10 := 0][11 := 0];
    Store16(e, ip, IP_SUM, 0);
    assert ip[..] == zeroed && zeroed[..n] == ip[..n];
    var c := DoCsum(e, align, ip[..n]);
    if n >= IP_SUM + 2 {
      ComplementOfWordSum(e, zeroed, 10, n, ONES - c);
    }
    StoredComplement(e, zeroed, 10, ONES - c, zeroed[..n]);
    Store16(e, ip, IP_SUM, ONES - c);
    assert ip[..n] == ip[..][..n];
    assert n < IP_SUM + 2 ==> ip[..n] == old(ip[..n]);
  }
}
