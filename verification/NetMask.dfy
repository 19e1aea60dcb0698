/**
 Netmask bytes: neb_netinet_fill_mask (src/net/ipaddr.c) writes a prefix length as a mask, and
 rn_addmask (compat/net_radix/radix.c) reads the index of a mask back and tests whether it is
 normal, i.e. contiguous.
 */
module NetMask {
  import opened Common

  /** The byte with only bit `j` set, bit 0 being the highest. */
  function BitMask(j: nat): (m: bv8)
    requires j < 8
  {
    match j
    case 0 => 0x80
    case 1 => 0x40
    case 2 => 0x20
    case 3 => 0x10
    case 4 => 0x08
    case 5 => 0x04
    case 6 => 0x02
    case 7 => 0x01
  }

  predicate Bit(x: bv8, j: nat)
    requires j < 8
  {
    x & BitMask(j) != 0
  }

  /** Bit `j` of a mask, counted from its first byte. */
  predicate MaskBit(mask: seq<bv8>, j: nat)
    requires j < 8 * |mask|
  {
    Bit(mask[j / 8], j % 8)
  }

  /** The first `n` bits are ones and all others are zeros. */
  ghost predicate IsPrefixMask(mask: seq<bv8>, n: nat)
  {
    n <= 8 * |mask| && forall j :: 0 <= j < 8 * |mask| ==> (MaskBit(mask, j) <==> j < n)
  }

  /** The byte whose first `n` bits are ones. */
  ghost predicate IsPrefixByte(x: bv8, n: nat)
  {
    n <= 8 && forall j :: 0 <= j < 8 ==> (Bit(x, j) <==> j < n)
  }

  function PrefixByte(n: nat): (x: bv8)
    requires n <= 8
    ensures IsPrefixByte(x, n)
  {
    match n
    case 0 => 0x00
    case 1 => 0x80
    case 2 => 0xC0
    case 3 => 0xE0
    case 4 => 0xF0
    case 5 => 0xF8
    case 6 => 0xFC
    case 7 => 0xFE
    case 8 => 0xFF
  }

  // ---------------------------------------------------------------------------
  // Writing a mask
  // ---------------------------------------------------------------------------

  /** The bytes that neb_netinet_fill_mask writes. */
  ghost function MaskBytes(prefix: nat): (s: seq<bv8>)
    ensures |s| > 0 && prefix <= 8 * |s| && 8 * (|s| - 1) < if prefix == 0 then 1 else prefix
  {
    if prefix > 8 then [0xFF] + MaskBytes(prefix - 8) else [PrefixByte(prefix)]
  }

  lemma ShiftedByte(prefix: nat)
    requires prefix <= 8
    ensures (((0xFF as bv16) << (8 - prefix)) & 0xFF) as bv8 == PrefixByte(prefix)
  {
    match prefix
    case 0 =>
    case 1 =>
    case 2 =>
    case 3 =>
    case 4 =>
    case 5 =>
    case 6 =>
    case 7 =>
    case 8 =>
  }

  /** neb_netinet_fill_mask from byte `at` on: it writes the bytes of the mask and no others. */
  method FillMask(a: array<bv8>, at: nat, prefix: nat)
    requires at < a.Length && prefix <= 8 * (a.Length - at)
    modifies a
    ensures at + |MaskBytes(prefix)| <= a.Length
    ensures forall i :: 0 <= i < |MaskBytes(prefix)| ==> a[at + i] == MaskBytes(prefix)[i]
    ensures forall i :: 0 <= i < at || at + |MaskBytes(prefix)| <= i < a.Length ==> a[i] == old(a[i])
    decreases prefix
  {
    if prefix > 8 {
      a[at] := 0xFF;
      FillMask(a, at + 1, prefix - 8);
      forall i | 0 <= i < |MaskBytes(prefix)| ensures a[at + i] == MaskBytes(prefix)[i] {
        if i > 0 {
          assert a[at + 1 + (i - 1)] == MaskBytes(prefix - 8)[i - 1];
        }
      }
    } else {
      ShiftedByte(prefix);
      a[at] := (((0xFF as bv16) << (8 - prefix)) & 0xFF) as bv8;
    }
  }

  ghost predicate AllZero(s: seq<bv8>)
  {
    forall i :: 0 <= i < |s| ==> s[i] == 0
  }

  /** A mask written over zero bytes is the prefix mask of its length. */
  lemma {:induction false} MaskBytesArePrefix(prefix: nat, rest: seq<bv8>)
    requires AllZero(rest)
    ensures IsPrefixMask(MaskBytes(prefix) + rest, prefix)
  {
    var s := MaskBytes(prefix) + rest;
    if prefix > 8 {
      var tail := MaskBytes(prefix - 8) + rest;
      MaskBytesArePrefix(prefix - 8, rest);
      assert s == [0xFF] + tail;
      forall j | 0 <= j < 8 * |s| ensures MaskBit(s, j) <==> j < prefix {
        if j < 8 {
          assert IsPrefixByte(PrefixByte(8), 8);
        } else {
          assert MaskBit(s, j) == MaskBit(tail, j - 8);
        }
      }
    } else {
      assert s == [PrefixByte(prefix)] + rest;
      forall j | 0 <= j < 8 * |s| ensures MaskBit(s, j) <==> j < prefix {
        if j < 8 {
          assert IsPrefixByte(s[0], prefix);
        } else {
          assert s[j / 8] == rest[j / 8 - 1];
        }
      }
    }
  }

  // ---------------------------------------------------------------------------
  // Reading a mask
  // ---------------------------------------------------------------------------

  /** The CONTIG test of rn_addmask. */
  predicate Contig(c: bv8)
  {
    ((!c + 1) & c) == !c + 1
  }

  lemma ContigIsListed(c: bv8)
    ensures Contig(c) <==> exists m :: 0 <= m <= 8 && c == PrefixByte(m)
  {
    assert Contig(c) <==> c == 0 || c == 0x80 || c == 0xC0 || c == 0xE0 || c == 0xF0 || c == 0xF8 || c == 0xFC || c == 0xFE || c == 0xFF;
    assert PrefixByte(0) == 0 && PrefixByte(1) == 0x80 && PrefixByte(2) == 0xC0 && PrefixByte(3) == 0xE0 && PrefixByte(4) == 0xF0;
    assert PrefixByte(5) == 0xF8 && PrefixByte(6) == 0xFC && PrefixByte(7) == 0xFE && PrefixByte(8) == 0xFF;
  }

  lemma SameBits(c: bv8, d: bv8)
    requires forall j :: 0 <= j < 8 ==> (Bit(c, j) <==> Bit(d, j))
    ensures c == d
  {
    assert (Bit(c, 0) <==> Bit(d, 0)) && (Bit(c, 1) <==> Bit(d, 1)) && (Bit(c, 2) <==> Bit(d, 2)) && (Bit(c, 3) <==> Bit(d, 3));
    assert (Bit(c, 4) <==> Bit(d, 4)) && (Bit(c, 5) <==> Bit(d, 5)) && (Bit(c, 6) <==> Bit(d, 6)) && (Bit(c, 7) <==> Bit(d, 7));
  }

  /** Number of ones before the first zero bit of a byte. */
  ghost predicate IsByteIndex(c: bv8, n: nat)
  {
    n <= 8 && (forall j :: 0 <= j < n ==> Bit(c, j)) && (n < 8 ==> !Bit(c, n))
  }

  /** A byte is contiguous exactly when it has nothing but zeros past its index. */
  lemma ContigIsPrefix(c: bv8, n: nat)
    requires IsByteIndex(c, n)
    ensures Contig(c) <==> IsPrefixByte(c, n)
  {
    ContigIsListed(c);
    if Contig(c) {
      var m :| 0 <= m <= 8 && c == PrefixByte(m);
      assert IsPrefixByte(c, m);
    }
    if IsPrefixByte(c, n) {
      SameBits(c, PrefixByte(n));
    }
  }

  /** What rn_addmask learns about a mask: the position of its first zero bit, and whether it is normal. */
  datatype Index = Index(bit: nat, normal: bool)

  /** The ones before the first zero bit. */
  ghost predicate IsIndex(mask: seq<bv8>, b: nat)
  {
    b <= 8 * |mask| && (forall j :: 0 <= j < b ==> MaskBit(mask, j)) && (b < 8 * |mask| ==> !MaskBit(mask, b))
  }

  lemma AllZeroBits(mask: seq<bv8>)
    ensures AllZero(mask) <==> IsPrefixMask(mask, 0)
  {
    if IsPrefixMask(mask, 0) {
      forall i | 0 <= i < |mask| ensures mask[i] == 0 {
        forall j | 0 <= j < 8 ensures Bit(mask[i], j) <==> Bit(0, j) {
          assert MaskBit(mask, 8 * i + j) == Bit(mask[i], j);
        }
        SameBits(mask[i], 0);
      }
    }
  }

  /** The first `n` bytes are all ones. */
  ghost predicate OnesUpTo(mask: seq<bv8>, n: nat)
  {
    n <= |mask| && forall i :: 0 <= i < n ==> mask[i] == 0xFF
  }

  lemma IndexOfWhole(mask: seq<bv8>, cp: nat)
    requires OnesUpTo(mask, cp) && AllZero(mask[cp..])
    ensures IsIndex(mask, 8 * cp) && IsPrefixMask(mask, 8 * cp)
  {
    forall j | 0 <= j < 8 * |mask| ensures MaskBit(mask, j) <==> j < 8 * cp {
      if j < 8 * cp {
        assert IsPrefixByte(PrefixByte(8), 8);
      } else {
        assert mask[j / 8] == mask[cp..][j / 8 - cp];
      }
    }
  }

  lemma IndexOfPart(mask: seq<bv8>, cp: nat, n: nat)
    requires OnesUpTo(mask, cp) && cp < |mask| && IsByteIndex(mask[cp], n) && n < 8
    ensures IsIndex(mask, 8 * cp + n)
  {
    forall j | 0 <= j < 8 * cp + n ensures MaskBit(mask, j) {
      if j < 8 * cp {
        assert IsPrefixByte(PrefixByte(8), 8);
      }
    }
  }

  lemma BitOfRest(mask: seq<bv8>, cp: nat, j: nat)
    requires cp <= |mask| && j < 8 * (|mask| - cp)
    ensures MaskBit(mask[cp..], j) == MaskBit(mask, 8 * cp + j)
  {
  }

  lemma NormalOfPart(mask: seq<bv8>, cp: nat, n: nat)
    requires cp < |mask| && n < 8 && IsIndex(mask, 8 * cp + n)
    ensures IsPrefixMask(mask, 8 * cp + n) <==> IsPrefixByte(mask[cp], n) && AllZero(mask[cp + 1..])
  {
    var b, rest := 8 * cp + n, mask[cp + 1..];
    AllZeroBits(rest);
    if IsPrefixByte(mask[cp], n) && AllZero(rest) {
      forall j | b <= j < 8 * |mask| ensures !MaskBit(mask, j) {
        if j >= 8 * (cp + 1) {
          BitOfRest(mask, cp + 1, j - 8 * (cp + 1));
        }
      }
    }
    if IsPrefixMask(mask, b) {
      forall j | 0 <= j < 8 ensures Bit(mask[cp], j) <==> j < n {
        assert MaskBit(mask, 8 * cp + j) == Bit(mask[cp], j);
      }
      forall j | 0 <= j < 8 * |rest| ensures !MaskBit(rest, j) {
        BitOfRest(mask, cp + 1, j);
      }
    }
  }

  /**
   The classification in rn_addmask: trailing zeros are trimmed, an empty mask is the default's,
   and otherwise the first zero bit is found and the rest is examined for contiguity.
   */
  method MaskIndex(mask: seq<bv8>) returns (r: Option<Index>)
    ensures r.None? <==> IsPrefixMask(mask, 0)
    ensures r.Some? ==> IsIndex(mask, r.value.bit) && (r.value.normal <==> IsPrefixMask(mask, r.value.bit))
  {
    AllZeroBits(mask);
    var mlen: nat := |mask|;
    while mlen > 0 && mask[mlen - 1] == 0
      invariant mlen <= |mask| && AllZero(mask[mlen..])
    {
      mlen := mlen - 1;
    }
    if mlen == 0 {
      assert mask[0..] == mask;
      return None;
    }
    assert mask[mlen - 1] != 0;
    var cp := 0;
    while cp < mlen && mask[cp] == 0xFF
      invariant cp <= mlen && OnesUpTo(mask, cp)
    {
      cp := cp + 1;
    }
    if cp == mlen {
      IndexOfWhole(mask, cp);
      return Some(Index(8 * cp, true));
    }
    var j := 0;
    LastBit(mask[cp]);
    while Bit(mask[cp], j)
      invariant j < 8 && forall i :: 0 <= i < j ==> Bit(mask[cp], i)
      decreases 8 - j
    {
      j := j + 1;
    }
    IndexOfPart(mask, cp, j);
    NormalOfPart(mask, cp, j);
    ContigIsPrefix(mask[cp], j);
    ZeroAfter(mask, mlen, cp);
    return Some(Index(8 * cp + j, Contig(mask[cp]) && cp == mlen - 1));
  }

  /** A byte other than 0xFF has a zero bit. */
  lemma LastBit(c: bv8)
    requires c != 0xFF
    ensures exists j :: 0 <= j < 8 && !Bit(c, j)
  {
    if forall j :: 0 <= j < 8 ==> Bit(c, j) {
      assert IsPrefixByte(PrefixByte(8), 8);
      SameBits(c, 0xFF);
    }
  }

  lemma ZeroAfter(mask: seq<bv8>, mlen: nat, cp: nat)
    requires cp < mlen <= |mask| && mask[mlen - 1] != 0 && AllZero(mask[mlen..])
    ensures AllZero(mask[cp + 1..]) <==> cp == mlen - 1
  {
    if cp < mlen - 1 {
      assert mask[cp + 1..][mlen - 1 - (cp + 1)] == mask[mlen - 1];
    }
  }

  lemma IndexIsUnique(mask: seq<bv8>, b: nat, n: nat)
    requires IsIndex(mask, b) && IsPrefixMask(mask, n)
    ensures b == n
  {
    if b < 8 * |mask| {
      assert MaskBit(mask, b) <==> b < n;
    }
    if b > 0 {
      assert MaskBit(mask, b - 1);
    }
  }

  /** Writing a prefix length and reading it back: rn_addmask finds a normal mask of exactly that index. */
  method WriteAndRead(width: nat, prefix: nat) returns (r: Option<Index>)
    requires width > 0 && prefix <= 8 * width
    ensures r == if prefix == 0 then None else Some(Index(prefix, true))
  {
    var a := new bv8[width](_ => 0);
    assert a[..] == seq(width, _ => 0);
    FillMask(a, 0, prefix);
    ghost var zeros := seq(width - |MaskBytes(prefix)|, _ => 0 as bv8);
    assert a[..] == MaskBytes(prefix) + zeros;
    MaskBytesArePrefix(prefix, zeros);
    if prefix > 0 {
      assert MaskBit(a[..], 0);
    }
    r := MaskIndex(a[..]);
    if r.Some? {
      IndexIsUnique(a[..], r.value.bit, prefix);
    }
  }
}
