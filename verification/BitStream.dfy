/**
 The one specification both ends of the bit codec are measured against: a buffer
 is the sequence of its bits, most significant bit of each byte first.
 */
module BitStream {
  import opened Words

  /** The low `n` bits of `v`, most significant first. */
  function ToBits(v: nat, n: nat): (bs: seq<bool>)
    ensures |bs| == n
  {
    seq(n, i requires 0 <= i < n => Bit(v, n - 1 - i))
  }

  /** The number a bit string denotes. */
  function FromBits(bs: seq<bool>): nat {
    if bs == [] then 0
    else 2 * FromBits(bs[..|bs| - 1]) + (if bs[|bs| - 1] then 1 else 0)
  }

  predicate StreamBit(bytes: seq<Byte>, i: nat)
    requires i < 8 * |bytes|
  {
    Bit(bytes[i / 8], 7 - i % 8)
  }

  /** All bits of a byte sequence. */
  function Unpack(bytes: seq<Byte>): (bs: seq<bool>)
    ensures |bs| == 8 * |bytes|
  {
    seq(8 * |bytes|, i requires 0 <= i < 8 * |bytes| => StreamBit(bytes, i))
  }

  /** `was` with the bits from `at` on overwritten by `bs`. */
  function Splice(was: seq<bool>, at: nat, bs: seq<bool>): (r: seq<bool>)
    requires at + |bs| <= |was|
    ensures |r| == |was|
  {
    was[..at] + bs + was[at + |bs|..]
  }

  function Zeros(n: nat): (bs: seq<bool>)
    ensures |bs| == n
  {
    seq(n, i => false)
  }

  // ---------- numbers and bit strings ----------

  lemma {:induction false} FromBitsBound(bs: seq<bool>)
    ensures FromBits(bs) < Pow2(|bs|)
  {
    if bs != [] { FromBitsBound(bs[..|bs| - 1]); }
  }

  lemma {:induction false} HalveFromBits(bs: seq<bool>)
    requires bs != []
    ensures FromBits(bs) / 2 == FromBits(bs[..|bs| - 1])
    ensures (FromBits(bs) % 2 == 1) == bs[|bs| - 1]
  {
  }

  lemma {:induction false} BitFromBits(bs: seq<bool>, k: nat)
    ensures Bit(FromBits(bs), k) == (k < |bs| && bs[|bs| - 1 - k])
    decreases k
  {
    if bs == [] {
      BitZero(k);
    } else if k == 0 {
      HalveFromBits(bs);
    } else {
      var init := bs[..|bs| - 1];
      HalveFromBits(bs);
      BitFromBits(init, k - 1);
      assert k < |bs| ==> bs[|bs| - 1 - k] == init[|init| - 1 - (k - 1)];
    }
  }

  /** Writing a number in `n` bits and reading it back keeps its low `n` bits. */
  lemma {:induction false} FromToBits(v: nat, n: nat)
    ensures FromBits(ToBits(v, n)) == Trunc(v, n)
    ensures v < Pow2(n) ==> FromBits(ToBits(v, n)) == v
  {
    FromBitsBound(ToBits(v, n));
    TruncBound(v, n);
    forall k: nat | k < n
      ensures Bit(FromBits(ToBits(v, n)), k) == Bit(Trunc(v, n), k)
    {
      BitFromBits(ToBits(v, n), k);
      BitTrunc(v, n, k);
    }
    SameBits(FromBits(ToBits(v, n)), Trunc(v, n), n);
    if v < Pow2(n) { TruncId(v, n); }
  }

  /** A bit string is determined by its length and its number. */
  lemma {:induction false} ToFromBits(bs: seq<bool>)
    ensures ToBits(FromBits(bs), |bs|) == bs
  {
    forall i | 0 <= i < |bs|
      ensures ToBits(FromBits(bs), |bs|)[i] == bs[i]
    {
      BitFromBits(bs, |bs| - 1 - i);
    }
  }

  /** The first bit weighs half the range. */
  lemma {:induction false} FromBitsHead(b: bool, bs: seq<bool>)
    ensures FromBits([b] + bs) == (if b then Pow2(|bs|) else 0) + FromBits(bs)
    decreases |bs|
  {
    if bs != [] {
      var init := bs[..|bs| - 1];
      assert ([b] + bs)[..|bs|] == [b] + init;
      FromBitsHead(b, init);
    }
  }

  /** Numbers that need only `w` bits are padded with zeros in front. */
  lemma {:induction false} ToBitsPad(v: nat, w: nat, n: nat)
    requires v < Pow2(w) && w <= n
    ensures ToBits(v, n) == Zeros(n - w) + ToBits(v, w)
  {
    forall i | 0 <= i < n - w
      ensures !ToBits(v, n)[i]
    {
      HighBitsClear(v, w, n - 1 - i);
    }
  }

  // ---------- bytes and bit strings ----------

  lemma {:induction false} UnpackByte(b: Byte)
    ensures Unpack([b]) == ToBits(b, 8)
  {
    forall i | 0 <= i < 8
      ensures Unpack([b])[i] == ToBits(b, 8)[i]
    {
      assert i / 8 == 0 && i % 8 == i;
    }
  }

  lemma {:induction false} UnpackConcat(a: seq<Byte>, b: seq<Byte>)
    ensures Unpack(a + b) == Unpack(a) + Unpack(b)
  {
    forall i | 0 <= i < 8 * |a + b|
      ensures Unpack(a + b)[i] == (Unpack(a) + Unpack(b))[i]
    {
      if i >= 8 * |a| {
        var j := i - 8 * |a|;
        assert i / 8 == |a| + j / 8 && i % 8 == j % 8;
      }
    }
  }

  lemma {:induction false} SpliceSplice(was: seq<bool>, at: nat, a: seq<bool>, b: seq<bool>)
    requires at + |a| + |b| <= |was|
    ensures Splice(Splice(was, at, a), at + |a|, b) == Splice(was, at, a + b)
  {
  }
}
