/**
 The variable-length codes, each as a pair on bit strings: the codeword of a value,
 and the parser that a reader amounts to. The theorems say that a parser accepts
 exactly the codewords.
 */
module Codes {
  import opened Words
  import opened BitStream

  datatype Parsed<+T> = Fail | Done(value: T, rest: seq<bool>)

  /** The next `n` bits as a number. */
  function TakeBits(bs: seq<bool>, n: nat): Parsed<nat> {
    if |bs| < n then Fail else Done(FromBits(bs[..n]), bs[n..])
  }

  /** A fixed-width field holds the low bits of its value, and every bit string of that width is one. */
  lemma {:induction false} TakeBitsExact(bs: seq<bool>, n: nat, v: nat, rest: seq<bool>)
    ensures TakeBits(bs, n) == Done(v, rest) <==> v < Pow2(n) && bs == ToBits(v, n) + rest
  {
    if |bs| >= n {
      assert bs == bs[..n] + bs[n..];
      FromBitsBound(bs[..n]);
      ToFromBits(bs[..n]);
    }
    if v < Pow2(n) {
      FromToBits(v, n);
      assert (ToBits(v, n) + rest)[..n] == ToBits(v, n) && (ToBits(v, n) + rest)[n..] == rest;
    }
  }

  lemma {:induction false} ToBitsSnoc(x: nat, n: nat)
    requires n >= 1
    ensures ToBits(x, n) == ToBits(x / 2, n - 1) + [x % 2 == 1]
  {
    forall i | 0 <= i < n - 1
      ensures ToBits(x, n)[i] == ToBits(x / 2, n - 1)[i]
    {
      assert Bit(x, n - 1 - i) == Bit(x / 2, n - 2 - i);
    }
    assert ToBits(x, n)[n - 1] == Bit(x, 0);
  }

  // ---------- non-symmetric values: ns(n), section 4.10.7 of the AV1 specification ----------

  /** How many of the `numValues` values get the shorter codewords. */
  function ShortCount(numValues: nat): int {
    Pow2(BitWidth(numValues)) - numValues
  }

  function NonSymmetricCode(v: nat, numValues: nat): seq<bool>
    requires numValues >= 1
  {
    BitWidthBounds(numValues);
    var width, short := BitWidth(numValues), ShortCount(numValues);
    if v < short then ToBits(v, width - 1) else ToBits(v + short, width)
  }

  function ParseNonSymmetric(bs: seq<bool>, numValues: nat): Parsed<nat>
    requires numValues >= 1
  {
    BitWidthBounds(numValues);
    match TakeBits(bs, BitWidth(numValues) - 1)
    case Fail => Fail
    case Done(v, rest) => AfterShort(v, rest, ShortCount(numValues))
  }

  /** A value of the longer codewords takes one more bit. */
  function AfterShort(v: nat, rest: seq<bool>, short: nat): Parsed<nat> {
    if v < short then Done(v, rest)
    else if rest == [] then Fail
    else Done(2 * v + (if rest[0] then 1 else 0) - short, rest[1..])
  }

  lemma {:induction false} LongCodeword(x: nat, width: nat, rest: seq<bool>)
    requires width >= 1 && x < Pow2(width)
    ensures TakeBits(ToBits(x, width) + rest, width - 1) == Done(x / 2, [x % 2 == 1] + rest)
  {
    ToBitsSnoc(x, width);
    var tail := [x % 2 == 1] + rest;
    assert ToBits(x, width) + rest == ToBits(x / 2, width - 1) + tail;
    TakeBitsExact(ToBits(x, width) + rest, width - 1, x / 2, tail);
  }

  lemma {:induction false} ShortBounds(numValues: nat)
    requires numValues >= 1
    ensures var width, short := BitWidth(numValues), ShortCount(numValues);
      width >= 1 && 0 < short <= Pow2(width - 1) <= numValues && numValues + short == Pow2(width)
  {
    BitWidthBounds(numValues);
  }

  lemma {:induction false} AfterShortLong(x: nat, rest: seq<bool>, short: nat)
    requires x >= 2 * short
    ensures AfterShort(x / 2, [x % 2 == 1] + rest, short) == Done(x - short, rest)
  {
    assert ([x % 2 == 1] + rest)[1..] == rest;
  }

  lemma {:induction false} NonSymmetricRoundTrip(v: nat, numValues: nat, rest: seq<bool>)
    requires v < numValues
    ensures ParseNonSymmetric(NonSymmetricCode(v, numValues) + rest, numValues) == Done(v, rest)
  {
    hide TakeBits, ToBits, BitWidth, Pow2, ShortCount;
    ShortBounds(numValues);
    var width, short := BitWidth(numValues), ShortCount(numValues);
    if v < short {
      TakeBitsExact(ToBits(v, width - 1) + rest, width - 1, v, rest);
    } else {
      hide AfterShort;
      LongCodeword(v + short, width, rest);
      AfterShortLong(v + short, rest, short);
    }
  }

  lemma {:induction false} LongValue(u: nat, tail: seq<bool>, short: nat, width: nat)
    requires short <= u && tail != [] && width >= 1
    ensures var v := 2 * u + (if tail[0] then 1 else 0) - short;
      ToBits(u, width - 1) + tail == ToBits(v + short, width) + tail[1..]
  {
    hide ToBits;
    var x := 2 * u + if tail[0] then 1 else 0;
    assert x / 2 == u && (x % 2 == 1) == tail[0];
    ToBitsSnoc(x, width);
    assert tail == [tail[0]] + tail[1..];
  }

  lemma {:induction false} NonSymmetricCanonical(bs: seq<bool>, numValues: nat, v: nat, rest: seq<bool>)
    requires numValues >= 1 && ParseNonSymmetric(bs, numValues) == Done(v, rest)
    ensures v < numValues && bs == NonSymmetricCode(v, numValues) + rest
  {
    hide TakeBits, ToBits, BitWidth, Pow2, ShortCount;
    ShortBounds(numValues);
    var width, short := BitWidth(numValues), ShortCount(numValues);
    var Done(u, tail) := TakeBits(bs, width - 1);
    TakeBitsExact(bs, width - 1, u, tail);
    if u >= short {
      PowUp(width);
      LongValue(u, tail, short, width);
    }
  }

  lemma {:induction false} PowUp(n: nat)
    requires n >= 1
    ensures Pow2(n) == 2 * Pow2(n - 1)
  {
  }

  /** The number that each codeword denotes: the short ones count up from 0, the long ones go on behind them. */
  lemma {:induction false} NonSymmetricMeaning(v: nat, numValues: nat)
    requires v < numValues
    ensures var c, short := NonSymmetricCode(v, numValues), Pow2(BitWidth(numValues)) - numValues;
      if v < short then |c| == BitWidth(numValues) - 1 && FromBits(c) == v
      else |c| == BitWidth(numValues) && FromBits(c) == v + short
  {
    ShortBounds(numValues);
    hide ToBits, FromBits, BitWidth, Pow2;
    var width, short := BitWidth(numValues), ShortCount(numValues);
    if v < short {
      FromToBits(v, width - 1);
    } else {
      FromToBits(v + short, width);
    }
  }

  /** The reader accepts exactly the codewords of the values below `numValues`. */
  lemma {:induction false} NonSymmetricExact(bs: seq<bool>, numValues: nat, v: nat, rest: seq<bool>)
    requires numValues >= 1
    ensures ParseNonSymmetric(bs, numValues) == Done(v, rest)
            <==> v < numValues && bs == NonSymmetricCode(v, numValues) + rest
  {
    if v < numValues { NonSymmetricRoundTrip(v, numValues, rest); }
    if ParseNonSymmetric(bs, numValues) == Done(v, rest) {
      NonSymmetricCanonical(bs, numValues, v, rest);
    }
  }

  /** No codeword starts another one. */
  lemma {:induction false} NonSymmetricPrefixFree(v: nat, w: nat, numValues: nat)
    requires v < numValues && w < numValues
    requires NonSymmetricCode(v, numValues) <= NonSymmetricCode(w, numValues)
    ensures v == w
  {
    var a, b := NonSymmetricCode(v, numValues), NonSymmetricCode(w, numValues);
    NonSymmetricRoundTrip(v, numValues, b[|a|..]);
    NonSymmetricRoundTrip(w, numValues, []);
    assert a + b[|a|..] == b + [];
  }

  /** The 32-bit shift that both ends compute is the power of two it stands for. */
  lemma {:induction false} NonSymmetricSizes(numValues: nat)
    requires 1 <= numValues < 0x8000_0000
    ensures 1 <= BitWidth(numValues) < 32
    ensures numValues >= 2 ==> BitWidth(numValues) >= 2
    ensures 0 < ShortCount(numValues) && numValues + ShortCount(numValues) == Shl(1, BitWidth(numValues), 32) < WORD32
  {
    BitWidthBounds(numValues);
    Pow2Values();
    var w := BitWidth(numValues);
    if w >= 32 { Pow2Monotone(31, w - 1); }
    Pow2Monotone(w, 31);
    ShlOne(w, 32);
  }

  /** Of the sizes that pass the check, 2^31 is the one whose width is no valid shift of a 32-bit word. */
  lemma {:induction false} NonSymmetricWidth(numValues: nat)
    requires 1 <= numValues <= 0x8000_0000
    ensures BitWidth(numValues) < 32 <==> numValues < 0x8000_0000
  {
    Pow2Values();
    if numValues < 0x8000_0000 {
      NonSymmetricSizes(numValues);
    } else {
      BitWidthUnique(numValues, 32);
    }
  }

  // ---------- Exp-Golomb: section 9.1 of ITU-T H.264 ----------

  const GOLOMB_LIMIT := WORD32 - 1

  function GolombCode(v: nat): seq<bool> {
    BitWidthBounds(v + 1);
    Zeros(BitWidth(v + 1) - 1) + ToBits(v + 1, BitWidth(v + 1))
  }

  function LeadingZeros(bs: seq<bool>): (z: nat)
    ensures z <= |bs|
  {
    if bs == [] || bs[0] then 0 else 1 + LeadingZeros(bs[1..])
  }

  function ParseGolomb(bs: seq<bool>): Parsed<nat> {
    var z := LeadingZeros(bs);
    if z >= 32 || |bs| < 2 * z + 1 then Fail
    else Done(Pow2(z) + FromBits(bs[z + 1..2 * z + 1]) - 1, bs[2 * z + 1..])
  }

  lemma {:induction false} LeadingZerosExact(bs: seq<bool>, z: nat)
    ensures LeadingZeros(bs) == z && z < |bs| <==> z < |bs| && bs[..z] == Zeros(z) && bs[z]
    decreases z
  {
    if bs != [] && !bs[0] && z > 0 {
      LeadingZerosExact(bs[1..], z - 1);
      if z < |bs| {
        assert bs[..z] == [bs[0]] + bs[1..][..z - 1];
        assert Zeros(z) == [false] + Zeros(z - 1);
        assert bs[1..][z - 1] == bs[z];
      }
    } else if bs != [] && z > 0 && z < |bs| {
      assert bs[..z][0] && !Zeros(z)[0];
    }
  }

  /** A number of exactly `z + 1` binary digits is a one followed by `z` digits. */
  lemma {:induction false} LeadingOne(x: nat, z: nat)
    requires Pow2(z) <= x < Pow2(z + 1)
    ensures ToBits(x, z + 1)[0]
    ensures x == Pow2(z) + FromBits(ToBits(x, z + 1)[1..])
  {
    var bs := ToBits(x, z + 1);
    FromToBits(x, z + 1);
    FromBitsHead(bs[0], bs[1..]);
    assert bs == [bs[0]] + bs[1..];
    FromBitsBound(bs[1..]);
  }

  lemma {:induction false} GolombWidth(x: nat, z: nat)
    requires Pow2(z) <= x < Pow2(z + 1)
    ensures z < 32 <==> x < WORD32
  {
    Pow2Values();
    if z < 32 { Pow2Monotone(z + 1, 32); } else { Pow2Monotone(32, z); }
  }

  lemma {:induction false} GolombLayout(z: nat, digits: seq<bool>, rest: seq<bool>)
    requires z < 32 && |digits| == z + 1 && digits[0]
    ensures ParseGolomb(Zeros(z) + digits + rest) == Done(Pow2(z) + FromBits(digits[1..]) - 1, rest)
  {
    var bs := Zeros(z) + digits + rest;
    assert bs[..z] == Zeros(z) && bs[z] == digits[0];
    LeadingZerosExact(bs, z);
    assert bs[z + 1..2 * z + 1] == digits[1..];
    assert bs[2 * z + 1..] == rest;
  }

  lemma {:induction false} GolombParse(x: nat, z: nat, rest: seq<bool>)
    requires Pow2(z) <= x < Pow2(z + 1) && x < WORD32
    ensures ParseGolomb(Zeros(z) + ToBits(x, z + 1) + rest) == Done(x - 1, rest)
  {
    GolombWidth(x, z);
    LeadingOne(x, z);
    GolombLayout(z, ToBits(x, z + 1), rest);
  }

  lemma {:induction false} GolombRoundTrip(v: nat, rest: seq<bool>)
    requires v < GOLOMB_LIMIT
    ensures ParseGolomb(GolombCode(v) + rest) == Done(v, rest)
  {
    hide ParseGolomb, ToBits, Zeros, Pow2, BitWidth;
    BitWidthBounds(v + 1);
    GolombParse(v + 1, BitWidth(v + 1) - 1, rest);
  }

  lemma {:induction false} GolombUnparse(bs: seq<bool>, z: nat)
    requires z == LeadingZeros(bs) && 2 * z + 1 <= |bs|
    ensures var x := Pow2(z) + FromBits(bs[z + 1..2 * z + 1]);
      Pow2(z) <= x < Pow2(z + 1) && bs == Zeros(z) + ToBits(x, z + 1) + bs[2 * z + 1..]
  {
    LeadingZerosExact(bs, z);
    var tail := bs[z + 1..2 * z + 1];
    FromBitsBound(tail);
    FromBitsHead(true, tail);
    ToFromBits([true] + tail);
    assert bs == bs[..z] + ([bs[z]] + tail) + bs[2 * z + 1..];
  }

  lemma {:induction false} GolombCanonical(bs: seq<bool>, v: nat, rest: seq<bool>)
    requires ParseGolomb(bs) == Done(v, rest)
    ensures v < GOLOMB_LIMIT && bs == GolombCode(v) + rest
  {
    var z := LeadingZeros(bs);
    GolombUnparse(bs, z);
    BitWidthUnique(v + 1, z + 1);
    GolombWidth(v + 1, z);
  }

  /** The reader accepts exactly the codewords of the values below 2^32 - 1. */
  lemma {:induction false} GolombExact(bs: seq<bool>, v: nat, rest: seq<bool>)
    ensures ParseGolomb(bs) == Done(v, rest) <==> v < GOLOMB_LIMIT && bs == GolombCode(v) + rest
  {
    if v < GOLOMB_LIMIT { GolombRoundTrip(v, rest); }
    if ParseGolomb(bs) == Done(v, rest) { GolombCanonical(bs, v, rest); }
  }

  /** The single field the writer emits is the codeword. */
  lemma {:induction false} GolombField(v: nat)
    ensures BitWidth(v + 1) >= 1
    ensures |GolombCode(v)| == 2 * BitWidth(v + 1) - 1
    ensures ToBits(v + 1, 2 * BitWidth(v + 1) - 1) == GolombCode(v)
  {
    hide ToBits, Zeros, Pow2, BitWidth;
    BitWidthBounds(v + 1);
    ToBitsPad(v + 1, BitWidth(v + 1), 2 * BitWidth(v + 1) - 1);
  }

  // ---------- signed Exp-Golomb: section 9.1.1 of ITU-T H.264 ----------

  /** Place of `v` in the order 0, 1, -1, 2, -2, ... */
  function SignedIndex(v: int): nat {
    if v > 0 then 2 * v - 1 else -2 * v
  }

  function SignedAt(u: nat): int {
    if u % 2 == 0 then -(u / 2) else (u + 1) / 2
  }

  function ParseSignedGolomb(bs: seq<bool>): Parsed<int> {
    match ParseGolomb(bs)
    case Fail => Fail
    case Done(u, rest) => Done(SignedAt(u), rest)
  }

  /** The signed reader accepts exactly the codewords of -(2^31 - 1) .. 2^31 - 1. */
  lemma {:induction false} SignedGolombExact(bs: seq<bool>, v: int, rest: seq<bool>)
    ensures ParseSignedGolomb(bs) == Done(v, rest)
            <==> -0x8000_0000 < v < 0x8000_0000 && bs == GolombCode(SignedIndex(v)) + rest
  {
    hide ParseGolomb, GolombCode, SignedIndex, SignedAt;
    GolombExact(bs, SignedIndex(v), rest);
    SignedOrder(v, SignedIndex(v));
    match ParseGolomb(bs)
    case Fail =>
    case Done(u, tail) =>
      GolombExact(bs, u, tail);
      SignedOrder(v, u);
  }

  /** The order is by magnitude, from 0 on, with each positive value right before its negative. */
  lemma {:induction false} SignedMagnitude(v: int, w: int)
    ensures SignedIndex(0) == 0
    ensures v > 0 ==> SignedIndex(-v) == SignedIndex(v) + 1
    ensures 0 <= v < w ==> SignedIndex(v) < SignedIndex(w) && SignedIndex(-v) < SignedIndex(w)
  {
  }

  /** Index by index: 0, 1, -1, 2, -2, ... */
  lemma {:induction false} SignedSequence(k: nat)
    ensures SignedAt(0) == 0 && SignedAt(2 * k + 1) == k + 1 && SignedAt(2 * k + 2) == -(k + 1)
  {
  }

  lemma {:induction false} SignedOrder(v: int, u: nat)
    ensures SignedAt(u) == v <==> u == SignedIndex(v)
    ensures SignedIndex(v) < GOLOMB_LIMIT <==> -0x8000_0000 < v < 0x8000_0000
  {
  }

  // ---------- LEB128 ----------

  const LEB_MAX_BYTES := 10

  function LebCode(v: nat): seq<Byte> {
    if v < 128 then [v] else [v % 128 + 128] + LebCode(v / 128)
  }

  /** The number a group of bytes denotes: seven bits each, least significant group first. */
  function LebValue(group: seq<Byte>): nat {
    if group == [] then 0 else group[0] % 128 + 128 * LebValue(group[1..])
  }

  /** Every byte but the last announces another one. */
  predicate IsLebGroup(group: seq<Byte>) {
    if group == [] then false
    else if |group| == 1 then group[0] < 128
    else group[0] >= 128 && IsLebGroup(group[1..])
  }

  /** The group at the front of `bs`, if it ends within `limit` bytes. */
  function TakeLebGroup(bs: seq<bool>, limit: nat): Parsed<seq<Byte>>
    decreases limit, |bs|
  {
    if limit == 0 || |bs| < 8 then Fail
    else
      var b := ByteOf(bs[..8]);
      if b < 128 then Done([b], bs[8..])
      else match TakeLebGroup(bs[8..], limit - 1)
           case Fail => Fail
           case Done(group, rest) => Done([b] + group, rest)
  }

  function ByteOf(bs: seq<bool>): Byte
    requires |bs| == 8
  {
    FromBitsBound(bs);
    PowByte();
    FromBits(bs)
  }

  function ParseLeb(bs: seq<bool>): Parsed<nat> {
    match TakeLebGroup(bs, LEB_MAX_BYTES)
    case Fail => Fail
    case Done(group, rest) => if LebValue(group) < WORD64 then Done(LebValue(group), rest) else Fail
  }

  lemma {:induction false} ByteFront(b: Byte, rest: seq<bool>)
    ensures |Unpack([b]) + rest| >= 8
    ensures ByteOf((Unpack([b]) + rest)[..8]) == b && (Unpack([b]) + rest)[8..] == rest
  {
    UnpackByte(b);
    PowByte();
    FromToBits(b, 8);
    assert (Unpack([b]) + rest)[..8] == ToBits(b, 8);
  }

  lemma {:induction false} UnpackByteOf(bs: seq<bool>)
    requires |bs| == 8
    ensures Unpack([ByteOf(bs)]) == bs
  {
    UnpackByte(ByteOf(bs));
    ToFromBits(bs);
  }

  lemma {:induction false} LebGroupRoundTrip(group: seq<Byte>, rest: seq<bool>, limit: nat)
    requires IsLebGroup(group) && |group| <= limit
    ensures TakeLebGroup(Unpack(group) + rest, limit) == Done(group, rest)
    decreases group
  {
    var b, tail := group[0], group[1..];
    assert group == [b] + tail;
    UnpackConcat([b], tail);
    assert Unpack(group) + rest == Unpack([b]) + (Unpack(tail) + rest);
    ByteFront(b, Unpack(tail) + rest);
    if |group| == 1 {
      assert group == [b] && Unpack(tail) + rest == rest;
    } else {
      LebGroupRoundTrip(tail, rest, limit - 1);
    }
  }

  lemma {:induction false} LebGroupCanonical(bs: seq<bool>, limit: nat)
    requires TakeLebGroup(bs, limit).Done?
    ensures var Done(group, rest) := TakeLebGroup(bs, limit);
      IsLebGroup(group) && |group| <= limit && bs == Unpack(group) + rest
    decreases limit
  {
    var b := ByteOf(bs[..8]);
    UnpackByteOf(bs[..8]);
    assert bs == bs[..8] + bs[8..];
    if b >= 128 {
      LebGroupCanonical(bs[8..], limit - 1);
      var group := TakeLebGroup(bs[8..], limit - 1).value;
      assert ([b] + group)[1..] == group;
      UnpackConcat([b], group);
    }
  }

  /** The reader accepts exactly the groups of at most ten bytes whose value fits 64 bits. */
  lemma {:induction false} LebExact(bs: seq<bool>, v: nat, rest: seq<bool>)
    ensures ParseLeb(bs) == Done(v, rest)
            <==> exists group :: IsLebGroup(group) && |group| <= 10
                                 && LebValue(group) == v < WORD64 && bs == Unpack(group) + rest
  {
    if ParseLeb(bs) == Done(v, rest) {
      LebGroupCanonical(bs, LEB_MAX_BYTES);
    }
    forall group | IsLebGroup(group) && |group| <= 10
                   && LebValue(group) == v < WORD64 && bs == Unpack(group) + rest
      ensures ParseLeb(bs) == Done(v, rest)
    {
      LebGroupRoundTrip(group, rest, LEB_MAX_BYTES);
    }
  }

  lemma {:induction false} LebCodeValue(v: nat)
    ensures IsLebGroup(LebCode(v)) && LebValue(LebCode(v)) == v
  {
    if v >= 128 {
      LebCodeValue(v / 128);
      assert LebCode(v)[1..] == LebCode(v / 128);
    }
  }

  /** Byte `i` holds bits 7 * i to 7 * i + 6 of the value, and its high bit says whether another byte follows. */
  lemma {:induction false} LebDigits(v: nat, i: nat)
    requires i < |LebCode(v)|
    ensures LebCode(v)[i] % 128 == v / Pow2(7 * i) % 128
    ensures LebCode(v)[i] >= 128 <==> i < |LebCode(v)| - 1
    decreases i
  {
    if i == 0 {
      LebLonger(v);
    } else {
      LebDigits(v / 128, i - 1);
      assert Pow2(7) == 128;
      ShrIsDiv(v, 7);
      ShrIsDiv(v / 128, 7 * (i - 1));
      ShrIsDiv(v, 7 * i);
      ShrTwice(v, 7, 7 * (i - 1));
    }
  }

  lemma {:induction false} LebLonger(v: nat)
    ensures |LebCode(v)| >= 1 && (v >= 128 ==> |LebCode(v)| >= 2)
  {
    if v >= 128 { LebLonger(v / 128); }
  }

  lemma {:induction false} ShrTwice(v: nat, a: nat, b: nat)
    ensures Shr(Shr(v, a), b) == Shr(v, a + b)
    decreases a
  {
    if a > 0 { ShrTwice(v / 2, a - 1, b); }
  }

  /** The codeword is the shortest group for its value. */
  lemma {:induction false} LebCodeShortest(v: nat, group: seq<Byte>)
    requires IsLebGroup(group) && LebValue(group) == v
    ensures |LebCode(v)| <= |group|
    decreases group
  {
    if |group| == 1 {
      assert group[1..] == [];
    } else if v >= 128 {
      assert LebValue(group[1..]) == v / 128;
      LebCodeShortest(v / 128, group[1..]);
    }
  }

  lemma {:induction false} LebCodeLength(v: nat, n: nat)
    requires n >= 1 && v < Pow2(7 * n)
    ensures 1 <= |LebCode(v)| <= n
    decreases n
  {
    Pow2Add(7, 7 * (n - 1));
    assert Pow2(7) == 128;
    if v >= 128 { LebCodeLength(v / 128, n - 1); }
  }

  lemma {:induction false} LebRoundTrip(v: nat, rest: seq<bool>)
    requires v < WORD64
    ensures 1 <= |LebCode(v)| <= 10
    ensures ParseLeb(Unpack(LebCode(v)) + rest) == Done(v, rest)
  {
    Pow2Values();
    Pow2Monotone(64, 70);
    LebCodeLength(v, 10);
    LebCodeValue(v);
    LebGroupRoundTrip(LebCode(v), rest, LEB_MAX_BYTES);
  }

  // ---------- strings ----------

  /** The next `n` bytes. */
  function TakeBytes(bs: seq<bool>, n: nat): Parsed<seq<Byte>>
    decreases n
  {
    if n == 0 then Done([], bs)
    else if |bs| < 8 then Fail
    else match TakeBytes(bs[8..], n - 1)
         case Fail => Fail
         case Done(tail, rest) => Done([ByteOf(bs[..8])] + tail, rest)
  }

  lemma {:induction false} TakeBytesExact(bs: seq<bool>, n: nat, text: seq<Byte>, rest: seq<bool>)
    ensures TakeBytes(bs, n) == Done(text, rest) <==> |text| == n && bs == Unpack(text) + rest
    decreases n
  {
    if n == 0 {
      assert text == [] ==> Unpack(text) + rest == rest;
    } else if |text| >= 1 {
      var b, tail := text[0], text[1..];
      assert text == [b] + tail;
      UnpackConcat([b], tail);
      if |bs| >= 8 {
        TakeBytesExact(bs[8..], n - 1, tail, rest);
        UnpackByteOf(bs[..8]);
        ByteFront(b, Unpack(tail) + rest);
        assert bs == bs[..8] + bs[8..];
        assert Unpack(text) + rest == Unpack([b]) + (Unpack(tail) + rest);
      }
    }
  }
}
