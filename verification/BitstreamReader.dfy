/**
 webrtc::BitstreamReader: a cursor over immutable bytes that is driven only by the
 number of bits left, and whose failure state absorbs every later read.
 */
module Reader {
  import opened Words
  import opened BitStream
  import opened Codes

  const INT_MAX := 0x7FFF_FFFF

  // ---------- what the read loop keeps ----------

  /** The 64 bits that are `got` followed by `left` zeros, and zeros in front. */
  function Padded(got: seq<bool>, left: nat): (bs: seq<bool>)
    requires |got| + left <= 64
    ensures |bs| == 64
  {
    Zeros(64 - |got| - left) + got + Zeros(left)
  }

  lemma {:induction false} PaddedAt(got: seq<bool>, left: nat, i: nat)
    requires |got| + left <= 64 && i < 64
    ensures var front := 64 - |got| - left;
      Padded(got, left)[i] <==> front <= i < front + |got| && got[i - front]
  {
  }

  lemma {:induction false} WordAt(v: nat, i: nat)
    requires i < 64
    ensures ToBits(v, 64)[i] == Bit(v, 63 - i)
  {
  }

  /** Register `v` holds the bits `got` followed by `left` zeros, and zeros in front. */
  ghost predicate Loaded(v: nat, got: seq<bool>, left: nat) {
    && |got| + left <= 64
    && v < Pow2(64)
    && ToBits(v, 64) == Padded(got, left)
  }

  lemma {:induction false} LoadNothing(left: nat)
    requires left <= 64
    ensures Loaded(0, [], left)
  {
    forall i | 0 <= i < 64 ensures !ToBits(0, 64)[i] { BitZero(63 - i); }
  }

  /** Or-ing the next bits into the gap left for them. */
  lemma {:induction false} LoadMore(v: nat, x: nat, got: seq<bool>, more: seq<bool>, left: nat)
    requires |more| <= left && Loaded(v, got, left) && Loaded(x, more, left - |more|)
    ensures Loaded(Or(v, x), got + more, left - |more|)
  {
    OrBound(v, x, 64);
    hide Or, Pow2, Bit, ToBits, Padded;
    var r := Or(v, x);
    forall i | 0 <= i < 64
      ensures ToBits(r, 64)[i] == Padded(got + more, left - |more|)[i]
    {
      BitOr(v, x, 63 - i);
      WordAt(r, i);
      WordAt(v, i);
      WordAt(x, i);
      PaddedAt(got, left, i);
      PaddedAt(more, left - |more|, i);
      PaddedAt(got + more, left - |more|, i);
    }
  }

  lemma {:induction false} ShiftedAt(x: nat, n: nat, left: nat, i: nat)
    requires n + left <= 64 && x < Pow2(n) && i < 64
    ensures ToBits(Shl(x, left, 64), 64)[i] == Padded(ToBits(x, n), left)[i]
  {
    hide Shl, Pow2, Bit, Padded;
    BitShl(x, left, 64, 63 - i);
    WordAt(Shl(x, left, 64), i);
    PaddedAt(ToBits(x, n), left, i);
    if i < 64 - n - left { HighBitsClear(x, n, 63 - i - left); }
  }

  /** A word of at most `n` bits, shifted left by `left`. */
  lemma {:induction false} LoadShifted(x: nat, n: nat, left: nat)
    requires n + left <= 64 && x < Pow2(n)
    ensures Loaded(Shl(x, left, 64), ToBits(x, n), left)
  {
    TruncBound(Double(x, left), 64);
    hide Pow2, Bit, Padded, ToBits;
    forall i | 0 <= i < 64
      ensures ToBits(Shl(x, left, 64), 64)[i] == Padded(ToBits(x, n), left)[i]
    {
      ShiftedAt(x, n, left, i);
    }
  }

  lemma {:induction false} LoadPlain(x: nat, n: nat)
    requires n <= 64 && x < Pow2(n)
    ensures Loaded(x, ToBits(x, n), 0)
  {
    Pow2Monotone(n, 64);
    ToBitsPad(x, n, 64);
    assert Zeros(64 - n) + ToBits(x, n) + Zeros(0) == Zeros(64 - n) + ToBits(x, n);
  }

  lemma {:induction false} LoadDone(v: nat, got: seq<bool>)
    requires Loaded(v, got, 0)
    ensures v == FromBits(got)
  {
    FromBitsBound(got);
    Pow2Monotone(|got|, 64);
    ToBitsPad(FromBits(got), |got|, 64);
    ToFromBits(got);
    assert ToBits(v, 64) == ToBits(FromBits(got), 64);
    FromToBits(v, 64);
    FromToBits(FromBits(got), 64);
  }

  // ---------- the pieces of a byte ----------

  lemma {:induction false} ByteSlice(data: seq<Byte>, at: nat, i: nat, j: nat)
    requires at < |data| && i <= j <= 8
    ensures Unpack(data)[8 * at + i..8 * at + j] == ToBits(data[at], 8)[i..j]
  {
    forall k | i <= k < j
      ensures Unpack(data)[8 * at + k] == ToBits(data[at], 8)[k]
    {
      assert (8 * at + k) / 8 == at && (8 * at + k) % 8 == k;
    }
  }

  /** The low `r` bits of a byte. */
  lemma {:induction false} LowBits(b: Byte, r: nat)
    requires r <= 8
    ensures And(b, Pow2(r) - 1) < Pow2(r)
    ensures ToBits(And(b, Pow2(r) - 1), r) == ToBits(b, 8)[8 - r..]
  {
    AndMask(b, r);
    TruncBound(b, r);
    forall i | 0 <= i < r
      ensures ToBits(Trunc(b, r), r)[i] == ToBits(b, 8)[8 - r..][i]
    {
      BitTrunc(b, r, r - 1 - i);
    }
  }

  /** The high `n` bits of a byte. */
  lemma {:induction false} HighBits(b: Byte, n: nat)
    requires n <= 8
    ensures Shr(b, 8 - n) < Pow2(n)
    ensures ToBits(Shr(b, 8 - n), n) == ToBits(b, 8)[..n]
  {
    PowByte();
    ShrBound(b, 8 - n, 8);
    forall i | 0 <= i < n
      ensures ToBits(Shr(b, 8 - n), n)[i] == ToBits(b, 8)[..n][i]
    {
      BitShr(b, 8 - n, n - 1 - i);
    }
  }

  /** `n` bits from the middle of a byte, `r` bits before its end. */
  lemma {:induction false} MiddleBits(b: Byte, r: nat, n: nat)
    requires n <= r <= 8
    ensures And(Shr(b, r - n), Pow2(n) - 1) == FromBits(ToBits(b, 8)[8 - r..8 - r + n])
  {
    var x := Shr(b, r - n);
    var bs := ToBits(b, 8)[8 - r..8 - r + n];
    assert ToBits(x, n) == bs by {
      forall i | 0 <= i < n ensures ToBits(x, n)[i] == bs[i] { BitShr(b, r - n, n - 1 - i); }
    }
    AndMask(x, n);
    FromToBits(x, n);
  }

  /** One round of the byte loop, and the partial byte after it. */
  lemma {:induction false} LoadByte(data: seq<Byte>, q: nat, at: nat, n: nat, v: nat, left: nat)
    requires at < |data| && q <= 8 * at && n <= left && (n == 8 || n == left < 8)
    requires Loaded(v, Unpack(data)[q..8 * at], left)
    ensures n == 8 ==> Loaded(Or(v, Shl(data[at], left - 8, 64)), Unpack(data)[q..8 * at + 8], left - 8)
    ensures n < 8 ==> Loaded(Or(v, Shr(data[at], 8 - n)), Unpack(data)[q..8 * at + n], 0)
  {
    var stream, more := Unpack(data), ToBits(data[at], 8)[..n];
    ByteSlice(data, at, 0, n);
    assert stream[q..8 * at + n] == stream[q..8 * at] + more;
    if n == 8 {
      PowByte();
      assert more == ToBits(data[at], 8);
      LoadShifted(data[at], 8, left - 8);
      LoadMore(v, Shl(data[at], left - 8, 64), stream[q..8 * at], more, left);
    } else {
      HighBits(data[at], n);
      LoadPlain(Shr(data[at], 8 - n), n);
      LoadMore(v, Shr(data[at], 8 - n), stream[q..8 * at], more, left);
    }
  }

  /** Reading inside the current byte, of which `r` bits are left. */
  lemma {:induction false} WithinByte(data: seq<Byte>, at: nat, r: nat, n: nat)
    requires at < |data| && n <= r <= 8
    ensures And(Shr(data[at], r - n), Pow2(n) - 1) == FromBits(Unpack(data)[8 * at + 8 - r..8 * at + 8 - r + n])
  {
    ByteSlice(data, at, 8 - r, 8 - r + n);
    MiddleBits(data[at], r, n);
  }

  /** Reading one bit, with `r` more to come in the current byte. */
  lemma {:induction false} BitInByte(data: seq<Byte>, at: nat, r: nat)
    requires at < |data| && r < 8
    ensures And(Shr(data[at], r), 1) == FromBits(Unpack(data)[8 * at + 7 - r..8 * at + 8 - r]) < 2
    ensures r == 0 ==> And(data[at], 1) == And(Shr(data[at], r), 1)
  {
    assert Pow2(1) == 2;
    WithinByte(data, at, r + 1, 1);
    FromBitsBound(Unpack(data)[8 * at + 7 - r..8 * at + 8 - r]);
  }

  lemma {:induction false} NothingToTake()
    ensures TakeBits([], 1) == Fail
  {
  }

  /** Taking all `r` bits left in the current byte, with `left` more to come. */
  lemma {:induction false} LoadFirst(data: seq<Byte>, at: nat, r: nat, left: nat)
    requires at < |data| && r <= 8 && r + left <= 64
    ensures Loaded(Shl(And(data[at], Pow2(r) - 1), left, 64), Unpack(data)[8 * at + 8 - r..8 * at + 8], left)
  {
    hide Loaded, Unpack, Shl, And, ToBits, Pow2;
    LowBits(data[at], r);
    LoadShifted(And(data[at], Pow2(r) - 1), r, left);
    ByteSlice(data, at, 8 - r, 8);
    assert ToBits(data[at], 8)[8 - r..] == ToBits(data[at], 8)[8 - r..8];
    assert 8 * at + (8 - r) == 8 * at + 8 - r;
  }

  /** Byte `at` of `size` is the next one with an unread bit when `remaining` bits are unread. */
  ghost predicate CursorAt(size: nat, remaining: nat, at: nat) {
    at <= size && 8 * (size - at) - 8 < remaining <= 8 * (size - at)
  }

  /**
   The cursor is determined by the number of unread bits: it stands at size - ceil(remaining / 8),
   and the sum that computes the ceiling stays within an int.
   */
  lemma {:induction false} CursorExact(size: nat, remaining: nat, at: nat)
    requires remaining <= 8 * size
    ensures CursorAt(size, remaining, at) <==> at == size - (remaining + 7) / 8
    ensures 8 * size <= INT_MAX ==> remaining + 7 <= INT_MAX
  {
  }

  /** The next unread bit. */
  lemma {:induction false} CursorBit(size: nat, remaining: nat, at: nat)
    requires CursorAt(size, remaining, at) && 0 < remaining <= 8 * size
    ensures var k := (remaining - 1) % 8;
      && at < size && 8 * at + 7 - k == 8 * size - remaining
      && CursorAt(size, remaining - 1, if k == 0 then at + 1 else at)
  {
  }

  /** The unread part of the byte under the cursor. */
  lemma {:induction false} CursorByte(size: nat, remaining: nat, at: nat)
    requires CursorAt(size, remaining, at) && remaining <= 8 * size
    ensures var r := remaining % 8;
      if r == 0 then 8 * at == 8 * size - remaining else at < size && 8 * at + 8 - r == 8 * size - remaining
  {
  }

  lemma {:induction false} TakeFromStream(data: seq<Byte>, remaining: nat, n: nat)
    requires n <= remaining <= 8 * |data|
    ensures var stream, q := Unpack(data), 8 * |data| - remaining;
      && TakeBits(stream[q..], n) == Done(FromBits(stream[q..q + n]), stream[q + n..])
      && FromBits(stream[q..q + n]) < Pow2(n)
  {
    var stream, q := Unpack(data), 8 * |data| - remaining;
    assert stream[q..][..n] == stream[q..q + n] && stream[q..][n..] == stream[q + n..];
    FromBitsBound(stream[q..q + n]);
  }

  lemma {:induction false} TakeOne(bs: seq<bool>)
    ensures TakeBits(bs, 1) == if bs == [] then Fail else Done(if bs[0] then 1 else 0, bs[1..])
  {
    if bs != [] {
      assert bs[..1] == [bs[0]];
      assert FromBits([bs[0]]) == 2 * FromBits([]) + if bs[0] then 1 else 0;
    }
  }

  // ---------- scanning for the end of the zeros of an Exp-Golomb code ----------

  /** Bit `z` of `bs` is `bit`, and there are only zeros before it. */
  ghost predicate Scanned(bs: seq<bool>, z: nat, bit: nat) {
    z < |bs| && bs[..z] == Zeros(z) && bs[z] == (bit == 1)
  }

  lemma {:induction false} LeadingZerosAtLeast(bs: seq<bool>, n: nat)
    requires n <= |bs| && bs[..n] == Zeros(n)
    ensures LeadingZeros(bs) >= n
    decreases n
  {
    if n > 0 {
      assert bs[0] == bs[..n][0] == false;
      assert bs[1..][..n - 1] == bs[..n][1..] == Zeros(n - 1);
      LeadingZerosAtLeast(bs[1..], n - 1);
    }
  }

  lemma {:induction false} ScanFirst(bs: seq<bool>)
    ensures bs == [] ==> TakeBits(bs, 1) == Fail && ParseGolomb(bs) == Fail
    ensures bs != [] ==>
      TakeBits(bs, 1).Done? && Scanned(bs, 0, TakeBits(bs, 1).value) && TakeBits(bs, 1).rest == bs[1..]
  {
    TakeOne(bs);
  }

  lemma {:induction false} ScanNext(bs: seq<bool>, z: nat)
    requires Scanned(bs, z, 0)
    ensures var rest := bs[z + 1..];
      && (rest == [] ==> TakeBits(rest, 1) == Fail && ParseGolomb(bs) == Fail)
      && (rest != [] ==> TakeBits(rest, 1).Done? && Scanned(bs, z + 1, TakeBits(rest, 1).value)
                         && TakeBits(rest, 1).rest == bs[z + 2..])
  {
    TakeOne(bs[z + 1..]);
    assert bs[..z + 1] == bs[..z] + [bs[z]] == Zeros(z) + [false] == Zeros(z + 1);
    if z + 1 == |bs| {
      LeadingZerosAtLeast(bs, |bs|);
    } else {
      assert bs[z + 1..][0] == bs[z + 1];
      assert bs[z + 1..][1..] == bs[z + 2..];
    }
  }

  lemma {:induction false} ScanTooFar(bs: seq<bool>, z: nat)
    requires Scanned(bs, z, 0) && z >= 31
    ensures ParseGolomb(bs) == Fail
  {
    assert bs[..z + 1] == bs[..z] + [bs[z]] == Zeros(z) + [false] == Zeros(z + 1);
    LeadingZerosAtLeast(bs, z + 1);
  }

  lemma {:induction false} PowUpTo31(z: nat)
    requires z < 32
    ensures Pow2(z) <= 0x8000_0000
  {
    Pow2Values();
    Pow2Monotone(z, 31);
  }

  lemma {:induction false} ScanDone(bs: seq<bool>, z: nat)
    requires z < 32
    ensures Scanned(bs, z, 1) ==>
      ParseGolomb(bs) == match TakeBits(bs[z + 1..], z)
                         case Fail => Fail
                         case Done(v, rest) => Done(Pow2(z) + v - 1, rest)
  {
    hide Pow2, FromBits, Zeros;
    LeadingZerosExact(bs, z);
    if 2 * z + 1 <= |bs| {
      assert bs[z + 1..][..z] == bs[z + 1..2 * z + 1];
      assert bs[z + 1..][z..] == bs[2 * z + 1..];
    }
  }

  // ---------- decoding LEB128 ----------

  lemma {:induction false} LowestBit(u: nat)
    ensures And(u, 1) == u % 2
  {
    assert Pow2(1) == 2;
    AndMask(u, 1);
    TruncIsMod(u, 1);
  }

  lemma {:induction false} LebPlaceStep(n: nat)
    requires n >= 1
    ensures Pow2(7 * n) == 128 * Pow2(7 * (n - 1))
  {
    assert Pow2(7) == 128;
    Pow2Add(7, 7 * (n - 1));
  }

  lemma {:induction false} LebWeight(v: nat, x: nat, p: nat)
    ensures 128 * (v + x * p) == 128 * v + x * (128 * p)
  {
  }

  lemma {:induction false} LebSnoc(group: seq<Byte>, b: Byte)
    ensures LebValue(group) < Pow2(7 * |group|)
    ensures LebValue(group + [b]) == LebValue(group) + (b % 128) * Pow2(7 * |group|)
    decreases |group|
  {
    if group == [] {
      assert LebValue([b]) == b % 128 + 128 * LebValue([]);
    } else {
      hide Pow2;
      var tail := group[1..];
      LebSnoc(tail, b);
      assert (group + [b])[1..] == tail + [b];
      LebPlaceStep(|group|);
      LebWeight(LebValue(tail), b % 128, Pow2(7 * |tail|));
    }
  }

  /** Bytes that all announce another one leave the group to the bytes after them. */
  lemma {:induction false} LebPrefix(group: seq<Byte>, rest: seq<bool>, limit: nat)
    requires |group| <= limit && forall i :: 0 <= i < |group| ==> group[i] >= 128
    ensures TakeLebGroup(Unpack(group) + rest, limit) ==
      match TakeLebGroup(rest, limit - |group|)
      case Fail => Fail
      case Done(g, r) => Done(group + g, r)
    decreases group
  {
    if group == [] {
      assert Unpack(group) + rest == rest;
      assert forall g: seq<Byte> :: group + g == g;
    } else {
      var b, tail := group[0], group[1..];
      assert group == [b] + tail;
      UnpackConcat([b], tail);
      assert Unpack(group) + rest == Unpack([b]) + (Unpack(tail) + rest);
      ByteFront(b, Unpack(tail) + rest);
      LebPrefix(tail, rest, limit - 1);
      assert forall g: seq<Byte> :: group + g == [b] + (tail + g);
    }
  }

  /**
   `group` has been read off the front of `start`, every byte of it announces another one, and
   `decoded` is its value.
   */
  ghost predicate LebOpen(start: seq<bool>, group: seq<Byte>, rest: seq<bool>, decoded: nat) {
    && start == Unpack(group) + rest
    && (forall i :: 0 <= i < |group| ==> group[i] >= 128)
    && decoded == LebValue(group)
  }

  /** After the loop: `count` bytes read, the last one `byte`. */
  ghost predicate LebClosed(start: seq<bool>, count: nat, byte: nat, decoded: nat, rest: seq<bool>) {
    ParseLeb(start) == if count == 10 && byte > 1 then Fail else Done(decoded, rest)
  }

  lemma {:induction false} LebStart(start: seq<bool>)
    ensures LebOpen(start, [], start, 0)
    ensures And(0, 0x80) == 0
  {
    assert Unpack([]) + start == start;
  }

  /** The weight of byte `n`. */
  lemma {:induction false} LebPlace(n: nat)
    requires n <= 9
    ensures n < 9 ==> 128 * Pow2(7 * n) <= 0x8000_0000_0000_0000
    ensures n == 9 ==> Pow2(7 * n) == 0x8000_0000_0000_0000
  {
    Pow2Values();
    if n < 9 {
      assert Pow2(7) == 128;
      Pow2Add(7, 7 * n);
      Pow2Monotone(7 + 7 * n, 63);
    }
  }

  lemma {:induction false} LebTerm(x: nat, p: nat)
    requires x < 128
    ensures x * p <= 127 * p
  {
  }

  /** The sum that the reader keeps in 64 bits is exact as long as the value fits. */
  lemma {:induction false} LebSum(decoded: nat, b: Byte, n: nat)
    requires n <= 9 && decoded < Pow2(7 * n)
    ensures var exact := decoded + (b % 128) * Pow2(7 * n);
      && (exact < WORD64 <==> n < 9 || b % 128 <= 1)
      && (exact < WORD64 ==> (decoded + Shl(And(b, 0x7F), 7 * n, 64)) % WORD64 == exact)
  {
    hide Pow2, Shl, And;
    LowSevenBits(b);
    LebPlace(n);
    LebTerm(b % 128, Pow2(7 * n));
    assert Pow2(64) == WORD64 by { Pow2Values(); }
    ShlIsTimes(b % 128, 7 * n, 64);
  }

  /** A group of at most ten bytes fits 64 bits exactly when it is shorter than ten or its tenth byte is at most 1. */
  lemma {:induction false} LebFits(group: seq<Byte>)
    requires |group| >= 1 && IsLebGroup(group) && |group| <= LEB_MAX_BYTES
    ensures LebValue(group) < WORD64 <==> |group| < LEB_MAX_BYTES || group[9] <= 1
  {
    hide Pow2, LebValue, IsLebGroup;
    var n, b := |group| - 1, group[|group| - 1];
    var init := group[..n];
    assert b < 128 by { LebLastByte(group); }
    assert LebValue(group) < WORD64 <==> n < 9 || b % 128 <= 1 by {
      assert group == init + [b];
      LebSnoc(init, b);
      LebSum(LebValue(init), b, n);
    }
  }

  lemma {:induction false} LebLastByte(group: seq<Byte>)
    requires IsLebGroup(group)
    ensures |group| >= 1 && group[|group| - 1] < 128
    decreases group
  {
    if |group| > 1 { LebLastByte(group[1..]); }
  }

  lemma {:induction false} HighBitSet(b: Byte)
    ensures And(b, 0x80) != 0 <==> b >= 128
  {
    assert Pow2(7) == 128;
    if b < 128 {
      AndHighClear(b, 7);
    } else {
      BitAnd(b, 0x80, 7);
      BitTop(b, 7);
      BitTop(0x80, 7);
      BitZero(7);
    }
  }

  lemma {:induction false} AndHighClear(b: nat, n: nat)
    requires b < Pow2(n)
    ensures And(b, Pow2(n)) == 0
    decreases n
  {
    if n > 0 && b > 0 { AndHighClear(b / 2, n - 1); }
  }

  lemma {:induction false} BitTop(v: nat, n: nat)
    requires Pow2(n) <= v < Pow2(n + 1)
    ensures Bit(v, n)
    decreases n
  {
    if n > 0 { BitTop(v / 2, n - 1); }
  }

  /** One round of the ReadString loop. */
  lemma {:induction false} StringNext(start: seq<bool>, res: seq<Byte>, rest: seq<bool>)
    requires start == Unpack(res) + rest
    ensures TakeBits(rest, 8).Fail? ==> |start| < 8 * |res| + 8
    ensures TakeBits(rest, 8).Done? ==>
      var Done(b, tail) := TakeBits(rest, 8);
      b < 256 && start == Unpack(res + [b]) + tail
  {
    if |rest| >= 8 {
      var b := ByteOf(rest[..8]);
      UnpackByteOf(rest[..8]);
      UnpackConcat(res, [b]);
      assert rest == rest[..8] + rest[8..];
    }
  }

  /** One round of the ReadLeb128 loop. */
  lemma {:induction false} LebNext(start: seq<bool>, group: seq<Byte>, rest: seq<bool>, decoded: nat)
    requires LebOpen(start, group, rest, decoded) && |group| < 10
    ensures TakeBits(rest, 8).Fail? ==> ParseLeb(start) == Fail
    ensures TakeBits(rest, 8).Done? ==>
      var Done(b, tail) := TakeBits(rest, 8);
      var n := |group|;
      var decoded' := (decoded + Shl(And(b, 0x7F), 7 * n, 64)) % WORD64;
      && b < 256
      && (if n + 1 < 10 && And(b, 0x80) != 0 then LebOpen(start, group + [b], tail, decoded')
          else LebClosed(start, n + 1, b, decoded', tail))
  {
    hide Unpack, FromBits, Shl, And, LebValue, FromBits;
    var n := |group|;
    LebPrefix(group, rest, LEB_MAX_BYTES);
    if |rest| >= 8 {
      var b := ByteOf(rest[..8]);
      HighBitSet(b);
      LebSnoc(group, b);
      LebSum(decoded, b, n);
      if b >= 128 && n + 1 < 10 {
        StringNext(start, group, rest);
      }
    }
  }

  lemma {:induction false} TakeBytesLength(bs: seq<bool>, n: nat)
    ensures TakeBytes(bs, n).Done? <==> 8 * n <= |bs|
    decreases n
  {
    if n > 0 && |bs| >= 8 { TakeBytesLength(bs[8..], n - 1); }
  }

  class BitstreamReader {
    const data: seq<Byte>
    // Index of the next byte with at least one unread bit.
    var at: nat
    // Number of bits left to read, or -1 after a failure.
    var remainingBits: int

    ghost predicate Valid()
      reads this
    {
      && 8 * |data| <= INT_MAX
      && -1 <= remainingBits <= 8 * |data|
      && at <= |data|
      && (remainingBits >= 0 ==> CursorAt(|data|, remainingBits, at))
    }

    predicate Ok()
      reads this
    {
      remainingBits >= 0
    }

    /** The bits still to be read. */
    ghost function Unread(): (bs: seq<bool>)
      requires Valid() && Ok()
      reads this
      ensures |bs| == remainingBits
    {
      Unpack(data)[8 * |data| - remainingBits..]
    }

    /** The state and result that a parse of the unread bits calls for. */
    ghost predicate Outcome<T>(p: Parsed<T>, r: T)
      reads this
    {
      && Valid()
      && (Ok() <==> p.Done?)
      && (Ok() ==> r == p.value && Unread() == p.rest)
    }

    constructor (bytes: seq<Byte>)
      requires 8 * |bytes| <= 0x7FFF_FFFF
      ensures Valid() && Ok() && data == bytes && remainingBits == 8 * |bytes|
      ensures Unread() == Unpack(bytes)
    {
      data, at, remainingBits := bytes, 0, 8 * |bytes|;
      new;
      assert Unpack(data)[0..] == Unpack(data);
    }

    method Invalidate()
      requires Valid()
      modifies this
      ensures Valid() && !Ok()
    {
      remainingBits := -1;
    }

    method ReadBits(bits: nat) returns (result: nat)
      requires Valid() && bits <= 64
      modifies this
      ensures old(Ok()) ==> Outcome(TakeBits(old(Unread()), bits), result)
      ensures !old(Ok()) ==> Valid() && !Ok()
      ensures !Ok() ==> result == 0
      ensures result < Pow2(bits)
    {
      hide Unpack, FromBits;
      if remainingBits < bits {
        Invalidate();
        return 0;
      }
      TakeFromStream(data, remainingBits, bits);
      result := ReadAvailable(bits);
    }

    /** ReadBits once it is known that the bits are there. */
    method ReadAvailable(bits: nat) returns (result: nat)
      requires Valid() && bits <= 64 && bits <= remainingBits
      modifies this
      ensures Valid() && remainingBits == old(remainingBits) - bits
      ensures result == FromBits(Unpack(data)[8 * |data| - old(remainingBits)..8 * |data| - remainingBits])
    {
      hide Unpack, Loaded, FromBits, And, Or, Shl, Shr, Pow2;
      CursorByte(|data|, remainingBits, at);
      ghost var q := 8 * |data| - remainingBits;
      var remainingBitsInFirstByte := remainingBits % 8;
      remainingBits := remainingBits - bits;
      if bits < remainingBitsInFirstByte {
        var offset := remainingBitsInFirstByte - bits;
        WithinByte(data, at, remainingBitsInFirstByte, bits);
        return And(Shr(data[at], offset), Pow2(bits) - 1);
      }

      result := 0;
      var left := bits;
      if remainingBitsInFirstByte > 0 {
        left := left - remainingBitsInFirstByte;
        LoadFirst(data, at, remainingBitsInFirstByte, left);
        result := Shl(And(data[at], Pow2(remainingBitsInFirstByte) - 1), left, 64);
        at := at + 1;
      } else {
        LoadNothing(left);
        assert Unpack(data)[q..8 * at] == [];
      }
      assert 8 * at + left == 8 * |data| - remainingBits;
      result := ReadFromByte(result, left, q);
    }

    /** The part of ReadBits after its first, partly read byte: whole bytes, then the top of one more. */
    method ReadFromByte(start: nat, bits: nat, ghost q: nat) returns (result: nat)
      requires q <= 8 * at && 8 * at + bits <= 8 * |data|
      requires Loaded(start, Unpack(data)[q..8 * at], bits)
      modifies this`at
      ensures CursorAt(|data|, 8 * |data| - (8 * old(at) + bits), at)
      ensures result == FromBits(Unpack(data)[q..8 * old(at) + bits])
    {
      hide Unpack, Loaded, FromBits, Or, Shl, Shr;
      ghost var stream, end := Unpack(data), 8 * at + bits;
      var left := bits;
      result := start;
      while left >= 8
        invariant 0 <= left && q <= 8 * at && 8 * at + left == end
        invariant Loaded(result, stream[q..8 * at], left)
      {
        left := left - 8;
        LoadByte(data, q, at, 8, result, left + 8);
        result := Or(result, Shl(data[at], left, 64));
        at := at + 1;
      }
      if left > 0 {
        LoadByte(data, q, at, left, result, left);
        result := Or(result, Shr(data[at], 8 - left));
      }
      LoadDone(result, stream[q..end]);
    }

    method ReadBit() returns (bit: nat)
      requires Valid()
      modifies this
      ensures old(Ok()) ==> Outcome(TakeBits(old(Unread()), 1), bit)
      ensures !old(Ok()) ==> Valid() && !Ok()
      ensures !Ok() ==> bit == 0
      ensures bit <= 1
    {
      hide Unpack, FromBits, And, Shr, Pow2, TakeBits;
      if remainingBits <= 0 {
        NothingToTake();
        Invalidate();
        return 0;
      }
      TakeFromStream(data, remainingBits, 1);
      var bitPosition := (remainingBits - 1) % 8;
      CursorBit(|data|, remainingBits, at);
      BitInByte(data, at, bitPosition);
      remainingBits := remainingBits - 1;
      if bitPosition == 0 {
        bit := And(data[at], 0x01);
        at := at + 1;
      } else {
        bit := And(Shr(data[at], bitPosition), 0x01);
      }
    }

    method ConsumeBits(bits: nat)
      requires Valid()
      modifies this
      ensures Valid()
      ensures Ok() <==> old(Ok()) && bits <= old(remainingBits)
      ensures Ok() ==> Unread() == old(Unread())[bits..]
    {
      if remainingBits < bits {
        Invalidate();
        return;
      }
      assert remainingBits + 7 <= INT_MAX;
      var remainingBytes := (remainingBits + 7) / 8;
      remainingBits := remainingBits - bits;
      var newRemainingBytes := (remainingBits + 7) / 8;
      CursorExact(|data|, old(remainingBits), at);
      CursorExact(|data|, remainingBits, at + (remainingBytes - newRemainingBytes));
      at := at + (remainingBytes - newRemainingBytes);
    }

    /** Read<T>() for an unsigned type of `width` bits. */
    method ReadUInt(width: nat) returns (result: nat)
      requires Valid() && width <= 64
      modifies this
      ensures old(Ok()) ==> Outcome(TakeBits(old(Unread()), width), result)
      ensures !old(Ok()) ==> Valid() && !Ok()
      ensures !Ok() ==> result == 0
      ensures result < Pow2(width)
    {
      result := ReadBits(width);
    }

    method ReadNonSymmetric(numValues: nat) returns (result: nat)
      requires Valid() && 1 <= numValues < 0x8000_0000
      modifies this
      ensures old(Ok()) ==> Outcome(ParseNonSymmetric(old(Unread()), numValues), result)
      ensures !old(Ok()) ==> Valid() && !Ok()
    {
      hide Unpack, FromBits, Shl, BitWidth, Pow2, ShortCount, TakeBits;
      NonSymmetricSizes(numValues);
      var width := BitWidth(numValues);
      var numMinBitsValues := Shl(1, width, 32) - numValues;
      var val := ReadBits(width - 1);
      if val < numMinBitsValues {
        return val;
      }
      ghost var tail := if Ok() then Unread() else [];
      var bit := ReadBit();
      TakeOne(tail);
      result := 2 * val + bit - numMinBitsValues;
    }

    /** `scanned` counts the single-bit reads of the scan for the first one bit. */
    method ReadExponentialGolomb() returns (result: nat, ghost scanned: nat)
      requires Valid()
      modifies this
      ensures old(Ok()) ==> Outcome(ParseGolomb(old(Unread())), result)
      ensures !old(Ok()) ==> Valid() && !Ok()
      ensures result < GOLOMB_LIMIT
      ensures scanned <= 32
    {
      hide Unpack, FromBits, Shl, LeadingZeros, Zeros, TakeBits, ParseGolomb, Scanned, Pow2;
      ghost var start := if Ok() then Unread() else [];
      var zeroBitCount := 0;
      var bit := ReadBit();
      scanned := 1;
      ScanFirst(start);
      while bit == 0
        invariant 0 <= zeroBitCount < 32 && Valid() && bit <= 1
        invariant scanned == zeroBitCount + 1
        invariant bit == 1 ==> Ok()
        invariant Ok() ==> old(Ok()) && Scanned(start, zeroBitCount, bit)
        invariant Ok() ==> zeroBitCount < |start| && Unread() == start[zeroBitCount + 1..]
        invariant !Ok() && old(Ok()) ==> ParseGolomb(start) == Fail
        decreases 32 - zeroBitCount
      {
        zeroBitCount := zeroBitCount + 1;
        if zeroBitCount >= 32 {
          if Ok() { ScanTooFar(start, 31); }
          Invalidate();
          return 0, scanned;
        }
        if Ok() { ScanNext(start, zeroBitCount - 1); }
        bit := ReadBit();
        scanned := scanned + 1;
      }
      ScanDone(start, zeroBitCount);
      PowUpTo31(zeroBitCount);
      var low := ReadBits(zeroBitCount);
      ShlOne(zeroBitCount, 32);
      result := Shl(1, zeroBitCount, 32) + low - 1;
    }

    method ReadSignedExponentialGolomb() returns (result: int)
      requires Valid()
      modifies this
      ensures old(Ok()) ==> Outcome(ParseSignedGolomb(old(Unread())), result)
      ensures !old(Ok()) ==> Valid() && !Ok()
      ensures -0x8000_0000 < result < 0x8000_0000
    {
      hide Unpack, ParseGolomb;
      var unsignedVal, _ := ReadExponentialGolomb();
      LowestBit(unsignedVal);
      if And(unsignedVal, 1) == 0 {
        result := -(unsignedVal as int / 2);
      } else {
        result := (unsignedVal + 1) / 2;
      }
    }

    method ReadLeb128() returns (result: nat)
      requires Valid()
      modifies this
      ensures old(Ok()) ==> Outcome(ParseLeb(old(Unread())), result)
      ensures !old(Ok()) ==> Valid() && !Ok()
      ensures !Ok() ==> result == 0
    {
      hide Unpack, FromBits, Shl, And, TakeBits, ParseLeb, LebOpen;
      ghost var start: seq<bool>, group: seq<Byte> := if Ok() then Unread() else [], [];
      LebStart(start);
      var decoded: nat, i: nat, byte: Byte, more := 0, 0, 0, true;
      while more
        invariant i <= 10 && Valid() && (more ==> i < 10)
        invariant Ok() ==> old(Ok())
        invariant more && Ok() ==> LebOpen(start, group, Unread(), decoded) && |group| == i
        invariant !Ok() && old(Ok()) ==> ParseLeb(start) == Fail
        invariant !more && Ok() ==> LebClosed(start, i, byte, decoded, Unread())
        decreases 10 - i
      {
        if Ok() { LebNext(start, group, Unread(), decoded); }
        PowByte();
        byte := ReadUInt(8);
        decoded := (decoded + Shl(And(byte, 0x7F), 7 * i, 64)) % WORD64;
        group := group + [byte];
        i := i + 1;
        more := i < 10 && And(byte, 0x80) != 0;
      }
      if i == 10 && byte > 1 {
        Invalidate();
      }
      result := if Ok() then decoded else 0;
    }

    method ReadString(numBytes: nat) returns (result: seq<Byte>)
      requires Valid()
      modifies this
      ensures old(Ok()) ==> Outcome(TakeBytes(old(Unread()), numBytes), result)
      ensures !old(Ok()) ==> Valid() && !Ok()
      ensures !Ok() ==> result == []
    {
      hide Unpack, FromBits;
      ghost var start := if Ok() then Unread() else [];
      assert Unpack([]) + start == start by { LebStart(start); }
      var res: seq<Byte> := [];
      for i := 0 to numBytes
        invariant Valid() && |res| == i
        invariant Ok() ==> old(Ok()) && start == Unpack(res) + Unread()
        invariant !Ok() && old(Ok()) ==> |start| < 8 * numBytes
      {
        if Ok() { StringNext(start, res, Unread()); }
        PowByte();
        var b := ReadUInt(8);
        res := res + [b];
      }
      TakeBytesLength(start, numBytes);
      if Ok() { TakeBytesExact(start, numBytes, res, Unread()); }
      result := if Ok() then res else [];
    }
  }
}
