/**
 rtc::BitBufferWriter: writes bit fields into a caller-owned byte array, patching
 partially covered bytes in place.
 */
module Writer {
  import opened Words
  import opened BitStream
  import opened Codes

  /** The most significant byte of a 64-bit value. */
  function HighestByte(val: nat): Byte {
    TruncBound(Shr(val, 56), 8);
    PowByte();
    Trunc(Shr(val, 56), 8)
  }

  /** `target` with `count` of its bits, from `offset` below the top, taken from the top of `source`. */
  function WritePartialByte(source: Byte, count: nat, target: Byte, offset: nat): Byte
    requires offset < 8 && count <= 8 - offset
  {
    var mask := Shr(Shl(0xFF, 8 - count, 8), offset);
    PartialByteBound(source, target, mask, offset);
    Or(And(target, Not(mask, 8)), Shr(source, offset))
  }

  lemma {:induction false} PartialByteBound(source: Byte, target: Byte, mask: nat, offset: nat)
    ensures Or(And(target, Not(mask, 8)), Shr(source, offset)) < 256
  {
    PowByte();
    AndBound(target, Not(mask, 8));
    ShrAtMost(source, offset);
    OrBound(And(target, Not(mask, 8)), Shr(source, offset), 8);
  }

  lemma {:induction false} HighestByteBit(val: nat, j: nat)
    requires j < 8
    ensures Bit(HighestByte(val), j) == Bit(val, 56 + j)
  {
    BitTrunc(Shr(val, 56), 8, j);
    BitShr(val, 56, j);
  }

  lemma {:induction false} NoNinthBit(b: Byte, k: nat)
    requires k >= 8
    ensures !Bit(b, k)
  {
    PowByte();
    HighBitsClear(b, 8, k);
  }

  lemma {:induction false} PatchMaskBits(count: nat, offset: nat, k: nat)
    requires offset < 8 && count <= 8 - offset && k < 8
    ensures Bit(Shr(Shl(0xFF, 8 - count, 8), offset), k) == (8 - offset - count <= k < 8 - offset)
  {
    BitShr(Shl(0xFF, 8 - count, 8), offset, k);
    BitShl(0xFF, 8 - count, 8, k + offset);
    PowByte();
    if 8 - count <= k + offset < 8 { BitMask(8, k + offset - (8 - count)); }
  }

  /**
   Every bit of the patched byte. The bits of `source` below its top `count` are not
   masked but or-ed in, so the rest of `target` survives exactly where those are clear.
   */
  lemma {:induction false} PartialByteBits(source: Byte, count: nat, target: Byte, offset: nat, k: nat)
    requires offset < 8 && count <= 8 - offset && k < 8
    ensures Bit(WritePartialByte(source, count, target, offset), k)
      == if 8 - offset - count <= k < 8 - offset then Bit(source, k + offset)
         else Bit(target, k) || Bit(source, k + offset)
  {
    var mask := Shr(Shl(0xFF, 8 - count, 8), offset);
    BitOr(And(target, Not(mask, 8)), Shr(source, offset), k);
    BitAnd(target, Not(mask, 8), k);
    BitNot(mask, 8, k);
    PatchMaskBits(count, offset, k);
    BitShr(source, offset, k);
  }

  // ---------- what the write loop keeps ----------

  /** `s` is `was` with the first `done` bits of `code` written at bit `from`. */
  ghost predicate Written(s: seq<Byte>, was: seq<Byte>, from: nat, code: seq<bool>, done: nat) {
    && |s| == |was| && done <= |code| && from + done <= 8 * |was|
    && Unpack(s) == Splice(Unpack(was), from, code[..done])
  }

  /** The shift register `v` holds the bits `rest` in its highest bits, and zeros below. */
  ghost predicate Shifted(v: nat, rest: seq<bool>) {
    |rest| <= 64 && ToBits(v, 64) == rest + Zeros(64 - |rest|)
  }

  lemma {:induction false} WrittenNothing(was: seq<Byte>, from: nat, code: seq<bool>)
    requires from <= 8 * |was|
    ensures Written(was, was, from, code, 0)
  {
  }

  lemma {:induction false} WrittenAll(s: seq<Byte>, was: seq<Byte>, from: nat, code: seq<bool>)
    requires Written(s, was, from, code, |code|)
    ensures from + |code| <= 8 * |was| && Unpack(s) == Splice(Unpack(was), from, code)
  {
    assert code[..|code|] == code;
  }

  lemma {:induction false} ShiftFirst(val: nat, n: nat)
    requires n <= 64
    ensures Shifted(Shl(val, 64 - n, 64), ToBits(val, n))
  {
    var v := Shl(val, 64 - n, 64);
    forall i | 0 <= i < 64
      ensures ToBits(v, 64)[i] == (ToBits(val, n) + Zeros(64 - n))[i]
    {
      BitShl(val, 64 - n, 64, 63 - i);
    }
  }

  lemma {:induction false} ShiftStep(v: nat, rest: seq<bool>, n: nat)
    requires Shifted(v, rest) && n <= |rest|
    ensures Shifted(Shl(v, n, 64), rest[n..])
  {
    var v' := Shl(v, n, 64);
    forall i | 0 <= i < 64
      ensures ToBits(v', 64)[i] == (rest[n..] + Zeros(64 - |rest[n..]|))[i]
    {
      BitShl(v, n, 64, 63 - i);
      if i + n < 64 { assert Bit(v, 63 - (i + n)) == ToBits(v, 64)[i + n]; }
    }
  }

  /** The top byte of the register shows the next bits to write, then zeros. */
  lemma {:induction false} HighestByteBits(v: nat, rest: seq<bool>, j: nat)
    requires Shifted(v, rest) && j < 8
    ensures Bit(HighestByte(v), 7 - j) == (j < |rest| && rest[j])
  {
    assert ToBits(v, 64)[j] == Bit(v, 63 - j);
    HighestByteBit(v, 7 - j);
  }

  lemma {:induction false} SplicePrefix(was: seq<bool>, from: nat, code: seq<bool>, done: nat, i: nat)
    requires done <= |code| && from + done <= |was| && i < |was|
    ensures Splice(was, from, code[..done])[i] == if from <= i < from + done then code[i - from] else was[i]
  {
  }

  /** Storing one byte that carries the next `n` bits of `code` moves the written range forward. */
  lemma {:induction false} WriteStep(
    s: seq<Byte>, was: seq<Byte>, from: nat, code: seq<bool>, done: nat, n: nat, at: nat, b: Byte)
    requires at < |s| && Written(s, was, from, code, done) && done + n <= |code|
    requires 8 * at <= from + done && from + done + n <= 8 * at + 8
    requires forall k :: 0 <= k < 8 ==>
      ToBits(b, 8)[k] == var i := 8 * at + k - from; if done <= i < done + n then code[i] else ToBits(s[at], 8)[k]
    ensures Written(s[at := b], was, from, code, done + n)
  {
    var s', target := s[at := b], Splice(Unpack(was), from, code[..done + n]);
    forall i | 0 <= i < 8 * |s|
      ensures Unpack(s')[i] == target[i]
    {
      var k := i % 8;
      assert Unpack(s)[i] == ToBits(s[i / 8], 8)[k] && Unpack(s')[i] == ToBits(s'[i / 8], 8)[k];
      SplicePrefix(Unpack(was), from, code, done, i);
      SplicePrefix(Unpack(was), from, code, done + n, i);
      if i / 8 == at {
        assert i == 8 * at + k;
      }
    }
  }

  /** Patching the next `n` bits of `rest` into a byte, when either the byte or `rest` ends there. */
  lemma {:induction false} PatchedByte(v: nat, rest: seq<bool>, target: Byte, offset: nat, n: nat, k: nat)
    requires Shifted(v, rest) && offset < 8 && k < 8
    requires n <= |rest| && (n == 8 - offset || (n < 8 - offset && n == |rest|))
    ensures ToBits(WritePartialByte(HighestByte(v), n, target, offset), 8)[k]
      == if offset <= k < offset + n then rest[k - offset] else ToBits(target, 8)[k]
  {
    hide WritePartialByte, HighestByte, Bit, Shifted;
    PartialByteBits(HighestByte(v), n, target, offset, 7 - k);
    if k >= offset {
      HighestByteBits(v, rest, k - offset);
    } else {
      NoNinthBit(HighestByte(v), 7 - k + offset);
    }
  }

  lemma {:induction false} PatchStep(
    s: seq<Byte>, was: seq<Byte>, from: nat, code: seq<bool>, done: nat, n: nat, v: nat, at: nat, offset: nat)
    requires at < |s| && offset < 8 && from + done == 8 * at + offset
    requires Written(s, was, from, code, done) && Shifted(v, code[done..])
    requires done + n <= |code| && (n == 8 - offset || (n < 8 - offset && done + n == |code|))
    ensures Written(s[at := WritePartialByte(HighestByte(v), n, s[at], offset)], was, from, code, done + n)
  {
    var b := WritePartialByte(HighestByte(v), n, s[at], offset);
    forall k | 0 <= k < 8
      ensures var i := 8 * at + k - from;
        ToBits(b, 8)[k] == if done <= i < done + n then code[i] else ToBits(s[at], 8)[k]
    {
      PatchedByte(v, code[done..], s[at], offset, n, k);
    }
    WriteStep(s, was, from, code, done, n, at, b);
  }

  /** One round of the whole-byte loop. */
  lemma {:induction false} FullByteStep(
    s: seq<Byte>, was: seq<Byte>, from: nat, code: seq<bool>, done: nat, v: nat, at: nat)
    requires at < |s| && from + done == 8 * at && done + 8 <= |code|
    requires Written(s, was, from, code, done) && Shifted(v, code[done..])
    ensures Written(s[at := HighestByte(v)], was, from, code, done + 8)
    ensures Shifted(Shl(v, 8, 64), code[done + 8..])
  {
    forall k | 0 <= k < 8
      ensures ToBits(HighestByte(v), 8)[k] == code[8 * at + k - from]
    {
      HighestByteBits(v, code[done..], k);
    }
    WriteStep(s, was, from, code, done, 8, at, HighestByte(v));
    ShiftStep(v, code[done..], 8);
    assert code[done..][8..] == code[done + 8..];
  }

  // ---------- byte sequences: WriteLeb128 and WriteString go on after a failed byte ----------

  /**
   `now` and `pos` are what becomes of the bits `was`, the cursor `at` and the `room` behind it
   after writing `bytes` one by one: the bytes that fit are there, and `ok` says if all did.
   */
  ghost predicate BytesWritten(
    was: seq<bool>, at: nat, room: nat, bytes: seq<Byte>, now: seq<bool>, pos: nat, ok: bool)
  {
    var fit := if 8 * |bytes| <= room then |bytes| else room / 8;
    && at + 8 * fit <= |was|
    && (ok <==> 8 * |bytes| <= room)
    && pos == at + 8 * fit
    && now == Splice(was, at, Unpack(bytes[..fit]))
  }

  lemma {:induction false} NoBytesWritten(was: seq<bool>, at: nat, room: nat)
    requires at + room <= |was|
    ensures BytesWritten(was, at, room, [], was, at, true)
  {
    assert Unpack([]) == [];
    assert was == Splice(was, at, []);
  }

  lemma {:induction false} NextByteWritten(
    was: seq<bool>, at: nat, room: nat, bytes: seq<Byte>, now: seq<bool>, pos: nat, ok: bool,
    b: Byte, now': seq<bool>, pos': nat, ok': bool)
    requires at + room <= |was| && BytesWritten(was, at, room, bytes, now, pos, ok)
    requires ok' <==> pos + 8 <= at + room
    requires pos' == pos + if ok' then 8 else 0
    requires now' == if ok' then Splice(now, pos, ToBits(b, 8)) else now
    ensures BytesWritten(was, at, room, bytes + [b], now', pos', ok && ok')
  {
    if ok' {
      assert bytes[..|bytes|] == bytes && (bytes + [b])[..|bytes| + 1] == bytes + [b];
      UnpackConcat(bytes, [b]);
      UnpackByte(b);
      SpliceSplice(was, at, Unpack(bytes), Unpack([b]));
    } else {
      var fit := if 8 * |bytes| <= room then |bytes| else room / 8;
      assert (bytes + [b])[..fit] == bytes[..fit];
    }
  }

  lemma {:induction false} LebByte(v: nat)
    ensures And(v, 0x7F) == v % 128 && Shr(v, 7) == v / 128
    ensures Or(v % 128, 0x80) == v % 128 + 128
  {
    assert Pow2(7) == 128;
    LowSevenBits(v);
    ShrIsDiv(v, 7);
    OrHigh(v % 128, 7);
  }

  lemma {:induction false} OnlyValueCode()
    ensures NonSymmetricCode(0, 1) == []
  {
    assert BitWidth(1) == 1 && Pow2(1) == 2;
  }

  /** The field WriteNonSymmetric hands to WriteBits, and its width. */
  method NonSymmetricField(val: nat, numValues: nat) returns (field: nat, width: nat)
    requires val < numValues < 0x8000_0000 && numValues >= 2
    ensures 1 <= width < 32 && field < WORD32
    ensures ToBits(field, width) == NonSymmetricCode(val, numValues)
  {
    NonSymmetricSizes(numValues);
    var countBits := BitWidth(numValues);
    var numMinBitsValues := Shl(1, countBits, 32) - numValues;
    if val < numMinBitsValues {
      field, width := val, countBits - 1;
    } else {
      field, width := val + numMinBitsValues, countBits;
    }
  }

  /** Number of bits WriteNonSymmetric will use. */
  function SizeNonSymmetricBits(val: nat, numValues: nat): (bits: nat)
    requires val < numValues < 0x8000_0000
    ensures bits == |NonSymmetricCode(val, numValues)|
  {
    NonSymmetricSizes(numValues);
    var countBits := BitWidth(numValues);
    var numMinBitsValues := Shl(1, countBits, 32) - numValues;
    if val < numMinBitsValues then countBits - 1 else countBits
  }

  /** The byte one round of WriteLeb128 emits, and what it leaves to write. */
  method NextLebByte(val: nat) returns (byte: Byte, rest: nat)
    ensures rest == val / 128
    ensures |LebCode(val)| >= 1 && LebCode(val)[0] == byte
    ensures LebCode(val)[1..] == if rest > 0 then LebCode(rest) else []
  {
    LebByte(val);
    byte := And(val, 0x7F);
    rest := Shr(val, 7);
    if rest > 0 {
      byte := Or(byte, 0x80);
    }
  }

  class BitBufferWriter {
    const writableBytes: array<Byte>
    const byteCount: nat
    var byteOffset: nat
    var bitOffset: nat

    ghost predicate Valid()
      reads this
    {
      && byteCount <= writableBytes.Length
      && byteCount < WORD32
      && bitOffset < 8
      && 8 * byteOffset + bitOffset <= 8 * byteCount
    }

    /** The bits of the whole underlying array, including any beyond `byteCount`. */
    ghost function Contents(): (bs: seq<bool>)
      reads this, writableBytes
      ensures |bs| == 8 * writableBytes.Length
    {
      Unpack(writableBytes[..])
    }

    function Position(): nat
      reads this
    {
      8 * byteOffset + bitOffset
    }

    constructor (bytes: array<Byte>, byteCount: nat)
      requires byteCount <= bytes.Length && byteCount < WORD32
      ensures Valid() && this.writableBytes == bytes && this.byteCount == byteCount
      ensures Position() == 0
    {
      this.writableBytes, this.byteCount := bytes, byteCount;
      byteOffset, bitOffset := 0, 0;
    }

    function RemainingBitCount(): (r: nat)
      requires Valid()
      reads this
      ensures Position() + r == 8 * byteCount
    {
      (byteCount - byteOffset) * 8 - bitOffset
    }

    method ConsumeBits(bitCount: nat) returns (ok: bool)
      requires Valid()
      modifies this
      ensures Valid()
      ensures ok <==> bitCount <= old(RemainingBitCount())
      ensures Position() == old(Position()) + if ok then bitCount else 0
    {
      if bitCount > RemainingBitCount() {
        return false;
      }
      byteOffset, bitOffset := byteOffset + (bitOffset + bitCount) / 8, (bitOffset + bitCount) % 8;
      return true;
    }

    /**
     The byte count is scaled in 64-bit arithmetic, so the documented answer (false when
     fewer than `count` bytes are left) comes out exactly when the scaled count does not
     wrap, or still exceeds what is left after wrapping.
     */
    method ConsumeBytes(count: nat) returns (ok: bool)
      requires Valid() && count < WORD64
      modifies this
      ensures Valid()
      ensures Position() == old(Position()) + if ok then (8 * count) % WORD64 else 0
      ensures (ok <==> 8 * count <= old(RemainingBitCount()))
              <==> (8 * count < WORD64 || (8 * count) % WORD64 > old(RemainingBitCount()))
    {
      ok := ConsumeBits((count * 8) % WORD64);
    }

    method Seek(byteOffset: nat, bitOffset: nat) returns (ok: bool)
      requires Valid()
      modifies this
      ensures Valid()
      ensures ok <==> bitOffset < 8 && 8 * byteOffset + bitOffset <= 8 * byteCount
      ensures Position() == if ok then 8 * byteOffset + bitOffset else old(Position())
    {
      if byteOffset > byteCount || bitOffset > 7 || (byteOffset == byteCount && bitOffset > 0) {
        return false;
      }
      this.byteOffset, this.bitOffset := byteOffset, bitOffset;
      return true;
    }

    /** What a write of the codeword `code` does: all of it or nothing. */
    twostate predicate Wrote(code: seq<bool>, ok: bool)
      requires old(Valid())
      reads this, writableBytes
    {
      && Valid()
      && (ok <==> |code| <= old(RemainingBitCount()))
      && Position() == old(Position()) + (if ok then |code| else 0)
      && Contents() == if ok then Splice(old(Contents()), old(Position()), code) else old(Contents())
    }

    /** `*bytes = b` at index `at`. */
    method Store(at: nat, b: Byte)
      requires at < writableBytes.Length
      modifies writableBytes
      ensures writableBytes[..] == old(writableBytes[..])[at := b]
    {
      writableBytes[at] := b;
    }

    /** The part of WriteBits after its first byte: whole bytes from `at` on, then a partial one. */
    method WriteFromByte(
      val: nat, first: nat, bitCount: nat, ghost was: seq<Byte>, ghost from: nat, ghost code: seq<bool>)
      requires bitCount <= |code| && from + |code| - bitCount == 8 * first && from + |code| <= 8 * writableBytes.Length
      requires Shifted(val, code[|code| - bitCount..])
      requires Written(writableBytes[..], was, from, code, |code| - bitCount)
      modifies writableBytes
      ensures Written(writableBytes[..], was, from, code, |code|)
    {
      hide Unpack, Splice, Written, Shifted, HighestByte, Shl;
      var v, at, left := val, first, bitCount;
      ghost var done := |code| - bitCount;
      while left >= 8
        invariant 0 <= done && 0 <= left && done + left == |code| && from + done == 8 * at
        invariant Shifted(v, code[done..])
        invariant Written(writableBytes[..], was, from, code, done)
      {
        FullByteStep(writableBytes[..], was, from, code, done, v, at);
        Store(at, HighestByte(v));
        v := Shl(v, 8, 64);
        at := at + 1;
        left, done := left - 8, done + 8;
      }

      if left > 0 {
        PatchStep(writableBytes[..], was, from, code, done, left, v, at, 0);
        Store(at, WritePartialByte(HighestByte(v), left, writableBytes[at], 0));
      }
    }

    method WriteBits(val: nat, bitCount: nat) returns (ok: bool)
      requires Valid() && val < WORD64
      requires bitCount > RemainingBitCount() || 1 <= bitCount <= 64
      modifies this, writableBytes
      ensures Wrote(ToBits(val, bitCount), ok)
    {
      if bitCount > RemainingBitCount() {
        return false;
      }
      hide Unpack, Splice, Written, Shifted, HighestByte, Shl, ToBits;
      ghost var was, from, code := writableBytes[..], Position(), ToBits(val, bitCount);
      assert code[0..] == code;
      WrittenNothing(was, from, code);
      var v := Shl(val, 64 - bitCount, 64);
      ShiftFirst(val, bitCount);

      var remainingBitsInCurrentByte := 8 - bitOffset;
      var bitsInFirstByte := if bitCount < remainingBitsInCurrentByte then bitCount else remainingBitsInCurrentByte;
      PatchStep(was, was, from, code, 0, bitsInFirstByte, v, byteOffset, bitOffset);
      Store(byteOffset, WritePartialByte(HighestByte(v), bitsInFirstByte, writableBytes[byteOffset], bitOffset));
      if bitCount > remainingBitsInCurrentByte {
        ShiftStep(v, code, bitsInFirstByte);
        v := Shl(v, bitsInFirstByte, 64);
        WriteFromByte(v, byteOffset + 1, bitCount - bitsInFirstByte, was, from, code);
      }
      WrittenAll(writableBytes[..], was, from, code);
      ok := ConsumeBits(bitCount);
    }

    method WriteUInt8(val: Byte) returns (ok: bool)
      requires Valid()
      modifies this, writableBytes
      ensures Wrote(ToBits(val, 8), ok)
    {
      ok := WriteBits(val, 8);
    }

    method WriteUInt16(val: nat) returns (ok: bool)
      requires Valid() && val < 0x1_0000
      modifies this, writableBytes
      ensures Wrote(ToBits(val, 16), ok)
    {
      ok := WriteBits(val, 16);
    }

    method WriteUInt32(val: nat) returns (ok: bool)
      requires Valid() && val < WORD32
      modifies this, writableBytes
      ensures Wrote(ToBits(val, 32), ok)
    {
      ok := WriteBits(val, 32);
    }

    /** `numValues` stays below 2^31: at 2^31 the 32-bit shift below has no defined result. */
    method WriteNonSymmetric(val: nat, numValues: nat) returns (ok: bool)
      requires Valid() && val < numValues < 0x8000_0000
      modifies this, writableBytes
      ensures Wrote(NonSymmetricCode(val, numValues), ok)
    {
      if numValues == 1 {
        OnlyValueCode();
        assert Contents() == Splice(Contents(), Position(), []);
        return true;
      }
      var field, width := NonSymmetricField(val, numValues);
      ok := WriteBits(field, width);
    }

    method WriteExponentialGolomb(val: nat) returns (ok: bool)
      requires Valid() && val < WORD32
      modifies this, writableBytes
      ensures val < GOLOMB_LIMIT ==> Wrote(GolombCode(val), ok)
      ensures val == GOLOMB_LIMIT ==> !ok && unchanged(this) && unchanged(writableBytes)
    {
      if val == WORD32 - 1 {
        return false;
      }
      var valToEncode := val + 1;
      GolombField(val);
      BitWidthBounds(valToEncode);
      GolombWidth(valToEncode, BitWidth(valToEncode) - 1);
      ok := WriteBits(valToEncode, BitWidth(valToEncode) * 2 - 1);
    }

    method WriteSignedExponentialGolomb(val: int) returns (ok: bool)
      requires Valid() && -0x8000_0000 <= val < 0x8000_0000
      modifies this, writableBytes
      ensures -0x8000_0000 < val ==> Wrote(GolombCode(SignedIndex(val)), ok)
      ensures val == -0x8000_0000 ==> !ok && unchanged(this) && unchanged(writableBytes)
    {
      if val == 0 {
        ok := WriteExponentialGolomb(0);
      } else if val > 0 {
        ok := WriteExponentialGolomb(val * 2 - 1);
      } else {
        if val == -0x8000_0000 {
          return false;
        }
        ok := WriteExponentialGolomb(-val * 2);
      }
    }

    /** The buffer and cursor after the byte loops have handled `bytes`. */
    ghost predicate Progress(was: seq<bool>, at: nat, room: nat, bytes: seq<Byte>, success: bool)
      reads this, writableBytes
    {
      && Valid()
      && at + room == 8 * byteCount
      && |was| == 8 * writableBytes.Length
      && BytesWritten(was, at, room, bytes, Contents(), Position(), success)
    }

    /** One round of the byte loops: `success &= WriteUInt8(b)`. */
    method WriteNextByte(
      b: Byte, before: bool, ghost was: seq<bool>, ghost at: nat, ghost room: nat, ghost bytes: seq<Byte>)
      returns (success: bool)
      requires Progress(was, at, room, bytes, before)
      modifies this, writableBytes
      ensures Progress(was, at, room, bytes + [b], success)
    {
      ghost var now, pos := Contents(), Position();
      var ok := WriteUInt8(b);
      NextByteWritten(was, at, room, bytes, now, pos, before, b, Contents(), Position(), ok);
      success := before && ok;
    }

    method WriteLeb128(val: nat) returns (success: bool)
      requires Valid() && val < WORD64
      modifies this, writableBytes
      ensures Progress(old(Contents()), old(Position()), old(RemainingBitCount()), LebCode(val), success)
    {
      hide Unpack, Splice, BytesWritten, LebCode;
      ghost var was, at, room, code, n := Contents(), Position(), RemainingBitCount(), LebCode(val), 0;
      NoBytesWritten(was, at, room);
      success := true;
      var v, more := val, true;
      while more
        invariant 0 <= v && 0 <= n <= |code| && code[n..] == if more then LebCode(v) else []
        invariant Progress(was, at, room, code[..n], success)
        decreases more, v
      {
        var byte, rest := NextLebByte(v);
        assert code[n] == code[n..][0] == byte && code[n + 1..] == code[n..][1..];
        assert code[..n + 1] == code[..n] + [byte];
        success := WriteNextByte(byte, success, was, at, room, code[..n]);
        n, v, more := n + 1, rest, rest > 0;
      }
      assert code[..n] == code;
    }

    method WriteString(data: seq<Byte>) returns (success: bool)
      requires Valid()
      modifies this, writableBytes
      ensures Progress(old(Contents()), old(Position()), old(RemainingBitCount()), data, success)
    {
      hide Unpack, Splice, BytesWritten;
      ghost var was, at, room := Contents(), Position(), RemainingBitCount();
      NoBytesWritten(was, at, room);
      success := true;
      for i := 0 to |data|
        invariant Progress(was, at, room, data[..i], success)
      {
        success := WriteNextByte(data[i], success, was, at, room, data[..i]);
        assert data[..i + 1] == data[..i] + [data[i]];
      }
      assert data[..|data|] == data;
    }
  }

  /** A count whose eightfold wraps to zero: an empty buffer claims to have had 2^61 bytes to skip. */
  method ConsumeBytesWraps() returns (ok: bool, position: nat)
    ensures ok && position == 0
  {
    var bytes := new Byte[0];
    var w := new BitBufferWriter(bytes, 0);
    ok := w.ConsumeBytes(0x2000_0000_0000_0000);
    position := w.Position();
  }
}
