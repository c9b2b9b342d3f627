/**
 Writer and reader together: every list of typed fields that the writer accepts is
 read back unchanged, whatever the alignment of each field.
 */
module BitCodec {
  import opened Words
  import opened BitStream
  import opened Codes
  import opened Writer
  import opened Reader

  /** A typed field with its value. */
  datatype Field =
    | Bits(v: nat, width: nat)
    | UInt8(v: nat)
    | UInt16(v: nat)
    | UInt32(v: nat)
    | NonSymmetric(v: nat, numValues: nat)
    | Golomb(v: nat)
    | SignedGolomb(i: int)
    | Leb128(v: nat)
    | Text(bytes: seq<Byte>)
  {
    /** The values each write call supports. */
    ghost predicate Supported() {
      match this
      case Bits(v, width) => 1 <= width <= 64 && v < Pow2(width)
      case UInt8(v) => v < 0x100
      case UInt16(v) => v < 0x1_0000
      case UInt32(v) => v < WORD32
      case NonSymmetric(v, numValues) => v < numValues < 0x8000_0000
      case Golomb(v) => v < GOLOMB_LIMIT
      case SignedGolomb(i) => -0x8000_0000 < i < 0x8000_0000
      case Leb128(v) => v < WORD64
      case Text(_) => true
    }

    /** What a reader must know to ask for the field: everything but its value. */
    function AsShape(): Shape {
      match this
      case Bits(_, width) => Shape.Bits(width)
      case UInt8(_) => Shape.UInt8
      case UInt16(_) => Shape.UInt16
      case UInt32(_) => Shape.UInt32
      case NonSymmetric(_, numValues) => Shape.NonSymmetric(numValues)
      case Golomb(_) => Shape.Golomb
      case SignedGolomb(_) => Shape.SignedGolomb
      case Leb128(_) => Shape.Leb128
      case Text(bytes) => Shape.Text(|bytes|)
    }

    ghost function Code(): seq<bool>
      requires Supported()
    {
      match this
      case Bits(v, width) => ToBits(v, width)
      case UInt8(v) => ToBits(v, 8)
      case UInt16(v) => ToBits(v, 16)
      case UInt32(v) => ToBits(v, 32)
      case NonSymmetric(v, numValues) => NonSymmetricCode(v, numValues)
      case Golomb(v) => GolombCode(v)
      case SignedGolomb(i) => GolombCode(SignedIndex(i))
      case Leb128(v) => Unpack(LebCode(v))
      case Text(bytes) => Unpack(bytes)
    }
  }

  datatype Shape =
    | Bits(width: nat)
    | UInt8
    | UInt16
    | UInt32
    | NonSymmetric(numValues: nat)
    | Golomb
    | SignedGolomb
    | Leb128
    | Text(length: nat)
  {
    ghost predicate Supported() {
      match this
      case Bits(width) => width <= 64
      case NonSymmetric(numValues) => 1 <= numValues < 0x8000_0000
      case _ => true
    }

    ghost function Parse(bs: seq<bool>): Parsed<Field>
      requires Supported()
    {
      match this
      case Bits(width) => Map(TakeBits(bs, width), v => Field.Bits(v, width))
      case UInt8 => Map(TakeBits(bs, 8), v => Field.UInt8(v))
      case UInt16 => Map(TakeBits(bs, 16), v => Field.UInt16(v))
      case UInt32 => Map(TakeBits(bs, 32), v => Field.UInt32(v))
      case NonSymmetric(numValues) => Map(ParseNonSymmetric(bs, numValues), v => Field.NonSymmetric(v, numValues))
      case Golomb => Map(ParseGolomb(bs), v => Field.Golomb(v))
      case SignedGolomb => Map(ParseSignedGolomb(bs), i => Field.SignedGolomb(i))
      case Leb128 => Map(ParseLeb(bs), v => Field.Leb128(v))
      case Text(length) => Map(TakeBytes(bs, length), t => Field.Text(t))
    }
  }

  function Map<T, U>(p: Parsed<T>, f: T -> U): Parsed<U> {
    match p
    case Fail => Fail
    case Done(v, rest) => Done(f(v), rest)
  }

  function Prepend<T>(front: seq<T>, p: Parsed<seq<T>>): Parsed<seq<T>> {
    match p
    case Fail => Fail
    case Done(back, rest) => Done(front + back, rest)
  }

  lemma {:induction false} PrependLaws<T>(a: seq<T>, b: seq<T>, p: Parsed<seq<T>>)
    ensures Prepend([], p) == p
    ensures Prepend(a, Prepend(b, p)) == Prepend(a + b, p)
  {
    if p.Done? {
      assert [] + p.value == p.value;
      assert a + (b + p.value) == (a + b) + p.value;
    }
  }

  lemma {:induction false} PrependFail<T>(a: seq<T>)
    ensures Prepend(a, Fail) == Fail
  {
  }

  lemma {:induction false} PrependDone<T>(a: seq<T>, rest: seq<bool>)
    ensures Prepend(a, Done([], rest)) == Done(a, rest)
  {
    assert a + [] == a;
  }

  ghost predicate AllSupported(fields: seq<Field>) {
    forall i :: 0 <= i < |fields| ==> fields[i].Supported()
  }

  ghost function Encode(fields: seq<Field>): seq<bool>
    requires AllSupported(fields)
  {
    if fields == [] then [] else fields[0].Code() + Encode(fields[1..])
  }

  ghost predicate ShapesSupported(shapes: seq<Shape>) {
    forall i :: 0 <= i < |shapes| ==> shapes[i].Supported()
  }

  ghost function ParseAll(shapes: seq<Shape>, bs: seq<bool>): Parsed<seq<Field>>
    requires ShapesSupported(shapes)
    decreases |shapes|
  {
    if shapes == [] then Done([], bs)
    else match shapes[0].Parse(bs)
         case Fail => Fail
         case Done(field, rest) =>
           Prepend([field], ParseAll(shapes[1..], rest))
  }

  function Shapes(fields: seq<Field>): (shapes: seq<Shape>)
    ensures |shapes| == |fields|
  {
    seq(|fields|, i requires 0 <= i < |fields| => fields[i].AsShape())
  }

  lemma {:induction false} GolombFieldRoundTrip(v: nat, rest: seq<bool>)
    requires Field.Golomb(v).Supported()
    ensures Shape.Golomb.Parse(Field.Golomb(v).Code() + rest) == Done(Field.Golomb(v), rest)
  {
    hide ParseGolomb, GolombCode;
    GolombRoundTrip(v, rest);
  }

  lemma {:induction false} SignedGolombFieldRoundTrip(i: int, rest: seq<bool>)
    requires Field.SignedGolomb(i).Supported()
    ensures Shape.SignedGolomb.Parse(Field.SignedGolomb(i).Code() + rest) == Done(Field.SignedGolomb(i), rest)
  {
    hide ParseSignedGolomb, GolombCode;
    SignedGolombExact(GolombCode(SignedIndex(i)) + rest, i, rest);
  }

  lemma {:induction false} FieldRoundTrip(field: Field, rest: seq<bool>)
    requires field.Supported()
    ensures field.AsShape().Supported() && field.AsShape().Parse(field.Code() + rest) == Done(field, rest)
  {
    hide Unpack, ToBits, ParseLeb, ParseGolomb, ParseSignedGolomb, ParseNonSymmetric, TakeBits, TakeBytes;
    hide GolombCode, NonSymmetricCode, LebCode, SignedIndex, Pow2;
    match field
    case Bits(v, width) => TakeBitsExact(ToBits(v, width) + rest, width, v, rest);
    case UInt8(v) => PowByte(); TakeBitsExact(ToBits(v, 8) + rest, 8, v, rest);
    case UInt16(v) => Pow2Values(); TakeBitsExact(ToBits(v, 16) + rest, 16, v, rest);
    case UInt32(v) => Pow2Values(); TakeBitsExact(ToBits(v, 32) + rest, 32, v, rest);
    case NonSymmetric(v, numValues) => NonSymmetricRoundTrip(v, numValues, rest);
    case Golomb(v) => GolombFieldRoundTrip(v, rest);
    case SignedGolomb(i) => SignedGolombFieldRoundTrip(i, rest);
    case Leb128(v) => LebRoundTrip(v, rest);
    case Text(bytes) => TakeBytesExact(Unpack(bytes) + rest, |bytes|, bytes, rest);
  }

  /** Codewords need no separators: a list of fields is recovered from its concatenated codewords. */
  lemma {:induction false} EncodeRoundTrip(fields: seq<Field>, rest: seq<bool>)
    requires AllSupported(fields)
    ensures ShapesSupported(Shapes(fields))
    ensures ParseAll(Shapes(fields), Encode(fields) + rest) == Done(fields, rest)
    decreases |fields|
  {
    forall i | 0 <= i < |fields| ensures Shapes(fields)[i].Supported() {
      FieldRoundTrip(fields[i], []);
    }
    if fields == [] {
      assert Encode(fields) + rest == rest;
    } else {
      var head, tail := fields[0], fields[1..];
      assert Encode(fields) + rest == head.Code() + (Encode(tail) + rest);
      FieldRoundTrip(head, Encode(tail) + rest);
      assert Shapes(fields)[1..] == Shapes(tail);
      EncodeRoundTrip(tail, rest);
      assert [head] + tail == fields;
    }
  }

  // ---------- the same for the writer and reader objects ----------

  method WriteField(w: BitBufferWriter, field: Field) returns (ok: bool)
    requires w.Valid() && field.Supported()
    modifies w, w.writableBytes
    ensures w.Valid()
    ensures ok <==> |field.Code()| <= old(w.RemainingBitCount())
    ensures ok ==> w.Position() == old(w.Position()) + |field.Code()|
    ensures ok ==> w.Contents() == Splice(old(w.Contents()), old(w.Position()), field.Code())
  {
    hide Unpack, Splice, ToBits, NonSymmetricCode, GolombCode, LebCode;
    match field
    case Bits(v, width) =>
      Pow2Values();
      Pow2Monotone(width, 64);
      ok := w.WriteBits(v, width);
    case UInt8(v) => ok := w.WriteUInt8(v);
    case UInt16(v) => ok := w.WriteUInt16(v);
    case UInt32(v) => ok := w.WriteUInt32(v);
    case NonSymmetric(v, numValues) => ok := w.WriteNonSymmetric(v, numValues);
    case Golomb(v) => ok := w.WriteExponentialGolomb(v);
    case SignedGolomb(i) => ok := w.WriteSignedExponentialGolomb(i);
    case Leb128(v) =>
      ok := w.WriteLeb128(v);
      assert LebCode(v)[..|LebCode(v)|] == LebCode(v);
    case Text(bytes) =>
      ok := w.WriteString(bytes);
      assert bytes[..|bytes|] == bytes;
  }

  lemma {:induction false} EncodeSnoc(fields: seq<Field>, field: Field)
    requires AllSupported(fields) && field.Supported()
    ensures AllSupported(fields + [field])
    ensures Encode(fields + [field]) == Encode(fields) + field.Code()
    decreases |fields|
  {
    hide Field.Code, Field.Supported;
    if fields == [] {
      assert ([field])[1..] == [];
      assert [] + [field] == [field];
      assert Encode([field]) == field.Code() + [];
    } else {
      EncodeSnoc(fields[1..], field);
      assert (fields + [field])[1..] == fields[1..] + [field];
      assert fields[0].Code() + (Encode(fields[1..]) + field.Code()) == Encode(fields) + field.Code();
    }
  }

  lemma {:induction false} EncodePrefix(fields: seq<Field>, i: nat)
    requires AllSupported(fields) && i <= |fields|
    ensures AllSupported(fields[..i]) && |Encode(fields[..i])| <= |Encode(fields)|
    decreases |fields| - i
  {
    if i == |fields| {
      assert fields[..i] == fields;
    } else {
      EncodePrefix(fields, i + 1);
      assert fields[..i + 1] == fields[..i] + [fields[i]];
      EncodeSnoc(fields[..i], fields[i]);
    }
  }

  /** Writes field after field, stopping at the first that does not fit. */
  method WriteAll(w: BitBufferWriter, fields: seq<Field>) returns (ok: bool)
    requires w.Valid() && AllSupported(fields)
    modifies w, w.writableBytes
    ensures w.Valid()
    ensures ok <==> |Encode(fields)| <= old(w.RemainingBitCount())
    ensures ok ==> w.Position() == old(w.Position()) + |Encode(fields)|
    ensures ok ==> w.Contents() == Splice(old(w.Contents()), old(w.Position()), Encode(fields))
  {
    hide Unpack, Splice, Encode;
    ghost var was, at, room := w.Contents(), w.Position(), w.RemainingBitCount();
    EncodeNothing(was, at);
    for i := 0 to |fields|
      invariant w.Valid() && |Encode(fields[..i])| <= room
      invariant w.Position() == at + |Encode(fields[..i])|
      invariant w.Contents() == Splice(was, at, Encode(fields[..i]))
    {
      EncodeSnoc(fields[..i], fields[i]);
      assert fields[..i + 1] == fields[..i] + [fields[i]];
      EncodePrefix(fields, i + 1);
      ok := WriteField(w, fields[i]);
      if !ok {
        return;
      }
      SpliceSplice(was, at, Encode(fields[..i]), fields[i].Code());
    }
    assert fields[..|fields|] == fields;
    return true;
  }

  lemma {:induction false} EncodeNothing(was: seq<bool>, at: nat)
    requires at <= |was|
    ensures Encode([]) == [] && Splice(was, at, []) == was
  {
  }

  method ReadField(r: BitstreamReader, shape: Shape) returns (field: Field)
    requires r.Valid() && shape.Supported()
    modifies r
    ensures old(r.Ok()) ==> r.Outcome(shape.Parse(old(r.Unread())), field)
    ensures !old(r.Ok()) ==> r.Valid() && !r.Ok()
  {
    hide Unpack, TakeBits, ParseNonSymmetric, ParseGolomb, ParseSignedGolomb, ParseLeb, TakeBytes;
    match shape
    case Bits(width) => var v := r.ReadBits(width); field := Field.Bits(v, width);
    case UInt8 => var v := r.ReadUInt(8); field := Field.UInt8(v);
    case UInt16 => var v := r.ReadUInt(16); field := Field.UInt16(v);
    case UInt32 => var v := r.ReadUInt(32); field := Field.UInt32(v);
    case NonSymmetric(numValues) => var v := r.ReadNonSymmetric(numValues); field := Field.NonSymmetric(v, numValues);
    case Golomb => var v, _ := r.ReadExponentialGolomb(); field := Field.Golomb(v);
    case SignedGolomb => var i := r.ReadSignedExponentialGolomb(); field := Field.SignedGolomb(i);
    case Leb128 => var v := r.ReadLeb128(); field := Field.Leb128(v);
    case Text(length) => var t := r.ReadString(length); field := Field.Text(t);
  }

  method ReadAll(r: BitstreamReader, shapes: seq<Shape>) returns (fields: seq<Field>)
    requires r.Valid() && ShapesSupported(shapes)
    modifies r
    ensures old(r.Ok()) ==> r.Outcome(ParseAll(shapes, old(r.Unread())), fields)
    ensures !old(r.Ok()) ==> r.Valid() && !r.Ok()
  {
    hide Prepend;
    ghost var start := if r.Ok() then r.Unread() else [];
    fields := [];
    assert shapes[0..] == shapes;
    PrependLaws(fields, fields, ParseAll(shapes, start));
    for i := 0 to |shapes|
      invariant r.Valid() && (r.Ok() ==> old(r.Ok()))
      invariant r.Ok() ==> ParseAll(shapes, start) == Prepend(fields, ParseAll(shapes[i..], r.Unread()))
      invariant !r.Ok() && old(r.Ok()) ==> ParseAll(shapes, start) == Fail
    {
      var field := ReadField(r, shapes[i]);
      assert shapes[i..][0] == shapes[i] && shapes[i..][1..] == shapes[i + 1..];
      if r.Ok() {
        PrependLaws(fields, [field], ParseAll(shapes[i + 1..], r.Unread()));
      }
      PrependFail(fields);
      fields := fields + [field];
    }
    if r.Ok() {
      PrependDone(fields, r.Unread());
    }
  }

  /** A reader that finds the codewords of `fields` at bit `skip` returns the fields and stops right behind them. */
  method ReadBack(fields: seq<Field>, bytes: seq<Byte>, skip: nat, ghost rest: seq<bool>)
    returns (result: seq<Field>, left: int)
    requires AllSupported(fields) && 8 * |bytes| <= INT_MAX && skip <= 8 * |bytes|
    requires Unpack(bytes)[skip..] == Encode(fields) + rest
    ensures result == fields && left == |rest|
  {
    hide Unpack, Encode, ParseAll, Shapes, AllSupported;
    var r := new BitstreamReader(bytes);
    r.ConsumeBits(skip);
    EncodeRoundTrip(fields, rest);
    result := ReadAll(r, Shapes(fields));
    left := r.remainingBits;
  }

  /**
   A writer and a reader start at the same bit of the same buffer. If the fields fit, their
   codewords are in the buffer, at that bit and with every other bit as it was; the reader
   returns them, is still Ok, and stops with the writer right behind them.
   */
  method RoundTrip(fields: seq<Field>, bytes: array<Byte>, byteCount: nat, skip: nat)
    returns (ok: bool, result: seq<Field>, writerLeft: nat, readerLeft: int)
    requires AllSupported(fields)
    requires byteCount <= bytes.Length && 8 * byteCount <= INT_MAX && skip <= 8 * byteCount
    modifies bytes
    ensures ok <==> skip + |Encode(fields)| <= 8 * byteCount
    ensures ok ==> Unpack(bytes[..]) == Splice(old(Unpack(bytes[..])), skip, Encode(fields))
    ensures ok ==> result == fields && readerLeft == writerLeft == 8 * byteCount - skip - |Encode(fields)|
  {
    hide Unpack, Splice, Encode, AllSupported;
    var w := new BitBufferWriter(bytes, byteCount);
    var _ := w.ConsumeBits(skip);
    ghost var was := w.Contents();
    ok := WriteAll(w, fields);
    result, writerLeft, readerLeft := [], w.RemainingBitCount(), -1;
    if ok {
      SharedBuffer(bytes[..], byteCount, was, skip, Encode(fields));
      result, readerLeft := ReadBack(fields, bytes[..byteCount], skip, was[skip + |Encode(fields)|..8 * byteCount]);
    }
  }

  lemma {:induction false} SharedBuffer(bytes: seq<Byte>, byteCount: nat, was: seq<bool>, skip: nat, code: seq<bool>)
    requires byteCount <= |bytes| && |was| == 8 * |bytes| && skip + |code| <= 8 * byteCount
    requires Unpack(bytes) == Splice(was, skip, code)
    ensures Unpack(bytes[..byteCount])[skip..] == code + was[skip + |code|..8 * byteCount]
  {
    assert bytes == bytes[..byteCount] + bytes[byteCount..];
    UnpackConcat(bytes[..byteCount], bytes[byteCount..]);
    assert Unpack(bytes[..byteCount]) == Unpack(bytes)[..8 * byteCount];
  }

  // ---------- every run of reader calls ----------

  lemma {:induction false} TakeOneMore(bs: seq<bool>, n: nat)
    ensures TakeBits(bs, n).Fail? ==> TakeBits(bs, n + 1).Fail?
    ensures TakeBits(bs, n).Done? ==>
      TakeBits(bs, n + 1) == match TakeBits(TakeBits(bs, n).rest, 1)
                             case Fail => Fail
                             case Done(bit, rest) => Done(2 * TakeBits(bs, n).value + bit, rest)
  {
    if n < |bs| {
      TakeOne(bs[n..]);
      assert bs[..n + 1][..n] == bs[..n] && bs[..n + 1][n] == bs[n..][0];
      assert bs[n..][1..] == bs[n + 1..];
    } else if n == |bs| {
      TakeOne(bs[n..]);
    }
  }

  /** `n` single-bit reads, folded most significant first. */
  method ReadBitByBit(r: BitstreamReader, n: nat) returns (value: nat)
    requires r.Valid() && r.Ok()
    modifies r
    ensures r.Outcome(TakeBits(old(r.Unread()), n), value)
  {
    hide Unpack, TakeBits, FromBits;
    ghost var start := r.Unread();
    value := 0;
    TakeNothing(start);
    for i := 0 to n
      invariant r.Outcome(TakeBits(start, i), value)
    {
      TakeOneMore(start, i);
      var bit := r.ReadBit();
      value := 2 * value + bit;
    }
  }

  lemma {:induction false} TakeNothing(bs: seq<bool>)
    ensures TakeBits(bs, 0) == Done(0, bs)
  {
  }

  /**
   Three readers in the same state: ReadBits, as many ReadBit calls, and ConsumeBits take them to
   the same state again, and the two reads give the same value when the bits are there.
   */
  method ReadBitsThreeWays(a: BitstreamReader, b: BitstreamReader, c: BitstreamReader, n: nat)
    returns (value: nat, folded: nat)
    requires a != b && b != c && a != c && n <= 64
    requires a.Valid() && b.Valid() && c.Valid() && a.Ok()
    requires a.data == b.data == c.data && a.remainingBits == b.remainingBits == c.remainingBits
    modifies a, b, c
    ensures a.Valid() && b.Valid() && c.Valid()
    ensures a.remainingBits == b.remainingBits == c.remainingBits
    ensures a.Ok() <==> n <= old(a.remainingBits)
    ensures a.Ok() ==> value == folded && a.at == b.at == c.at
  {
    hide Unpack, FromBits;
    value := a.ReadBits(n);
    folded := ReadBitByBit(b, n);
    c.ConsumeBits(n);
  }

  datatype Call = Read(shape: Shape) | ReadOne | Consume(n: nat) | SetInvalid

  ghost predicate CallsSupported(calls: seq<Call>) {
    forall i :: 0 <= i < |calls| && calls[i].Read? ==> calls[i].shape.Supported()
  }

  /** What is left unread after one call. */
  ghost function AfterCall(call: Call, bs: seq<bool>): Parsed<()>
    requires call.Read? ==> call.shape.Supported()
  {
    match call
    case Read(shape) => Map(shape.Parse(bs), f => ())
    case ReadOne => Map(TakeBits(bs, 1), v => ())
    case Consume(n) => if n <= |bs| then Done((), bs[n..]) else Fail
    case SetInvalid => Fail
  }

  ghost function AfterCalls(calls: seq<Call>, bs: seq<bool>): Parsed<()>
    requires CallsSupported(calls)
    decreases |calls|
  {
    if calls == [] then Done((), bs)
    else match AfterCall(calls[0], bs)
         case Fail => Fail
         case Done(_, rest) => AfterCalls(calls[1..], rest)
  }

  method DoCall(r: BitstreamReader, call: Call)
    requires r.Valid() && (call.Read? ==> call.shape.Supported())
    modifies r
    ensures old(r.Ok()) ==> r.Outcome(AfterCall(call, old(r.Unread())), ())
    ensures !old(r.Ok()) ==> r.Valid() && !r.Ok()
  {
    match call
    case Read(shape) => var _ := ReadField(r, shape);
    case ReadOne => var _ := r.ReadBit();
    case Consume(n) => r.ConsumeBits(n);
    case SetInvalid => r.Invalidate();
  }

  lemma {:induction false} AfterCallsStep(calls: seq<Call>, i: nat, bs: seq<bool>)
    requires CallsSupported(calls) && i < |calls|
    ensures AfterCalls(calls[i..], bs) == match AfterCall(calls[i], bs)
                                          case Fail => Fail
                                          case Done(_, rest) => AfterCalls(calls[i + 1..], rest)
  {
    assert calls[i..][0] == calls[i] && calls[i..][1..] == calls[i + 1..];
  }

  lemma {:induction false} AfterCallsEnds(calls: seq<Call>, bs: seq<bool>)
    requires CallsSupported(calls)
    ensures calls[0..] == calls
    ensures AfterCalls(calls[|calls|..], bs) == Done((), bs)
  {
  }

  /**
   Every run of calls on every buffer keeps the reader's invariant (the cursor is inside the
   buffer and exact while Ok), leaves unread what the calls have not taken, and once a call
   fails the reader stays failed.
   */
  method RunCalls(r: BitstreamReader, calls: seq<Call>)
    requires r.Valid() && CallsSupported(calls)
    modifies r
    ensures old(r.Ok()) ==> r.Outcome(AfterCalls(calls, old(r.Unread())), ())
    ensures !old(r.Ok()) ==> r.Valid() && !r.Ok()
  {
    hide Unpack, AfterCall, AfterCalls;
    ghost var start := if r.Ok() then r.Unread() else [];
    AfterCallsEnds(calls, start);
    for i := 0 to |calls|
      invariant r.Valid() && (r.Ok() ==> old(r.Ok()))
      invariant r.Ok() ==> AfterCalls(calls, start) == AfterCalls(calls[i..], r.Unread())
      invariant !r.Ok() && old(r.Ok()) ==> AfterCalls(calls, start) == Fail
    {
      if r.Ok() { AfterCallsStep(calls, i, r.Unread()); }
      DoCall(r, calls[i]);
    }
    if r.Ok() { AfterCallsEnds(calls, r.Unread()); }
  }
}
