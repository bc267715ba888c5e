/** The encoder of pb_encode.c, proved to emit the bytes of module Encoding. */
module Encoder {
  import opened Basics
  import opened Bits
  import opened Wire
  import opened Descriptor
  import opened Message
  import opened Encoding
  import opened OutputStream
  import opened FieldIterator

  // ---- Scalars -----------------------------------------------------------------------------

  method EncodeVarint(stream: OStream, value: nat) returns (r: Result<()>)
    requires stream.Valid() && value < TWO_64
    modifies stream, stream.buf
    ensures stream.Emits(old(stream.Now()), r, Success(VarintBytes(value)))
  {
    if value <= 0x7F {
      r := stream.Write([value], 1);
      return;
    }
    hide *;
    var buffer := new byte[10];
    var i := FillVarint(buffer, value);
    r := stream.Write(buffer[..i], i);
  }

  /** The loop of pb_encode_varint, which fills the buffer with the groups of the value. */
  method FillVarint(buffer: array<byte>, value: nat) returns (i: nat)
    requires buffer.Length == 10 && 0 < value < TWO_64
    modifies buffer
    ensures i <= 10 && buffer[..i] == VarintBytes(value)
  {
    VarintFitsBuffer(value);
    hide *;
    i := 0;
    var v: nat := value;
    ghost var done: seq<byte> := [];
    assert [] + VarintBytes(value) == VarintBytes(value);
    while v > 0
      invariant |done| == i <= 10 && forall k: nat :: k < i ==> buffer[k] == done[k]
      invariant v > 0 ==> VarintBytes(value) == done + VarintBytes(v)
      invariant v == 0 ==> i > 0 && done[i - 1] >= 128 && VarintBytes(value) == done[..i - 1] + [done[i - 1] - 128]
      decreases v
    {
      NextGroup(value, done, v);
      buffer[i] := v % 128 + 128;
      done := done + [v % 128 + 128];
      v := v / 128;
      i := i + 1;
    }
    assert buffer[i - 1] == done[i - 1] >= 128;
    buffer[i - 1] := buffer[i - 1] - 128;
    assert |VarintBytes(value)| == i;
    assert forall k: nat :: k < i ==> buffer[k] == VarintBytes(value)[k];
  }

  /** The group that comes behind those in `done`, with the bit for more set. */
  lemma NextGroup(value: nat, done: seq<byte>, v: nat)
    requires v > 0 && VarintBytes(value) == done + VarintBytes(v)
    ensures |done| < |VarintBytes(value)|
    ensures v / 128 > 0 ==> VarintBytes(value) == done + [v % 128 + 128] + VarintBytes(v / 128)
    ensures v / 128 == 0 ==> VarintBytes(value) == (done + [v % 128 + 128])[..|done|] + [v % 128 + 128 - 128]
  {
    VarintStep(v);
    hide VarintBytes;
    if v >= 128 {
      assert done + ([v % 128 + 128] + VarintBytes(v / 128)) == done + [v % 128 + 128] + VarintBytes(v / 128);
    } else {
      assert (done + [v % 128 + 128])[..|done|] == done && v % 128 == v;
    }
  }


  method EncodeSVarint(stream: OStream, value: int) returns (r: Result<()>)
    requires stream.Valid() && -(TWO_63 as int) <= value < TWO_63
    modifies stream, stream.buf
    ensures stream.Emits(old(stream.Now()), r, Success(VarintBytes(ZigZag(value))))
  {
    ZigZagByShifting(value);
    var shifted := (value % TWO_64) * 2 % TWO_64;
    var zigzagged := if value < 0 then TWO_64 - 1 - shifted else shifted;
    r := EncodeVarint(stream, zigzagged);
  }

  /** The shift and the complement on 64-bit words compute the zigzag code. */
  lemma ZigZagByShifting(value: int)
    requires -(TWO_63 as int) <= value < TWO_63
    ensures value >= 0 ==> (value % TWO_64) * 2 % TWO_64 == ZigZag(value)
    ensures value < 0 ==> TWO_64 - 1 - (value % TWO_64) * 2 % TWO_64 == ZigZag(value)
  {
    ModIs(value, TWO_64, if value < 0 then -1 else 0);
    var u := (value % TWO_64) * 2;
    ModIs(u, TWO_64, if value < 0 then 1 else 0);
  }

  method EncodeFixed32(stream: OStream, val: nat) returns (r: Result<()>)
    requires stream.Valid() && val < TWO_32
    modifies stream, stream.buf
    ensures stream.Emits(old(stream.Now()), r, Success(LittleEndian(val, 4)))
  {
    var bytes := new byte[4];
    bytes[0] := val % 256;
    bytes[1] := val / 0x100 % 256;
    bytes[2] := val / 0x1_0000 % 256;
    bytes[3] := val / 0x100_0000 % 256;
    LittleEndian4(val);
    assert bytes[..] == LittleEndian(val, 4);
    r := stream.Write(bytes[..], 4);
  }

  lemma LittleEndian4(v: nat)
    ensures LittleEndian(v, 4) == [v % 256, v / 0x100 % 256, v / 0x1_0000 % 256, v / 0x100_0000 % 256]
  {
    assert LittleEndian(v, 4) == [v % 256] + LittleEndian(v / 0x100, 3);
    assert LittleEndian(v / 0x100, 3) == [v / 0x100 % 256] + LittleEndian(v / 0x1_0000, 2);
    assert LittleEndian(v / 0x1_0000, 2) == [v / 0x1_0000 % 256] + LittleEndian(v / 0x100_0000, 1);
    assert LittleEndian(v / 0x100_0000, 1) == [v / 0x100_0000 % 256];
  }

  method EncodeFixed64(stream: OStream, val: nat) returns (r: Result<()>)
    requires stream.Valid() && val < TWO_64
    modifies stream, stream.buf
    ensures stream.Emits(old(stream.Now()), r, Success(LittleEndian(val, 8)))
  {
    var bytes := new byte[8];
    bytes[0] := val % 256;
    bytes[1] := val / 0x100 % 256;
    bytes[2] := val / 0x1_0000 % 256;
    bytes[3] := val / 0x100_0000 % 256;
    var high := val / TWO_32;
    bytes[4] := high % 256;
    bytes[5] := high / 0x100 % 256;
    bytes[6] := high / 0x1_0000 % 256;
    bytes[7] := high / 0x100_0000 % 256;
    LittleEndian8(val);
    assert bytes[..] == LittleEndian(val, 8);
    r := stream.Write(bytes[..], 8);
  }

  lemma LittleEndian8(v: nat)
    ensures LittleEndian(v, 8) == LittleEndian(v, 4) + LittleEndian(v / TWO_32, 4)
    ensures LittleEndian(v, 4) == [v % 256, v / 0x100 % 256, v / 0x1_0000 % 256, v / 0x100_0000 % 256]
    ensures LittleEndian(v / TWO_32, 4) ==
            [v / TWO_32 % 256, v / TWO_32 / 0x100 % 256, v / TWO_32 / 0x1_0000 % 256, v / TWO_32 / 0x100_0000 % 256]
  {
    LittleEndianTwo(v, 6);
    LittleEndianTwo(v / 0x1_0000, 4);
    assert v / 0x1_0000 / 0x1_0000 == v / TWO_32;
    assert v / 0x1_0000 / 0x100 == v / 0x100_0000;
    LittleEndian4(v);
    LittleEndian4(v / TWO_32);
    hide LittleEndian;
    assert LittleEndian(v, 8) == [v % 256, v / 0x100 % 256, v / 0x1_0000 % 256, v / 0x100_0000 % 256]
                                 + LittleEndian(v / TWO_32, 4);
  }

  lemma LittleEndianTwo(v: nat, n: nat)
    ensures LittleEndian(v, n + 2) == [v % 256, v / 0x100 % 256] + LittleEndian(v / 0x1_0000, n)
  {
    assert LittleEndian(v, n + 2) == [v % 256] + LittleEndian(v / 0x100, n + 1);
    assert v / 0x100 / 0x100 == v / 0x1_0000;
  }

  method EncodeTagForField(stream: OStream, f: Field) returns (r: Result<()>)
    requires stream.Valid() && WellFormedField(f)
    modifies stream, stream.buf
    ensures stream.Emits(old(stream.Now()), r, Success(FieldTag(f)))
  {
    var wireType;
    match f.ltype {
      case Bool => wireType := WT_VARINT;
      case Varint => wireType := WT_VARINT;
      case UVarint => wireType := WT_VARINT;
      case SVarint => wireType := WT_VARINT;
      case Fixed32 => wireType := WT_32BIT;
      case Fixed64 => wireType := WT_64BIT;
      case Bytes => wireType := WT_STRING;
      case Str => wireType := WT_STRING;
      case Submessage(_) => wireType := WT_STRING;
      case FixedLengthBytes => wireType := WT_STRING;
      case Extension => return Failure(InvalidFieldType);
    }
    r := EncodeTag(stream, wireType, f.tag);
  }

  method EncodeTag(stream: OStream, wireType: nat, tag: nat) returns (r: Result<()>)
    requires stream.Valid() && wireType < 8 && tag < TWO_32 / 8
    modifies stream, stream.buf
    ensures stream.Emits(old(stream.Now()), r, Success(TagBytes(tag, wireType)))
  {
    r := EncodeVarint(stream, 8 * tag + wireType);
  }

  method EncodeString(stream: OStream, data: seq<byte>) returns (r: Result<()>)
    requires stream.Valid()
    modifies stream, stream.buf
    ensures stream.Emits(old(stream.Now()), r, Success(Prefixed(data)))
  {
    ghost var before, length := stream.Now(), Success(VarintBytes(|data| % TWO_64));
    r := EncodeVarint(stream, |data| % TWO_64);
    if r.Failure? {
      EmittedFailed(stream.sizing, stream.maxSize, before, stream.Now(), length, r, Success(data));
      return;
    }
    ghost var mid, written := stream.Now(), r;
    r := stream.Write(data, |data|);
    EmittedBoth(stream.sizing, stream.maxSize, before, mid, stream.Now(), written, length, r, Success(data));
  }

  // ---- Field encoders ------------------------------------------------------------------------

  method EncString(stream: OStream, f: Field, data: seq<byte>) returns (r: Result<()>)
    requires stream.Valid() && |data| <= f.dataSize
    modifies stream, stream.buf
    ensures stream.Emits(old(stream.Now()), r, Success(Prefixed(data[..StrLen(data)])))
  {
    var size := 0;
    while size < |data| && data[size] != 0
      invariant size <= |data| && StrLen(data) == size + StrLen(data[size..])
    {
      size := size + 1;
    }
    r := EncodeString(stream, data[..size]);
  }

  /** The function of the encoder table for the type of `f`, applied to one item. */
  method EncodeItem(stream: OStream, f: Field, it: Item) returns (r: Result<()>)
    requires stream.Valid() && WellFormedField(f) && TypedItem(f, it)
    modifies stream, stream.buf
    ensures stream.Emits(old(stream.Now()), r, EncItem(f, it))
    decreases f, 0
  {
    match f.ltype {
      case Bool =>
        r := EncodeVarint(stream, if it.n != 0 then 1 else 0);
      case Varint =>
        if !ValidDataSize(f.dataSize) {
          return Failure(InvalidDataSize);
        }
        r := EncodeVarint(stream, it.n % TWO_64);
      case UVarint =>
        if !ValidDataSize(f.dataSize) {
          return Failure(InvalidDataSize);
        }
        r := EncodeVarint(stream, it.n);
      case SVarint =>
        if !ValidDataSize(f.dataSize) {
          return Failure(InvalidDataSize);
        }
        r := EncodeSVarint(stream, it.n);
      case Fixed32 =>
        r := EncodeFixed32(stream, it.n);
      case Fixed64 =>
        r := EncodeFixed64(stream, it.n);
      case Bytes =>
        if |it.data| + BYTES_OFFSET > f.dataSize {
          return Failure(BytesSizeExceeded);
        }
        r := EncodeString(stream, it.data);
      case Str =>
        r := EncString(stream, f, it.data);
      case FixedLengthBytes =>
        r := EncodeString(stream, it.data);
      case Submessage(sub) =>
        r := EncodeSubmessage(stream, sub, it.slots);
    }
  }

  /** Writes a submessage with its length in front: one dry run to find the size, and one to
      write, in a substream that has room for no more than that. */
  method EncodeSubmessage(stream: OStream, fields: seq<Field>, src: seq<Slot>) returns (r: Result<()>)
    requires stream.Valid() && WellFormed(fields) && Typed(fields, src)
    modifies stream, stream.buf
    ensures stream.Emits(old(stream.Now()), r, EncDelimited(fields, src))
    decreases fields, 2
  {
    DelimitedIs(fields, src);
    hide Emitted, EncFrom, Encode, EncDelimited, EncPrefixed, Append, WellFormed, Typed, InWindow, Spliced, VarintBytes;
    ghost var before, encoded := stream.Now(), Encode(fields, src);
    DelimitedBytes(encoded);
    var substream := new OStream.Sizing();
    ghost var empty := substream.Now();
    r := PbEncode(substream, fields, src);
    SizingPass(substream.maxSize, empty, substream.Now(), r, encoded);
    if r.Failure? {
      EmittedError(stream.sizing, stream.maxSize, before, r.error);
      return;
    }
    var size := substream.bytesWritten;
    ghost var data := encoded.value;
    ghost var length := Success(VarintBytes(size % TWO_64));
    r := EncodeVarint(stream, size % TWO_64);
    ghost var mid, written := stream.Now(), r;
    if r.Failure? {
      EmittedFailed(stream.sizing, stream.maxSize, before, mid, length, r, Success(data));
      return;
    }
    if stream.sizing {
      r := stream.Write([], size);
      EmittedCount(stream.maxSize, mid, stream.Now(), data);
    } else {
      r := SecondPassInto(stream, fields, src, size);
    }
    EmittedBoth(stream.sizing, stream.maxSize, before, mid, stream.Now(), written, length, r, Success(data));
  }

  /** The second pass over a submessage, whose size the first pass found. */
  method SecondPassInto(stream: OStream, fields: seq<Field>, src: seq<Slot>, size: nat) returns (r: Result<()>)
    requires stream.Valid() && !stream.sizing && WellFormed(fields) && Typed(fields, src)
    requires Encode(fields, src).Success? && size == |Encode(fields, src).value|
    modifies stream, stream.buf
    ensures stream.Emits(old(stream.Now()), r, Encode(fields, src))
    decreases fields, 2, 0
  {
    hide Emitted, EncFrom, Encode, EncDelimited, EncPrefixed, Append, WellFormed, Typed, InWindow, Spliced, VarintBytes;
    ghost var before, data := stream.Now(), Encode(fields, src).value;
    if stream.bytesWritten + size > stream.maxSize {
      NoRoom(stream.maxSize, before, data);
      return Failure(StreamFull);
    }
    var substream := new OStream.Within(stream, size);
    ghost var start := substream.Now();
    r := PbEncode(substream, fields, src);
    SecondPass(stream.maxSize, before, substream.Now(), r, data);
    stream.bytesWritten := stream.bytesWritten + substream.bytesWritten;
    stream.pos := substream.pos;
    if substream.bytesWritten != size {
      return Failure(SubmsgSizeChanged);
    }
  }

  lemma DelimitedBytes(data: Bytes)
    ensures data.Failure? ==> EncPrefixed(data) == data
    ensures data.Success? ==>
              EncPrefixed(data) == Append(Success(VarintBytes(|data.value| % TWO_64)), Success(data.value))
  {
    hide VarintBytes;
  }

  lemma DelimitedIs(fields: seq<Field>, src: seq<Slot>)
    requires Typed(fields, src)
    ensures EncDelimited(fields, src) == EncPrefixed(Encode(fields, src))
  {
    hide Typed, EncFrom, EncPrefixed;
  }

  /** Writes the items of a packed array. */
  method EncodePackedItems(stream: OStream, f: Field, items: seq<Item>) returns (r: Result<()>)
    requires stream.Valid() && WellFormedField(f) && TypedItems(f, items)
    modifies stream, stream.buf
    ensures stream.Emits(old(stream.Now()), r, EncPacked(f, items))
    decreases f, 1, 0
  {
    ghost var before, done: Bytes := stream.Now(), Success([]);
    EmittedNothing(stream.sizing, stream.maxSize, before);
    AppendNothing(EncPacked(f, items));
    hide Emitted, Append, EncItem;
    assert items[0..] == items;
    for i := 0 to |items|
      invariant stream.Emits(before, Success(()), done)
      invariant Append(done, EncPacked(f, items[i..])) == EncPacked(f, items)
    {
      ghost var mid, next := stream.Now(), EncItem(f, items[i]);
      assert items[i..][1..] == items[i + 1..];
      r := EncodeItem(stream, f, items[i]);
      EmittedNext(stream.sizing, stream.maxSize, before, mid, stream.Now(), done, r, next,
                  EncPacked(f, items[i + 1..]), EncPacked(f, items));
      if r.Failure? {
        return;
      }
      done := Append(done, next);
    }
    AppendNothing(done);
    return Success(());
  }

  method PbEncode(stream: OStream, fields: seq<Field>, src: seq<Slot>) returns (r: Result<()>)
    requires stream.Valid() && WellFormed(fields) && Typed(fields, src)
    modifies stream, stream.buf
    ensures stream.Emits(old(stream.Now()), r, Encode(fields, src))
    decreases fields, 1
  {
    hide *;
    ghost var before, done: Bytes := stream.Now(), Success([]);
    EncodeFromStart(fields, src);
    stream.NothingYet();
    var iter := new FieldIter(fields, 0);
    if fields == [] {
      return Success(());
    }
    var more := true;
    while more
      invariant iter.Valid() && iter.fields == fields && fresh(iter) && iter.pos < |fields|
      invariant stream.Valid() && stream.Emits(before, Success(()), done)
      invariant more ==> Append(done, EncFrom(fields, src, iter.pos)) == Encode(fields, src)
      invariant !more ==> done == Encode(fields, src)
      decreases if more then |fields| - iter.pos else -1
    {
      r, done := EncodeCurrentField(stream, iter, src, before, done, Encode(fields, src));
      if r.Failure? {
        return;
      }
      more := iter.Next();
    }
    return Success(());
  }

  lemma EncodeFromStart(fields: seq<Field>, src: seq<Slot>)
    requires WellFormed(fields) && Typed(fields, src)
    ensures SharedSelectors(fields) && Append(Success([]), EncFrom(fields, src, 0)) == Encode(fields, src)
    ensures fields == [] ==> Encode(fields, src) == Success([])
  {
    AppendNothing(Encode(fields, src));
    EncFromStep(fields, src, 0);
  }

  lemma FieldFacts(fields: seq<Field>, m: seq<Slot>, i: nat)
    requires WellFormed(fields) && Typed(fields, m) && i < |fields|
    ensures WellFormedField(fields[i]) && TakesRoom(fields)
    ensures Home(fields, i) < |m| && TypedSlot(fields[i], m[Home(fields, i)])
  {}

  /** Encodes the field that the iterator is at, found through its data pointer. */
  method EncodeCurrentField(stream: OStream, iter: FieldIter, src: seq<Slot>,
                            ghost before: Snap, ghost done: Bytes, ghost whole: Bytes)
      returns (r: Result<()>, ghost next: Bytes)
    requires stream.Valid() && iter.Valid() && iter.pos < |iter.fields|
    requires iter as object != stream && stream.buf as object != iter
    requires WellFormed(iter.fields) && Typed(iter.fields, src)
    requires !stream.sizing ==>
               before.written <= stream.maxSize && before.pos + (stream.maxSize - before.written) <= |before.bytes|
    requires stream.Emits(before, Success(()), done) && Append(done, EncFrom(iter.fields, src, iter.pos)) == whole
    modifies stream, stream.buf
    ensures r.Failure? ==> stream.Emits(before, r, whole)
    ensures r.Success? ==>
              && stream.Valid() && stream.Emits(before, Success(()), next)
              && (if iter.pos + 1 < |iter.fields| then Append(next, EncFrom(iter.fields, src, iter.pos + 1)) == whole
                  else next == whole)
    decreases iter.fields, 0, 1
  {
    hide *;
    ghost var i, mid := iter.pos, stream.Now();
    FieldFacts(iter.fields, src, i);
    EncFromStep(iter.fields, src, i);
    EncFromStep(iter.fields, src, i + 1);
    stream.EmitsMeans(before, Success(()), done);
    var f, s := iter.fields[iter.pos], src[iter.DataSlot()];
    r := EncodeBasicField(stream, f, s);
    ghost var item, later := EncSlot(f, s), EncFrom(iter.fields, src, i + 1);
    stream.EmitsMeans(mid, r, item);
    EmittedNext(stream.sizing, stream.maxSize, before, mid, stream.Now(), done, r, item, later, whole);
    next := Append(done, item);
    AppendNothing(next);
    stream.EmitsMeans(before, Success(()), next);
    stream.EmitsMeans(before, r, whole);
  }

  /** Writes one field, if it is there at all. */
  method EncodeBasicField(stream: OStream, f: Field, s: Slot) returns (r: Result<()>)
    requires stream.Valid() && WellFormedField(f) && TypedSlot(f, s)
    modifies stream, stream.buf
    ensures stream.Emits(old(stream.Now()), r, EncSlot(f, s))
    decreases f, 3
  {
    hide Emitted, EncItem, EncPackedRecord, EncTagged;
    ghost var before := stream.Now();
    EmittedNothing(stream.sizing, stream.maxSize, before);
    var pSize := 1;
    if f.sizeOffset != 0 {
      pSize := s.size;
    } else if f.htype.Optional? {
      var isDefault := CheckProto3DefaultValue(f, s);
      pSize := if isDefault then 0 else 1;
    }
    match f.htype {
      case Required =>
        r := EncodeTagAndItem(stream, f, s.items[0]);
      case Optional =>
        if pSize != 0 {
          r := EncodeTagAndItem(stream, f, s.items[0]);
        } else {
          r := Success(());
        }
      case Repeated =>
        r := EncodeArray(stream, f, s.items, pSize);
      case Oneof =>
        if pSize == f.tag {
          r := EncodeTagAndItem(stream, f, s.items[0]);
        } else {
          r := Success(());
        }
    }
  }

  method EncodeTagAndItem(stream: OStream, f: Field, it: Item) returns (r: Result<()>)
    requires stream.Valid() && WellFormedField(f) && TypedItem(f, it)
    modifies stream, stream.buf
    ensures stream.Emits(old(stream.Now()), r, Append(Success(FieldTag(f)), EncItem(f, it)))
    decreases f, 1, 0
  {
    hide Emitted, EncItem;
    ghost var before, tag := stream.Now(), Success(FieldTag(f));
    r := EncodeTagForField(stream, f);
    if r.Failure? {
      EmittedFailed(stream.sizing, stream.maxSize, before, stream.Now(), tag, r, EncItem(f, it));
      return;
    }
    ghost var mid, tagged := stream.Now(), r;
    r := EncodeItem(stream, f, it);
    EmittedBoth(stream.sizing, stream.maxSize, before, mid, stream.Now(), tagged, tag, r, EncItem(f, it));
  }

  /** Whether a field has the zero value that proto3 does not encode. */
  method CheckProto3DefaultValue(f: Field, s: Slot) returns (zero: bool)
    requires WellFormedField(f) && TypedSlot(f, s)
    ensures zero == ZeroValue(f, s)
    decreases f
  {
    if f.htype.Required? {
      return false;
    } else if f.htype.Repeated? || f.htype.Oneof? || f.sizeOffset != 0 {
      return s.size == 0;
    }
    var it := s.items[0];
    match f.ltype {
      case Bytes => return |it.data| == 0;
      case Str => return it.data == [] || it.data[0] == 0;
      case FixedLengthBytes => return f.dataSize == 0;
      case Submessage(sub) =>
        assert TypedItem(f, it) && Typed(sub, it.slots);
        assert ZeroValue(f, s) == ZeroItemValue(f, it) == ZeroFrom(sub, it.slots, 0);
        hide DataAt, SizeAt, RequiredBefore, ZeroValue, ZeroItemValue;
        var iter := new FieldIter(sub, 0);
        if sub != [] {
          var more := true;
          while more
            invariant iter.Valid() && iter.fields == sub && fresh(iter)
            invariant more ==> ZeroFrom(sub, it.slots, 0) == ZeroFrom(sub, it.slots, iter.pos)
            invariant !more ==> ZeroFrom(sub, it.slots, 0)
            decreases if more then |sub| - iter.pos else -1
          {
            assert WellFormedField(sub[iter.pos]);
            var zeroField := CheckProto3DefaultValue(sub[iter.pos], it.slots[iter.DataSlot()]);
            if !zeroField {
              return false;
            }
            more := iter.Next();
          }
        }
        return true;
      case Extension => return true;
      case _ => return it.n == 0;
    }
  }

  /** Writes a repeated field, packed if the type allows it. */
  method EncodeArray(stream: OStream, f: Field, items: seq<Item>, count: nat) returns (r: Result<()>)
    requires stream.Valid() && WellFormedField(f) && TypedItems(f, items) && |items| == f.arraySize
    modifies stream, stream.buf
    ensures stream.Emits(old(stream.Now()), r, EncArray(f, items, count))
    decreases f, 2
  {
    hide Emitted, EncPacked, EncTagged;
    ghost var before := stream.Now();
    if count == 0 {
      EmittedNothing(stream.sizing, stream.maxSize, before);
      return Success(());
    }
    if count > f.arraySize {
      EmittedError(stream.sizing, stream.maxSize, before, ArrayMaxSizeExceeded);
      return Failure(ArrayMaxSizeExceeded);
    }
    if Packable(f) {
      r := EncodePackedArray(stream, f, items[..count]);
    } else {
      r := EncodeTaggedItems(stream, f, items[..count]);
    }
  }

  /** The items of an array, each with its own tag. */
  method EncodeTaggedItems(stream: OStream, f: Field, items: seq<Item>) returns (r: Result<()>)
    requires stream.Valid() && WellFormedField(f) && TypedItems(f, items)
    modifies stream, stream.buf
    ensures stream.Emits(old(stream.Now()), r, EncTagged(f, items))
    decreases f, 1, 1
  {
    ghost var before, done: Bytes := stream.Now(), Success([]);
    EmittedNothing(stream.sizing, stream.maxSize, before);
    AppendNothing(EncTagged(f, items));
    hide Emitted, Append, EncItem;
    assert items[0..] == items;
    for i := 0 to |items|
      invariant stream.Emits(before, Success(()), done)
      invariant Append(done, EncTagged(f, items[i..])) == EncTagged(f, items)
    {
      ghost var mid, next := stream.Now(), Append(Success(FieldTag(f)), EncItem(f, items[i]));
      assert items[i..][1..] == items[i + 1..];
      r := EncodeTagAndItem(stream, f, items[i]);
      EmittedNext(stream.sizing, stream.maxSize, before, mid, stream.Now(), done, r, next,
                  EncTagged(f, items[i + 1..]), EncTagged(f, items));
      if r.Failure? {
        return;
      }
      done := Append(done, next);
    }
    AppendNothing(done);
    return Success(());
  }

  /** The total size of a packed array: computed for fixed-width items, found by a dry run for
      the others. */
  method PackedSize(f: Field, items: seq<Item>) returns (r: Result<nat>)
    requires WellFormedField(f) && TypedItems(f, items)
    ensures match EncPacked(f, items)
            case Success(bs) => r == Success(|bs|)
            case Failure(e) => r == Failure(e) && e != SubmsgSizeChanged
    decreases f, 1, 1
  {
    hide EncPacked;
    if f.ltype.Fixed32? {
      PackedFixedSize(f, items, 4);
      return Success(4 * |items|);
    } else if f.ltype.Fixed64? {
      PackedFixedSize(f, items, 8);
      return Success(8 * |items|);
    }
    var sizestream := new OStream.Sizing();
    var status := EncodePackedItems(sizestream, f, items);
    return if status.Success? then Success(sizestream.bytesWritten) else Failure(status.error);
  }

  /** A packed array: tag, total size, items. */
  method EncodePackedArray(stream: OStream, f: Field, items: seq<Item>) returns (r: Result<()>)
    requires stream.Valid() && WellFormedField(f) && TypedItems(f, items)
    modifies stream, stream.buf
    ensures stream.Emits(old(stream.Now()), r, EncPackedRecord(f, items))
    decreases f, 1, 2
  {
    hide Emitted, EncPacked;
    ghost var before, tag := stream.Now(), Success(TagBytes(f.tag, WT_STRING));
    r := EncodeTag(stream, WT_STRING, f.tag);
    if r.Failure? {
      EmittedFailed(stream.sizing, stream.maxSize, before, stream.Now(), tag, r, EncPrefixed(EncPacked(f, items)));
      return;
    }
    ghost var start, tagged := stream.Now(), r;
    var counted := PackedSize(f, items);
    if counted.Failure? {
      EmittedError(stream.sizing, stream.maxSize, start, counted.error);
      EmittedBoth(stream.sizing, stream.maxSize, before, start, start, tagged, tag, Failure(counted.error),
                  EncPacked(f, items));
      return Failure(counted.error);
    }
    var size := counted.value;
    ghost var data := EncPacked(f, items).value;
    ghost var length := Success(VarintBytes(size % TWO_64));
    r := EncodeVarint(stream, size % TWO_64);
    ghost var mid, written := stream.Now(), r;
    if r.Success? {
      if stream.sizing {
        r := stream.Write([], size);
        EmittedCount(stream.maxSize, mid, stream.Now(), data);
      } else {
        r := EncodePackedItems(stream, f, items);
      }
      EmittedBoth(stream.sizing, stream.maxSize, start, mid, stream.Now(), written, length, r, Success(data));
    } else {
      EmittedFailed(stream.sizing, stream.maxSize, start, mid, length, r, Success(data));
    }
    EmittedBoth(stream.sizing, stream.maxSize, before, start, stream.Now(), tagged, tag, r, EncPrefixed(Success(data)));
  }

  lemma {:induction false} PackedFixedSize(f: Field, items: seq<Item>, width: nat)
    requires TypedItems(f, items)
    requires (f.ltype.Fixed32? && width == 4) || (f.ltype.Fixed64? && width == 8)
    ensures EncPacked(f, items).Success? && |EncPacked(f, items).value| == width * |items|
    decreases |items|
  {
    if items != [] {
      PackedFixedSize(f, items[1..], width);
    }
  }

  // ---- Whole messages -----------------------------------------------------------------------

  method PbEncodeDelimited(stream: OStream, fields: seq<Field>, src: seq<Slot>) returns (r: Result<()>)
    requires stream.Valid() && WellFormed(fields) && Typed(fields, src)
    modifies stream, stream.buf
    ensures stream.Emits(old(stream.Now()), r, EncDelimited(fields, src))
  {
    r := EncodeSubmessage(stream, fields, src);
  }

  method PbEncodeNullterminated(stream: OStream, fields: seq<Field>, src: seq<Slot>) returns (r: Result<()>)
    requires stream.Valid() && WellFormed(fields) && Typed(fields, src)
    modifies stream, stream.buf
    ensures stream.Emits(old(stream.Now()), r, Append(Encode(fields, src), Success([0])))
  {
    hide Emitted, EncFrom;
    ghost var before := stream.Now();
    r := PbEncode(stream, fields, src);
    if r.Failure? {
      EmittedFailed(stream.sizing, stream.maxSize, before, stream.Now(), Encode(fields, src), r, Success([0]));
      return;
    }
    ghost var mid, encoded := stream.Now(), r;
    r := stream.Write([0], 1);
    EmittedBoth(stream.sizing, stream.maxSize, before, mid, stream.Now(), encoded, Encode(fields, src), r,
                Success([0]));
  }

  /** The size of the encoded message, without writing it. */
  method PbGetEncodedSize(fields: seq<Field>, src: seq<Slot>) returns (r: Result<nat>)
    requires WellFormed(fields) && Typed(fields, src)
    ensures match Encode(fields, src)
            case Success(bs) => r == Success(|bs|)
            case Failure(e) => r == Failure(e)
  {
    var stream := new OStream.Sizing();
    var status := PbEncode(stream, fields, src);
    return if status.Success? then Success(stream.bytesWritten) else Failure(status.error);
  }
}
