/** The decoder of pb_decode.c, proved to compute what module Decoding says. */
module Decoder {
  import opened Basics
  import opened Bits
  import opened Wire
  import opened Descriptor
  import opened Message
  import opened Encoding
  import opened Decoding
  import opened InputStream
  import opened FieldIterator

  // ---- Field decoders ------------------------------------------------------------------------

  method PbDecBool(stream: IStream, f: Field) returns (r: Result<Item>)
    requires stream.Valid() && f.ltype.Bool?
    modifies stream
    ensures stream.Agrees(r, DecBool(f, old(stream.Rest())), old(stream.End()))
    ensures r.Failure? ==> stream.bytesLeft == LeftByFailing(f, old(stream.Rest()))
  {
    hide Varint32;
    var value := stream.DecodeVarint32();
    if value.Failure? {
      return Failure(value.error);
    }
    return Success(Num(if value.value != 0 then 1 else 0));
  }

  method PbDecVarint(stream: IStream, f: Field) returns (r: Result<Item>)
    requires stream.Valid() && f.ltype.Varint?
    modifies stream
    ensures stream.Agrees(r, DecVarint(f, old(stream.Rest())), old(stream.End()))
    ensures r.Failure? ==> stream.bytesLeft == LeftByFailing(f, old(stream.Rest()))
  {
    hide Varint64, SignedCast;
    var value := stream.DecodeVarint();
    if value.Failure? {
      return Failure(value.error);
    }
    var svalue: int;
    if f.dataSize == 8 {
      svalue := SignedCast(value.value, 64);
    } else {
      svalue := SignedCast(value.value, 32);
    }
    r := StoreSigned(f.dataSize, svalue);
  }

  /** Casts a value to the field's size, checking that it stays the same. */
  method StoreSigned(dataSize: nat, svalue: int) returns (r: Result<Item>)
    ensures match NarrowSigned(dataSize, svalue)
            case Success(n) => r == Success(Num(n))
            case Failure(e) => r == Failure(e)
  {
    hide SignedCast, IntLimit;
    var clamped: int;
    if dataSize == 8 {
      clamped := SignedCast(svalue, 64);
    } else if dataSize == 4 {
      clamped := SignedCast(svalue, 32);
    } else if dataSize == 2 {
      clamped := SignedCast(svalue, 16);
    } else if dataSize == 1 {
      clamped := SignedCast(svalue, 8);
    } else {
      return Failure(InvalidDataSize);
    }
    if clamped != svalue {
      return Failure(IntegerTooLarge);
    }
    return Success(Num(clamped));
  }

  method PbDecUVarint(stream: IStream, f: Field) returns (r: Result<Item>)
    requires stream.Valid() && f.ltype.UVarint?
    modifies stream
    ensures stream.Agrees(r, DecVarint(f, old(stream.Rest())), old(stream.End()))
    ensures r.Failure? ==> stream.bytesLeft == LeftByFailing(f, old(stream.Rest()))
  {
    hide Varint64;
    var value := stream.DecodeVarint();
    if value.Failure? {
      return Failure(value.error);
    }
    var clamped: nat;
    if f.dataSize == 8 {
      clamped := value.value % TWO_64;
    } else if f.dataSize == 4 {
      clamped := value.value % TWO_32;
    } else if f.dataSize == 2 {
      clamped := value.value % 0x1_0000;
    } else if f.dataSize == 1 {
      clamped := value.value % 0x100;
    } else {
      return Failure(InvalidDataSize);
    }
    if clamped != value.value {
      return Failure(IntegerTooLarge);
    }
    return Success(Num(clamped));
  }

  method PbDecSVarint(stream: IStream, f: Field) returns (r: Result<Item>)
    requires stream.Valid() && f.ltype.SVarint?
    modifies stream
    ensures stream.Agrees(r, DecVarint(f, old(stream.Rest())), old(stream.End()))
    ensures r.Failure? ==> stream.bytesLeft == LeftByFailing(f, old(stream.Rest()))
  {
    hide Varint64, Varint64Left, IsSuffix, NarrowSigned, IntLimit;
    var value := stream.DecodeVarint();
    if value.Failure? {
      return Failure(value.error);
    }
    var half: int := value.value / 2;
    var svalue := if value.value % 2 == 1 then -half - 1 else half;
    r := StoreSigned(f.dataSize, svalue);
  }

  method PbDecFixed32(stream: IStream, f: Field) returns (r: Result<Item>)
    requires stream.Valid() && f.ltype.Fixed32?
    modifies stream
    ensures stream.Agrees(r, DecFixed(f, 4, old(stream.Rest())), old(stream.End()))
    ensures r.Failure? ==> stream.bytesLeft == LeftByFailing(f, old(stream.Rest()))
  {
    var bytes := new byte[4];
    var read := stream.Read(bytes, 4);
    if read.Failure? {
      return Failure(read.error);
    }
    LittleEndianOf4(bytes[..]);
    assert bytes[..] == old(stream.Rest())[..4];
    return Success(Num(Word(bytes[0], bytes[1], bytes[2], bytes[3])));
  }

  /** Four bytes or-ed together at their bit positions. */
  function Word(b0: byte, b1: byte, b2: byte, b3: byte): nat {
    BitOr(BitOr(BitOr(b0, Shl(b1, 8)), Shl(b2, 16)), Shl(b3, 24))
  }

  lemma LittleEndianOf4(bs: seq<byte>)
    requires |bs| == 4
    ensures FromLittleEndian(bs) == Word(bs[0], bs[1], bs[2], bs[3]) < TWO_32
  {
    hide BitOr;
    assert Pow2(8) == 0x100 && Pow2(16) == 0x1_0000 && Pow2(24) == 0x100_0000;
    hide Pow2;
    var b0: nat, b1: nat, b2: nat, b3: nat := bs[0], bs[1], bs[2], bs[3];
    OrDisjoint(b0, b1, 8);
    OrDisjoint(b0 + 0x100 * b1, b2, 16);
    OrDisjoint(b0 + 0x100 * b1 + 0x1_0000 * b2, b3, 24);
    FourBytes(bs, b0, b1, b2, b3);
  }

  lemma FourBytes(bs: seq<byte>, b0: nat, b1: nat, b2: nat, b3: nat)
    requires |bs| == 4 && bs[0] == b0 && bs[1] == b1 && bs[2] == b2 && bs[3] == b3
    ensures FromLittleEndian(bs) == b0 + 0x100 * b1 + 0x1_0000 * b2 + 0x100_0000 * b3
  {
    var t1, t2, t3 := bs[1..], bs[2..], bs[3..];
    assert t1[1..] == t2 && t2[1..] == t3 && t3[1..] == [];
    assert FromLittleEndian(t3) == b3;
    assert FromLittleEndian(t2) == b2 + 256 * b3;
    assert FromLittleEndian(t1) == b1 + 256 * (b2 + 256 * b3);
  }

  method PbDecFixed64(stream: IStream, f: Field) returns (r: Result<Item>)
    requires stream.Valid() && f.ltype.Fixed64?
    modifies stream
    ensures stream.Agrees(r, DecFixed(f, 8, old(stream.Rest())), old(stream.End()))
    ensures r.Failure? ==> stream.bytesLeft == LeftByFailing(f, old(stream.Rest()))
  {
    var bytes := new byte[8];
    var read := stream.Read(bytes, 8);
    if read.Failure? {
      return Failure(read.error);
    }
    var low := Word(bytes[0], bytes[1], bytes[2], bytes[3]);
    var high := Word(bytes[4], bytes[5], bytes[6], bytes[7]);
    assert bytes[..] == old(stream.Rest())[..8];
    LittleEndianOf8(bytes[..]);
    return Success(Num(BitOr(low, Shl(high, 32))));
  }

  lemma LittleEndianOf8(bs: seq<byte>)
    requires |bs| == 8
    ensures FromLittleEndian(bs) == BitOr(Word(bs[0], bs[1], bs[2], bs[3]), Shl(Word(bs[4], bs[5], bs[6], bs[7]), 32))
  {
    hide BitOr, Word;
    LittleEndianOf4(bs[..4]);
    LittleEndianOf4(bs[4..]);
    Pow2Table();
    OrDisjoint(FromLittleEndian(bs[..4]), FromLittleEndian(bs[4..]), 32);
    FromLittleEndianSplit(bs[..4], bs[4..]);
    assert bs[..4] + bs[4..] == bs;
  }

  lemma {:induction false} FromLittleEndianSplit(a: seq<byte>, b: seq<byte>)
    ensures FromLittleEndian(a + b) == FromLittleEndian(a) + Shl(FromLittleEndian(b), 8 * |a|)
  {
    if a == [] {
      assert a + b == b;
    } else {
      FromLittleEndianSplit(a[1..], b);
      assert (a + b)[1..] == a[1..] + b;
      ShlByte(FromLittleEndian(b), 8 * |a[1..]|);
      hide Shl;
      assert 8 * |a| == 8 * |a[1..]| + 8;
    }
  }

  lemma ShlByte(v: nat, n: nat)
    ensures Shl(v, n + 8) == 256 * Shl(v, n)
  {
    Pow2Seven(n);
    var p := Pow2(n);
    assert Pow2(n + 8) == 256 * p;
    hide Pow2;
    assert v * (256 * p) == 256 * (v * p);
  }

  method PbDecBlob(stream: IStream, f: Field) returns (r: Result<Item>)
    requires stream.Valid() && (f.ltype.Bytes? || f.ltype.Str? || f.ltype.FixedLengthBytes?)
    modifies stream
    ensures stream.Agrees(r, DecBlob(f, old(stream.Rest())), old(stream.End()))
  {
    hide Varint32;
    var size := stream.DecodeVarint32();
    if size.Failure? {
      return Failure(size.error);
    }
    var checked := BlobSize(f, size.value);
    if checked.Failure? {
      return Failure(checked.error);
    }
    if f.ltype.FixedLengthBytes? && size.value == 0 {
      return Success(Blob(Zeros(f.dataSize)));
    }
    var dest := new byte[size.value];
    var read := stream.Read(dest, size.value);
    if read.Failure? {
      return Failure(read.error);
    }
    assert dest[..] == dest[..size.value];
    return Success(Blob(dest[..]));
  }

  // ---- The required-field bitmap ---------------------------------------------------------------

  predicate WordBit(words: seq<nat>, r: nat)
    requires |words| == 2 && r < 64
  {
    Bit(words[r / 32], r % 32)
  }

  /** The bits below `count` are all set. */
  ghost predicate AllSet(words: seq<nat>, count: nat)
    requires |words| == 2 && count <= 64
  {
    forall r: nat :: r < count ==> WordBit(words, r)
  }

  /** The two words hold one bit for each tracked required field that was seen, and no others. */
  ghost predicate Tracks(words: seq<nat>, fields: seq<Field>, seen: set<nat>) {
    && |words| == 2 && words[0] < TWO_32 && words[1] < TWO_32
    && (forall i: nat :: i < |fields| && fields[i].htype.Required? && RequiredBefore(fields, i) < 64
          ==> (WordBit(words, RequiredBefore(fields, i)) <==> i in seen))
    && (fields != [] ==> forall r: nat :: RequiredBefore(fields, |fields|) <= r < 64 ==> !WordBit(words, r))
  }

  lemma StartTracking(fields: seq<Field>)
    ensures Tracks([0, 0], fields, {})
  {
    forall r: nat | r < 64
      ensures !WordBit([0, 0], r)
    {
      ZeroBit(r % 32);
    }
  }

  /** Setting the bit of field `i` records that it was seen. */
  lemma MarkSeen(words: seq<nat>, fields: seq<Field>, seen: set<nat>, i: nat)
    requires Tracks(words, fields, seen) && i < |fields| && fields[i].htype.Required?
    requires RequiredBefore(fields, i) < 64
    ensures var r := RequiredBefore(fields, i);
            Tracks(words[r / 32 := BitOr(words[r / 32], Pow2(r % 32))], fields, seen + {i})
  {
    hide BitOr, Bit;
    var r := RequiredBefore(fields, i);
    var words' := words[r / 32 := BitOr(words[r / 32], Pow2(r % 32))];
    WordBound(words[r / 32], r % 32);
    forall k: nat | k < 64
      ensures WordBit(words', k) <==> WordBit(words, k) || k == r
    {
      OrBit(words[r / 32], r % 32, k % 32);
    }
    forall j: nat | j < |fields| && fields[j].htype.Required? && RequiredBefore(fields, j) == r
      ensures j == i
    {
      RequiredIndexInjective(fields, i, j);
    }
    RequiredBeforeStrict(fields, i, |fields|);
  }

  lemma WordBound(w: nat, k: nat)
    requires w < TWO_32 && k < 32
    ensures BitOr(w, Pow2(k)) < TWO_32
  {
    Pow2Table();
    Pow2Grows(k + 1, 32);
    assert Pow2(k) < Pow2(k + 1);
    hide BitOr, Pow2;
    OrBound(w, Pow2(k), 32);
  }

  lemma {:induction false} Pow2Grows(m: nat, n: nat)
    requires m <= n
    ensures Pow2(m) <= Pow2(n)
    decreases n
  {
    if m < n { Pow2Grows(m, n - 1); }
  }

  /** Fields that are not tracked change nothing. */
  lemma SkipUntracked(words: seq<nat>, fields: seq<Field>, seen: set<nat>, i: nat)
    requires Tracks(words, fields, seen) && i < |fields|
    requires !fields[i].htype.Required? || RequiredBefore(fields, i) >= 64
    ensures Tracks(words, fields, seen + {i})
  {}

  /** The word comparisons at the end of pb_decode_noinit, for `count` required fields. */
  method AllBitsSet(words: array<nat>, count: nat) returns (ok: bool)
    requires words.Length == 2 && words[0] < TWO_32 && words[1] < TWO_32 && count <= 64
    requires forall r: nat :: count <= r < 64 ==> !WordBit(words[..], r)
    ensures ok <==> AllSet(words[..], count)
  {
    hide Bit, Pow2, WordBit;
    var allbits := TWO_32 - 1;
    var i := 0;
    while i < count / 32
      invariant 0 <= i <= count / 32
      invariant forall r: nat :: r < 32 * i ==> WordBit(words[..], r)
    {
      FullWord(words[..], i);
      if words[i] != allbits {
        return false;
      }
      i := i + 1;
    }
    var n := count % 32;
    if n != 0 {
      var w := count / 32;
      PartialWord(words[..], w, n, count);
      if words[w] != allbits / Pow2(32 - n) {
        return false;
      }
    }
    return true;
  }

  /** A word is full exactly when all its bits are set. */
  lemma FullWord(words: seq<nat>, i: nat)
    requires |words| == 2 && words[0] < TWO_32 && words[1] < TWO_32 && i < 2
    ensures words[i] == TWO_32 - 1 <==> forall r: nat :: 32 * i <= r < 32 * i + 32 ==> WordBit(words, r)
  {
    Pow2Table();
    hide *;
    MaskIsLowBits(words[i], 32, 32);
    if words[i] == TWO_32 - 1 {
      LowBitsSet(words, i, 32);
    } else {
      WordMissing(words, i, 32);
    }
  }

  /** The last word equals the shifted mask exactly when its bits below the count are set. */
  lemma PartialWord(words: seq<nat>, w: nat, n: nat, count: nat)
    requires |words| == 2 && words[0] < TWO_32 && words[1] < TWO_32 && w < 2 && 0 < n < 32 && count == 32 * w + n
    requires forall r: nat :: count <= r < 64 ==> !WordBit(words, r)
    ensures words[w] == (TWO_32 - 1) / Pow2(32 - n) <==> forall r: nat :: 32 * w <= r < count ==> WordBit(words, r)
  {
    Pow2Table();
    hide *;
    ShiftedMask(n);
    MaskIsLowBits(words[w], n, 32);
    HighBitsClear(words, w, n, count);
    if words[w] == (TWO_32 - 1) / Pow2(32 - n) {
      LowBitsSet(words, w, n);
    } else {
      WordMissing(words, w, n);
    }
  }

  lemma LowBitsSet(words: seq<nat>, w: nat, n: nat)
    requires |words| == 2 && w < 2 && n <= 32 && HasLowBits(words[w], n, 32)
    ensures forall r: nat :: 32 * w <= r < 32 * w + n ==> WordBit(words, r)
  {
    hide Bit;
    forall r: nat | 32 * w <= r < 32 * w + n
      ensures WordBit(words, r)
    {
      assert Bit(words[w], r - 32 * w);
    }
  }

  lemma HighBitsClear(words: seq<nat>, w: nat, n: nat, count: nat)
    requires |words| == 2 && w < 2 && count == 32 * w + n && n < 32
    requires forall r: nat :: count <= r < 64 ==> !WordBit(words, r)
    ensures forall k: nat :: n <= k < 32 ==> !Bit(words[w], k)
  {
    forall k: nat | n <= k < 32
      ensures !Bit(words[w], k)
    {
      assert !WordBit(words, 32 * w + k);
    }
  }

  /** A word that is not the mask, but has no bits above it, lacks one of its bits. */
  lemma WordMissing(words: seq<nat>, w: nat, n: nat)
    requires |words| == 2 && w < 2 && n <= 32
    requires !HasLowBits(words[w], n, 32) && forall k: nat :: n <= k < 32 ==> !Bit(words[w], k)
    ensures exists r: nat :: 32 * w <= r < 32 * w + n && !WordBit(words, r)
  {
    var k: nat :| k < 32 && !(Bit(words[w], k) <==> k < n);
    assert !WordBit(words, 32 * w + k);
  }

  /** The bits are all set exactly when every tracked required field was seen. */
  lemma TrackedIsSeen(words: seq<nat>, fields: seq<Field>, seen: set<nat>, count: nat)
    requires Tracks(words, fields, seen)
    requires count == if RequiredBefore(fields, |fields|) > 64 then 64 else RequiredBefore(fields, |fields|)
    ensures RequiredSeen(fields, seen) <==> AllSet(words, count)
  {
    if RequiredSeen(fields, seen) {
      forall r: nat | r < count
        ensures WordBit(words, r)
      {
        var i := RequiredIndexOnto(fields, |fields|, r);
      }
    }
    if AllSet(words, count) {
      forall i: nat | i < |fields| && fields[i].htype.Required? && RequiredBefore(fields, i) < 64
        ensures i in seen
      {
        RequiredBeforeStrict(fields, i, |fields|);
        assert WordBit(words, RequiredBefore(fields, i));
      }
    }
  }

  // ---- Submessages, arrays and single fields ------------------------------------------------------

  /** The function of the decoder table for the type of `f`, on the item `was`. A submessage is
      decoded in a substream, into a copy of its struct. */
  method PbDecItem(stream: IStream, f: Field, was: Item) returns (r: Result<Item>)
    requires stream.Valid() && WellFormedField(f) && TypedItem(f, was)
    modifies stream
    ensures stream.Agrees(r, DecItem(f, was, old(stream.Rest())), old(stream.End()))
    ensures r.Failure? && Packable(f) ==> stream.bytesLeft == LeftByFailing(f, old(stream.Rest()))
    decreases f, 1
  {
    hide DecBool, DecVarint, DecFixed, DecBlob, Delimited, DecodeNoInit;
    match f.ltype {
      case Bool => r := PbDecBool(stream, f);
      case Varint => r := PbDecVarint(stream, f);
      case UVarint => r := PbDecUVarint(stream, f);
      case SVarint => r := PbDecSVarint(stream, f);
      case Fixed32 => r := PbDecFixed32(stream, f);
      case Fixed64 => r := PbDecFixed64(stream, f);
      case Bytes => r := PbDecBlob(stream, f);
      case Str => r := PbDecBlob(stream, f);
      case FixedLengthBytes => r := PbDecBlob(stream, f);
      case Submessage(sub) =>
        r := PbDecSubmessage(stream, f, was);
    }
  }

  /** A submessage: decoded in a substream. The entries of an array are first set to defaults. */
  method PbDecSubmessage(stream: IStream, f: Field, was: Item) returns (r: Result<Item>)
    requires stream.Valid() && WellFormedField(f) && TypedItem(f, was) && f.ltype.Submessage?
    modifies stream
    ensures stream.Agrees(r, DecItem(f, was, old(stream.Rest())), old(stream.End()))
    decreases f, 0
  {
    hide *;
    ghost var bs, end := stream.Rest(), stream.End();
    ghost var record := Delimited(bs);
    SubmessageItem(f, was, bs);
    stream.Within();
    var made := stream.MakeSubstream();
    if made.Failure? {
      r := Failure(made.error);
      stream.MeansAgrees(r, DecItem(f, was, bs), end);
      return;
    }
    var substream := made.value;
    ghost var at := stream.pos + |record.value|;
    substream.LeftMeans(at, record.value);
    var dest := ToArray(was.slots);
    var status: Result<()>;
    ghost var p: Parse<seq<Slot>>;
    if f.htype.Repeated? {
      p := Decode(f.ltype.fields, was.slots, record.value);
      status := PbDecode(substream, f.ltype.fields, dest);
    } else {
      p := DecodeNoInit(f.ltype.fields, was.slots, record.value);
      status := PbDecodeNoInit(substream, f.ltype.fields, dest);
    }
    substream.Within();
    if p.Ok? { substream.LeftMeans(at, p.rest); }
    stream.CloseSubstream(substream);
    stream.Closed(at, end, record.rest);
    r := if status.Success? then Success(Msg(dest[..])) else Failure(status.error);
    stream.MeansAgrees(r, DecItem(f, was, bs), end);
  }

  method ToArray(m: seq<Slot>) returns (a: array<Slot>)
    ensures fresh(a) && a[..] == m
  {
    a := new Slot[|m|](i requires 0 <= i < |m| => m[i]);
  }

  method PbDecode(stream: IStream, fields: seq<Field>, dest: array<Slot>) returns (r: Result<()>)
    requires stream.Valid() && WellFormed(fields) && Typed(fields, dest[..])
    modifies stream, dest
    ensures stream.Valid() && stream.End() <= old(stream.End())
    ensures match Decode(fields, old(dest[..]), old(stream.Rest()))
            case Ok(m, rest) => r == Success(()) && dest[..] == m && stream.Left(old(stream.End()), rest)
            case Err(e) => r == Failure(e)
    decreases fields, 7
  {
    SetToDefaults(fields, dest);
    r := PbDecodeNoInit(stream, fields, dest);
  }

  /** Sets a struct to its default values, submessages included. */
  method SetToDefaults(fields: seq<Field>, dest: array<Slot>)
    requires WellFormed(fields) && Typed(fields, dest[..])
    modifies dest
    ensures dest[..] == Defaults(fields, old(dest[..]))
    decreases fields, 2
  {
    hide *;
    ghost var was := dest[..];
    DefaultsEnds(fields, was);
    var iter := new FieldIter(fields, 0);
    if fields == [] {
      return;
    }
    iter.Position();
    var more := true;
    while more
      modifies iter, dest
      invariant iter.Valid() && iter.fields == fields && iter.pos < |fields|
      invariant dest[..] == DefaultsBelow(fields, was, if more then iter.pos else |fields|)
      decreases if more then |fields| - iter.pos else -1
    {
      more := SetCurrentToDefault(iter, was, dest);
    }
  }

  /** Sets the field that the iterator is at, and steps to the next one. */
  method SetCurrentToDefault(iter: FieldIter, ghost was: seq<Slot>, dest: array<Slot>) returns (more: bool)
    requires iter.Valid() && iter.pos < |iter.fields| && WellFormed(iter.fields) && Typed(iter.fields, was)
    requires dest[..] == DefaultsBelow(iter.fields, was, iter.pos)
    modifies iter, dest
    ensures iter.Valid() && iter.pos < |iter.fields|
    ensures dest[..] == DefaultsBelow(iter.fields, was, old(iter.pos) + 1)
    ensures more <==> old(iter.pos) + 1 < |iter.fields|
    ensures more ==> iter.pos == old(iter.pos) + 1
    decreases iter.fields, 1
  {
    assert TakesRoom(iter.fields);
    hide Home, DefaultsBelow, WellFormed, Typed, TypedSlot, DefaultSlot, DataAt, SizeAt, RequiredBefore,
         SharedSelectors, TakesRoom;
    var i := iter.pos;
    var h := iter.DataSlot();
    DefaultsStep(iter.fields, was, i, h, dest[h]);
    SetFieldToDefault(iter.fields[i], h, dest);
    more := iter.Next();
  }

  /** The struct when the fields in front of `n` are set to defaults. */
  ghost function DefaultsBelow(fields: seq<Field>, m: seq<Slot>, n: nat): (d: seq<Slot>)
    requires WellFormed(fields) && Typed(fields, m) && n <= |fields|
    ensures |d| == |fields|
  {
    Defaults(fields, m)[..n] + m[n..]
  }

  lemma DefaultsEnds(fields: seq<Field>, m: seq<Slot>)
    requires WellFormed(fields) && Typed(fields, m)
    ensures DefaultsBelow(fields, m, 0) == m && DefaultsBelow(fields, m, |fields|) == Defaults(fields, m)
    ensures SharedSelectors(fields) && (fields == [] ==> Defaults(fields, m) == m)
  {}

  /** Resetting one more field; a further member of a oneof finds its selector already cleared. */
  lemma DefaultsStep(fields: seq<Field>, m: seq<Slot>, i: nat, h: nat, s: Slot)
    requires WellFormed(fields) && Typed(fields, m) && i < |fields| && h == Home(fields, i)
    requires s == DefaultsBelow(fields, m, i)[h]
    ensures WellFormedField(fields[i]) && TypedSlot(fields[i], s)
    ensures DefaultsBelow(fields, m, i)[h := DefaultSlot(fields[i], s)] == DefaultsBelow(fields, m, i + 1)
  {
    HomeKind(fields, i);
    assert TypedSlot(fields[i], m[Home(fields, i)]) && TypedSlot(fields[h], m[Home(fields, h)]);
    DefaultsAt(fields, m, i);
    DefaultsAt(fields, m, h);
    hide Defaults, DefaultSlot, TypedSlot, TypedItem, WellFormedField;
    if h == i {
      assert s == m[i];
    } else {
      assert s == m[h].(size := 0);
      ClearedTyped(fields[i], m[h]);
    }
    OverwriteNext(Defaults(fields, m), m, i, h, DefaultSlot(fields[i], s));
  }

  lemma OverwriteNext(d: seq<Slot>, m: seq<Slot>, i: nat, h: nat, s: Slot)
    requires h <= i < |m| == |d|
    requires if h == i then s == d[i] else s == d[h] && d[i] == m[i]
    ensures (d[..i] + m[i..])[h := s] == d[..i + 1] + m[i + 1..]
  {}

  lemma DefaultsAt(fields: seq<Field>, m: seq<Slot>, i: nat)
    requires WellFormed(fields) && Typed(fields, m) && i < |fields|
    ensures WellFormedField(fields[i])
    ensures Home(fields, i) == i ==>
              TypedSlot(fields[i], m[i]) && Defaults(fields, m)[i] == DefaultSlot(fields[i], m[i])
    ensures Home(fields, i) != i ==> Defaults(fields, m)[i] == m[i]
  {
    hide DefaultSlot, TypedSlot;
    assert TypedSlot(fields[i], m[Home(fields, i)]);
  }

  lemma ClearedTyped(f: Field, s: Slot)
    requires WellFormedField(f) && f.htype.Oneof? && TypedSlot(f, s)
    ensures TypedSlot(f, s.(size := 0)) && DefaultSlot(f, s.(size := 0)) == s.(size := 0)
  {}

  /** pb_field_set_to_default, for the field `f` stored in slot `h`. */
  method SetFieldToDefault(f: Field, h: nat, dest: array<Slot>)
    requires h < dest.Length && WellFormedField(f) && TypedSlot(f, dest[h])
    modifies dest
    ensures dest[..] == old(dest[..])[h := DefaultSlot(f, old(dest[h]))]
    decreases f
  {
    hide Defaults;
    var s, initData := dest[h], true;
    if f.htype.Optional? && f.sizeOffset != 0 {
      s := s.(size := 0);
    } else if f.htype.Repeated? || f.htype.Oneof? {
      s := s.(size := 0);
      initData := false;
    }
    if initData {
      if f.ltype.Submessage? {
        var sub := ToArray(s.items[0].slots);
        SetToDefaults(f.ltype.fields, sub);
        s := s.(items := [Msg(sub[..])]);
      } else if f.default.Some? {
        s := s.(items := [f.default.value]);
      } else {
        s := s.(items := [ZeroItem(f)]);
      }
    }
    dest[h] := s;
  }

  /** A packed array: its items, from a substream that they have to use up. */
  method PbDecPacked(stream: IStream, f: Field, s: Slot) returns (r: Result<Slot>)
    requires stream.Valid() && WellFormedField(f) && f.htype.Repeated? && Packable(f) && TypedSlot(f, s)
    modifies stream
    ensures stream.Agrees(r, DecPackedRecord(f, s, old(stream.Rest())), old(stream.End()))
    decreases f, 2, 1
  {
    hide Delimited, DecPacked, WellFormedField, TypedSlot, Packable;
    var made := stream.MakeSubstream();
    if made.Failure? {
      return Failure(made.error);
    }
    var substream := made.value;
    var status, slot := PbDecPackedItems(substream, f, s);
    if substream.bytesLeft != 0 {
      return Failure(ArrayOverflow);
    }
    stream.CloseSubstream(substream);
    return if status.Success? then Success(slot) else Failure(status.error);
  }

  /** The loop over the items, until the substream or the array is used up or an item fails. */
  method PbDecPackedItems(substream: IStream, f: Field, s: Slot) returns (status: Result<()>, slot: Slot)
    requires substream.Valid() && WellFormedField(f) && f.htype.Repeated? && Packable(f) && TypedSlot(f, s)
    modifies substream
    ensures substream.Valid() && substream.End() <= old(substream.End())
    ensures status.Success? ==> substream.End() == old(substream.End())
    ensures var r := DecPacked(f, s, old(substream.Rest()));
            if status.Success? && substream.bytesLeft == 0 then r == Success(slot)
            else r == Failure(if substream.bytesLeft == 0 then status.error else ArrayOverflow)
    decreases f, 2, 0
  {
    hide *;
    ghost var whole, end := DecPacked(f, s, substream.Rest()), substream.End();
    status, slot := Success(()), s;
    while substream.bytesLeft > 0 && slot.size < f.arraySize && status.Success?
      invariant substream.Valid() && substream.End() <= end && TypedSlot(f, slot)
      invariant status.Success? ==> substream.End() == end && DecPacked(f, slot, substream.Rest()) == whole
      invariant status.Failure? ==>
                  whole == Failure(if substream.bytesLeft == 0 then status.error else ArrayOverflow)
      decreases if status.Success? then substream.bytesLeft + 1 else 0
    {
      PackedStep(f, slot, substream.Rest());
      substream.LeftMeans(end, []);
      ghost var p := DecItem(f, slot.items[slot.size], substream.Rest());
      var it := PbDecItem(substream, f, slot.items[slot.size]);
      substream.AgreesMeans(it, p, end);
      if it.Failure? {
        status := Failure(it.error);
      } else {
        substream.LeftMeans(end, p.rest);
        slot := Slot(slot.size + 1, slot.items[slot.size := it.value]);
      }
    }
    PackedStep(f, slot, substream.Rest());
    substream.LeftMeans(end, []);
  }

  /** One field after its tag, into the slot `h` of the struct. */
  method PbDecodeStaticField(stream: IStream, f: Field, h: nat, wireType: nat, dest: array<Slot>)
      returns (r: Result<()>)
    requires stream.Valid() && h < dest.Length && WellFormedField(f) && TypedSlot(f, dest[h])
    modifies stream, dest
    ensures stream.Valid() && stream.End() <= old(stream.End())
    ensures match DecSlot(f, old(dest[h]), wireType, old(stream.Rest()))
            case Ok(s, rest) =>
              r == Success(()) && dest[..] == old(dest[..])[h := s] && stream.Left(old(stream.End()), rest)
            case Err(e) => r == Failure(e)
    decreases f, 3
  {
    hide *;
    ghost var slot, bs, end := dest[h], stream.Rest(), stream.End();
    SlotCases(f, slot, wireType, bs);
    ghost var was: Item;
    var it: Result<Item>;
    match f.htype {
      case Required =>
        was := slot.items[0];
        it := PbDecItem(stream, f, dest[h].items[0]);
        if it.Success? {
          dest[h] := dest[h].(items := [it.value]);
        }
      case Optional =>
        was := slot.items[0];
        if f.sizeOffset != 0 {
          dest[h] := dest[h].(size := 1);
        }
        it := PbDecItem(stream, f, dest[h].items[0]);
        if it.Success? {
          dest[h] := dest[h].(items := [it.value]);
        }
      case Repeated =>
        if wireType == WT_STRING && Packable(f) {
          var s := PbDecPacked(stream, f, dest[h]);
          stream.AgreesMeans(s, DecPackedRecord(f, slot, bs), end);
          if s.Failure? {
            return Failure(s.error);
          }
          dest[h] := s.value;
          return Success(());
        }
        var k := dest[h].size;
        dest[h] := dest[h].(size := k + 1);
        if k >= f.arraySize {
          return Failure(ArrayOverflow);
        }
        was := slot.items[k];
        it := PbDecItem(stream, f, dest[h].items[k]);
        if it.Success? {
          dest[h] := dest[h].(items := dest[h].items[k := it.value]);
        }
      case Oneof =>
        was := FreshMember(f);
        dest[h] := dest[h].(size := f.tag);
        var member := PrepareMember(f);
        it := PbDecItem(stream, f, member);
        if it.Success? {
          dest[h] := dest[h].(items := [it.value]);
        }
    }
    stream.AgreesMeans(it, DecItem(f, was, bs), end);
    return if it.Success? then Success(()) else Failure(it.error);
  }

  /** Zeroes the submessage of a oneof and sets its defaults. */
  method PrepareMember(f: Field) returns (it: Item)
    requires WellFormedField(f)
    ensures it == FreshMember(f)
    decreases f, 1
  {
    if f.ltype.Submessage? {
      var sub := ToArray(ZeroStruct(f.ltype.fields));
      SetToDefaults(f.ltype.fields, sub);
      return Msg(sub[..]);
    }
    return ZeroItem(f);
  }

  /** The field behind a tag: found by the iterator and decoded, or skipped. */
  method PbDecodeBody(stream: IStream, iter: FieldIter, tag: nat, wireType: nat, dest: array<Slot>,
                      words: array<nat>, ghost seen: set<nat>)
      returns (r: Result<()>, ghost nowSeen: set<nat>)
    requires stream.Valid() && iter.Valid() && WellFormed(iter.fields) && words.Length == 2
    requires Typed(iter.fields, dest[..]) && Tracks(words[..], iter.fields, seen)
    modifies stream, iter, dest, words
    ensures stream.Valid() && stream.End() <= old(stream.End()) && iter.Valid()
    ensures var body := FieldBody(iter.fields, old(dest[..]), seen, tag, wireType, old(stream.Rest()));
            && (body.Fail? ==> r == Failure(body.error))
            && (body.Next? ==> r.Success? && dest[..] == body.m && nowSeen == body.seen
                               && stream.Left(old(stream.End()), body.rest) && Tracks(words[..], iter.fields, nowSeen))
    decreases iter.fields, 3
  {
    hide *;
    ghost var fields, m, bs := iter.fields, dest[..], stream.Rest();
    nowSeen := seen;
    var found, steps := iter.Find(tag);
    iter.Position();
    FoundField(fields, tag, found, iter.pos);
    if !found {
      UnknownField(fields, m, seen, tag, wireType, bs);
      r := stream.SkipField(wireType);
      stream.AgreesMeans(r, Wire.SkipField(wireType, bs), old(stream.End()));
      return;
    }
    if iter.fields == [] {
      // The terminator of an empty table looks like a required bool.
      TerminatorField(m, seen, wireType, bs);
      TracksTerminator(words[..], seen);
      words[0] := BitOr(words[0], 1);
      var dummy := stream.DecodeVarint32();
      stream.AgreesMeans(dummy, Varint32(bs), old(stream.End()));
      return if dummy.Success? then Success(()) else Failure(dummy.error), seen;
    }
    var i := iter.pos;
    var f, n := iter.fields[i], iter.requiredFieldIndex;
    AtField(fields, m, i);
    KnownField(fields, i, m, seen, wireType, bs);
    if f.htype.Required? && n < MAX_REQUIRED_FIELDS {
      MarkSeen(words[..], fields, seen, i);
      words[n / 32] := BitOr(words[n / 32], Pow2(n % 32));
    } else {
      SkipUntracked(words[..], fields, seen, i);
    }
    nowSeen := seen + {i};
    var h := iter.DataSlot();
    r := PbDecodeStaticField(stream, f, h, wireType, dest);
  }

  /** One round of the field loop. It returns whether the message goes on. */
  method PbDecodeField(stream: IStream, iter: FieldIter, dest: array<Slot>, words: array<nat>, ghost seen: set<nat>)
      returns (r: Result<bool>, ghost nowSeen: set<nat>)
    requires stream.Valid() && iter.Valid() && WellFormed(iter.fields) && words.Length == 2
    requires Typed(iter.fields, dest[..]) && Tracks(words[..], iter.fields, seen)
    modifies stream, iter, dest, words
    ensures stream.Valid() && stream.End() <= old(stream.End()) && iter.Valid()
    ensures var step := FieldStep(iter.fields, old(dest[..]), seen, old(stream.Rest()));
            && (step.Fail? ==> r == Failure(step.error))
            && (step.Stop? ==> r == Success(false) && dest[..] == old(dest[..]) && nowSeen == seen
                               && stream.Left(old(stream.End()), step.rest) && Tracks(words[..], iter.fields, seen))
            && (step.Next? ==> r == Success(true) && dest[..] == step.m && nowSeen == step.seen
                               && stream.Left(old(stream.End()), step.rest) && Tracks(words[..], iter.fields, nowSeen))
    decreases iter.fields, 4
  {
    hide FieldBody, Varint32, DataAt, SizeAt, RequiredBefore, Tracks, WellFormed, Typed;
    nowSeen := seen;
    var tag, eof := stream.DecodeTag();
    if tag.Failure? {
      return if eof then Success(false) else Failure(tag.error), seen;
    }
    var body;
    body, nowSeen := PbDecodeBody(stream, iter, tag.value.0, tag.value.1, dest, words, seen);
    r := if body.Success? then Success(true) else Failure(body.error);
  }

  /** With unique tags, the search finds the one field that has the tag. */
  lemma FoundField(fields: seq<Field>, tag: nat, found: bool, pos: nat)
    requires WellFormed(fields) && (fields == [] ==> (found <==> tag == 0))
    requires found ==> Matches(fields, pos, tag) && (fields != [] ==> pos < |fields|)
    requires !found ==> forall i: nat :: i < |fields| ==> !Matches(fields, i, tag)
    ensures found && fields != [] ==> fields[pos].tag == tag && WellFormedField(fields[pos])
    ensures !found ==> FindField(fields, tag) == |fields|
  {
    var i := FindField(fields, tag);
    if i < |fields| {
      assert WellFormedField(fields[i]);
      assert Matches(fields, i, tag);
    }
    if found && fields != [] {
      assert WellFormedField(fields[pos]);
    }
  }

  lemma AtField(fields: seq<Field>, m: seq<Slot>, i: nat)
    requires WellFormed(fields) && Typed(fields, m) && i < |fields|
    ensures TakesRoom(fields) && WellFormedField(fields[i]) && MAX_REQUIRED_FIELDS == 64
    ensures Home(fields, i) < |m| && TypedSlot(fields[i], m[Home(fields, i)])
  {}

  lemma TracksTerminator(words: seq<nat>, seen: set<nat>)
    requires Tracks(words, [], seen)
    ensures Tracks(words[0 := BitOr(words[0], 1)], [], seen)
  {
    WordBound(words[0], 0);
  }

  /** The field loop: until the stream ends or a zero tag comes. */
  method PbDecodeFields(stream: IStream, iter: FieldIter, dest: array<Slot>, words: array<nat>)
      returns (r: Result<()>, ghost seen: set<nat>)
    requires stream.Valid() && iter.Valid() && WellFormed(iter.fields) && Typed(iter.fields, dest[..])
    requires words.Length == 2 && Tracks(words[..], iter.fields, {})
    modifies stream, iter, dest, words
    ensures stream.Valid() && stream.End() <= old(stream.End()) && iter.Valid()
    ensures var loop := FieldLoop(iter.fields, old(dest[..]), {}, old(stream.Rest()));
            && (loop.Failed? ==> r == Failure(loop.error))
            && (loop.Done? ==> r == Success(()) && dest[..] == loop.m && seen == loop.seen
                               && stream.Left(old(stream.End()), loop.rest) && Tracks(words[..], iter.fields, seen))
    decreases iter.fields, 5
  {
    hide *;
    seen := {};
    ghost var fields, end := iter.fields, stream.End();
    ghost var loop := FieldLoop(fields, dest[..], {}, stream.Rest());
    var more := true;
    while stream.bytesLeft > 0 && more
      invariant stream.Valid() && stream.End() == end && iter.Valid()
      invariant Typed(fields, dest[..]) && Tracks(words[..], fields, seen)
      invariant more ==> FieldLoop(fields, dest[..], seen, stream.Rest()) == loop
      invariant !more ==> loop == Done(dest[..], seen, stream.Rest(), true)
      decreases stream.bytesLeft, more
    {
      LoopStep(fields, dest[..], seen, stream.Rest());
      StepShortens(fields, dest[..], seen, stream.Rest());
      stream.LeftMeans(end, []);
      ghost var step := FieldStep(fields, dest[..], seen, stream.Rest());
      var round;
      round, seen := PbDecodeField(stream, iter, dest, words, seen);
      if round.Failure? {
        return Failure(round.error), seen;
      }
      stream.LeftMeans(end, step.rest);
      more := round.value;
    }
    LoopStep(fields, dest[..], seen, stream.Rest());
    stream.LeftMeans(end, stream.Rest());
    r := Success(());
  }

  /** Decodes fields into the struct that is there, then checks that the required fields came. */
  method PbDecodeNoInit(stream: IStream, fields: seq<Field>, dest: array<Slot>) returns (r: Result<()>)
    requires stream.Valid() && WellFormed(fields) && Typed(fields, dest[..])
    modifies stream, dest
    ensures stream.Valid() && stream.End() <= old(stream.End())
    ensures match DecodeNoInit(fields, old(dest[..]), old(stream.Rest()))
            case Ok(m, rest) => r == Success(()) && dest[..] == m && stream.Left(old(stream.End()), rest)
            case Err(e) => r == Failure(e)
    decreases fields, 6
  {
    assert SharedSelectors(fields);
    hide FieldLoop, Tracks, DataAt, SizeAt, RequiredBefore, RequiredSeen, SharedSelectors, WellFormed, Typed;
    var words := new nat[2](_ => 0);
    var iter := new FieldIter(fields, 0);
    StartTracking(fields);
    assert words[..] == [0, 0];
    ghost var seen;
    r, seen := PbDecodeFields(stream, iter, dest, words);
    if r.Success? {
      var complete := CheckRequired(iter, words, seen);
      if !complete {
        return Failure(MissingRequiredField);
      }
    }
  }

  /** Seeks to the end of the table to count the required fields, then looks at their bits. */
  method CheckRequired(iter: FieldIter, words: array<nat>, ghost seen: set<nat>) returns (ok: bool)
    requires iter.Valid() && Tracks(words[..], iter.fields, seen)
    modifies iter
    ensures ok <==> RequiredSeen(iter.fields, seen)
  {
    hide DataAt, SizeAt, WordBit, BitOr, Bit;
    var count: nat, lastRequired := iter.requiredFieldIndex, false;
    var more := true;
    while more
      invariant iter.Valid()
      invariant !more && iter.fields != [] ==>
                  count + (if lastRequired then 1 else 0) == RequiredBefore(iter.fields, |iter.fields|)
      invariant !more && iter.fields == [] ==> count == 0 && !lastRequired
      decreases if more then |iter.fields| - iter.pos else -1
    {
      count := iter.requiredFieldIndex;
      lastRequired := iter.fields != [] && iter.fields[iter.pos].htype.Required?;
      more := iter.Next();
    }
    if lastRequired {
      count := count + 1;
    }
    if count > MAX_REQUIRED_FIELDS {
      count := MAX_REQUIRED_FIELDS;
    }
    ghost var bits := words[..];
    TrackedIsSeen(bits, iter.fields, seen, count);
    if count == 0 {
      return true;
    }
    ok := AllBitsSet(words, count);
    assert words[..] == bits;
  }

  // ---- Delimited messages ---------------------------------------------------------------------------

  method PbDecodeDelimited(stream: IStream, fields: seq<Field>, dest: array<Slot>) returns (r: Result<()>)
    requires stream.Valid() && WellFormed(fields) && Typed(fields, dest[..])
    modifies stream, dest
    ensures stream.Valid() && stream.End() <= old(stream.End())
    ensures match DecodeDelimited(fields, old(dest[..]), old(stream.Rest()))
            case Ok(m, rest) => r == Success(()) && dest[..] == m && stream.Left(old(stream.End()), rest)
            case Err(e) => r == Failure(e)
  {
    hide Delimited, Decode;
    var made := stream.MakeSubstream();
    if made.Failure? {
      return Failure(made.error);
    }
    var substream := made.value;
    r := PbDecode(substream, fields, dest);
    stream.CloseSubstream(substream);
  }
}
