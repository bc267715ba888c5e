/** Numbers and byte strings survive encoding and decoding, over their full ranges. */
module Scalars {
  import opened Basics
  import opened Bits
  import opened Wire
  import opened Descriptor
  import opened Message
  import opened Encoding
  import opened Decoding
  import opened Validity

  // ---- Scalars and byte strings -------------------------------------------------------------------

  /** Two's complement of a 64-bit number, cast back to a signed integer that can hold it. */
  lemma CastBack(n: int, bits: nat)
    requires bits == 32 || bits == 64
    requires bits == 32 ==> -(TWO_31 as int) <= n < TWO_31
    requires bits == 64 ==> -(TWO_63 as int) <= n < TWO_63
    ensures SignedCast(n % TWO_64, bits) == n
  {
    Pow2Table();
    assert Pow2(31) == TWO_31 && Pow2(64) == TWO_64;
    hide Pow2;
    ModIs(n, TWO_64, if n < 0 then -1 else 0);
    if bits == 32 && n < 0 {
      ModIs(n + TWO_64, TWO_32, TWO_32 - 1);
    }
  }

  lemma NarrowFits(dataSize: nat, n: int)
    requires ValidDataSize(dataSize) && -IntLimit(dataSize) <= n < IntLimit(dataSize)
    ensures NarrowSigned(dataSize, n) == Success(n)
  {
    SignedCastFits(n, 8 * dataSize);
  }

  /** The value the encoder turns the number of a varint field into. */
  function WireValue(f: Field, n: int): (v: nat)
    requires f.ltype.Varint? || f.ltype.UVarint? || f.ltype.SVarint?
    requires NumFits(f, n)
  {
    match f.ltype
    case Varint => n % TWO_64
    case UVarint => n
    case SVarint => ZigZag(n)
  }

  lemma NarrowUnsignedFits(dataSize: nat, n: nat)
    requires ValidDataSize(dataSize) && n < 2 * IntLimit(dataSize)
    ensures NarrowUnsigned(dataSize, n) == Success(n) && n < TWO_64
  {
    hide Pow2;
    ModIs(n, 2 * IntLimit(dataSize), 0);
  }

  lemma IntLimitsGrow(dataSize: nat)
    requires ValidDataSize(dataSize)
    ensures dataSize != 8 ==> IntLimit(dataSize) <= TWO_31
    ensures IntLimit(dataSize) <= TWO_63
  {}

  lemma ZigZagInverse(n: int)
    requires -(TWO_63 as int) <= n < TWO_63
    ensures ZigZag(n) < TWO_64 && UnZigZag(ZigZag(n)) == n
  {}

  lemma WireValueRoundTrip(f: Field, n: int)
    requires (f.ltype.Varint? || f.ltype.UVarint? || f.ltype.SVarint?) && ValidDataSize(f.dataSize) && NumFits(f, n)
    ensures WireValue(f, n) < TWO_64 && FromVarint(f, WireValue(f, n)) == Success(n)
  {
    IntLimitsGrow(f.dataSize);
    hide SignedCast, NarrowSigned, NarrowUnsigned, IntLimit, ZigZag, UnZigZag, Pow2;
    match f.ltype {
      case Varint =>
        CastBack(n, if f.dataSize == 8 then 64 else 32);
        NarrowFits(f.dataSize, n);
      case UVarint =>
        NarrowUnsignedFits(f.dataSize, n);
      case SVarint =>
        ZigZagInverse(n);
        NarrowFits(f.dataSize, n);
    }
  }

  /** The number that a varint field looks at. A signed field narrower than 64 bits only sees the
      low 32 bits of the value. */
  function NumberOf(f: Field, v: nat): int {
    if f.ltype.UVarint? then v
    else if f.ltype.SVarint? then UnZigZag(v)
    else SignedCast(v, if f.dataSize == 8 then 64 else 32)
  }

  /** A varint field takes a value exactly when its number fits the field, and then stores that
      number: values are refused, never cut. */
  lemma VarintFieldExact(f: Field, v: nat)
    requires f.ltype.Varint? || f.ltype.UVarint? || f.ltype.SVarint?
    ensures FromVarint(f, v).Success? <==> ValidDataSize(f.dataSize) && NumFits(f, NumberOf(f, v))
    ensures FromVarint(f, v).Success? ==> FromVarint(f, v).value == NumberOf(f, v)
  {
    hide SignedCast, IntLimit, UnZigZag, Pow2, NarrowSigned, NarrowUnsigned;
    match f.ltype {
      case Varint => NarrowSignedExact(f.dataSize, SignedCast(v, if f.dataSize == 8 then 64 else 32));
      case SVarint => NarrowSignedExact(f.dataSize, UnZigZag(v));
      case UVarint => NarrowUnsignedExact(f.dataSize, v);
    }
  }

  lemma NarrowSignedExact(dataSize: nat, n: int)
    ensures NarrowSigned(dataSize, n).Success? <==>
              ValidDataSize(dataSize) && -IntLimit(dataSize) <= n < IntLimit(dataSize)
    ensures NarrowSigned(dataSize, n).Success? ==> NarrowSigned(dataSize, n).value == n
  {
    if ValidDataSize(dataSize) && -IntLimit(dataSize) <= n < IntLimit(dataSize) { NarrowFits(dataSize, n); }
  }

  lemma NarrowUnsignedExact(dataSize: nat, n: nat)
    ensures NarrowUnsigned(dataSize, n).Success? <==> ValidDataSize(dataSize) && n < 2 * IntLimit(dataSize)
    ensures NarrowUnsigned(dataSize, n).Success? ==> NarrowUnsigned(dataSize, n).value == n
  {
    if ValidDataSize(dataSize) && n < 2 * IntLimit(dataSize) { NarrowUnsignedFits(dataSize, n); }
  }

  lemma VarintItemRoundTrip(f: Field, it: Item, t: seq<byte>)
    requires (f.ltype.Varint? || f.ltype.UVarint? || f.ltype.SVarint?) && ValidItem(f, it)
    ensures EncItem(f, it).Success? && DecVarint(f, EncItem(f, it).value + t) == Ok(it, t)
  {
    WireValueRoundTrip(f, it.n);
    var v := WireValue(f, it.n);
    assert EncItem(f, it) == Success(VarintBytes(v));
    hide EncItem, FromVarint, Varint64, WireValue, VarintBytes;
    Varint64RoundTrip(v, t);
  }

  lemma FixedItemRoundTrip(f: Field, it: Item, t: seq<byte>)
    requires (f.ltype.Fixed32? || f.ltype.Fixed64?) && ValidItem(f, it)
    ensures EncItem(f, it).Success?
    ensures DecFixed(f, if f.ltype.Fixed32? then 4 else 8, EncItem(f, it).value + t) == Ok(it, t)
  {
    var n := if f.ltype.Fixed32? then 4 else 8;
    Pow2Table();
    Pow2Add(32, 32);
    LittleEndianRoundTrip(it.n, n);
    var bs := LittleEndian(it.n, n);
    assert (bs + t)[..n] == bs && (bs + t)[n..] == t;
  }

  lemma {:induction false} StrLenNoZero(data: seq<byte>)
    requires 0 !in data
    ensures StrLen(data) == |data|
  {
    if data != [] {
      assert data[0] in data;
      StrLenNoZero(data[1..]);
    }
  }

  lemma BlobIsPrefixed(f: Field, it: Item)
    requires (f.ltype.Bytes? || f.ltype.Str? || f.ltype.FixedLengthBytes?) && ValidItem(f, it)
    ensures EncItem(f, it) == Success(Prefixed(it.data))
  {
    hide Prefixed;
    if f.ltype.Str? {
      StrLenNoZero(it.data);
      assert it.data[..|it.data|] == it.data;
    }
  }

  lemma BlobSizeFits(f: Field, it: Item)
    requires (f.ltype.Bytes? || f.ltype.Str? || f.ltype.FixedLengthBytes?) && WellFormedField(f) && ValidItem(f, it)
    ensures |it.data| < TWO_32 && BlobSize(f, |it.data|) == Success(|it.data|)
    ensures f.ltype.FixedLengthBytes? ==> |it.data| == f.dataSize
  {
    hide WellFormed, Typed, Valid;
  }

  /** A byte string whose length the field accepts is read back. */
  lemma BlobRead(f: Field, data: seq<byte>, t: seq<byte>)
    requires f.ltype.Bytes? || f.ltype.Str? || f.ltype.FixedLengthBytes?
    requires |data| < TWO_32 && BlobSize(f, |data|) == Success(|data|)
    requires f.ltype.FixedLengthBytes? ==> |data| == f.dataSize
    ensures DecBlob(f, Prefixed(data) + t) == Ok(Blob(data), t)
  {
    var n := |data|;
    assert n == 0 ==> data == [] == Zeros(n);
    assert Prefixed(data) + t == VarintBytes(n) + (data + t);
    hide BlobSize, Varint32, VarintBytes, Prefixed, Zeros, IsSuffix;
    Varint32RoundTrip(n, data + t);
    assert (data + t)[..n] == data && (data + t)[n..] == t;
  }

  lemma BlobRoundTrip(f: Field, it: Item, t: seq<byte>)
    requires (f.ltype.Bytes? || f.ltype.Str? || f.ltype.FixedLengthBytes?) && WellFormedField(f) && ValidItem(f, it)
    ensures EncItem(f, it) == Success(Prefixed(it.data)) && DecBlob(f, Prefixed(it.data) + t) == Ok(it, t)
  {
    hide EncItem, DecBlob, BlobSize, Prefixed, WellFormedField, Valid;
    BlobIsPrefixed(f, it);
    BlobSizeFits(f, it);
    BlobRead(f, it.data, t);
  }
  lemma BoolItemRoundTrip(f: Field, it: Item, t: seq<byte>)
    requires f.ltype.Bool? && ValidItem(f, it)
    ensures EncItem(f, it).Success? && DecBool(f, EncItem(f, it).value + t) == Ok(it, t)
  {
    hide Varint32;
    Varint32RoundTrip(if it.n != 0 then 1 else 0, t);
  }

  /** Numbers and byte strings come back exactly. */
  lemma ScalarItemRoundTrip(f: Field, it: Item, was: Item, t: seq<byte>)
    requires WellFormedField(f) && ValidItem(f, it) && TypedItem(f, was) && !f.ltype.Submessage?
    ensures EncItem(f, it).Success? && DecItem(f, was, EncItem(f, it).value + t) == Ok(it, t)
  {
    hide EncItem, DecBool, DecVarint, DecFixed, DecBlob;
    match f.ltype {
      case Bool => BoolItemRoundTrip(f, it, t);
      case Varint => VarintItemRoundTrip(f, it, t);
      case UVarint => VarintItemRoundTrip(f, it, t);
      case SVarint => VarintItemRoundTrip(f, it, t);
      case Fixed32 => FixedItemRoundTrip(f, it, t);
      case Fixed64 => FixedItemRoundTrip(f, it, t);
      case Bytes => BlobRoundTrip(f, it, t);
      case Str => BlobRoundTrip(f, it, t);
      case FixedLengthBytes => BlobRoundTrip(f, it, t);
    }
  }
}
