/** The bytes of a message: what pb_encode has to write, as a function of the struct. */
module Encoding {
  import opened Basics
  import opened Bits
  import opened Wire
  import opened Descriptor
  import opened Message

  type Bytes = Result<seq<byte>>

  /** `a` followed by `b`; the first failure wins. */
  function Append(a: Bytes, b: Bytes): Bytes {
    match a
    case Failure(_) => a
    case Success(x) =>
      match b
      case Failure(_) => b
      case Success(y) => Success(x + y)
  }

  lemma AppendNothing(a: Bytes)
    ensures Append(Success([]), a) == a && Append(a, Success([])) == a
  {
    if a.Success? {
      assert [] + a.value == a.value && a.value + [] == a.value;
    }
  }

  lemma AppendAssociative(a: Bytes, b: Bytes, c: Bytes)
    ensures Append(Append(a, b), c) == Append(a, Append(b, c))
  {
    if a.Success? && b.Success? && c.Success? {
      assert (a.value + b.value) + c.value == a.value + (b.value + c.value);
    }
  }

  /** Arrays of these types are packed into one length-delimited record. */
  predicate Packable(f: Field) {
    f.ltype.Bool? || f.ltype.Varint? || f.ltype.UVarint? || f.ltype.SVarint? || f.ltype.Fixed32? || f.ltype.Fixed64?
  }

  function WireTypeOf(f: Field): (w: nat)
    ensures w < 8
  {
    match f.ltype
    case Fixed32 => WT_32BIT
    case Fixed64 => WT_64BIT
    case Bytes => WT_STRING
    case Str => WT_STRING
    case Submessage(_) => WT_STRING
    case FixedLengthBytes => WT_STRING
    case _ => WT_VARINT
  }

  function FieldTag(f: Field): seq<byte> {
    TagBytes(f.tag, WireTypeOf(f))
  }

  /** The length of a C string in a buffer whose written part is `data`. */
  function StrLen(data: seq<byte>): (n: nat)
    ensures n <= |data|
  {
    if data == [] || data[0] == 0 then 0 else 1 + StrLen(data[1..])
  }

  function Sized(f: Field, v: nat): Bytes {
    if ValidDataSize(f.dataSize) then Success(VarintBytes(v)) else Failure(InvalidDataSize)
  }

  function EncItem(f: Field, it: Item): Bytes
    requires TypedItem(f, it)
    decreases f, 0
  {
    match f.ltype
    case Bool => Success(VarintBytes(if it.n != 0 then 1 else 0))
    case Varint => Sized(f, it.n % TWO_64)
    case UVarint => Sized(f, it.n)
    case SVarint => Sized(f, ZigZag(it.n))
    case Fixed32 => Success(LittleEndian(it.n, 4))
    case Fixed64 => Success(LittleEndian(it.n, 8))
    case Bytes =>
      if |it.data| + BYTES_OFFSET > f.dataSize then Failure(BytesSizeExceeded)
      else Success(Prefixed(it.data))
    case Str => Success(Prefixed(it.data[..StrLen(it.data)]))
    case FixedLengthBytes => Success(Prefixed(it.data))
    case Submessage(sub) => EncDelimited(sub, it.slots)
  }

  /** A record with its length in front. */
  function EncPrefixed(data: Bytes): Bytes {
    match data
    case Failure(_) => data
    case Success(bs) => Success(Prefixed(bs))
  }

  /** A message with its length in front. */
  function EncDelimited(fields: seq<Field>, m: seq<Slot>): Bytes
    requires Typed(fields, m)
    decreases fields, |fields| + 2
  {
    EncPrefixed(Encode(fields, m))
  }

  predicate TypedItems(f: Field, items: seq<Item>) {
    forall k: nat :: k < |items| ==> TypedItem(f, items[k])
  }

  /** The items one after the other: the payload of a packed array. */
  function EncPacked(f: Field, items: seq<Item>): Bytes
    requires TypedItems(f, items)
    decreases f, 1, |items|
  {
    if items == [] then Success([])
    else Append(EncItem(f, items[0]), EncPacked(f, items[1..]))
  }

  /** The items one after the other, each with its own tag. */
  function EncTagged(f: Field, items: seq<Item>): Bytes
    requires TypedItems(f, items)
    decreases f, 1, |items|
  {
    if items == [] then Success([])
    else Append(Append(Success(FieldTag(f)), EncItem(f, items[0])), EncTagged(f, items[1..]))
  }

  function EncArray(f: Field, items: seq<Item>, count: nat): Bytes
    requires TypedItems(f, items) && |items| == f.arraySize
    decreases f, 2
  {
    if count == 0 then Success([])
    else if count > f.arraySize then Failure(ArrayMaxSizeExceeded)
    else if Packable(f) then EncPackedRecord(f, items[..count])
    else EncTagged(f, items[..count])
  }

  function EncPackedRecord(f: Field, items: seq<Item>): Bytes
    requires TypedItems(f, items)
    decreases f, 1, |items| + 1
  {
    Append(Success(TagBytes(f.tag, WT_STRING)), EncPrefixed(EncPacked(f, items)))
  }

  /** Whether a value is the zero that proto3 leaves out. */
  predicate ZeroItemValue(f: Field, it: Item)
    requires TypedItem(f, it)
    decreases f, 0
  {
    match f.ltype
    case Bytes => it.data == []
    case Str => it.data == [] || it.data[0] == 0
    case FixedLengthBytes => f.dataSize == 0
    case Submessage(sub) => ZeroFrom(sub, it.slots, 0)
    case Extension => true
    case _ => it.n == 0
  }

  predicate ZeroValue(f: Field, s: Slot)
    requires TypedSlot(f, s)
    decreases f, 1
  {
    match f.htype
    case Required => false
    case Repeated => s.size == 0
    case Oneof => s.size == 0
    case Optional => if f.sizeOffset != 0 then s.size == 0 else ZeroItemValue(f, s.items[0])
  }

  predicate ZeroFrom(fields: seq<Field>, m: seq<Slot>, i: nat)
    requires Typed(fields, m) && i <= |fields|
    decreases fields, |fields| - i
  {
    i == |fields| || (ZeroValue(fields[i], m[Home(fields, i)]) && ZeroFrom(fields, m, i + 1))
  }

  /** Whether the encoder writes the field at all. */
  predicate Present(f: Field, s: Slot)
    requires TypedSlot(f, s)
  {
    match f.htype
    case Required => true
    case Optional => if f.sizeOffset != 0 then s.size != 0 else !ZeroItemValue(f, s.items[0])
    case Repeated => s.size != 0
    case Oneof => s.size == f.tag
  }

  function EncSlot(f: Field, s: Slot): Bytes
    requires TypedSlot(f, s)
    decreases f, 3
  {
    if !Present(f, s) then Success([])
    else if f.htype.Repeated? then EncArray(f, s.items, s.size)
    else Append(Success(FieldTag(f)), EncItem(f, s.items[0]))
  }

  /** The fields of the table from `i` on. */
  function EncFrom(fields: seq<Field>, m: seq<Slot>, i: nat): Bytes
    requires Typed(fields, m) && i <= |fields|
    decreases fields, |fields| - i
  {
    if i == |fields| then Success([])
    else Append(EncSlot(fields[i], m[Home(fields, i)]), EncFrom(fields, m, i + 1))
  }

  lemma EncFromStep(fields: seq<Field>, m: seq<Slot>, i: nat)
    requires Typed(fields, m) && i <= |fields|
    ensures i == |fields| ==> EncFrom(fields, m, i) == Success([])
    ensures i < |fields| ==>
              EncFrom(fields, m, i) == Append(EncSlot(fields[i], m[Home(fields, i)]), EncFrom(fields, m, i + 1))
  {
    hide Append, EncSlot;
  }

  function Encode(fields: seq<Field>, m: seq<Slot>): Bytes
    requires Typed(fields, m)
    decreases fields, |fields| + 1
  {
    EncFrom(fields, m, 0)
  }
}
