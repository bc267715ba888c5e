/** Message structs: which memory contents fit a descriptor table, the zeroed and the default
    struct, and when two structs hold the same message. */
module Message {
  import opened Basics
  import opened Bits
  import opened Wire
  import opened Descriptor

  /** Offset of the data in a pb_bytes_array_t. */
  const BYTES_OFFSET: nat := 4

  predicate ValidDataSize(n: nat) {
    n == 1 || n == 2 || n == 4 || n == 8
  }

  /** One more than the largest value of a signed integer of `n` bytes. */
  function IntLimit(n: nat): (limit: int)
    requires ValidDataSize(n)
    ensures limit == Pow2(8 * n - 1) <= TWO_63
  {
    Pow2Table();
    assert Pow2(15) == 2 * Pow2(14) && Pow2(32) == 2 * Pow2(31);
    if n == 1 then 0x80 else if n == 2 then 0x8000 else if n == 4 then 0x8000_0000 else TWO_63
  }

  function Zeros(n: nat): (bs: seq<byte>)
    ensures |bs| == n
  {
    seq(n, _ => 0)
  }

  // ---- Well-formed tables and typed memory ---------------------------------------------

  predicate UniqueTags(fields: seq<Field>) {
    forall i: nat, j: nat :: i < j < |fields| ==> fields[i].tag != fields[j].tag
  }

  /** The tables that the generator emits for messages of static fields. */
  predicate WellFormed(fields: seq<Field>) {
    && UniqueTags(fields) && SharedSelectors(fields) && TakesRoom(fields)
    && forall i: nat :: i < |fields| ==> WellFormedField(fields[i])
  }

  predicate WellFormedField(f: Field) {
    && 1 <= f.tag < TWO_32 / 8
    && f.atype.Static? && !f.ltype.Extension?
    && f.dataSize <= PB_SIZE_MAX && f.arraySize <= PB_SIZE_MAX
    && (f.htype.Repeated? || f.htype.Oneof? ==> f.sizeOffset != 0)
    && (f.ltype.Submessage? ==> WellFormed(f.ltype.fields))
    && (f.default.Some? ==> TypedItem(f, f.default.value))
  }

  predicate NumFits(f: Field, n: int) {
    match f.ltype
    case Bool => 0 <= n < 256
    case Varint => ValidDataSize(f.dataSize) ==> -IntLimit(f.dataSize) <= n < IntLimit(f.dataSize)
    case SVarint => ValidDataSize(f.dataSize) ==> -IntLimit(f.dataSize) <= n < IntLimit(f.dataSize)
    case UVarint => 0 <= n && (ValidDataSize(f.dataSize) ==> n < 2 * IntLimit(f.dataSize))
    case Fixed32 => 0 <= n < TWO_32
    case Fixed64 => 0 <= n < TWO_64
    case _ => false
  }

  /** The item is a value of the field's type. A string is the part of its buffer that was
      written, up to where the terminator went; it may fill the whole buffer. */
  predicate TypedItem(f: Field, it: Item)
    decreases f, 0
  {
    match f.ltype
    case Bytes => it.Blob?
    case Str => it.Blob? && |it.data| <= f.dataSize
    case FixedLengthBytes => it.Blob? && |it.data| == f.dataSize
    case Submessage(sub) => it.Msg? && Typed(sub, it.slots)
    case Extension => false
    case _ => it.Num? && NumFits(f, it.n)
  }

  predicate TypedSlot(f: Field, s: Slot)
    decreases f, 1
  {
    match f.htype
    case Required => |s.items| == 1 && TypedItem(f, s.items[0])
    case Optional => |s.items| == 1 && TypedItem(f, s.items[0])
    case Repeated => |s.items| == f.arraySize && forall k: nat :: k < |s.items| ==> TypedItem(f, s.items[k])
    case Oneof => |s.items| == 1 && (s.size == f.tag ==> TypedItem(f, s.items[0]))
  }

  /** Memory of the struct type: one slot per field, oneof members sharing their home slot. */
  predicate Typed(fields: seq<Field>, m: seq<Slot>)
    decreases fields
  {
    |m| == |fields| && forall i: nat :: i < |fields| ==> TypedSlot(fields[i], m[Home(fields, i)])
  }

  /** Storing into the slot of one field keeps the struct typed. */
  lemma TypedUpdate(fields: seq<Field>, m: seq<Slot>, i: nat, s: Slot)
    requires UniqueTags(fields) && Typed(fields, m) && i < |fields|
    requires TypedSlot(fields[i], s) && (fields[i].htype.Oneof? ==> s.size == fields[i].tag)
    ensures Typed(fields, m[Home(fields, i) := s])
  {
    var m' := m[Home(fields, i) := s];
    forall j: nat | j < |fields|
      ensures TypedSlot(fields[j], m'[Home(fields, j)])
    {
      if j != i && Home(fields, j) == Home(fields, i) {
        HomesApart(fields, i, j);
      }
    }
  }

  // ---- Zeroed and default structs -------------------------------------------------------

  function ZeroItem(f: Field): (it: Item)
    ensures WellFormedField(f) ==> TypedItem(f, it)
    decreases f, 1
  {
    match f.ltype
    case Bytes => Blob([])
    case Str => Blob([])
    case FixedLengthBytes => Blob(Zeros(f.dataSize))
    case Submessage(sub) => Msg(ZeroStruct(sub))
    case _ => Num(0)
  }

  function ZeroSlot(f: Field): (s: Slot)
    ensures WellFormedField(f) ==> TypedSlot(f, s) && s.size == 0
    decreases f, 2
  {
    if f.htype.Repeated? then Slot(0, seq(f.arraySize, _ => ZeroItem(f)))
    else Slot(0, [ZeroItem(f)])
  }

  function ZeroStruct(fields: seq<Field>): (m: seq<Slot>)
    ensures WellFormed(fields) ==> Typed(fields, m)
    decreases fields
  {
    var m := seq(|fields|, i requires 0 <= i < |fields| => ZeroSlot(fields[i]));
    assert WellFormed(fields) ==> Typed(fields, m) by {
      if WellFormed(fields) {
        forall i: nat | i < |fields|
          ensures TypedSlot(fields[i], m[Home(fields, i)])
        {
          HomeKind(fields, i);
          assert WellFormedField(fields[i]);
        }
      }
    }
    m
  }

  /** The value pb_field_set_to_default gives an item. */
  function DefaultItem(f: Field, was: Item): (it: Item)
    requires WellFormedField(f) && TypedItem(f, was)
    ensures TypedItem(f, it)
    decreases f, 1
  {
    match f.ltype
    case Submessage(sub) => Msg(Defaults(sub, was.slots))
    case _ =>
      match f.default
      case Some(value) => value
      case None => ZeroItem(f)
  }

  function DefaultSlot(f: Field, was: Slot): (s: Slot)
    requires WellFormedField(f) && TypedSlot(f, was)
    ensures TypedSlot(f, s)
    ensures f.htype.Oneof? || f.htype.Repeated? ==> s == was.(size := 0)
    decreases f, 2
  {
    match f.htype
    case Required => was.(items := [DefaultItem(f, was.items[0])])
    case Optional => Slot(if f.sizeOffset != 0 then 0 else was.size, [DefaultItem(f, was.items[0])])
    case _ => was.(size := 0)
  }

  /** The struct after pb_message_set_to_defaults. */
  function Defaults(fields: seq<Field>, m: seq<Slot>): (d: seq<Slot>)
    requires WellFormed(fields) && Typed(fields, m)
    ensures Typed(fields, d)
    decreases fields
  {
    var d := seq(|fields|, i requires 0 <= i < |fields| =>
      assert WellFormedField(fields[i]);
      if Home(fields, i) == i then DefaultSlot(fields[i], m[i]) else m[i]);
    assert Typed(fields, d) by {
      forall i: nat | i < |fields|
        ensures TypedSlot(fields[i], d[Home(fields, i)])
      {
        HomeKind(fields, i);
        assert WellFormedField(fields[i]);
      }
    }
    d
  }

  // ---- Messages ----------------------------------------------------------------------------

  ghost predicate SameItem(f: Field, a: Item, b: Item)
    decreases f, 0
  {
    match f.ltype
    case Submessage(sub) => a.Msg? && b.Msg? && Same(sub, a.slots, b.slots)
    case _ => a == b
  }

  /** Two slots hold the same value of field `f`: what a has-flag, a count or a selector turns
      off does not matter. */
  ghost predicate SameSlot(f: Field, a: Slot, b: Slot)
    decreases f, 1
  {
    match f.htype
    case Required => |a.items| == |b.items| == 1 && SameItem(f, a.items[0], b.items[0])
    case Optional =>
      && |a.items| == |b.items| == 1
      && (f.sizeOffset != 0 ==> a.size == b.size)
      && (f.sizeOffset == 0 || a.size != 0 ==> SameItem(f, a.items[0], b.items[0]))
    case Repeated =>
      && a.size == b.size && |a.items| == |b.items|
      && forall k: nat :: k < |a.items| && k < a.size ==> SameItem(f, a.items[k], b.items[k])
    case Oneof =>
      && |a.items| == |b.items| == 1 && a.size == b.size
      && (a.size == f.tag ==> SameItem(f, a.items[0], b.items[0]))
  }

  ghost predicate Same(fields: seq<Field>, a: seq<Slot>, b: seq<Slot>)
    decreases fields
  {
    && |a| == |b| == |fields|
    && forall i: nat :: i < |fields| ==> SameSlot(fields[i], a[Home(fields, i)], b[Home(fields, i)])
  }
}
