/** Which messages can be carried: values that their fields can represent. Beside them, the structs
    that decoding starts from, and the messages that encoding can be expected to bring back. */
module Validity {
  import opened Basics
  import opened Bits
  import opened Wire
  import opened Descriptor
  import opened Message
  import opened Encoding

  // ---- Valid messages ------------------------------------------------------------------------

  /** A value that its field can represent: a bool is 0 or 1, byte strings fit, and strings are
      free of zero bytes and leave room for their terminator. */
  predicate ValidItem(f: Field, it: Item)
    decreases f, 0
  {
    && TypedItem(f, it)
    && match f.ltype
       case Bool => it.n <= 1
       case Varint => ValidDataSize(f.dataSize)
       case UVarint => ValidDataSize(f.dataSize)
       case SVarint => ValidDataSize(f.dataSize)
       case Bytes => |it.data| + BYTES_OFFSET <= f.dataSize
       case Str => |it.data| < f.dataSize && 0 !in it.data
       case Submessage(sub) => Valid(sub, it.slots)
       case _ => true
  }

  predicate ValidItems(f: Field, items: seq<Item>) {
    forall k: nat :: k < |items| ==> ValidItem(f, items[k])
  }

  predicate ValidSlot(f: Field, s: Slot)
    decreases f, 1
  {
    && TypedSlot(f, s)
    && match f.htype
       case Required => ValidItem(f, s.items[0])
       case Optional =>
         if f.sizeOffset != 0 then s.size <= 1 && (s.size == 1 ==> ValidItem(f, s.items[0]))
         else ValidItem(f, s.items[0])
       case Repeated => s.size <= f.arraySize && forall k: nat :: k < s.size ==> ValidItem(f, s.items[k])
       case Oneof => s.size == f.tag ==> ValidItem(f, s.items[0])
  }

  /** The selector stored in slot `h` is 0 or names a member of that oneof. */
  predicate SelectorNames(fields: seq<Field>, h: nat, size: nat) {
    size == 0
    || exists j: nat :: j < |fields| && Home(fields, j) == h && fields[j].htype.Oneof? && fields[j].tag == size
  }

  predicate Valid(fields: seq<Field>, m: seq<Slot>): (valid: bool)
    ensures valid ==> Typed(fields, m)
    decreases fields
  {
    && Typed(fields, m)
    && forall i: nat :: i < |fields| ==>
         && ValidSlot(fields[i], m[Home(fields, i)])
         && (fields[i].htype.Oneof? ==> SelectorNames(fields, Home(fields, i), m[Home(fields, i)].size))
  }

  // ---- Zeros over other defaults -------------------------------------------------------------------

  /** A field that is left out is zero after decoding. */
  predicate ZeroDefault(f: Field) {
    f.ltype.Submessage? || f.default.None? || f.default.value == ZeroItem(f)
  }

  predicate ItemKeepsZeros(f: Field, it: Item)
    requires TypedItem(f, it)
    decreases f, 0
  {
    match f.ltype
    case Submessage(sub) => KeepsZeros(sub, it.slots)
    case _ => true
  }

  predicate SlotKeepsZeros(f: Field, s: Slot)
    requires TypedSlot(f, s)
    decreases f, 1
  {
    match f.htype
    case Required => ItemKeepsZeros(f, s.items[0])
    case Optional =>
      if f.sizeOffset != 0 then s.size != 0 ==> ItemKeepsZeros(f, s.items[0])
      else ItemKeepsZeros(f, s.items[0]) && (ZeroItemValue(f, s.items[0]) ==> ZeroDefault(f))
    case Repeated => forall k: nat :: k < |s.items| && k < s.size ==> ItemKeepsZeros(f, s.items[k])
    case Oneof => s.size == f.tag ==> ItemKeepsZeros(f, s.items[0])
  }

  /** No field without a has-flag, at any depth, holds zero while its default is something else. */
  predicate KeepsZeros(fields: seq<Field>, m: seq<Slot>)
    requires Typed(fields, m)
    decreases fields
  {
    forall i: nat :: i < |fields| ==> SlotKeepsZeros(fields[i], m[Home(fields, i)])
  }

  // ---- Fresh structs ----------------------------------------------------------------------------

  /** An item as pb_message_set_to_defaults leaves it. */
  predicate FreshItem(f: Field, it: Item)
    decreases f, 0
  {
    match f.ltype
    case Submessage(sub) => it.Msg? && Fresh(sub, it.slots)
    case _ => it == if f.default.Some? then f.default.value else ZeroItem(f)
  }

  predicate FreshSlot(f: Field, s: Slot)
    decreases f, 1
  {
    match f.htype
    case Required => |s.items| == 1 && FreshItem(f, s.items[0])
    case Optional => |s.items| == 1 && FreshItem(f, s.items[0]) && (f.sizeOffset != 0 ==> s.size == 0)
    case _ => s.size == 0
  }

  predicate Fresh(fields: seq<Field>, d: seq<Slot>)
    decreases fields
  {
    |d| == |fields| && forall i: nat :: i < |fields| ==> FreshSlot(fields[i], d[Home(fields, i)])
  }

  lemma DefaultItemFresh(f: Field, was: Item)
    requires WellFormedField(f) && TypedItem(f, was)
    ensures FreshItem(f, DefaultItem(f, was))
    decreases f, 0
  {
    if f.ltype.Submessage? {
      DefaultsFresh(f.ltype.fields, was.slots);
    }
  }

  lemma DefaultSlotFresh(f: Field, s: Slot)
    requires WellFormedField(f) && TypedSlot(f, s)
    ensures FreshSlot(f, DefaultSlot(f, s))
    decreases f, 1
  {
    if f.htype.Required? || f.htype.Optional? {
      DefaultItemFresh(f, s.items[0]);
    }
  }

  /** Setting a struct to defaults makes it fresh, whatever it held. */
  lemma {:induction false} DefaultsFresh(fields: seq<Field>, m: seq<Slot>)
    requires WellFormed(fields) && Typed(fields, m)
    ensures Fresh(fields, Defaults(fields, m))
    decreases fields
  {
    var d := Defaults(fields, m);
    forall i: nat | i < |fields|
      ensures FreshSlot(fields[i], d[Home(fields, i)])
    {
      var h := Home(fields, i);
      HomeKind(fields, i);
      assert WellFormedField(fields[h]) && TypedSlot(fields[h], m[Home(fields, h)]);
      DefaultSlotFresh(fields[h], m[h]);
    }
  }
  // ---- Valid messages can be encoded ---------------------------------------------------------------

  lemma ValidItemEncodes(f: Field, it: Item)
    requires WellFormedField(f) && ValidItem(f, it)
    ensures EncItem(f, it).Success?
    decreases f, 0
  {
    if f.ltype.Submessage? {
      var sub := f.ltype.fields;
      ValidEncodesFrom(sub, it.slots, 0);
      assert Encode(sub, it.slots).Success?;
      assert EncItem(f, it) == EncPrefixed(Encode(sub, it.slots));
    }
  }

  lemma {:induction false} ValidItemsEncode(f: Field, items: seq<Item>)
    requires WellFormedField(f) && TypedItems(f, items) && ValidItems(f, items)
    ensures EncPacked(f, items).Success? && EncTagged(f, items).Success?
    decreases f, 1, |items|
  {
    hide ValidItem, EncItem, WellFormedField;
    if items != [] {
      ValidItemEncodes(f, items[0]);
      ValidItemsEncode(f, items[1..]);
    }
  }

  lemma ValidSlotEncodes(f: Field, s: Slot)
    requires WellFormedField(f) && ValidSlot(f, s)
    ensures EncSlot(f, s).Success?
    decreases f, 2
  {
    hide ValidItem, EncItem, EncPacked, EncTagged, WellFormed, TypedItem, ZeroItemValue;
    if Present(f, s) {
      if f.htype.Repeated? {
        ValidItemsEncode(f, s.items[..s.size]);
        assert EncArray(f, s.items, s.size).Success?;
      } else {
        ValidItemEncodes(f, s.items[0]);
      }
    }
  }

  lemma {:induction false} ValidEncodesFrom(fields: seq<Field>, m: seq<Slot>, i: nat)
    requires WellFormed(fields) && Valid(fields, m) && i <= |fields|
    ensures EncFrom(fields, m, i).Success?
    decreases fields, |fields| - i
  {
    hide ValidSlot, EncSlot, WellFormedField, TypedSlot;
    if i < |fields| {
      ValidSlotEncodes(fields[i], m[Home(fields, i)]);
      ValidEncodesFrom(fields, m, i + 1);
    }
  }

  lemma ValidEncodes(fields: seq<Field>, m: seq<Slot>)
    requires WellFormed(fields) && Valid(fields, m)
    ensures Encode(fields, m).Success?
  {
    hide WellFormed, Valid, EncFrom;
    ValidEncodesFrom(fields, m, 0);
  }

  // ---- Lengths -----------------------------------------------------------------------------------------

  /** The decoder reads the lengths of records in 32 bits. */
  predicate LengthFits(data: Bytes) {
    data.Success? ==> |data.value| < TWO_32
  }

  predicate ItemLengthsFit(f: Field, it: Item)
    requires TypedItem(f, it)
    decreases f, 0
  {
    match f.ltype
    case Submessage(sub) => LengthFits(Encode(sub, it.slots)) && LengthsFit(sub, it.slots)
    case _ => true
  }

  predicate SlotLengthsFit(f: Field, s: Slot)
    requires TypedSlot(f, s)
    decreases f, 1
  {
    if !Present(f, s) then true
    else if !f.htype.Repeated? then ItemLengthsFit(f, s.items[0])
    else if s.size > f.arraySize then true
    else if Packable(f) then LengthFits(EncPacked(f, s.items[..s.size]))
    else forall k: nat :: k < s.size ==> ItemLengthsFit(f, s.items[k])
  }

  predicate FieldLengthsFit(fields: seq<Field>, m: seq<Slot>, i: nat)
    requires Typed(fields, m) && i < |fields|
    decreases fields, 0
  {
    SlotLengthsFit(fields[i], m[Home(fields, i)])
  }

  /** Every submessage and every packed array in the message, at any depth, takes less than 4 GiB. */
  predicate LengthsFit(fields: seq<Field>, m: seq<Slot>)
    requires Typed(fields, m)
    decreases fields, 1
  {
    forall i: nat :: i < |fields| ==> FieldLengthsFit(fields, m, i)
  }

  predicate ItemsFit(f: Field, items: seq<Item>)
    requires TypedItems(f, items)
  {
    forall k: nat :: k < |items| ==> ItemLengthsFit(f, items[k])
  }
}
