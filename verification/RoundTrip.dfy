/** What is encoded is decoded again: for every table and every valid message, the bytes of the
    encoder take the decoder from any struct to one that holds the same message, or it is said
    exactly when they do not. */
module RoundTrip {
  import opened Basics
  import opened Bits
  import opened Wire
  import opened Descriptor
  import opened Message
  import opened Encoding
  import opened Decoding
  import opened Validity
  import opened Restoring
  import opened LongRecords

  // ---- Zeros that are left out ---------------------------------------------------------------------

  lemma NoZeroByte(data: seq<byte>)
    requires 0 !in data
    ensures data == [] || data[0] != 0
  {
    if data != [] { assert data[0] in data; }
  }

  lemma ZeroScalar(f: Field, it: Item)
    requires ValidItem(f, it) && ZeroItemValue(f, it) && !f.ltype.Submessage?
    ensures it == ZeroItem(f)
  {
    match f.ltype {
      case Str => NoZeroByte(it.data);
      case _ =>
    }
  }

  /** A zero that is left out is what the fresh item holds exactly when the default, at any depth,
      is zero. */
  lemma {:induction false} ZeroItemIsFresh(f: Field, it: Item, d: Item)
    requires WellFormedField(f) && ValidItem(f, it) && ZeroItemValue(f, it)
    requires FreshItem(f, d) && TypedItem(f, d)
    ensures SameItem(f, it, d) <==> ItemKeepsZeros(f, it) && ZeroDefault(f)
    decreases f, 0
  {
    if f.ltype.Submessage? {
      ZeroStructIsFresh(f.ltype.fields, it.slots, d.slots);
    } else {
      ZeroScalar(f, it);
    }
  }

  lemma {:induction false} ZeroSlotIsFresh(f: Field, s: Slot, d: Slot)
    requires WellFormedField(f) && ValidSlot(f, s) && FreshSlot(f, d) && TypedSlot(f, d)
    requires ZeroValue(f, s)
    ensures SameSlot(f, s, d) <==> SlotKeepsZeros(f, s)
    decreases f, 1
  {
    assert f.tag != 0;
    hide ValidItem, ZeroItemValue, SameItem, FreshItem, ItemKeepsZeros, ZeroDefault, WellFormed, WellFormedField,
         TypedItem;
    if f.htype.Optional? && f.sizeOffset == 0 {
      ZeroItemIsFresh(f, s.items[0], d.items[0]);
    }
  }

  lemma {:induction false} ZeroStructIsFresh(fields: seq<Field>, m: seq<Slot>, d: seq<Slot>)
    requires WellFormed(fields) && Valid(fields, m) && Fresh(fields, d) && Typed(fields, d)
    requires ZeroFrom(fields, m, 0)
    ensures Same(fields, m, d) <==> KeepsZeros(fields, m)
    decreases fields
  {
    hide SameSlot, SlotKeepsZeros;
    forall i: nat | i < |fields|
      ensures SameSlot(fields[i], m[Home(fields, i)], d[Home(fields, i)])
         <==> SlotKeepsZeros(fields[i], m[Home(fields, i)])
    {
      ZeroFromAt(fields, m, 0, i);
      assert WellFormedField(fields[i]) && ValidSlot(fields[i], m[Home(fields, i)]);
      assert FreshSlot(fields[i], d[Home(fields, i)]) && TypedSlot(fields[i], d[Home(fields, i)]);
      hide *;
      ZeroSlotIsFresh(fields[i], m[Home(fields, i)], d[Home(fields, i)]);
    }
  }

  lemma {:induction false} ZeroFromAt(fields: seq<Field>, m: seq<Slot>, i: nat, j: nat)
    requires Typed(fields, m) && i <= j < |fields| && ZeroFrom(fields, m, i)
    ensures ZeroValue(fields[j], m[Home(fields, j)])
    decreases j - i
  {
    if i < j { ZeroFromAt(fields, m, i + 1, j); }
  }

  // ---- When what is restored is the message ---------------------------------------------------------

  lemma RestoredItemIsSame(f: Field, it: Item, d: Item)
    requires WellFormedField(f) && ValidItem(f, it) && TypedItem(f, d) && RestoredItem(f, it, d)
    ensures SameItem(f, it, d) <==> ItemKeepsZeros(f, it)
    decreases f, 0
  {
    if f.ltype.Submessage? {
      RestoredIsSame(f.ltype.fields, it.slots, d.slots);
    }
  }

  lemma RestoredSlotIsSame(f: Field, s: Slot, d: Slot)
    requires WellFormedField(f) && ValidSlot(f, s) && TypedSlot(f, d) && RestoredSlot(f, s, d)
    ensures SameSlot(f, s, d) <==> SlotKeepsZeros(f, s)
    decreases f, 1
  {
    hide ValidItem, TypedItem, ZeroItemValue, SameItem, RestoredItem, FreshItem, ItemKeepsZeros, WellFormedField;
    match f.htype {
      case Required => RestoredItemIsSame(f, s.items[0], d.items[0]);
      case Optional =>
        if f.sizeOffset != 0 {
          if s.size != 0 { RestoredItemIsSame(f, s.items[0], d.items[0]); }
        } else if ZeroItemValue(f, s.items[0]) {
          ZeroItemIsFresh(f, s.items[0], d.items[0]);
        } else {
          RestoredItemIsSame(f, s.items[0], d.items[0]);
        }
      case Repeated =>
        forall k: nat | k < s.size
          ensures SameItem(f, s.items[k], d.items[k]) <==> ItemKeepsZeros(f, s.items[k])
        {
          RestoredItemIsSame(f, s.items[k], d.items[k]);
        }
      case Oneof =>
        if s.size == f.tag { RestoredItemIsSame(f, s.items[0], d.items[0]); }
    }
  }

  /** The restored struct is the same message if and only if the message keeps its zeros. */
  lemma {:induction false} RestoredIsSame(fields: seq<Field>, m: seq<Slot>, d: seq<Slot>)
    requires WellFormed(fields) && Valid(fields, m) && Typed(fields, d) && Restored(fields, m, d)
    ensures Same(fields, m, d) <==> KeepsZeros(fields, m)
    decreases fields
  {
    hide SameSlot, SlotKeepsZeros, RestoredSlot;
    forall i: nat | i < |fields|
      ensures SameSlot(fields[i], m[Home(fields, i)], d[Home(fields, i)])
         <==> SlotKeepsZeros(fields[i], m[Home(fields, i)])
    {
      assert WellFormedField(fields[i]) && ValidSlot(fields[i], m[Home(fields, i)]);
      assert TypedSlot(fields[i], d[Home(fields, i)]);
      assert RestoredSlot(fields[i], m[Home(fields, i)], d[Home(fields, i)]);
      hide *;
      RestoredSlotIsSame(fields[i], m[Home(fields, i)], d[Home(fields, i)]);
    }
  }

  // ---- The round trip --------------------------------------------------------------------------------

  /** Every valid message can be encoded. When every record in it takes less than 4 GiB, pb_decode
      accepts those bytes, uses them up, and gives the same message, whatever the struct held before,
      if and only if no field without a has-flag, at any depth, holds zero over another default. A
      message with a longer record, within the 2^63 bytes of an address space, is refused. */
  lemma MessageRoundTrip(fields: seq<Field>, m: seq<Slot>, was: seq<Slot>)
    requires WellFormed(fields) && Valid(fields, m) && Typed(fields, was)
    ensures Encode(fields, m).Success?
    ensures var p := Decode(fields, was, Encode(fields, m).value);
            && (LengthsFit(fields, m) ==>
                  p.Ok? && p.rest == [] && (Same(fields, m, p.value) <==> KeepsZeros(fields, m)))
            && (!LengthsFit(fields, m) && |Encode(fields, m).value| < TWO_63 ==> p.Err?)
  {
    hide *;
    ValidEncodes(fields, m);
    DefaultsFresh(fields, was);
    DecodeDefaults(fields, was, Encode(fields, m).value);
    if LengthsFit(fields, m) {
      var got := FreshRoundTrip(fields, m, Defaults(fields, was));
      RestoredIsSame(fields, m, got);
    } else if |Encode(fields, m).value| < TWO_63 {
      LongMessageRefused(fields, m, Defaults(fields, was));
    }
  }

  /** A message that comes back as it was: valid, with its zeros over zero defaults and its records
      short enough. */
  predicate Carried(fields: seq<Field>, m: seq<Slot>): (carried: bool)
    ensures carried ==> Typed(fields, m)
  {
    Valid(fields, m) && KeepsZeros(fields, m) && LengthsFit(fields, m)
  }

  lemma CarriedMeans(fields: seq<Field>, m: seq<Slot>)
    requires Carried(fields, m)
    ensures Valid(fields, m) && KeepsZeros(fields, m) && LengthsFit(fields, m)
  {}

  lemma CarriedRoundTrip(fields: seq<Field>, m: seq<Slot>, was: seq<Slot>)
    requires WellFormed(fields) && Carried(fields, m) && Typed(fields, was)
    ensures Encode(fields, m).Success?
    ensures var p := Decode(fields, was, Encode(fields, m).value);
            p.Ok? && p.rest == [] && Same(fields, m, p.value)
  {
    hide Valid, KeepsZeros, LengthsFit;
    MessageRoundTrip(fields, m, was);
  }

  // ---- Inputs that do not come back -------------------------------------------------------------------

  /** A field without a has-flag that holds zero, of any type but a submessage: it is not written, and
      comes back if and only if the default is zero. */
  lemma ZeroOverDefaultIsLost(f: Field, it: Item, was: seq<Slot>)
    requires WellFormed([f]) && Typed([f], was) && f.htype.Optional? && f.sizeOffset == 0
    requires ValidItem(f, it) && ZeroItemValue(f, it) && !f.ltype.Submessage?
    ensures var m := [Slot(0, [it])];
            && Valid([f], m) && LengthsFit([f], m) && Encode([f], m) == Success([])
            && Decode([f], was, []).Ok? && (Same([f], m, Decode([f], was, []).value) <==> ZeroDefault(f))
  {
    var fields, m := [f], [Slot(0, [it])];
    assert Home(fields, 0) == 0;
    assert ValidSlot(f, m[0]) && SlotLengthsFit(f, m[0]) && (SlotKeepsZeros(f, m[0]) <==> ZeroDefault(f));
    EncFromStep(fields, m, 0);
    EncFromStep(fields, m, 1);
    AppendNothing(Success([]));
    assert EncSlot(f, m[0]) == Success([]);
    assert KeepsZeros(fields, m) <==> SlotKeepsZeros(fields[0], m[Home(fields, 0)]);
    assert FieldLengthsFit(fields, m, 0) && LengthsFit(fields, m);
    MessageRoundTrip(fields, m, was);
  }

  /** An array of 2^29 signed 32-bit numbers, and the array filled with -1. */
  const NUMBERS: nat := 0x2000_0000

  function NumbersField(): Field {
    Field(1, LType.Varint, Repeated, Static, 0, 1, 4, NUMBERS, None)
  }

  function Negatives(n: nat): (items: seq<Item>)
    ensures |items| == n
  {
    seq(n, _ => Num(-1))
  }

  lemma NegativeLength()
    ensures |VarintBytes(TWO_64 - 1)| == 10
  {
    VarintStep(TWO_64 - 1);
    VarintStep(0x1FF_FFFF_FFFF_FFFF);
    VarintStep(0x3_FFFF_FFFF_FFFF);
    VarintStep(0x7FF_FFFF_FFFF);
    VarintStep(0xF_FFFF_FFFF);
    VarintStep(0x1FFF_FFFF);
    VarintStep(0x3F_FFFF);
    VarintStep(0x7FFF);
    VarintStep(0xFF);
    VarintStep(1);
    hide VarintBytes;
  }

  lemma {:induction false} PackedNegatives(n: nat)
    ensures TypedItems(NumbersField(), Negatives(n)) && EncPacked(NumbersField(), Negatives(n)).Success?
    ensures |EncPacked(NumbersField(), Negatives(n)).value| == 10 * n
  {
    var f, items := NumbersField(), Negatives(n);
    assert TypedItem(f, Num(-1)) by { assert IntLimit(4) == TWO_31; }
    if n > 0 {
      NegativeLength();
      assert items[1..] == Negatives(n - 1);
      assert EncItem(f, Num(-1)) == Success(VarintBytes(TWO_64 - 1));
      hide EncItem, VarintBytes, TypedItem;
      PackedNegatives(n - 1);
    }
  }

  /** Not every valid message has records that are short enough: a negative 32-bit number takes ten
      bytes, and 2^29 of them, a struct of 2 GiB, make a packed array that the decoder refuses. */
  lemma LongRecordExists(was: seq<Slot>)
    requires Typed([NumbersField()], was)
    ensures var fields, m := [NumbersField()], [Slot(NUMBERS, Negatives(NUMBERS))];
            && WellFormed(fields) && Valid(fields, m) && !LengthsFit(fields, m)
            && Encode(fields, m).Success? && Decode(fields, was, Encode(fields, m).value).Err?
  {
    var f, items := NumbersField(), Negatives(NUMBERS);
    var fields, m := [f], [Slot(NUMBERS, items)];
    PackedNegatives(NUMBERS);
    assert IntLimit(4) == TWO_31 && Home(fields, 0) == 0;
    assert ValidSlot(f, m[0]);
    assert items[..NUMBERS] == items;
    assert !FieldLengthsFit(fields, m, 0);
    hide IntLimit, ValidItem, TypedItem;
    PackedNegativesEncoded(items);
    MessageRoundTrip(fields, m, was);
  }

  lemma PackedNegativesEncoded(items: seq<Item>)
    requires |items| == NUMBERS && Typed([NumbersField()], [Slot(NUMBERS, items)]) && TypedItems(NumbersField(), items)
    requires EncPacked(NumbersField(), items).Success? && |EncPacked(NumbersField(), items).value| == 10 * NUMBERS
    ensures var m := [Slot(NUMBERS, items)];
            Encode([NumbersField()], m).Success? && |Encode([NumbersField()], m).value| < TWO_63
  {
    var f, s := NumbersField(), Slot(NUMBERS, items);
    var fields := [f];
    assert Home(fields, 0) == 0 && items[..NUMBERS] == items;
    EncFromStep(fields, [s], 0);
    EncFromStep(fields, [s], 1);
    assert EncSlot(f, s) == EncArray(f, items, NUMBERS) == EncPackedRecord(f, items);
    VarintFitsBuffer(8 * f.tag + WT_STRING);
    VarintFitsBuffer(10 * NUMBERS);
    hide VarintBytes, EncPacked;
  }
}
