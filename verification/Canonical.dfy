/** The encoding is canonical: two valid messages have the same bytes exactly when they are the same
    message. What was decoded from an encoding is encoded to the same bytes again. */
module Canonical {
  import opened Bits
  import opened Wire
  import opened Descriptor
  import opened Message
  import opened Encoding
  import opened Decoding
  import opened Validity
  import opened RoundTrip

  // ---- Being the same message ----------------------------------------------------------------------

  lemma SameItemSymmetric(f: Field, a: Item, b: Item)
    requires SameItem(f, a, b)
    ensures SameItem(f, b, a)
    decreases f, 0
  {
    if f.ltype.Submessage? { SameSymmetric(f.ltype.fields, a.slots, b.slots); }
  }

  lemma SameSlotSymmetric(f: Field, a: Slot, b: Slot)
    requires SameSlot(f, a, b)
    ensures SameSlot(f, b, a)
    decreases f, 1
  {
    hide SameItem;
    forall k: nat | k < |a.items| && SameItem(f, a.items[k], b.items[k])
      ensures SameItem(f, b.items[k], a.items[k])
    {
      SameItemSymmetric(f, a.items[k], b.items[k]);
    }
  }

  lemma {:induction false} SameSymmetric(fields: seq<Field>, a: seq<Slot>, b: seq<Slot>)
    requires Same(fields, a, b)
    ensures Same(fields, b, a)
    decreases fields
  {
    hide SameSlot;
    forall i: nat | i < |fields|
      ensures SameSlot(fields[i], b[Home(fields, i)], a[Home(fields, i)])
    {
      SameSlotSymmetric(fields[i], a[Home(fields, i)], b[Home(fields, i)]);
    }
  }

  lemma SameItemTransitive(f: Field, a: Item, b: Item, c: Item)
    requires SameItem(f, a, b) && SameItem(f, b, c)
    ensures SameItem(f, a, c)
    decreases f, 0
  {
    if f.ltype.Submessage? { SameTransitive(f.ltype.fields, a.slots, b.slots, c.slots); }
  }

  lemma SameSlotTransitive(f: Field, a: Slot, b: Slot, c: Slot)
    requires SameSlot(f, a, b) && SameSlot(f, b, c)
    ensures SameSlot(f, a, c)
    decreases f, 1
  {
    hide SameItem;
    forall k: nat | k < |a.items| && SameItem(f, a.items[k], b.items[k]) && SameItem(f, b.items[k], c.items[k])
      ensures SameItem(f, a.items[k], c.items[k])
    {
      SameItemTransitive(f, a.items[k], b.items[k], c.items[k]);
    }
  }

  lemma {:induction false} SameTransitive(fields: seq<Field>, a: seq<Slot>, b: seq<Slot>, c: seq<Slot>)
    requires Same(fields, a, b) && Same(fields, b, c)
    ensures Same(fields, a, c)
    decreases fields
  {
    hide SameSlot;
    forall i: nat | i < |fields|
      ensures SameSlot(fields[i], a[Home(fields, i)], c[Home(fields, i)])
    {
      SameSlotTransitive(fields[i], a[Home(fields, i)], b[Home(fields, i)], c[Home(fields, i)]);
    }
  }

  // ---- The same message has the same bytes -----------------------------------------------------------

  lemma SubmessageEncodes(f: Field, it: Item)
    requires f.ltype.Submessage? && TypedItem(f, it)
    ensures EncItem(f, it) == EncPrefixed(Encode(f.ltype.fields, it.slots))
    ensures ZeroItemValue(f, it) <==> ZeroFrom(f.ltype.fields, it.slots, 0)
  {
    assert EncItem(f, it) == EncDelimited(f.ltype.fields, it.slots);
  }

  lemma SameItemEncodes(f: Field, a: Item, b: Item)
    requires TypedItem(f, a) && TypedItem(f, b) && SameItem(f, a, b)
    ensures EncItem(f, a) == EncItem(f, b) && (ZeroItemValue(f, a) <==> ZeroItemValue(f, b))
    decreases f, 0
  {
    if f.ltype.Submessage? {
      var sub := f.ltype.fields;
      SameEncodesFrom(sub, a.slots, b.slots, 0);
      assert Encode(sub, a.slots) == Encode(sub, b.slots);
      SubmessageEncodes(f, a);
      SubmessageEncodes(f, b);
    }
  }

  lemma {:induction false} SameItemsEncode(f: Field, a: seq<Item>, b: seq<Item>)
    requires TypedItems(f, a) && TypedItems(f, b) && |a| == |b|
    requires forall k: nat :: k < |a| ==> SameItem(f, a[k], b[k])
    ensures EncPacked(f, a) == EncPacked(f, b) && EncTagged(f, a) == EncTagged(f, b)
    decreases f, 1, |a|
  {
    hide TypedItem, SameItem, EncItem;
    if a != [] {
      SameItemEncodes(f, a[0], b[0]);
      SameItemsEncode(f, a[1..], b[1..]);
    }
  }

  lemma SameSlotEncodes(f: Field, a: Slot, b: Slot)
    requires TypedSlot(f, a) && TypedSlot(f, b) && SameSlot(f, a, b)
    ensures EncSlot(f, a) == EncSlot(f, b) && (ZeroValue(f, a) <==> ZeroValue(f, b))
    decreases f, 2
  {
    hide TypedItem, SameItem, EncItem, ZeroItemValue, EncPacked, EncTagged;
    if f.htype.Repeated? {
      if a.size <= f.arraySize {
        SameItemsEncode(f, a.items[..a.size], b.items[..b.size]);
      }
      assert EncArray(f, a.items, a.size) == EncArray(f, b.items, b.size);
    } else if SameItem(f, a.items[0], b.items[0]) && TypedItem(f, a.items[0]) && TypedItem(f, b.items[0]) {
      SameItemEncodes(f, a.items[0], b.items[0]);
    }
  }

  lemma {:induction false} SameEncodesFrom(fields: seq<Field>, a: seq<Slot>, b: seq<Slot>, i: nat)
    requires Typed(fields, a) && Typed(fields, b) && Same(fields, a, b) && i <= |fields|
    ensures EncFrom(fields, a, i) == EncFrom(fields, b, i) && (ZeroFrom(fields, a, i) <==> ZeroFrom(fields, b, i))
    decreases fields, |fields| - i
  {
    hide TypedSlot, SameSlot, EncSlot, ZeroValue, Append;
    if i < |fields| {
      SameSlotEncodes(fields[i], a[Home(fields, i)], b[Home(fields, i)]);
      SameEncodesFrom(fields, a, b, i + 1);
    }
  }

  // ---- The same bytes are of the same message ----------------------------------------------------------

  /** Two valid messages have the same encoding if and only if they are the same message. */
  lemma EncodingIdentifies(fields: seq<Field>, a: seq<Slot>, b: seq<Slot>)
    requires WellFormed(fields) && Carried(fields, a) && Carried(fields, b)
    ensures Encode(fields, a) == Encode(fields, b) <==> Same(fields, a, b)
  {
    if Same(fields, a, b) {
      SameEncodesFrom(fields, a, b, 0);
    }
    hide *;
    if Encode(fields, a) == Encode(fields, b) {
      CarriedRoundTrip(fields, a, a);
      CarriedRoundTrip(fields, b, a);
      var d := Decode(fields, a, Encode(fields, a).value).value;
      SameSymmetric(fields, b, d);
      SameTransitive(fields, a, d, b);
    }
  }

  /** What is decoded from the encoding of a valid message is encoded to the same bytes. */
  lemma ReencodesAlike(fields: seq<Field>, m: seq<Slot>, was: seq<Slot>)
    requires WellFormed(fields) && Carried(fields, m) && Typed(fields, was) && Encode(fields, m).Success?
    ensures var p := Decode(fields, was, Encode(fields, m).value);
            p.Ok? && Encode(fields, p.value) == Encode(fields, m)
  {
    CarriedRoundTrip(fields, m, was);
    var d := Decode(fields, was, Encode(fields, m).value).value;
    SameEncodesFrom(fields, m, d, 0);
  }
}
