/** What the encoder leaves out, and what it refuses: a field is left out exactly when it holds nothing,
    and a message is refused exactly when something in it that is not left out cannot be written. */
module Presence {
  import opened Basics
  import opened Bits
  import opened Wire
  import opened Descriptor
  import opened Message
  import opened Encoding
  import opened Validity

  // ---- What is left out ----------------------------------------------------------------------------

  /** A value without content: the number 0, no bytes, or a submessage that itself takes no bytes. */
  predicate IsNothing(f: Field, it: Item)
    requires TypedItem(f, it)
  {
    match f.ltype
    case Bytes => |it.data| == 0
    case Str => StrLen(it.data) == 0
    case FixedLengthBytes => false
    case Submessage(sub) => Encode(sub, it.slots) == Success([])
    case Extension => true
    case _ => it.n == 0
  }

  /** Whether a field says nothing: it is optional and its has-flag, or without one its value, says so; it
      has no entries; or another member of its oneof is selected. */
  predicate SaysNothing(f: Field, s: Slot)
    requires TypedSlot(f, s)
  {
    match f.htype
    case Required => false
    case Optional => if f.sizeOffset != 0 then s.size == 0 else IsNothing(f, s.items[0])
    case Repeated => s.size == 0
    case Oneof => s.size != f.tag
  }

  lemma TagTakesRoom(f: Field, rest: Bytes)
    ensures Append(Success(FieldTag(f)), rest) != Success([])
    ensures Append(Success(TagBytes(f.tag, WT_STRING)), rest) != Success([])
  {
    VarintStep(8 * f.tag + WireTypeOf(f));
    VarintStep(8 * f.tag + WT_STRING);
    hide VarintBytes;
  }

  lemma AppendIsNothing(a: Bytes, b: Bytes)
    ensures Append(a, b) == Success([]) <==> a == Success([]) && b == Success([])
  {
    if a.Success? && b.Success? {
      assert |a.value + b.value| == |a.value| + |b.value|;
      assert a.value + b.value == [] <==> a.value == [] && b.value == [];
    }
  }

  lemma ArrayTakesRoom(f: Field, items: seq<Item>, count: nat)
    requires TypedItems(f, items) && |items| == f.arraySize && count != 0
    ensures EncArray(f, items, count) != Success([])
  {
    hide EncPacked, EncItem, FieldTag, TypedItem;
    if count <= f.arraySize {
      if Packable(f) {
        TagTakesRoom(f, EncPrefixed(EncPacked(f, items[..count])));
      } else {
        var entry := Append(Success(FieldTag(f)), EncItem(f, items[0]));
        TagTakesRoom(f, EncItem(f, items[0]));
        assert items[..count][0] == items[0];
        AppendIsNothing(entry, EncTagged(f, items[..count][1..]));
      }
    }
  }

  /** What is written takes room. */
  lemma PresentTakesRoom(f: Field, s: Slot)
    requires TypedSlot(f, s)
    ensures EncSlot(f, s) == Success([]) <==> !Present(f, s)
  {
    hide EncItem, FieldTag, TypedItem, EncArray, ZeroItemValue;
    if Present(f, s) {
      if f.htype.Repeated? {
        ArrayTakesRoom(f, s.items, s.size);
      } else {
        TagTakesRoom(f, EncItem(f, s.items[0]));
      }
    }
  }

  lemma ZeroIsNothing(f: Field, it: Item)
    requires WellFormedField(f) && ValidItem(f, it) && f.dataSize > 0
    ensures ZeroItemValue(f, it) <==> IsNothing(f, it)
    decreases f, 0
  {
    if f.ltype.Submessage? {
      hide EncFrom, ZeroFrom, WellFormed, Typed;
      ZeroIsEmpty(f.ltype.fields, it.slots);
      assert Encode(f.ltype.fields, it.slots) == EncFrom(f.ltype.fields, it.slots, 0);
    }
  }

  /** The walk over a submessage finds only zeros exactly when nothing of it is written. A oneof whose
      selector is not 0 is not zero, but then the member that it names is written. */
  lemma {:induction false} ZeroIsEmpty(fields: seq<Field>, m: seq<Slot>)
    requires WellFormed(fields) && Valid(fields, m)
    ensures ZeroFrom(fields, m, 0) <==> EncFrom(fields, m, 0) == Success([])
    decreases fields
  {
    hide *;
    EmptyFrom(fields, m, 0);
    ZeroFromAll(fields, m, 0);
    forall i: nat | i < |fields|
      ensures Home(fields, i) < |m| && TypedSlot(fields[i], m[Home(fields, i)])
    {
      FieldOf(fields, m, i);
    }
    if ZeroFrom(fields, m, 0) {
      forall i: nat | i < |fields|
        ensures EncSlot(fields[i], m[Home(fields, i)]) == Success([])
      {
        ZeroFieldEmpty(fields, m, i);
      }
    }
    if EncFrom(fields, m, 0) == Success([]) {
      forall i: nat | i < |fields|
        ensures ZeroValue(fields[i], m[Home(fields, i)])
      {
        EmptyFieldZero(fields, m, i);
      }
    }
  }

  lemma {:induction false} EmptyFrom(fields: seq<Field>, m: seq<Slot>, i: nat)
    requires Typed(fields, m) && i <= |fields|
    ensures EncFrom(fields, m, i) == Success([])
       <==> forall j: nat :: i <= j < |fields| ==> EncSlot(fields[j], m[Home(fields, j)]) == Success([])
    decreases |fields| - i
  {
    EncFromStep(fields, m, i);
    hide EncFrom, EncSlot, Append;
    if i < |fields| {
      EmptyFrom(fields, m, i + 1);
      AppendIsNothing(EncSlot(fields[i], m[Home(fields, i)]), EncFrom(fields, m, i + 1));
    }
  }

  lemma {:induction false} ZeroFromAll(fields: seq<Field>, m: seq<Slot>, i: nat)
    requires Typed(fields, m) && i <= |fields|
    ensures ZeroFrom(fields, m, i) <==> forall j: nat :: i <= j < |fields| ==> ZeroValue(fields[j], m[Home(fields, j)])
    decreases |fields| - i
  {
    hide ZeroValue;
    if i < |fields| { ZeroFromAll(fields, m, i + 1); }
  }

  lemma FieldOf(fields: seq<Field>, m: seq<Slot>, i: nat)
    requires WellFormed(fields) && Valid(fields, m) && i < |fields|
    ensures WellFormedField(fields[i]) && Home(fields, i) < |m| && ValidSlot(fields[i], m[Home(fields, i)])
    ensures TypedSlot(fields[i], m[Home(fields, i)]) && Span(fields[i]) > 0
    ensures fields[i].htype.Optional? && fields[i].sizeOffset == 0 ==>
              ValidItem(fields[i], m[Home(fields, i)].items[0])
    ensures fields[i].htype.Oneof? ==> SelectorNames(fields, Home(fields, i), m[Home(fields, i)].size)
  {
    hide ValidItem;
    assert Span(fields[i]) > 0;
  }

  lemma ZeroFieldEmpty(fields: seq<Field>, m: seq<Slot>, i: nat)
    requires WellFormed(fields) && Valid(fields, m) && i < |fields|
    requires ZeroValue(fields[i], m[Home(fields, i)])
    ensures EncSlot(fields[i], m[Home(fields, i)]) == Success([])
  {
    FieldOf(fields, m, i);
    hide WellFormed, Valid, Typed, TypedItem, ValidItem, ZeroItemValue, EncItem;
  }

  lemma EmptyFieldZero(fields: seq<Field>, m: seq<Slot>, i: nat)
    requires WellFormed(fields) && Valid(fields, m) && i < |fields|
    requires forall j: nat :: j < |fields| ==> EncSlot(fields[j], m[Home(fields, j)]) == Success([])
    ensures ZeroValue(fields[i], m[Home(fields, i)])
  {
    var f, s := fields[i], m[Home(fields, i)];
    FieldOf(fields, m, i);
    PresentTakesRoom(f, s);
    hide Valid, Typed, TypedItem, ValidItem, ZeroItemValue, EncSlot, EncItem;
    if f.htype.Oneof? && s.size != 0 {
      var j: nat :| j < |fields| && Home(fields, j) == Home(fields, i) && fields[j].htype.Oneof?
                    && fields[j].tag == s.size;
      PresentTakesRoom(fields[j], m[Home(fields, j)]);
    }
  }

  /** A field is left out exactly when it says nothing. */
  lemma LeftOutExactly(f: Field, s: Slot)
    requires WellFormedField(f) && TypedSlot(f, s) && Span(f) > 0
    requires f.htype.Optional? && f.sizeOffset == 0 ==> ValidItem(f, s.items[0])
    ensures EncSlot(f, s) == Success([]) <==> SaysNothing(f, s)
  {
    PresentTakesRoom(f, s);
    if f.htype.Optional? && f.sizeOffset == 0 {
      ZeroIsNothing(f, s.items[0]);
    }
    hide TypedItem, ValidItem, ZeroItemValue, EncSlot, EncItem, IsNothing;
  }

  /** Nothing is written of a message exactly when each of its fields says nothing. */
  lemma EmptyMessage(fields: seq<Field>, m: seq<Slot>)
    requires WellFormed(fields) && Valid(fields, m)
    ensures Encode(fields, m) == Success([])
       <==> forall i: nat :: i < |fields| ==> SaysNothing(fields[i], m[Home(fields, i)])
  {
    assert Encode(fields, m) == EncFrom(fields, m, 0);
    EmptyFrom(fields, m, 0);
    hide EncFrom, EncSlot, SaysNothing, ValidSlot, TypedSlot, WellFormedField, Span;
    forall i: nat | i < |fields|
      ensures EncSlot(fields[i], m[Home(fields, i)]) == Success([]) <==> SaysNothing(fields[i], m[Home(fields, i)])
    {
      FieldOf(fields, m, i);
      LeftOutExactly(fields[i], m[Home(fields, i)]);
    }
  }

  /** A table in the style of proto3: without required fields and byte strings of fixed length, at any
      depth. */
  predicate Proto3(fields: seq<Field>)
    decreases fields
  {
    forall i: nat :: i < |fields| ==> Proto3Field(fields[i])
  }

  predicate Proto3Field(f: Field)
    decreases f
  {
    && !f.htype.Required? && !f.ltype.FixedLengthBytes?
    && (f.ltype.Submessage? ==> Proto3(f.ltype.fields))
  }

  lemma Proto3At(fields: seq<Field>, i: nat)
    requires WellFormed(fields) && Proto3(fields) && i < |fields|
    ensures WellFormedField(fields[i]) && !fields[i].htype.Required? && !fields[i].ltype.FixedLengthBytes?
    ensures fields[i].ltype.Submessage? ==> WellFormed(fields[i].ltype.fields) && Proto3(fields[i].ltype.fields)
    ensures Typed(fields, ZeroStruct(fields))
  {
    assert Proto3Field(fields[i]) && WellFormedField(fields[i]);
  }

  lemma {:induction false} ZeroedIsZero(fields: seq<Field>)
    requires WellFormed(fields) && Proto3(fields)
    ensures Typed(fields, ZeroStruct(fields)) && ZeroFrom(fields, ZeroStruct(fields), 0)
    decreases fields
  {
    hide *;
    TypedZeros(fields);
    forall i: nat | i < |fields|
      ensures Home(fields, i) < |fields| == |ZeroStruct(fields)|
      ensures TypedSlot(fields[i], ZeroStruct(fields)[Home(fields, i)])
      ensures ZeroValue(fields[i], ZeroStruct(fields)[Home(fields, i)])
    {
      Proto3At(fields, i);
      ZeroedHome(fields, i);
      ZeroedField(fields[i], fields[Home(fields, i)]);
    }
    ZeroFromAll(fields, ZeroStruct(fields), 0);
  }

  lemma TypedZeros(fields: seq<Field>)
    requires WellFormed(fields)
    ensures Typed(fields, ZeroStruct(fields))
  {}

  lemma ZeroedHome(fields: seq<Field>, i: nat)
    requires WellFormed(fields) && i < |fields|
    ensures |ZeroStruct(fields)| == |fields| && Home(fields, i) < |fields|
    ensures ZeroStruct(fields)[Home(fields, i)] == ZeroSlot(fields[Home(fields, i)])
    ensures !fields[i].htype.Oneof? ==> Home(fields, i) == i
    ensures TypedSlot(fields[i], ZeroSlot(fields[Home(fields, i)]))
  {
    HomeKind(fields, i);
    hide ZeroSlot, TypedSlot;
  }

  lemma ZeroedField(f: Field, home: Field)
    requires WellFormedField(f) && !f.htype.Required? && !f.ltype.FixedLengthBytes?
    requires f.ltype.Submessage? ==> WellFormed(f.ltype.fields) && Proto3(f.ltype.fields)
    requires TypedSlot(f, ZeroSlot(home)) && (f.htype.Oneof? || f == home)
    ensures ZeroValue(f, ZeroSlot(home))
    decreases f, 0
  {
    hide ZeroStruct, ZeroFrom, WellFormed, Typed, Proto3;
    if f.ltype.Submessage? { ZeroedIsZero(f.ltype.fields); }
  }

  lemma ZeroValueEmpty(f: Field, s: Slot)
    requires WellFormedField(f) && TypedSlot(f, s) && ZeroValue(f, s)
    ensures EncSlot(f, s) == Success([])
  {
    hide WellFormed, Typed, TypedItem, ZeroItemValue, EncItem;
  }

  /** A zeroed struct of such a table takes no bytes. */
  lemma ZeroedIsEmpty(fields: seq<Field>)
    requires WellFormed(fields) && Proto3(fields)
    ensures Encode(fields, ZeroStruct(fields)) == Success([])
  {
    var m := ZeroStruct(fields);
    ZeroedIsZero(fields);
    assert Encode(fields, m) == EncFrom(fields, m, 0);
    hide *;
    ZeroFromAll(fields, m, 0);
    EmptyFrom(fields, m, 0);
    forall i: nat | i < |fields|
      ensures Home(fields, i) < |m| && TypedSlot(fields[i], m[Home(fields, i)])
      ensures EncSlot(fields[i], m[Home(fields, i)]) == Success([])
    {
      Proto3At(fields, i);
      ZeroedHome(fields, i);
      ZeroValueEmpty(fields[i], m[Home(fields, i)]);
    }
  }

  // ---- What is refused ------------------------------------------------------------------------------

  /** A value that cannot be written: a number in a field of an unknown size, too many bytes for the field's
      buffer, or a submessage with something that cannot be written. */
  predicate Unwritable(f: Field, it: Item)
    requires TypedItem(f, it)
    decreases f, 0
  {
    match f.ltype
    case Varint => f.dataSize !in {1, 2, 4, 8}
    case UVarint => f.dataSize !in {1, 2, 4, 8}
    case SVarint => f.dataSize !in {1, 2, 4, 8}
    case Bytes => |it.data| + 4 > f.dataSize
    case Submessage(sub) => MessageUnwritable(sub, it.slots)
    case _ => false
  }

  predicate SomeUnwritable(f: Field, items: seq<Item>)
    requires TypedItems(f, items)
    decreases f, 1
  {
    exists k: nat :: k < |items| && Unwritable(f, items[k])
  }

  /** A field that says something which cannot be written: also an array that counts more entries than it
      has. */
  predicate FieldUnwritable(f: Field, s: Slot)
    requires TypedSlot(f, s)
    decreases f, 2
  {
    match f.htype
    case Required => Unwritable(f, s.items[0])
    case Optional => Present(f, s) && Unwritable(f, s.items[0])
    case Repeated => s.size > f.arraySize || SomeUnwritable(f, s.items[..s.size])
    case Oneof => s.size == f.tag && Unwritable(f, s.items[0])
  }

  predicate MessageUnwritable(fields: seq<Field>, m: seq<Slot>)
    requires Typed(fields, m)
    decreases fields
  {
    exists i: nat :: i < |fields| && FieldUnwritable(fields[i], m[Home(fields, i)])
  }

  lemma ItemRefused(f: Field, it: Item)
    requires TypedItem(f, it)
    ensures EncItem(f, it).Failure? <==> Unwritable(f, it)
    decreases f, 0
  {
    if f.ltype.Submessage? {
      hide MessageUnwritable, EncFrom, Typed;
      MessageRefused(f.ltype.fields, it.slots);
      assert EncItem(f, it) == EncDelimited(f.ltype.fields, it.slots);
    }
  }

  lemma {:induction false} ItemsRefused(f: Field, items: seq<Item>)
    requires TypedItems(f, items)
    ensures EncPacked(f, items).Failure? <==> SomeUnwritable(f, items)
    ensures EncTagged(f, items).Failure? <==> SomeUnwritable(f, items)
    decreases f, 1, |items|
  {
    hide EncItem, Unwritable, TypedItem, FieldTag;
    if items != [] {
      var tail := items[1..];
      ItemRefused(f, items[0]);
      ItemsRefused(f, tail);
      forall k: nat | k < |tail| && Unwritable(f, tail[k])
        ensures Unwritable(f, items[k + 1])
      {
        assert tail[k] == items[k + 1];
      }
      if k: nat :| 0 < k < |items| && Unwritable(f, items[k]) {
        assert tail[k - 1] == items[k];
      }
    }
  }

  lemma ArrayRefused(f: Field, items: seq<Item>, count: nat)
    requires TypedItems(f, items) && |items| == f.arraySize
    ensures EncArray(f, items, count).Failure? <==> count > f.arraySize || SomeUnwritable(f, items[..count])
    decreases f, 2
  {
    hide EncItem, Unwritable, TypedItem, FieldTag, EncTagged, EncPacked;
    if count <= f.arraySize { ItemsRefused(f, items[..count]); }
  }

  lemma FieldRefused(f: Field, s: Slot)
    requires TypedSlot(f, s)
    ensures EncSlot(f, s).Failure? <==> FieldUnwritable(f, s)
    decreases f, 3
  {
    hide EncItem, Unwritable, TypedItem, FieldTag, ZeroItemValue, EncArray;
    if f.htype.Repeated? {
      ArrayRefused(f, s.items, s.size);
    } else if Present(f, s) {
      ItemRefused(f, s.items[0]);
    }
  }

  lemma {:induction false} FieldsRefused(fields: seq<Field>, m: seq<Slot>, i: nat)
    requires Typed(fields, m) && i <= |fields|
    ensures EncFrom(fields, m, i).Failure?
       <==> exists j: nat :: i <= j < |fields| && FieldUnwritable(fields[j], m[Home(fields, j)])
    decreases fields, 0, |fields| - i
  {
    EncFromStep(fields, m, i);
    hide EncFrom, EncSlot, FieldUnwritable;
    if i < |fields| {
      FieldRefused(fields[i], m[Home(fields, i)]);
      FieldsRefused(fields, m, i + 1);
    }
  }

  /** The encoder refuses a struct exactly when something in it that it does not leave out, at any depth,
      cannot be written. */
  lemma MessageRefused(fields: seq<Field>, m: seq<Slot>)
    requires Typed(fields, m)
    ensures Encode(fields, m).Failure? <==> MessageUnwritable(fields, m)
    decreases fields, 1
  {
    assert Encode(fields, m) == EncFrom(fields, m, 0);
    hide EncFrom, FieldUnwritable;
    FieldsRefused(fields, m, 0);
  }
}
