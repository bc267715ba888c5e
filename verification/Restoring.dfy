/** What decoding makes of the bytes of a valid message: field by field, the struct it restores. */
module Restoring {
  import opened Basics
  import opened Bits
  import opened Wire
  import opened Descriptor
  import opened Message
  import opened Encoding
  import opened Decoding
  import opened Validity
  import opened Scalars

  // ---- What is restored --------------------------------------------------------------------------------

  ghost predicate RestoredItem(f: Field, it: Item, d: Item)
    requires TypedItem(f, it)
    decreases f, 0
  {
    match f.ltype
    case Submessage(sub) => d.Msg? && Restored(sub, it.slots, d.slots)
    case _ => it == d
  }

  ghost predicate RestoredSlot(f: Field, s: Slot, d: Slot)
    requires TypedSlot(f, s)
    decreases f, 1
  {
    match f.htype
    case Required => |d.items| == 1 && RestoredItem(f, s.items[0], d.items[0])
    case Optional =>
      && |d.items| == 1
      && if f.sizeOffset != 0 then s.size == d.size && (s.size != 0 ==> RestoredItem(f, s.items[0], d.items[0]))
         else if ZeroItemValue(f, s.items[0]) then FreshItem(f, d.items[0])
         else RestoredItem(f, s.items[0], d.items[0])
    case Repeated =>
      && s.size == d.size && |s.items| == |d.items|
      && forall k: nat :: k < |s.items| && k < s.size ==> RestoredItem(f, s.items[k], d.items[k])
    case Oneof =>
      && |s.items| == |d.items| == 1 && s.size == d.size
      && (s.size == f.tag ==> RestoredItem(f, s.items[0], d.items[0]))
  }

  /** The struct `d` that decoding the encoding of `m` gives: what a has-flag, a count or a selector
      turns on comes back, and a zero that was left out is the field's default. */
  ghost predicate Restored(fields: seq<Field>, m: seq<Slot>, d: seq<Slot>)
    requires Typed(fields, m)
    decreases fields
  {
    |d| == |fields| && forall i: nat :: i < |fields| ==> RestoredSlot(fields[i], m[Home(fields, i)], d[Home(fields, i)])
  }

  lemma AbsentIsRestored(f: Field, s: Slot, d: Slot)
    requires ValidSlot(f, s) && FreshSlot(f, d) && TypedSlot(f, d)
    requires !f.htype.Oneof? && !Present(f, s)
    ensures RestoredSlot(f, s, d)
  {}

  // ---- One item ---------------------------------------------------------------------------------------

  /** An item decoded from its own bytes. A submessage needs a fresh struct to decode into; array
      entries are set to defaults by the decoder. */
  lemma ItemRoundTrip(f: Field, it: Item, was: Item, t: seq<byte>) returns (got: Item)
    requires WellFormedField(f) && ValidItem(f, it) && TypedItem(f, was)
    requires f.htype.Repeated? || !f.ltype.Submessage? || FreshItem(f, was)
    requires EncItem(f, it).Success? && ItemLengthsFit(f, it)
    ensures DecItem(f, was, EncItem(f, it).value + t) == Ok(got, t) && RestoredItem(f, it, got)
    decreases f, 1
  {
    if f.ltype.Submessage? {
      got := SubmessageRoundTrip(f, it, was, t);
    } else {
      ScalarItemRoundTrip(f, it, was, t);
      got := it;
    }
  }

  lemma SubmessageRoundTrip(f: Field, it: Item, was: Item, t: seq<byte>) returns (got: Item)
    requires WellFormedField(f) && ValidItem(f, it) && TypedItem(f, was) && f.ltype.Submessage?
    requires f.htype.Repeated? || FreshItem(f, was)
    requires EncItem(f, it).Success? && ItemLengthsFit(f, it)
    ensures DecItem(f, was, EncItem(f, it).value + t) == Ok(got, t) && RestoredItem(f, it, got)
    decreases f, 0
  {
    var sub := f.ltype.fields;
    var bytes := Encode(sub, it.slots).value;
    assert EncItem(f, it) == Success(Prefixed(bytes));
    var start := if f.htype.Repeated? then Defaults(sub, was.slots) else was.slots;
    if f.htype.Repeated? { DefaultsFresh(sub, was.slots); }
    assert |bytes| < TWO_32 && LengthsFit(sub, it.slots);
    hide LengthsFit, Encode, Defaults, DecodeNoInit, Delimited, Prefixed, Fresh, Valid, WellFormed, Typed, Restored;
    DelimitedOfPrefixed(bytes, t);
    var m := FreshRoundTrip(sub, it.slots, start);
    got := Msg(m);
  }

  lemma PrefixedShorter(data: seq<byte>)
    ensures |data| < |Prefixed(data)|
  {}

  // ---- One field -----------------------------------------------------------------------------------------

  lemma TagInFront(tag: nat, wireType: nat, body: seq<byte>, t: seq<byte>)
    requires wireType < 8 && 1 <= tag < TWO_32 / 8
    ensures DecodeTag(TagBytes(tag, wireType) + body + t) == Tag(tag, wireType, body + t)
  {
    hide TagBytes, DecodeTag;
    DecodeTagOfBytes(tag, wireType, body + t);
    assert TagBytes(tag, wireType) + body + t == TagBytes(tag, wireType) + (body + t);
  }

  lemma TagInRange(f: Field)
    requires WellFormedField(f)
    ensures 1 <= f.tag < TWO_32 / 8
  {}

  /** A round of the field loop that finds field `i`. */
  lemma KnownFieldStep(fields: seq<Field>, i: nat, d: seq<Slot>, seen: set<nat>, wireType: nat,
                       body: seq<byte>, t: seq<byte>, s: Slot)
    requires WellFormed(fields) && Typed(fields, d) && i < |fields| && wireType < 8
    requires WellFormedField(fields[i]) && TypedSlot(fields[i], d[Home(fields, i)])
    requires DecSlot(fields[i], d[Home(fields, i)], wireType, body + t) == Ok(s, t)
    ensures Typed(fields, d[Home(fields, i) := s])
    ensures FieldLoop(fields, d, seen, TagBytes(fields[i].tag, wireType) + body + t)
         == FieldLoop(fields, d[Home(fields, i) := s], seen + {i}, t)
  {
    hide *;
    HomeInRange(fields, d, i);
    TagInRange(fields[i]);
    TagInFront(fields[i].tag, wireType, body, t);
    KnownField(fields, i, d, seen, wireType, body + t);
    RoundOfTag(fields, d, seen, TagBytes(fields[i].tag, wireType) + body + t);
  }

  /** The payload of a packed array is appended to the items that are there. */
  lemma {:induction false} PackedRoundTrip(f: Field, s: Slot, items: seq<Item>) returns (got: Slot)
    requires WellFormedField(f) && f.htype.Repeated? && Packable(f) && TypedSlot(f, s)
    requires TypedItems(f, items) && ValidItems(f, items) && s.size + |items| <= f.arraySize
    ensures EncPacked(f, items).Success? && DecPacked(f, s, EncPacked(f, items).value) == Success(got)
    ensures got.size == s.size + |items| && |got.items| == |s.items|
    ensures got.items[..got.size] == s.items[..s.size] + items
    decreases |items|
  {
    hide *;
    PackedSplit(f, items);
    if items == [] {
      got := s;
      PackedStep(f, s, []);
    } else {
      FirstItem(f, s, items);
      var next := Slot(s.size + 1, s.items[s.size := items[0]]);
      got := PackedRoundTrip(f, next, items[1..]);
      var rest := EncPacked(f, items[1..]).value;
      ScalarItemRoundTrip(f, items[0], s.items[s.size], rest);
      PackedStep(f, s, EncItem(f, items[0]).value + rest);
      assert next.items[..next.size] + items[1..] == s.items[..s.size] + items;
    }
  }

  lemma PackedSplit(f: Field, items: seq<Item>)
    requires TypedItems(f, items)
    ensures items == [] ==> EncPacked(f, items) == Success([])
    ensures items != [] ==>
              && TypedItem(f, items[0]) && TypedItems(f, items[1..])
              && (EncItem(f, items[0]).Success? && EncPacked(f, items[1..]).Success? ==>
                    EncPacked(f, items) == Success(EncItem(f, items[0]).value + EncPacked(f, items[1..]).value))
  {
    hide EncItem, TypedItem;
  }

  lemma FirstItem(f: Field, s: Slot, items: seq<Item>)
    requires WellFormedField(f) && f.htype.Repeated? && Packable(f) && TypedSlot(f, s) && items != []
    requires TypedItems(f, items) && ValidItems(f, items) && s.size + |items| <= f.arraySize
    ensures s.size < |s.items| && TypedItem(f, s.items[s.size]) && !f.ltype.Submessage?
    ensures ValidItem(f, items[0]) && ValidItems(f, items[1..])
    ensures TypedSlot(f, Slot(s.size + 1, s.items[s.size := items[0]]))
  {
    hide WellFormedField, ValidItem, TypedItem;
  }

  /** The storage of field `f` after the first `n` entries of a repeated field were decoded. */
  ghost predicate Holds(f: Field, items: seq<Item>, s: Slot)
    requires f.htype.Repeated? && TypedItems(f, items)
  {
    s.size == |items| <= |s.items| && forall k: nat :: k < |items| ==> RestoredItem(f, items[k], s.items[k])
  }

  lemma TaggedSplit(f: Field, items: seq<Item>, n: nat)
    requires TypedItems(f, items) && n < |items| && EncTagged(f, items[n..]).Success?
    ensures TypedItem(f, items[n]) && EncItem(f, items[n]).Success? && EncTagged(f, items[n + 1..]).Success?
    ensures EncTagged(f, items[n..]).value
         == FieldTag(f) + EncItem(f, items[n]).value + EncTagged(f, items[n + 1..]).value
  {
    assert items[n..][1..] == items[n + 1..] && items[n..][0] == items[n];
    hide EncItem, FieldTag, TypedItem;
  }

  lemma ItemsFitFrom(f: Field, items: seq<Item>, n: nat)
    requires TypedItems(f, items) && n <= |items| && ItemsFit(f, items[n..])
    ensures n < |items| ==> ItemLengthsFit(f, items[n]) && ItemsFit(f, items[n + 1..])
  {
    hide ItemLengthsFit, TypedItem;
    if n < |items| {
      var rest := items[n..];
      assert rest[0] == items[n] && rest[1..] == items[n + 1..];
      forall k: nat | k < |rest[1..]|
        ensures ItemLengthsFit(f, rest[1..][k])
      {
        assert rest[1..][k] == rest[k + 1];
      }
    }
  }

  /** The entries of an unpacked array from `n` on, one field each. */
  lemma {:induction false} TaggedRoundTrip(fields: seq<Field>, i: nat, d: seq<Slot>, seen: set<nat>, items: seq<Item>,
                                           n: nat, t: seq<byte>) returns (got: Slot, seen': set<nat>)
    requires WellFormed(fields) && Typed(fields, d) && i < |fields| && WellFormedField(fields[i])
    requires fields[i].htype.Repeated? && !Packable(fields[i]) && TypedSlot(fields[i], d[Home(fields, i)])
    requires TypedItems(fields[i], items) && ValidItems(fields[i], items) && n <= |items| <= fields[i].arraySize
    requires Holds(fields[i], items[..n], d[Home(fields, i)])
    requires EncTagged(fields[i], items[n..]).Success? && ItemsFit(fields[i], items[n..])
    ensures Typed(fields, d[Home(fields, i) := got]) && seen <= seen'
    ensures TypedSlot(fields[i], got) && Holds(fields[i], items, got)
    ensures FieldLoop(fields, d, seen, EncTagged(fields[i], items[n..]).value + t)
         == FieldLoop(fields, d[Home(fields, i) := got], seen', t)
    decreases fields[i], 3, |items| - n
  {
    hide *;
    var f, h := fields[i], Home(fields, i);
    HomeInRange(fields, d, i);
    ItemsFitFrom(f, items, n);
    NoneLeft(f, items, n);
    if n == |items| {
      got, seen' := d[h], seen;
      StoredAgain(d, h, got, got);
      assert [] + t == t;
    } else {
      var s := TaggedNext(fields, i, d, seen, items, n, t);
      got, seen' := TaggedRoundTrip(fields, i, d[h := s], seen + {i}, items, n + 1, t);
      StoredAgain(d, h, s, got);
    }
  }

  lemma NoneLeft(f: Field, items: seq<Item>, n: nat)
    requires TypedItems(f, items) && n <= |items|
    ensures n == |items| ==> EncTagged(f, items[n..]) == Success([]) && items[..n] == items
  {}

  lemma StoredAgain(d: seq<Slot>, h: nat, s: Slot, t: Slot)
    requires h < |d|
    ensures d[h := d[h]] == d && d[h := s][h := t] == d[h := t]
  {}

  /** Entry `n`, as one round of the field loop. */
  lemma TaggedNext(fields: seq<Field>, i: nat, d: seq<Slot>, seen: set<nat>, items: seq<Item>, n: nat, t: seq<byte>)
    returns (s: Slot)
    requires WellFormed(fields) && Typed(fields, d) && i < |fields| && WellFormedField(fields[i])
    requires fields[i].htype.Repeated? && !Packable(fields[i]) && TypedSlot(fields[i], d[Home(fields, i)])
    requires TypedItems(fields[i], items) && ValidItems(fields[i], items) && n < |items| <= fields[i].arraySize
    requires Holds(fields[i], items[..n], d[Home(fields, i)])
    requires EncTagged(fields[i], items[n..]).Success? && ItemLengthsFit(fields[i], items[n])
    ensures Typed(fields, d[Home(fields, i) := s]) && TypedSlot(fields[i], s)
    ensures EncTagged(fields[i], items[n + 1..]).Success? && Holds(fields[i], items[..n + 1], s)
    ensures FieldLoop(fields, d, seen, EncTagged(fields[i], items[n..]).value + t)
         == FieldLoop(fields, d[Home(fields, i) := s], seen + {i}, EncTagged(fields[i], items[n + 1..]).value + t)
    decreases fields[i], 2, 1
  {
    HomeInRange(fields, d, i);
    assert TypedItems(fields[i], items[n + 1..]);
    hide *;
    var body;
    s, body := TaggedItemRoundTrip(fields[i], items, n, d[Home(fields, i)], t);
    TaggedStep(fields, i, d, seen, body, EncTagged(fields[i], items[n + 1..]).value, t, s);
  }

  /** Entry `n` of an unpacked array, decoded behind the entries before it. */
  lemma TaggedItemRoundTrip(f: Field, items: seq<Item>, n: nat, s: Slot, t: seq<byte>)
    returns (got: Slot, body: seq<byte>)
    requires WellFormedField(f) && f.htype.Repeated? && !Packable(f) && TypedSlot(f, s)
    requires TypedItems(f, items) && ValidItems(f, items) && n < |items| <= f.arraySize
    requires Holds(f, items[..n], s)
    requires EncTagged(f, items[n..]).Success? && ItemLengthsFit(f, items[n])
    ensures Holds(f, items[..n + 1], got)
    ensures EncTagged(f, items[n + 1..]).Success?
    ensures EncTagged(f, items[n..]).value == FieldTag(f) + body + EncTagged(f, items[n + 1..]).value
    ensures var rest := EncTagged(f, items[n + 1..]).value + t;
            DecSlot(f, s, WireTypeOf(f), body + rest) == Ok(got, rest)
    decreases f, 2, 0
  {
    TaggedSplit(f, items, n);
    var rest := EncTagged(f, items[n + 1..]).value + t;
    body := EncItem(f, items[n]).value;
    assert ValidItem(f, items[n]) && TypedItem(f, s.items[n]);
    hide WellFormedField, ValidItem, TypedItem, EncItem, EncTagged, DecItem, FieldTag, IsSuffix, RestoredItem,
         ItemLengthsFit;
    var it := ItemRoundTrip(f, items[n], s.items[n], rest);
    got := Slot(n + 1, s.items[n := it]);
    HoldsMore(f, items, n, s, got);
  }

  lemma TaggedStep(fields: seq<Field>, i: nat, d: seq<Slot>, seen: set<nat>,
                   body: seq<byte>, rest: seq<byte>, t: seq<byte>, s: Slot)
    requires WellFormed(fields) && Typed(fields, d) && i < |fields| && WellFormedField(fields[i])
    requires TypedSlot(fields[i], d[Home(fields, i)])
    requires DecSlot(fields[i], d[Home(fields, i)], WireTypeOf(fields[i]), body + (rest + t)) == Ok(s, rest + t)
    ensures Typed(fields, d[Home(fields, i) := s]) && TypedSlot(fields[i], s)
    ensures FieldLoop(fields, d, seen, FieldTag(fields[i]) + body + rest + t)
         == FieldLoop(fields, d[Home(fields, i) := s], seen + {i}, rest + t)
  {
    var tag := FieldTag(fields[i]);
    KnownFieldStep(fields, i, d, seen, WireTypeOf(fields[i]), body, rest + t, s);
    hide FieldLoop, WellFormed, Typed, TypedSlot, DecSlot, TagBytes, Home;
    assert tag + body + rest + t == tag + body + (rest + t);
  }

  lemma HoldsMore(f: Field, items: seq<Item>, n: nat, before: Slot, after: Slot)
    requires f.htype.Repeated? && TypedItems(f, items) && n < |items| && n < |before.items|
    requires Holds(f, items[..n], before)
    requires after.size == n + 1 && |after.items| == |before.items| && after.items[..n] == before.items[..n]
    requires RestoredItem(f, items[n], after.items[n])
    ensures Holds(f, items[..n + 1], after)
  {
    hide RestoredItem;
    forall k: nat | k < n + 1
      ensures RestoredItem(f, items[..n + 1][k], after.items[k])
    {
      if k < n {
        assert items[..n][k] == items[k];
        assert after.items[..n][k] == after.items[k] && before.items[..n][k] == before.items[k];
      }
    }
  }

  /** The slot of a field that is not a oneof member, decoded into a fresh slot. */
  lemma PlainSlotRoundTrip(fields: seq<Field>, i: nat, s: Slot, d: seq<Slot>, seen: set<nat>, t: seq<byte>)
    returns (got: Slot, seen': set<nat>)
    requires WellFormed(fields) && Typed(fields, d) && i < |fields| && WellFormedField(fields[i])
    requires !fields[i].htype.Oneof? && ValidSlot(fields[i], s)
    requires TypedSlot(fields[i], d[Home(fields, i)]) && FreshSlot(fields[i], d[Home(fields, i)])
    requires EncSlot(fields[i], s).Success? && SlotLengthsFit(fields[i], s)
    ensures Typed(fields, d[Home(fields, i) := got]) && RestoredSlot(fields[i], s, got)
    ensures seen <= seen' && (fields[i].htype.Required? ==> i in seen')
    ensures FieldLoop(fields, d, seen, EncSlot(fields[i], s).value + t)
         == FieldLoop(fields, d[Home(fields, i) := got], seen', t)
    decreases fields[i], 4
  {
    var f, h := fields[i], Home(fields, i);
    hide WellFormed, WellFormedField, Typed, FieldLoop, Home, IsSuffix, EncItem, ValidItem, DecItem, TypedItem,
         RestoredItem, FreshItem, ZeroItemValue, ItemLengthsFit, LengthFits;
    if !Present(f, s) {
      AbsentIsRestored(f, s, d[h]);
      got, seen' := d[h], seen;
      assert EncSlot(f, s).value + t == t && d[h := got] == d;
    } else if f.htype.Repeated? {
      got, seen' := ArrayRoundTrip(fields, i, s, d, seen, t);
    } else {
      var body := EncItem(f, s.items[0]).value;
      var it := ItemRoundTrip(f, s.items[0], d[h].items[0], t);
      got := d[h].(items := [it]);
      if f.htype.Optional? && f.sizeOffset != 0 { got := got.(size := 1); }
      assert DecSlot(f, d[h], WireTypeOf(f), body + t) == Ok(got, t);
      seen' := seen + {i};
      KnownFieldStep(fields, i, d, seen, WireTypeOf(f), body, t, got);
    }
  }

  lemma ArrayRoundTrip(fields: seq<Field>, i: nat, s: Slot, d: seq<Slot>, seen: set<nat>, t: seq<byte>)
    returns (got: Slot, seen': set<nat>)
    requires WellFormed(fields) && Typed(fields, d) && i < |fields| && WellFormedField(fields[i])
    requires fields[i].htype.Repeated? && ValidSlot(fields[i], s) && s.size > 0
    requires TypedSlot(fields[i], d[Home(fields, i)]) && FreshSlot(fields[i], d[Home(fields, i)])
    requires EncSlot(fields[i], s).Success? && SlotLengthsFit(fields[i], s)
    ensures Typed(fields, d[Home(fields, i) := got]) && RestoredSlot(fields[i], s, got) && seen <= seen'
    ensures FieldLoop(fields, d, seen, EncSlot(fields[i], s).value + t)
         == FieldLoop(fields, d[Home(fields, i) := got], seen', t)
    decreases fields[i], 3, s.size + 1
  {
    var f, h := fields[i], Home(fields, i);
    var items := s.items[..s.size];
    assert EncSlot(f, s) == EncArray(f, s.items, s.size);
    assert ValidItems(f, items) && TypedItems(f, items);
    assert Packable(f) ==> EncArray(f, s.items, s.size) == EncPackedRecord(f, items);
    assert if Packable(f) then LengthFits(EncPacked(f, items)) else ItemsFit(f, items);
    hide ItemsFit, SlotLengthsFit, LengthFits, WellFormed, WellFormedField, Typed, FieldLoop, Home, IsSuffix, EncItem,
         ValidItem, DecItem, TypedItem, EncSlot, EncTagged, EncArray, EncPacked, DecSlot;
    if Packable(f) {
      EncPrefixedParts(f, items);
      got := PackedRecordRoundTrip(f, s, d[h], t);
      seen' := seen + {i};
      var body := EncPrefixed(EncPacked(f, items)).value;
      assert EncSlot(f, s).value == TagBytes(f.tag, WT_STRING) + body;
      KnownFieldStep(fields, i, d, seen, WT_STRING, body, t, got);
    } else {
      assert items[0..] == items;
      got, seen' := TaggedRoundTrip(fields, i, d, seen, items, 0, t);
    }
  }

  lemma EncPrefixedParts(f: Field, items: seq<Item>)
    requires TypedItems(f, items) && EncPackedRecord(f, items).Success?
    ensures EncPrefixed(EncPacked(f, items)).Success?
    ensures EncPackedRecord(f, items).value == TagBytes(f.tag, WT_STRING) + EncPrefixed(EncPacked(f, items)).value
  {
    hide EncPacked, TagBytes, EncPrefixed;
  }

  lemma PackedRecordRoundTrip(f: Field, s: Slot, d: Slot, t: seq<byte>) returns (got: Slot)
    requires WellFormedField(f) && f.htype.Repeated? && Packable(f) && ValidSlot(f, s)
    requires TypedSlot(f, d) && d.size == 0
    requires EncPrefixed(EncPacked(f, s.items[..s.size])).Success?
    requires LengthFits(EncPacked(f, s.items[..s.size]))
    ensures DecSlot(f, d, WT_STRING, EncPrefixed(EncPacked(f, s.items[..s.size])).value + t) == Ok(got, t)
    ensures RestoredSlot(f, s, got)
  {
    var items := s.items[..s.size];
    got := PackedRoundTrip(f, d, items);
    assert got.items[..got.size] == items;
    var data := EncPacked(f, items).value;
    DelimitedOfPrefixed(data, t);
    forall k: nat | k < s.size
      ensures RestoredItem(f, s.items[k], got.items[k])
    {
      assert items[k] == s.items[k] && got.items[..got.size][k] == got.items[k];
    }
    hide WellFormedField, ValidItem, EncPacked, DecPacked, Delimited, Prefixed, RestoredItem, TypedItem;
  }

  /** The slot of the oneof member that the selector names. */
  lemma MemberRoundTrip(fields: seq<Field>, i: nat, s: Slot, d: seq<Slot>, seen: set<nat>, t: seq<byte>)
    returns (got: Slot)
    requires WellFormed(fields) && Typed(fields, d) && i < |fields| && WellFormedField(fields[i])
    requires fields[i].htype.Oneof? && ValidSlot(fields[i], s) && s.size == fields[i].tag
    requires TypedSlot(fields[i], d[Home(fields, i)])
    requires EncSlot(fields[i], s).Success? && SlotLengthsFit(fields[i], s)
    ensures Typed(fields, d[Home(fields, i) := got]) && RestoredSlot(fields[i], s, got)
    ensures FieldLoop(fields, d, seen, EncSlot(fields[i], s).value + t)
         == FieldLoop(fields, d[Home(fields, i) := got], seen + {i}, t)
    decreases fields[i], 4
  {
    var f, h := fields[i], Home(fields, i);
    MemberIsFresh(f);
    hide WellFormed, WellFormedField, Typed, FieldLoop, Home, IsSuffix, EncItem, ValidItem, DecItem, TypedItem,
         RestoredItem, FreshItem, FreshMember, ItemLengthsFit;
    var body := EncItem(f, s.items[0]).value;
    var it := ItemRoundTrip(f, s.items[0], FreshMember(f), t);
    got := Slot(f.tag, [it]);
    assert DecSlot(f, d[h], WireTypeOf(f), body + t) == Ok(got, t);
    KnownFieldStep(fields, i, d, seen, WireTypeOf(f), body, t, got);
  }

  lemma MemberIsFresh(f: Field)
    requires WellFormedField(f)
    ensures f.ltype.Submessage? ==> FreshItem(f, FreshMember(f))
  {
    if f.ltype.Submessage? {
      DefaultsFresh(f.ltype.fields, ZeroStruct(f.ltype.fields));
    }
  }

  // ---- Whole messages ----------------------------------------------------------------------------------

  /** What holds of one field when the fields before `i` have been decoded: a plain field is decoded
      or still fresh; a oneof is unset or has the message's selector, and has it once the member
      was decoded. */
  ghost predicate FieldDecoded(f: Field, done: bool, s: Slot, d: Slot)
    requires TypedSlot(f, s)
  {
    if f.htype.Oneof? then
      && (d.size == 0 || d.size == s.size)
      && (done && s.size == f.tag ==> d.size == s.size && RestoredSlot(f, s, d))
    else if done then RestoredSlot(f, s, d)
    else FreshSlot(f, d)
  }

  ghost predicate Decoded(fields: seq<Field>, m: seq<Slot>, d: seq<Slot>, i: nat)
    requires Typed(fields, m) && |d| == |fields|
  {
    forall j: nat :: j < |fields| ==> FieldDecoded(fields[j], j < i, m[Home(fields, j)], d[Home(fields, j)])
  }

  predicate RequiredSeenBefore(fields: seq<Field>, seen: set<nat>, i: nat) {
    forall j: nat :: j < i && j < |fields| && fields[j].htype.Required? ==> j in seen
  }

  /** Decoding field `i` leaves the other fields as they were, also when they share its storage. */
  lemma FieldDecodedKeepsOthers(fields: seq<Field>, m: seq<Slot>, d: seq<Slot>, i: nat, got: Slot)
    requires UniqueTags(fields) && i < |fields| && Typed(fields, m) && |d| == |fields| && Decoded(fields, m, d, i)
    requires RestoredSlot(fields[i], m[Home(fields, i)], got)
    requires fields[i].htype.Oneof? ==> m[Home(fields, i)].size == fields[i].tag
    ensures Decoded(fields, m, d[Home(fields, i) := got], i + 1)
  {
    var h := Home(fields, i);
    hide RestoredItem, FreshItem;
    forall j: nat | j < |fields|
      ensures FieldDecoded(fields[j], j < i + 1, m[Home(fields, j)], d[h := got][Home(fields, j)])
    {
      assert FieldDecoded(fields[j], j < i, m[Home(fields, j)], d[Home(fields, j)]);
      if j != i && Home(fields, j) == h {
        HomesApart(fields, i, j);
        assert fields[i].tag != fields[j].tag;
      }
    }
  }

  lemma FieldAbsent(fields: seq<Field>, m: seq<Slot>, d: seq<Slot>, i: nat)
    requires i < |fields| && Typed(fields, m) && |d| == |fields| && Decoded(fields, m, d, i)
    requires fields[i].htype.Oneof? && m[Home(fields, i)].size != fields[i].tag
    ensures Decoded(fields, m, d, i + 1)
  {
    hide RestoredSlot, FreshSlot;
    forall j: nat | j < |fields|
      ensures FieldDecoded(fields[j], j < i + 1, m[Home(fields, j)], d[Home(fields, j)])
    {
      assert FieldDecoded(fields[j], j < i, m[Home(fields, j)], d[Home(fields, j)]);
    }
  }

  /** The fields from `i` on, decoded one after the other. */
  lemma {:induction false} FieldsRoundTrip(fields: seq<Field>, m: seq<Slot>, d: seq<Slot>, seen: set<nat>, i: nat)
    returns (got: seq<Slot>, seen': set<nat>)
    requires WellFormed(fields) && Valid(fields, m) && Typed(fields, d) && i <= |fields|
    requires |d| == |fields| && Decoded(fields, m, d, i) && RequiredSeenBefore(fields, seen, i)
    requires EncFrom(fields, m, i).Success? && LengthsFit(fields, m)
    ensures |got| == |fields| && Typed(fields, got)
    ensures Decoded(fields, m, got, |fields|) && RequiredSeenBefore(fields, seen', |fields|)
    ensures FieldLoop(fields, d, seen, EncFrom(fields, m, i).value) == Done(got, seen', [], false)
    decreases fields, |fields| - i
  {
    hide *;
    if i == |fields| {
      got, seen' := d, seen;
      NoneEncoded(fields, m);
      LoopStep(fields, d, seen, []);
    } else {
      FieldFits(fields, m, i);
      var next, seenNext := FieldRoundTrip(fields, m, d, seen, i);
      got, seen' := FieldsRoundTrip(fields, m, next, seenNext, i + 1);
    }
  }

  lemma NoneEncoded(fields: seq<Field>, m: seq<Slot>)
    requires Typed(fields, m)
    ensures EncFrom(fields, m, |fields|) == Success([])
  {}

  lemma FieldFits(fields: seq<Field>, m: seq<Slot>, i: nat)
    requires Typed(fields, m) && LengthsFit(fields, m) && i < |fields|
    ensures FieldLengthsFit(fields, m, i)
  {
    hide FieldLengthsFit;
  }

  /** Field `i`, decoded in front of the fields after it. */
  lemma FieldRoundTrip(fields: seq<Field>, m: seq<Slot>, d: seq<Slot>, seen: set<nat>, i: nat)
    returns (next: seq<Slot>, seen': set<nat>)
    requires WellFormed(fields) && Valid(fields, m) && Typed(fields, d) && i < |fields|
    requires |d| == |fields| && Decoded(fields, m, d, i) && RequiredSeenBefore(fields, seen, i)
    requires EncFrom(fields, m, i).Success? && FieldLengthsFit(fields, m, i)
    ensures |next| == |fields| && Typed(fields, next)
    ensures Decoded(fields, m, next, i + 1) && RequiredSeenBefore(fields, seen', i + 1)
    ensures EncFrom(fields, m, i + 1).Success?
    ensures FieldLoop(fields, d, seen, EncFrom(fields, m, i).value)
         == FieldLoop(fields, next, seen', EncFrom(fields, m, i + 1).value)
    decreases fields, |fields| - i, 0
  {
    var f, h := fields[i], Home(fields, i);
    EncFromStep(fields, m, i);
    var t := EncFrom(fields, m, i + 1).value;
    assert UniqueTags(fields) && WellFormedField(f) && ValidSlot(f, m[h]) && TypedSlot(f, d[h]);
    assert FieldDecoded(f, false, m[h], d[h]);
    var absent := f.htype.Oneof? && m[h].size != f.tag;
    assert absent ==> EncSlot(f, m[h]) == Success([]);
    hide WellFormed, WellFormedField, Typed, Valid, EncFrom, FieldLoop, Decoded, EncSlot, TypedSlot, ValidSlot, Home,
         UniqueTags, RestoredSlot, FreshSlot, SlotLengthsFit;
    if absent {
      FieldAbsent(fields, m, d, i);
      next, seen' := d, seen;
      assert EncFrom(fields, m, i).value == [] + t == t;
    } else {
      var got: Slot;
      if f.htype.Oneof? {
        got := MemberRoundTrip(fields, i, m[h], d, seen, t);
        seen' := seen + {i};
      } else {
        got, seen' := PlainSlotRoundTrip(fields, i, m[h], d, seen, t);
      }
      FieldDecodedKeepsOthers(fields, m, d, i, got);
      next := d[h := got];
    }
  }

  lemma FreshIsUndecoded(fields: seq<Field>, m: seq<Slot>, d: seq<Slot>)
    requires Typed(fields, m) && Fresh(fields, d)
    ensures |d| == |fields| && Decoded(fields, m, d, 0)
  {
    hide RestoredSlot;
    forall j: nat | j < |fields|
      ensures FieldDecoded(fields[j], j < 0, m[Home(fields, j)], d[Home(fields, j)])
    {
      assert FreshSlot(fields[j], d[Home(fields, j)]);
    }
  }

  /** When all fields have been decoded the message is the same. */
  lemma DecodedIsRestored(fields: seq<Field>, m: seq<Slot>, d: seq<Slot>)
    requires Valid(fields, m) && Typed(fields, d)
    requires |d| == |fields| && Decoded(fields, m, d, |fields|)
    ensures Restored(fields, m, d)
  {
    hide RestoredItem, ValidItem, TypedItem;
    forall j: nat | j < |fields|
      ensures RestoredSlot(fields[j], m[Home(fields, j)], d[Home(fields, j)])
    {
      var h := Home(fields, j);
      assert FieldDecoded(fields[j], true, m[h], d[h]);
      assert ValidSlot(fields[j], m[h]) && TypedSlot(fields[j], d[h]) && TypedSlot(fields[j], m[h]);
      if fields[j].htype.Oneof? && m[h].size != 0 {
        assert SelectorNames(fields, h, m[h].size);
        var k: nat :| k < |fields| && Home(fields, k) == h && fields[k].htype.Oneof? && fields[k].tag == m[h].size;
        assert FieldDecoded(fields[k], true, m[h], d[h]);
      }
    }
  }

  /** The bytes of a valid message are whole fields: decoded into a fresh struct they give the
      message, with every required field, and no zero tag among them. */
  lemma EncodedIsWhole(fields: seq<Field>, m: seq<Slot>, d: seq<Slot>)
    requires WellFormed(fields) && Valid(fields, m) && Typed(fields, d) && Fresh(fields, d)
    requires Encode(fields, m).Success? && LengthsFit(fields, m)
    ensures var loop := FieldLoop(fields, d, {}, Encode(fields, m).value);
            && loop.Done? && !loop.stopped && loop.rest == []
            && RequiredSeen(fields, loop.seen) && Restored(fields, m, loop.m)
    decreases fields, |fields| + 1
  {
    FreshIsUndecoded(fields, m, d);
    assert |m| == |fields|;
    var got, seen := FieldsRoundTrip(fields, m, d, {}, 0);
    DecodedIsRestored(fields, m, got);
    assert RequiredSeen(fields, seen);
    hide WellFormed, Typed, Valid, EncFrom, FieldLoop, Decoded, Restored, Fresh, RequiredSeen, LengthsFit;
  }

  /** What the encoder writes for a valid message, decoded into a fresh struct, is that message. */
  lemma FreshRoundTrip(fields: seq<Field>, m: seq<Slot>, d: seq<Slot>) returns (got: seq<Slot>)
    requires WellFormed(fields) && Valid(fields, m) && Typed(fields, d) && Fresh(fields, d)
    requires Encode(fields, m).Success? && LengthsFit(fields, m)
    ensures DecodeNoInit(fields, d, Encode(fields, m).value) == Ok(got, []) && Restored(fields, m, got)
    decreases fields, |fields| + 2
  {
    hide WellFormed, Typed, Valid, Encode, FieldLoop, Restored, Fresh, RequiredSeen, LengthsFit;
    EncodedIsWhole(fields, m, d);
    got := FieldLoop(fields, d, {}, Encode(fields, m).value).m;
  }
}
