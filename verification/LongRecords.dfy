/** Records that are too long for the decoder's 32-bit lengths are refused. */
module LongRecords {
  import opened Basics
  import opened Bits
  import opened Wire
  import opened Descriptor
  import opened Message
  import opened Encoding
  import opened Decoding
  import opened Validity
  import opened Restoring

  /** A length of 2^32 or more is refused. */
  lemma LongRecordRefused(data: seq<byte>, t: seq<byte>)
    requires TWO_32 <= |data| < TWO_63
    ensures Delimited(Prefixed(data) + t).Err?
  {
    assert Prefixed(data) + t == VarintBytes(|data|) + (data + t);
    hide Varint32, VarintBytes, Prefixed;
    FastVarintAccepts(|data|, data + t);
  }

  lemma LongItemRefused(f: Field, it: Item, was: Item, t: seq<byte>)
    requires WellFormedField(f) && ValidItem(f, it) && TypedItem(f, was) && !ItemLengthsFit(f, it)
    requires f.htype.Repeated? || FreshItem(f, was)
    requires EncItem(f, it).Success? && |EncItem(f, it).value| < TWO_63
    ensures DecItem(f, was, EncItem(f, it).value + t).Err?
    decreases f, 0
  {
    var sub := f.ltype.fields;
    var bytes := Encode(sub, it.slots).value;
    assert EncItem(f, it) == Success(Prefixed(bytes));
    var start := if f.htype.Repeated? then Defaults(sub, was.slots) else was.slots;
    if f.htype.Repeated? { DefaultsFresh(sub, was.slots); }
    var long := TWO_32 <= |bytes|;
    assert long || !LengthsFit(sub, it.slots);
    hide LengthsFit, Encode, Defaults, DecodeNoInit, Delimited, Prefixed, Fresh, Valid, WellFormed, Typed, Restored;
    PrefixedShorter(bytes);
    if long {
      LongRecordRefused(bytes, t);
    } else {
      DelimitedOfPrefixed(bytes, t);
      LongMessageRefused(sub, it.slots, start);
    }
  }

  /** A round of the field loop that finds field `i` and cannot decode it. */
  lemma KnownFieldFails(fields: seq<Field>, i: nat, d: seq<Slot>, seen: set<nat>, wireType: nat, body: seq<byte>,
                        t: seq<byte>)
    requires WellFormed(fields) && Typed(fields, d) && i < |fields| && wireType < 8
    requires WellFormedField(fields[i]) && TypedSlot(fields[i], d[Home(fields, i)])
    requires DecSlot(fields[i], d[Home(fields, i)], wireType, body + t).Err?
    ensures FieldLoop(fields, d, seen, TagBytes(fields[i].tag, wireType) + body + t).Failed?
  {
    hide *;
    HomeInRange(fields, d, i);
    TagInRange(fields[i]);
    TagInFront(fields[i].tag, wireType, body, t);
    KnownField(fields, i, d, seen, wireType, body + t);
    RoundOfTag(fields, d, seen, TagBytes(fields[i].tag, wireType) + body + t);
  }

  /** Entry `n` of an unpacked array is too long. */
  lemma LongEntryHere(fields: seq<Field>, i: nat, d: seq<Slot>, seen: set<nat>, items: seq<Item>, n: nat, t: seq<byte>)
    requires WellFormed(fields) && Typed(fields, d) && i < |fields| && WellFormedField(fields[i])
    requires fields[i].htype.Repeated? && !Packable(fields[i]) && TypedSlot(fields[i], d[Home(fields, i)])
    requires TypedItems(fields[i], items) && ValidItems(fields[i], items) && n < |items| <= fields[i].arraySize
    requires d[Home(fields, i)].size == n && !ItemLengthsFit(fields[i], items[n])
    requires EncTagged(fields[i], items[n..]).Success? && |EncTagged(fields[i], items[n..]).value| < TWO_63
    ensures FieldLoop(fields, d, seen, EncTagged(fields[i], items[n..]).value + t).Failed?
    decreases fields[i], 2, 0
  {
    var f, s := fields[i], d[Home(fields, i)];
    TaggedSplit(f, items, n);
    var body, rest := EncItem(f, items[n]).value, EncTagged(f, items[n + 1..]).value;
    assert ValidItem(f, items[n]) && TypedItem(f, s.items[n]);
    hide *;
    LongItemRefused(f, items[n], s.items[n], rest + t);
    EntryFails(fields, i, d, seen, body, rest, t);
  }

  lemma {:induction false} LongEntryRefused(fields: seq<Field>, i: nat, d: seq<Slot>, seen: set<nat>, items: seq<Item>,
                                            n: nat, t: seq<byte>)
    requires WellFormed(fields) && Typed(fields, d) && i < |fields| && WellFormedField(fields[i])
    requires fields[i].htype.Repeated? && !Packable(fields[i]) && TypedSlot(fields[i], d[Home(fields, i)])
    requires TypedItems(fields[i], items) && ValidItems(fields[i], items) && n <= |items| <= fields[i].arraySize
    requires Holds(fields[i], items[..n], d[Home(fields, i)]) && !ItemsFit(fields[i], items[n..])
    requires EncTagged(fields[i], items[n..]).Success? && |EncTagged(fields[i], items[n..]).value| < TWO_63
    ensures FieldLoop(fields, d, seen, EncTagged(fields[i], items[n..]).value + t).Failed?
    decreases fields[i], 3, |items| - n
  {
    var f, h := fields[i], Home(fields, i);
    LaterMisfit(f, items, n);
    assert h < |d| && d[h].size == n && TypedItem(f, items[n]);
    hide *;
    if ItemLengthsFit(f, items[n]) {
      var s, body := TaggedItemRoundTrip(f, items, n, d[h], t);
      var rest := EncTagged(f, items[n + 1..]).value;
      assert |rest| < TWO_63;
      TaggedStep(fields, i, d, seen, body, rest, t, s);
      LongEntryRefused(fields, i, d[h := s], seen + {i}, items, n + 1, t);
    } else {
      LongEntryHere(fields, i, d, seen, items, n, t);
    }
  }

  lemma EntryFails(fields: seq<Field>, i: nat, d: seq<Slot>, seen: set<nat>, body: seq<byte>, rest: seq<byte>,
                   t: seq<byte>)
    requires WellFormed(fields) && Typed(fields, d) && i < |fields| && WellFormedField(fields[i])
    requires fields[i].htype.Repeated? && !Packable(fields[i]) && TypedSlot(fields[i], d[Home(fields, i)])
    requires d[Home(fields, i)].size < fields[i].arraySize
    requires DecItem(fields[i], d[Home(fields, i)].items[d[Home(fields, i)].size], body + (rest + t)).Err?
    ensures FieldLoop(fields, d, seen, FieldTag(fields[i]) + body + rest + t).Failed?
  {
    var f, tag := fields[i], FieldTag(fields[i]);
    assert DecSlot(f, d[Home(fields, i)], WireTypeOf(f), body + (rest + t)).Err?;
    KnownFieldFails(fields, i, d, seen, WireTypeOf(f), body, rest + t);
    hide FieldLoop, WellFormed, Typed, TypedSlot, DecSlot, TagBytes, Home;
    assert tag + body + rest + t == tag + body + (rest + t);
  }

  lemma LaterMisfit(f: Field, items: seq<Item>, n: nat)
    requires TypedItems(f, items) && n <= |items| && !ItemsFit(f, items[n..])
    ensures n < |items| && (ItemLengthsFit(f, items[n]) ==> !ItemsFit(f, items[n + 1..]))
  {
    hide ItemLengthsFit, TypedItem;
    var rest := items[n..];
    var k: nat :| k < |rest| && !ItemLengthsFit(f, rest[k]);
    if k > 0 {
      assert items[n + 1..][k - 1] == rest[k];
    }
  }

  lemma LongSlotRefused(fields: seq<Field>, i: nat, s: Slot, d: seq<Slot>, seen: set<nat>, t: seq<byte>)
    requires WellFormed(fields) && Typed(fields, d) && i < |fields| && WellFormedField(fields[i])
    requires ValidSlot(fields[i], s) && TypedSlot(fields[i], d[Home(fields, i)])
    requires fields[i].htype.Oneof? || FreshSlot(fields[i], d[Home(fields, i)])
    requires !SlotLengthsFit(fields[i], s)
    requires EncSlot(fields[i], s).Success? && |EncSlot(fields[i], s).value| < TWO_63
    ensures FieldLoop(fields, d, seen, EncSlot(fields[i], s).value + t).Failed?
    decreases fields[i], 4
  {
    var f, h := fields[i], Home(fields, i);
    if f.htype.Repeated? {
      LongArrayRefused(fields, i, s, d, seen, t);
    } else {
      MemberIsFresh(f);
      var body := EncItem(f, s.items[0]).value;
      assert EncSlot(f, s).value == FieldTag(f) + body;
      var was := if f.htype.Oneof? then FreshMember(f) else d[h].items[0];
      hide WellFormed, WellFormedField, Typed, FieldLoop, Home, IsSuffix, EncItem, ValidItem, DecItem, TypedItem,
           RestoredItem, FreshMember, ItemLengthsFit, ZeroItemValue, LengthFits;
      LongItemRefused(f, s.items[0], was, t);
      assert DecSlot(f, d[h], WireTypeOf(f), body + t).Err?;
      KnownFieldFails(fields, i, d, seen, WireTypeOf(f), body, t);
    }
  }

  lemma LongArrayRefused(fields: seq<Field>, i: nat, s: Slot, d: seq<Slot>, seen: set<nat>, t: seq<byte>)
    requires WellFormed(fields) && Typed(fields, d) && i < |fields| && WellFormedField(fields[i])
    requires fields[i].htype.Repeated? && ValidSlot(fields[i], s) && TypedSlot(fields[i], d[Home(fields, i)])
    requires FreshSlot(fields[i], d[Home(fields, i)]) && !SlotLengthsFit(fields[i], s)
    requires EncSlot(fields[i], s).Success? && |EncSlot(fields[i], s).value| < TWO_63
    ensures FieldLoop(fields, d, seen, EncSlot(fields[i], s).value + t).Failed?
    decreases fields[i], 3, s.size + 1
  {
    var f, h := fields[i], Home(fields, i);
    var items := s.items[..s.size];
    assert EncSlot(f, s) == EncArray(f, s.items, s.size);
    assert ValidItems(f, items) && TypedItems(f, items);
    assert Packable(f) ==> EncArray(f, s.items, s.size) == EncPackedRecord(f, items);
    assert if Packable(f) then !LengthFits(EncPacked(f, items)) else !ItemsFit(f, items) by {
      if !Packable(f) {
        var k: nat :| k < s.size && !ItemLengthsFit(f, s.items[k]);
        assert items[k] == s.items[k];
      }
    }
    hide ItemsFit, SlotLengthsFit, WellFormed, WellFormedField, Typed, FieldLoop, Home, IsSuffix, EncItem, ValidItem,
         DecItem, TypedItem, EncSlot, EncTagged, EncArray, EncPacked;
    if Packable(f) {
      EncPrefixedParts(f, items);
      var data := EncPacked(f, items).value;
      assert EncSlot(f, s).value == TagBytes(f.tag, WT_STRING) + Prefixed(data);
      PrefixedShorter(data);
      LongRecordRefused(data, t);
      assert DecSlot(f, d[h], WT_STRING, Prefixed(data) + t).Err?;
      KnownFieldFails(fields, i, d, seen, WT_STRING, Prefixed(data), t);
    } else {
      assert items[0..] == items;
      LongEntryRefused(fields, i, d, seen, items, 0, t);
    }
  }

  lemma FieldThenRest(fields: seq<Field>, m: seq<Slot>, i: nat)
    requires Typed(fields, m) && i < |fields| && EncFrom(fields, m, i).Success?
    ensures TypedSlot(fields[i], m[Home(fields, i)]) && EncSlot(fields[i], m[Home(fields, i)]).Success?
    ensures EncFrom(fields, m, i + 1).Success?
    ensures EncFrom(fields, m, i).value
         == EncSlot(fields[i], m[Home(fields, i)]).value + EncFrom(fields, m, i + 1).value
  {
    EncFromStep(fields, m, i);
    hide EncSlot, TypedSlot;
  }

  lemma RestShorter(fields: seq<Field>, m: seq<Slot>, i: nat)
    requires Typed(fields, m) && i < |fields| && EncFrom(fields, m, i).Success?
    ensures EncFrom(fields, m, i + 1).Success?
    ensures |EncFrom(fields, m, i + 1).value| <= |EncFrom(fields, m, i).value|
  {
    hide EncFrom, EncSlot, TypedSlot, Typed;
    FieldThenRest(fields, m, i);
  }

  /** Field `i` is too long. */
  lemma LongFieldHere(fields: seq<Field>, m: seq<Slot>, d: seq<Slot>, seen: set<nat>, i: nat)
    requires WellFormed(fields) && Valid(fields, m) && Typed(fields, d) && i < |fields|
    requires |d| == |fields| && Decoded(fields, m, d, i)
    requires !FieldLengthsFit(fields, m, i)
    requires EncFrom(fields, m, i).Success? && |EncFrom(fields, m, i).value| < TWO_63
    ensures FieldLoop(fields, d, seen, EncFrom(fields, m, i).value).Failed?
    decreases fields, |fields| - i, 0
  {
    var f, h := fields[i], Home(fields, i);
    FieldThenRest(fields, m, i);
    assert WellFormedField(f) && ValidSlot(f, m[h]) && TypedSlot(f, d[h]);
    assert FieldDecoded(f, false, m[h], d[h]);
    assert f.htype.Oneof? || FreshSlot(f, d[h]);
    hide *;
    LongSlotRefused(fields, i, m[h], d, seen, EncFrom(fields, m, i + 1).value);
  }

  lemma {:induction false} LongFieldRefused(fields: seq<Field>, m: seq<Slot>, d: seq<Slot>, seen: set<nat>, i: nat,
                                            j: nat)
    requires WellFormed(fields) && Valid(fields, m) && Typed(fields, d) && i <= j < |fields|
    requires |d| == |fields| && Decoded(fields, m, d, i) && RequiredSeenBefore(fields, seen, i)
    requires !FieldLengthsFit(fields, m, j)
    requires EncFrom(fields, m, i).Success? && |EncFrom(fields, m, i).value| < TWO_63
    ensures FieldLoop(fields, d, seen, EncFrom(fields, m, i).value).Failed?
    decreases fields, |fields| - i, 1
  {
    hide *;
    if FieldLengthsFit(fields, m, i) {
      RestShorter(fields, m, i);
      var next, seen' := FieldRoundTrip(fields, m, d, seen, i);
      LongFieldRefused(fields, m, next, seen', i + 1, j);
    } else {
      LongFieldHere(fields, m, d, seen, i);
    }
  }

  lemma LongMessageRefused(fields: seq<Field>, m: seq<Slot>, d: seq<Slot>)
    requires WellFormed(fields) && Valid(fields, m) && Typed(fields, d) && Fresh(fields, d)
    requires !LengthsFit(fields, m) && Encode(fields, m).Success? && |Encode(fields, m).value| < TWO_63
    ensures DecodeNoInit(fields, d, Encode(fields, m).value).Err?
    decreases fields, |fields| + 1
  {
    FreshIsUndecoded(fields, m, d);
    assert |m| == |fields|;
    var j: nat :| j < |fields| && !FieldLengthsFit(fields, m, j);
    assert Encode(fields, m) == EncFrom(fields, m, 0);
    hide WellFormed, Typed, Valid, EncFrom, FieldLoop, Decoded, Fresh, FieldLengthsFit, Home;
    LongFieldRefused(fields, m, d, {}, 0, j);
  }
}
