/** Whatever the bytes, what pb_decode accepts stays within the struct: byte strings and strings with their
    terminator fit their buffers, counts their arrays, and selectors name a member. */
module Containment {
  import opened Basics
  import opened Bits
  import opened Wire
  import opened Descriptor
  import opened Message
  import opened Encoding
  import opened Decoding
  import opened Validity
  import opened Scalars

  // ---- Structs within their bounds -----------------------------------------------------------------

  /** A value within its field: a bool is 0 or 1, a byte string with its 4-byte size and a string with its
      terminator fit the field's buffer. */
  predicate ContainedItem(f: Field, it: Item)
    decreases f, 0
  {
    && TypedItem(f, it)
    && match f.ltype
       case Bool => it.n <= 1
       case Bytes => |it.data| + 4 <= f.dataSize
       case Str => |it.data| + 1 <= f.dataSize
       case FixedLengthBytes => |it.data| == f.dataSize
       case Submessage(sub) => Contained(sub, it.slots)
       case _ => true
  }

  predicate ContainedSlot(f: Field, s: Slot)
    decreases f, 1
  {
    && TypedSlot(f, s)
    && match f.htype
       case Required => ContainedItem(f, s.items[0])
       case Optional => (f.sizeOffset != 0 ==> s.size <= 1) && ContainedItem(f, s.items[0])
       case Repeated => s.size <= f.arraySize && forall k: nat :: k < s.size ==> ContainedItem(f, s.items[k])
       case Oneof => s.size == f.tag ==> ContainedItem(f, s.items[0])
  }

  predicate Contained(fields: seq<Field>, m: seq<Slot>): (contained: bool)
    ensures contained ==> Typed(fields, m)
    decreases fields
  {
    && Typed(fields, m)
    && forall i: nat :: i < |fields| ==>
         && ContainedSlot(fields[i], m[Home(fields, i)])
         && (fields[i].htype.Oneof? ==> SelectorNames(fields, Home(fields, i), m[Home(fields, i)].size))
  }

  /** The default values in the table, at every depth, are within their fields. */
  predicate DefaultFits(f: Field)
    decreases f, 0
  {
    match f.ltype
    case Submessage(sub) => DefaultsFit(sub)
    case _ => ContainedItem(f, if f.default.Some? then f.default.value else ZeroItem(f))
  }

  predicate DefaultsFit(fields: seq<Field>)
    decreases fields
  {
    forall i: nat :: i < |fields| ==> DefaultFits(fields[i])
  }

  // ---- Defaults --------------------------------------------------------------------------------------

  lemma DefaultItemContained(f: Field, was: Item)
    requires WellFormedField(f) && TypedItem(f, was) && DefaultFits(f)
    ensures ContainedItem(f, DefaultItem(f, was))
    decreases f, 0
  {
    if f.ltype.Submessage? {
      hide WellFormed, DefaultsFit, Contained, Typed;
      DefaultsContained(f.ltype.fields, was.slots);
    }
  }

  lemma DefaultSlotContained(f: Field, s: Slot)
    requires WellFormedField(f) && TypedSlot(f, s) && DefaultFits(f)
    ensures ContainedSlot(f, DefaultSlot(f, s))
    decreases f, 1
  {
    assert f.tag != 0;
    hide WellFormedField, DefaultFits, ContainedItem, TypedItem, DefaultItem;
    if f.htype.Required? || f.htype.Optional? {
      DefaultItemContained(f, s.items[0]);
    }
  }

  lemma {:induction false} DefaultsContained(fields: seq<Field>, m: seq<Slot>)
    requires WellFormed(fields) && Typed(fields, m) && DefaultsFit(fields)
    ensures Contained(fields, Defaults(fields, m))
    decreases fields
  {
    var d := Defaults(fields, m);
    forall i: nat | i < |fields|
      ensures ContainedSlot(fields[i], d[Home(fields, i)])
      ensures fields[i].htype.Oneof? ==> SelectorNames(fields, Home(fields, i), d[Home(fields, i)].size)
    {
      HomeKind(fields, i);
      var h := Home(fields, i);
      assert WellFormedField(fields[h]) && TypedSlot(fields[h], m[h]) && TypedSlot(fields[i], m[h]);
      assert d[h] == DefaultSlot(fields[h], m[h]) && TypedSlot(fields[i], d[h]);
      assert WellFormedField(fields[i]) && DefaultFits(fields[i]);
      if fields[i].htype.Oneof? {
        hide DefaultFits, TypedItem, ContainedItem, WellFormed, DefaultsFit;
        assert d[h].size == 0;
      } else {
        DefaultSlotContained(fields[i], m[i]);
      }
    }
  }

  // ---- Items and fields ------------------------------------------------------------------------------

  /** A byte string that is accepted fits its field. */
  lemma BlobFits(f: Field, bs: seq<byte>)
    requires f.ltype.Bytes? || f.ltype.Str? || f.ltype.FixedLengthBytes?
    requires DecBlob(f, bs).Ok?
    ensures ContainedItem(f, DecBlob(f, bs).value)
  {
    hide Varint32;
  }

  /** A record in front of other bytes is accepted as a byte string exactly when it fits: with its size
      field, with its terminator, or, for fixed lengths, with all or none of its bytes. */
  lemma BlobAcceptedExactly(f: Field, data: seq<byte>, t: seq<byte>)
    requires f.ltype.Bytes? || f.ltype.Str? || f.ltype.FixedLengthBytes?
    requires |data| < TWO_32 && f.dataSize < TWO_32
    ensures DecBlob(f, Prefixed(data) + t).Ok? <==>
              match f.ltype
              case Bytes => |data| + 4 <= f.dataSize
              case Str => |data| + 1 <= f.dataSize
              case _ => |data| == f.dataSize || data == []
  {
    hide *;
    LengthRead(data, t);
    BlobDecided(f, Prefixed(data) + t);
    SizeAccepted(f, |data|);
  }

  lemma LengthRead(data: seq<byte>, t: seq<byte>)
    requires |data| < TWO_32
    ensures Varint32(Prefixed(data) + t) == Ok(|data|, data + t)
  {
    assert Prefixed(data) + t == VarintBytes(|data|) + (data + t);
    hide Varint32, VarintBytes, Prefixed;
    Varint32RoundTrip(|data|, data + t);
  }

  lemma BlobDecided(f: Field, bs: seq<byte>)
    requires f.ltype.Bytes? || f.ltype.Str? || f.ltype.FixedLengthBytes?
    requires Varint32(bs).Ok? && Varint32(bs).value <= |Varint32(bs).rest|
    ensures DecBlob(f, bs).Ok? <==> BlobSize(f, Varint32(bs).value).Success?
  {
    hide Varint32, BlobSize, IsSuffix;
  }

  lemma SizeAccepted(f: Field, size: nat)
    requires f.ltype.Bytes? || f.ltype.Str? || f.ltype.FixedLengthBytes?
    requires size < TWO_32 && f.dataSize < TWO_32
    ensures BlobSize(f, size).Success? <==>
              match f.ltype
              case Bytes => size + 4 <= f.dataSize
              case Str => size + 1 <= f.dataSize
              case _ => size == f.dataSize || size == 0
  {}

  lemma DecItemContained(f: Field, was: Item, bs: seq<byte>)
    requires WellFormedField(f) && TypedItem(f, was) && DefaultFits(f) && DecItem(f, was, bs).Ok?
    requires f.ltype.Submessage? && !f.htype.Repeated? ==> ContainedItem(f, was)
    ensures ContainedItem(f, DecItem(f, was, bs).value)
    decreases f, 0
  {
    if f.ltype.Submessage? {
      var sub := f.ltype.fields;
      hide WellFormed, DefaultsFit, Contained, Typed, DecodeNoInit, Delimited, Defaults;
      if f.htype.Repeated? { DefaultsContained(sub, was.slots); }
      var start := if f.htype.Repeated? then Defaults(sub, was.slots) else was.slots;
      MessageContained(sub, start, Delimited(bs).value);
    } else if f.ltype.Bytes? || f.ltype.Str? || f.ltype.FixedLengthBytes? {
      BlobFits(f, bs);
      hide DecBlob, ContainedItem;
    } else {
      hide DecVarint, Varint32, FromLittleEndian;
    }
  }

  lemma {:induction false} PackedContained(f: Field, s: Slot, bs: seq<byte>)
    requires WellFormedField(f) && f.htype.Repeated? && Packable(f) && ContainedSlot(f, s) && DefaultFits(f)
    requires DecPacked(f, s, bs).Success?
    ensures ContainedSlot(f, DecPacked(f, s, bs).value)
    decreases f, 1, |bs|
  {
    hide WellFormedField, DefaultFits, ContainedItem, TypedItem, DecItem, LeftByFailing;
    if bs != [] {
      DecItemContained(f, s.items[s.size], bs);
      var p := DecItem(f, s.items[s.size], bs);
      PackedContained(f, Slot(s.size + 1, s.items[s.size := p.value]), p.rest);
    }
  }

  lemma FreshMemberContained(f: Field)
    requires WellFormedField(f) && DefaultFits(f) && f.ltype.Submessage?
    ensures ContainedItem(f, FreshMember(f))
  {
    hide WellFormed, DefaultsFit, Contained, Typed, Defaults, ZeroStruct;
    DefaultsContained(f.ltype.fields, ZeroStruct(f.ltype.fields));
  }

  lemma SlotContained(f: Field, s: Slot, wireType: nat, bs: seq<byte>)
    requires WellFormedField(f) && ContainedSlot(f, s) && DefaultFits(f) && DecSlot(f, s, wireType, bs).Ok?
    ensures ContainedSlot(f, DecSlot(f, s, wireType, bs).value)
    decreases f, 2
  {
    hide WellFormedField, DefaultFits, ContainedItem, TypedItem, DecItem, DecPacked, Delimited, FreshMember, IsSuffix;
    match f.htype {
      case Required => DecItemContained(f, s.items[0], bs);
      case Optional => DecItemContained(f, s.items[0], bs);
      case Repeated =>
        if wireType == WT_STRING && Packable(f) {
          PackedContained(f, s, Delimited(bs).value);
        } else {
          DecItemContained(f, s.items[s.size], bs);
        }
      case Oneof =>
        if f.ltype.Submessage? { FreshMemberContained(f); }
        DecItemContained(f, FreshMember(f), bs);
    }
  }

  // ---- Messages --------------------------------------------------------------------------------------

  /** Storing a contained value into the slot of one field. */
  lemma StoredContained(fields: seq<Field>, m: seq<Slot>, i: nat, s: Slot)
    requires WellFormed(fields) && Contained(fields, m) && i < |fields| && ContainedSlot(fields[i], s)
    requires fields[i].htype.Oneof? ==> s.size == fields[i].tag
    ensures Contained(fields, m[Home(fields, i) := s])
  {
    var m' := m[Home(fields, i) := s];
    TypedUpdate(fields, m, i, s);
    hide ContainedItem, TypedItem, WellFormedField, Typed, SharedSelectors, TakesRoom;
    forall j: nat | j < |fields|
      ensures ContainedSlot(fields[j], m'[Home(fields, j)])
      ensures fields[j].htype.Oneof? ==> SelectorNames(fields, Home(fields, j), m'[Home(fields, j)].size)
    {
      assert TypedAt(fields, m', j);
      if j != i && Home(fields, j) == Home(fields, i) {
        HomesApart(fields, i, j);
      }
    }
  }

  predicate TypedAt(fields: seq<Field>, m: seq<Slot>, j: nat)
    requires j < |fields|
  {
    Home(fields, j) < |m| && TypedSlot(fields[j], m[Home(fields, j)])
  }

  lemma ContainedAt(fields: seq<Field>, m: seq<Slot>, i: nat)
    requires WellFormed(fields) && Contained(fields, m) && DefaultsFit(fields) && i < |fields|
    ensures WellFormedField(fields[i]) && DefaultFits(fields[i]) && Home(fields, i) < |m|
    ensures ContainedSlot(fields[i], m[Home(fields, i)]) && TypedSlot(fields[i], m[Home(fields, i)])
  {
    hide ContainedSlot, DefaultFits, WellFormedField;
    assert ContainedSlot(fields[i], m[Home(fields, i)]);
  }

  lemma SelectedTag(f: Field, s: Slot, wireType: nat, bs: seq<byte>)
    requires WellFormedField(f) && TypedSlot(f, s) && DecSlot(f, s, wireType, bs).Ok? && f.htype.Oneof?
    ensures DecSlot(f, s, wireType, bs).value.size == f.tag
  {}

  lemma BodyContained(fields: seq<Field>, m: seq<Slot>, seen: set<nat>, tag: nat, wireType: nat, bs: seq<byte>)
    requires WellFormed(fields) && Contained(fields, m) && DefaultsFit(fields)
    requires FieldBody(fields, m, seen, tag, wireType, bs).Next?
    ensures Contained(fields, FieldBody(fields, m, seen, tag, wireType, bs).m)
    decreases fields, 0
  {
    hide *;
    var i := FindField(fields, tag);
    if fields == [] && tag == 0 {
      TerminatorField(m, seen, wireType, bs);
    } else if i == |fields| {
      UnknownField(fields, m, seen, tag, wireType, bs);
    } else {
      ContainedAt(fields, m, i);
      KnownField(fields, i, m, seen, wireType, bs);
      SlotContained(fields[i], m[Home(fields, i)], wireType, bs);
      if fields[i].htype.Oneof? { SelectedTag(fields[i], m[Home(fields, i)], wireType, bs); }
      StoredContained(fields, m, i, DecSlot(fields[i], m[Home(fields, i)], wireType, bs).value);
    }
  }

  lemma StepContained(fields: seq<Field>, m: seq<Slot>, seen: set<nat>, bs: seq<byte>)
    requires WellFormed(fields) && Contained(fields, m) && DefaultsFit(fields)
    requires FieldStep(fields, m, seen, bs).Next?
    ensures Contained(fields, FieldStep(fields, m, seen, bs).m)
    decreases fields, 1
  {
    hide FieldBody, WellFormed, Contained, DefaultsFit, Typed, Varint32;
    var tag := DecodeTag(bs);
    BodyContained(fields, m, seen, tag.tag, tag.wireType, tag.rest);
  }

  lemma {:induction false} LoopContained(fields: seq<Field>, m: seq<Slot>, seen: set<nat>, bs: seq<byte>)
    requires WellFormed(fields) && Contained(fields, m) && DefaultsFit(fields)
    requires FieldLoop(fields, m, seen, bs).Done?
    ensures Contained(fields, FieldLoop(fields, m, seen, bs).m)
    decreases fields, 2, |bs|
  {
    hide *;
    LoopStep(fields, m, seen, bs);
    StepShortens(fields, m, seen, bs);
    if bs != [] {
      var step := FieldStep(fields, m, seen, bs);
      if step.Next? {
        StepContained(fields, m, seen, bs);
        LoopContained(fields, step.m, step.seen, step.rest);
      }
    }
  }

  lemma MessageContained(fields: seq<Field>, m: seq<Slot>, bs: seq<byte>)
    requires WellFormed(fields) && Contained(fields, m) && DefaultsFit(fields) && DecodeNoInit(fields, m, bs).Ok?
    ensures Contained(fields, DecodeNoInit(fields, m, bs).value)
    decreases fields, 3
  {
    hide WellFormed, Contained, DefaultsFit, Typed, FieldLoop, RequiredSeen;
    LoopContained(fields, m, {}, bs);
  }

  /** Whatever the bytes and whatever the struct held before: what pb_decode accepts is within the struct,
      at every depth. */
  lemma DecodedIsContained(fields: seq<Field>, was: seq<Slot>, bs: seq<byte>)
    requires WellFormed(fields) && Typed(fields, was) && DefaultsFit(fields) && Decode(fields, was, bs).Ok?
    ensures Contained(fields, Decode(fields, was, bs).value)
  {
    hide *;
    DecodeDefaults(fields, was, bs);
    DefaultsContained(fields, was);
    MessageContained(fields, Defaults(fields, was), bs);
  }
}
