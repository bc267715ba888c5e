/** Fields that come more than once, and fields that have to come: scalars are replaced, array entries
    appended, submessages merged or, in a oneof, replaced; and a message is complete exactly when the tags of
    its first 64 required fields were read. */
module Merging {
  import opened Basics
  import opened Bits
  import opened Wire
  import opened Descriptor
  import opened Message
  import opened Encoding
  import opened Decoding
  import opened Validity
  import opened Scalars
  import opened Locality

  // ---- Scalars and arrays --------------------------------------------------------------------------

  /** The last one wins: a scalar replaces what its field held, sets its has-flag, or selects it in its
      oneof, whatever was there. */
  lemma LastOneWins(f: Field, s: Slot, it: Item, t: seq<byte>)
    requires WellFormedField(f) && TypedSlot(f, s) && ValidItem(f, it)
    requires !f.ltype.Submessage? && !f.htype.Repeated?
    ensures EncItem(f, it).Success?
    ensures var p := DecSlot(f, s, WireTypeOf(f), EncItem(f, it).value + t);
            && p.Ok? && p.rest == t && p.value.items == [it]
            && (f.htype.Optional? && f.sizeOffset != 0 ==> p.value.size == 1)
            && (f.htype.Oneof? ==> p.value.size == f.tag)
  {
    hide *;
    PlainSlot(f, s);
    var was := if f.htype.Oneof? then FreshMember(f) else s.items[0];
    ScalarItemRoundTrip(f, it, was, t);
    SlotCases(f, s, WireTypeOf(f), EncItem(f, it).value + t);
  }

  lemma PlainSlot(f: Field, s: Slot)
    requires TypedSlot(f, s) && !f.htype.Repeated?
    ensures |s.items| == 1 && (!f.htype.Oneof? ==> TypedItem(f, s.items[0]))
  {}

  /** An entry is appended to those that an array has, which stay as they are; a full array refuses it. */
  lemma EntryAppended(f: Field, s: Slot, it: Item, t: seq<byte>)
    requires WellFormedField(f) && TypedSlot(f, s) && ValidItem(f, it)
    requires !f.ltype.Submessage? && f.htype.Repeated?
    ensures EncItem(f, it).Success?
    ensures var p := DecSlot(f, s, if Packable(f) then WT_VARINT else WT_STRING, EncItem(f, it).value + t);
            if s.size >= f.arraySize then p == Err(ArrayOverflow)
            else p.Ok? && p.rest == t && p.value == Slot(s.size + 1, s.items[s.size := it])
  {
    hide *;
    var wireType := if Packable(f) then WT_VARINT else WT_STRING;
    WireTypesDiffer();
    EntrySlot(f, s, it);
    var was := if s.size < f.arraySize then s.items[s.size] else it;
    ScalarItemRoundTrip(f, it, was, t);
    SlotCases(f, s, wireType, EncItem(f, it).value + t);
  }

  lemma WireTypesDiffer()
    ensures WT_VARINT != WT_STRING
  {}

  lemma EntrySlot(f: Field, s: Slot, it: Item)
    requires TypedSlot(f, s) && f.htype.Repeated? && ValidItem(f, it)
    ensures |s.items| == f.arraySize && TypedItem(f, it)
    ensures s.size < f.arraySize ==> TypedItem(f, s.items[s.size])
  {}

  // ---- Submessages ---------------------------------------------------------------------------------

  /** What comes in more fields leaves a message as complete as it is. */
  lemma SeenMore(fields: seq<Field>, a: set<nat>, b: set<nat>)
    requires RequiredSeen(fields, b)
    ensures RequiredSeen(fields, a + b)
  {}

  /** Two records of a submessage are merged as the one record that has the bytes of both: the embedded
      messages of the Encoding specification. */
  lemma SubmessagesMerge(f: Field, s: Slot, a: seq<byte>, b: seq<byte>, t: seq<byte>)
    requires WellFormedField(f) && TypedSlot(f, s) && f.ltype.Submessage? && (f.htype.Required? || f.htype.Optional?)
    requires |a| + |b| < TWO_32
    requires var first := DecSlot(f, s, WT_STRING, Prefixed(a) + (Prefixed(b) + t));
             && first.Ok? && DecSlot(f, first.value, WT_STRING, first.rest).Ok?
    requires TypedItem(f, s.items[0]) && WholeMessage(f.ltype.fields, s.items[0].slots, a)
    ensures var first := DecSlot(f, s, WT_STRING, Prefixed(a) + (Prefixed(b) + t));
            && first.rest == Prefixed(b) + t
            && DecSlot(f, s, WT_STRING, Prefixed(a + b) + t) == DecSlot(f, first.value, WT_STRING, first.rest)
  {
    hide *;
    RecordSlot(f, s, a, Prefixed(b) + t);
    RecordSlot(f, s, a + b, t);
    var first := DecSlot(f, s, WT_STRING, Prefixed(a) + (Prefixed(b) + t));
    RecordSlot(f, first.value, b, t);
    NoInitMerges(f.ltype.fields, s.items[0].slots, a, b);
  }

  /** The bytes are whole fields, not ended by a zero tag. */
  predicate WholeMessage(fields: seq<Field>, m: seq<Slot>, bs: seq<byte>)
    requires WellFormed(fields) && Typed(fields, m)
  {
    FieldLoop(fields, m, {}, bs).Done? && !FieldLoop(fields, m, {}, bs).stopped
  }

  lemma RecordSlot(f: Field, s: Slot, data: seq<byte>, t: seq<byte>)
    requires WellFormedField(f) && TypedSlot(f, s) && f.ltype.Submessage? && (f.htype.Required? || f.htype.Optional?)
    requires |data| < TWO_32
    ensures WellFormed(f.ltype.fields) && |s.items| == 1 && s.items[0].Msg? && Typed(f.ltype.fields, s.items[0].slots)
    ensures var p := DecodeNoInit(f.ltype.fields, s.items[0].slots, data);
            var q := DecSlot(f, s, WT_STRING, Prefixed(data) + t);
            && (p.Ok? ==>
                  var size := if f.htype.Optional? && f.sizeOffset != 0 then 1 else s.size;
                  q == Ok(Slot(size, [Msg(p.value)]), t))
            && (p.Err? ==> q == Err(p.error))
  {
    DelimitedOfPrefixed(data, t);
    SlotCases(f, s, WT_STRING, Prefixed(data) + t);
    SubmessageItem(f, s.items[0], Prefixed(data) + t);
    hide DecItem, DecSlot, DecodeNoInit, Delimited, Prefixed, WellFormed, Typed, Decode;
  }

  lemma NoInitMerges(fields: seq<Field>, m: seq<Slot>, a: seq<byte>, b: seq<byte>)
    requires WellFormed(fields) && Typed(fields, m) && WholeMessage(fields, m, a)
    requires DecodeNoInit(fields, m, a).Ok? && DecodeNoInit(fields, DecodeNoInit(fields, m, a).value, b).Ok?
    ensures var first := DecodeNoInit(fields, m, a);
            var second := DecodeNoInit(fields, first.value, b);
            DecodeNoInit(fields, m, a + b).Ok? && DecodeNoInit(fields, m, a + b).value == second.value
  {
    DecodeMerges(fields, m, a, b);
    var first := FieldLoop(fields, m, {}, a);
    SeenMore(fields, first.seen, FieldLoop(fields, first.m, {}, b).seen);
    hide FieldLoop, RequiredSeen, WellFormed, Typed;
  }

  /** A member of a oneof replaces what the oneof held, also when that was the same member: a submessage starts
      from its defaults and is not merged. */
  lemma MemberReplaces(f: Field, s: Slot, other: Slot, wireType: nat, bs: seq<byte>)
    requires WellFormedField(f) && f.htype.Oneof? && TypedSlot(f, s) && TypedSlot(f, other)
    ensures DecSlot(f, s, wireType, bs) == DecSlot(f, other, wireType, bs)
  {
    hide *;
    SlotCases(f, s, wireType, bs);
    SlotCases(f, other, wireType, bs);
  }

  // ---- Packed arrays -------------------------------------------------------------------------------

  lemma FixedItem(f: Field, width: nat, was: Item, bs: seq<byte>)
    requires WellFormedField(f) && TypedItem(f, was)
    requires (f.ltype.Fixed32? && width == 4) || (f.ltype.Fixed64? && width == 8)
    ensures |bs| < width ==> DecItem(f, was, bs) == Err(EndOfStream) && LeftByFailing(f, bs) == |bs|
    ensures |bs| >= width ==> DecItem(f, was, bs).Ok? && DecItem(f, was, bs).rest == bs[width..]
  {
    hide FromLittleEndian;
  }

  /** A packed array of fixed-width items is accepted exactly when the record is a whole number of items for
      which there is room, and otherwise overflows. */
  lemma {:induction false} PackedFixedExactly(f: Field, width: nat, s: Slot, bs: seq<byte>)
    requires WellFormedField(f) && f.htype.Repeated? && TypedSlot(f, s)
    requires (f.ltype.Fixed32? && width == 4) || (f.ltype.Fixed64? && width == 8)
    ensures var r := DecPacked(f, s, bs);
            if bs == [] || (|bs| % width == 0 && s.size + |bs| / width <= f.arraySize)
            then r.Success? && r.value.size == s.size + |bs| / width
            else r == Failure(ArrayOverflow)
    decreases |bs|
  {
    hide WellFormedField, TypedItem, DecItem, LeftByFailing, DecPacked;
    PackedStep(f, s, bs);
    if bs != [] && s.size < f.arraySize {
      FixedItem(f, width, s.items[s.size], bs);
      if |bs| >= width {
        var p := DecItem(f, s.items[s.size], bs);
        PackedFixedExactly(f, width, Slot(s.size + 1, s.items[s.size := p.value]), p.rest);
      }
    }
  }

  /** A number that does not fit is reported as such only at the end of the record, and as an overflow of the
      array in front of other items. */
  lemma PackedRefusal(f: Field, s: Slot, bs: seq<byte>)
    requires WellFormedField(f) && f.htype.Repeated? && TypedSlot(f, s) && s.size < f.arraySize
    requires (f.ltype.Varint? || f.ltype.UVarint? || f.ltype.SVarint?) && Varint64(bs).Ok?
    requires FromVarint(f, Varint64(bs).value).Failure?
    ensures DecPacked(f, s, bs)
         == Failure(if Varint64(bs).rest == [] then FromVarint(f, Varint64(bs).value).error else ArrayOverflow)
  {
    PackedStep(f, s, bs);
    hide DecPacked, Varint64, FromVarint, WellFormedField, TypedItem, IsSuffix;
  }

  /** An unfinished varint is the end of the stream. */
  lemma PackedUnfinished(f: Field, s: Slot, bs: seq<byte>)
    requires WellFormedField(f) && f.htype.Repeated? && TypedSlot(f, s) && s.size < f.arraySize
    requires (f.ltype.Varint? || f.ltype.UVarint? || f.ltype.SVarint?)
    requires 0 < |bs| < 10 && forall k: nat :: k < |bs| ==> bs[k] >= 128
    ensures DecPacked(f, s, bs) == Failure(EndOfStream)
  {
    PackedStep(f, s, bs);
    Unfinished(bs, 10);
    hide DecPacked, TakeVarint, FromVarint, WellFormedField, TypedItem, IsSuffix;
  }

  lemma {:induction false} Unfinished(bs: seq<byte>, limit: nat)
    requires |bs| < limit && forall k: nat :: k < |bs| ==> bs[k] >= 128
    ensures TakeVarint(bs, limit) == Err(EndOfStream)
    decreases limit
  {
    if bs != [] {
      assert bs[0] >= 128 && forall k: nat :: k < |bs[1..]| ==> bs[1..][k] == bs[k + 1];
      Unfinished(bs[1..], limit - 1);
    }
  }

  // ---- Required fields -----------------------------------------------------------------------------

  /** The tags that the field loop reads, in order. */
  function TagsRead(fields: seq<Field>, m: seq<Slot>, bs: seq<byte>): seq<nat>
    requires WellFormed(fields) && Typed(fields, m)
    decreases |bs|
  {
    if bs == [] then []
    else
      match FieldStep(fields, m, {}, bs)
      case Next(m', _, rest) => [DecodeTag(bs).tag] + TagsRead(fields, m', rest)
      case _ => []
  }

  lemma StepSees(fields: seq<Field>, m: seq<Slot>, seen: set<nat>, bs: seq<byte>)
    requires WellFormed(fields) && Typed(fields, m) && FieldStep(fields, m, seen, bs).Next?
    ensures FieldStep(fields, m, {}, bs).Next? && FieldStep(fields, m, {}, bs).m == FieldStep(fields, m, seen, bs).m
    ensures FieldStep(fields, m, {}, bs).rest == FieldStep(fields, m, seen, bs).rest && DecodeTag(bs).Tag?
    ensures forall i: nat :: i < |fields| ==>
              (i in FieldStep(fields, m, seen, bs).seen <==> i in seen || fields[i].tag == DecodeTag(bs).tag)
  {
    var tag := DecodeTag(bs).tag;
    forall i: nat | i < |fields|
      ensures FindField(fields, tag) == i <==> fields[i].tag == tag
    {
      FindFieldIs(fields, i);
    }
    hide DecSlot, DecodeTag, SkipField, FindField, Varint32, IsSuffix;
  }

  /** The fields seen are those whose tags were read. */
  lemma {:induction false} SeenAreRead(fields: seq<Field>, m: seq<Slot>, seen: set<nat>, bs: seq<byte>, i: nat)
    requires WellFormed(fields) && Typed(fields, m) && FieldLoop(fields, m, seen, bs).Done? && i < |fields|
    ensures i in FieldLoop(fields, m, seen, bs).seen <==> i in seen || fields[i].tag in TagsRead(fields, m, bs)
    decreases |bs|
  {
    hide *;
    LoopStep(fields, m, seen, bs);
    StepShortens(fields, m, seen, bs);
    TagsStep(fields, m, bs);
    if bs != [] {
      var step := FieldStep(fields, m, seen, bs);
      if step.Next? {
        StepSees(fields, m, seen, bs);
        SeenAreRead(fields, step.m, step.seen, step.rest, i);
      } else {
        StopsAlike(fields, m, seen, bs);
      }
    }
  }

  lemma TagsStep(fields: seq<Field>, m: seq<Slot>, bs: seq<byte>)
    requires WellFormed(fields) && Typed(fields, m)
    ensures bs == [] ==> TagsRead(fields, m, bs) == []
    ensures bs != [] ==>
              var step := FieldStep(fields, m, {}, bs);
              if step.Next? then
                && DecodeTag(bs).Tag?
                && TagsRead(fields, m, bs) == [DecodeTag(bs).tag] + TagsRead(fields, step.m, step.rest)
              else TagsRead(fields, m, bs) == []
  {
    hide FieldBody, WellFormed, Typed, Varint32;
  }

  lemma StopsAlike(fields: seq<Field>, m: seq<Slot>, seen: set<nat>, bs: seq<byte>)
    requires WellFormed(fields) && Typed(fields, m) && !FieldStep(fields, m, seen, bs).Next?
    ensures !FieldStep(fields, m, {}, bs).Next?
  {
    hide DecSlot, DecodeTag, SkipField, FindField, Varint32, IsSuffix;
  }

  /** The required fields in front of field `i`. */
  ghost function RequiredSet(fields: seq<Field>, i: nat): set<nat>
    requires i <= |fields|
  {
    set j: nat | j < i && fields[j].htype.Required?
  }

  lemma RequiredSetStep(fields: seq<Field>, i: nat)
    requires i < |fields|
    ensures RequiredSet(fields, i + 1) == RequiredSet(fields, i) + if fields[i].htype.Required? then {i} else {}
    ensures i !in RequiredSet(fields, i) && RequiredSet(fields, 0) == {}
  {}

  /** Their number is the running index. */
  lemma {:induction false} RequiredBeforeCounts(fields: seq<Field>, i: nat)
    requires i <= |fields|
    ensures RequiredBefore(fields, i) == |RequiredSet(fields, i)|
  {
    hide RequiredSet;
    if i > 0 {
      RequiredBeforeCounts(fields, i - 1);
      RequiredSetStep(fields, i - 1);
      OneMore(RequiredSet(fields, i - 1), if fields[i - 1].htype.Required? then {i - 1} else {});
    } else if fields != [] {
      RequiredSetStep(fields, 0);
    } else {
      NoneRequired();
    }
  }

  lemma NoneRequired()
    ensures RequiredSet([], 0) == {}
  {}

  lemma OneMore(a: set<nat>, b: set<nat>)
    requires a !! b
    ensures |a + b| == |a| + |b|
  {}

  /** Every required field with fewer than 64 required fields in front of it is among the tags. */
  ghost predicate Complete(fields: seq<Field>, tags: seq<nat>) {
    forall i: nat :: i < |fields| && fields[i].htype.Required? && FewBefore(fields, i) ==> fields[i].tag in tags
  }

  ghost predicate FewBefore(fields: seq<Field>, i: nat)
    requires i < |fields|
  {
    |RequiredSet(fields, i)| < 64
  }

  /** Bytes that go through the field loop are a whole message exactly when the tag of every required field
      that has fewer than 64 required fields in front of it was read; otherwise a required field is
      missing. */
  lemma CompleteExactly(fields: seq<Field>, m: seq<Slot>, bs: seq<byte>)
    requires WellFormed(fields) && Typed(fields, m) && FieldLoop(fields, m, {}, bs).Done?
    ensures DecodeNoInit(fields, m, bs) ==
              if Complete(fields, TagsRead(fields, m, bs))
              then Ok(FieldLoop(fields, m, {}, bs).m, FieldLoop(fields, m, {}, bs).rest)
              else Err(MissingRequiredField)
  {
    forall i: nat | i < |fields|
      ensures i in FieldLoop(fields, m, {}, bs).seen <==> fields[i].tag in TagsRead(fields, m, bs)
      ensures RequiredBefore(fields, i) < 64 <==> FewBefore(fields, i)
    {
      SeenAreRead(fields, m, {}, bs, i);
      RequiredBeforeCounts(fields, i);
    }
    hide FieldLoop, TagsRead, WellFormed, Typed, RequiredBefore, FewBefore;
  }
}
