/** Unknown fields are transparent: a field with a tag that is not in the table can stand between
    any two fields, at any nesting depth, without changing what is decoded. */
module UnknownFields {
  import opened Basics
  import opened Bits
  import opened Wire
  import opened Descriptor
  import opened Message
  import opened Encoding
  import opened Decoding
  import opened Locality
  import opened Restoring

  /** The bytes of one field whose tag is not in the table, and that can be skipped. */
  predicate IsUnknown(fields: seq<Field>, u: seq<byte>) {
    var tag := DecodeTag(u);
    && tag.Tag? && tag.tag != 0
    && (forall i: nat :: i < |fields| ==> fields[i].tag != tag.tag)
    && SkipField(tag.wireType, tag.rest).Ok? && SkipField(tag.wireType, tag.rest).rest == []
  }

  // ---- Which fields these are -------------------------------------------------------------------

  lemma {:induction false} SkipVarintOfBytes(v: nat, t: seq<byte>)
    ensures SkipVarint(VarintBytes(v) + t).Ok? && SkipVarint(VarintBytes(v) + t).rest == t
  {
    if v < 128 {
      VarintOneByte(v, t);
    } else {
      VarintSplit(v, t);
      hide VarintBytes, IsSuffix;
      SkipVarintOfBytes(v / 128, t);
    }
  }

  predicate Skipped(wireType: nat, data: seq<byte>) {
    SkipField(wireType, data).Ok? && SkipField(wireType, data).rest == []
  }

  lemma ScalarsSkipped(v: nat, data: seq<byte>)
    ensures Skipped(WT_VARINT, VarintBytes(v))
    ensures |data| == 8 ==> Skipped(WT_64BIT, data)
    ensures |data| == 4 ==> Skipped(WT_32BIT, data)
  {
    SkipVarintOfBytes(v, []);
    assert VarintBytes(v) + [] == VarintBytes(v);
    hide Varint32;
  }

  lemma RecordSkipped(data: seq<byte>)
    requires |data| < TWO_32
    ensures Skipped(WT_STRING, Prefixed(data))
  {
    assert Prefixed(data) == VarintBytes(|data|) + data;
    hide Varint32, VarintBytes, Prefixed, IsSuffix;
    Varint32RoundTrip(|data|, data);
    assert data[|data|..] == [];
  }

  lemma TaggedIsUnknown(fields: seq<Field>, tag: nat, wireType: nat, data: seq<byte>)
    requires 1 <= tag < TWO_32 / 8 && forall i: nat :: i < |fields| ==> fields[i].tag != tag
    requires wireType < 8 && Skipped(wireType, data)
    ensures IsUnknown(fields, TagBytes(tag, wireType) + data)
  {
    hide DecodeTag, TagBytes, SkipField;
    DecodeTagOfBytes(tag, wireType, data);
  }

  /** Every field number below 2^29 that the table does not have makes an unknown field with a
      varint, a 64-bit, a 32-bit or a length-delimited value. */
  lemma WireTypesUnknown(fields: seq<Field>, tag: nat, v: nat, data: seq<byte>)
    requires 1 <= tag < TWO_32 / 8 && forall i: nat :: i < |fields| ==> fields[i].tag != tag
    ensures IsUnknown(fields, TagBytes(tag, WT_VARINT) + VarintBytes(v))
    ensures |data| == 8 ==> IsUnknown(fields, TagBytes(tag, WT_64BIT) + data)
    ensures |data| == 4 ==> IsUnknown(fields, TagBytes(tag, WT_32BIT) + data)
    ensures |data| < TWO_32 ==> IsUnknown(fields, TagBytes(tag, WT_STRING) + Prefixed(data))
  {
    hide IsUnknown, Skipped, TagBytes, VarintBytes, Prefixed;
    ScalarsSkipped(v, data);
    TaggedIsUnknown(fields, tag, WT_VARINT, VarintBytes(v));
    if |data| == 8 { TaggedIsUnknown(fields, tag, WT_64BIT, data); }
    if |data| == 4 { TaggedIsUnknown(fields, tag, WT_32BIT, data); }
    if |data| < TWO_32 {
      RecordSkipped(data);
      TaggedIsUnknown(fields, tag, WT_STRING, Prefixed(data));
    }
  }

  // ---- Between two fields of a message ----------------------------------------------------------

  lemma UnknownStep(fields: seq<Field>, m: seq<Slot>, seen: set<nat>, u: seq<byte>)
    requires WellFormed(fields) && Typed(fields, m) && IsUnknown(fields, u)
    ensures u != [] && FieldStep(fields, m, seen, u) == Next(m, seen, [])
  {
    hide FieldBody, WellFormed, Typed, SkipField, Varint32;
    var tag := DecodeTag(u);
    assert FindField(fields, tag.tag) == |fields|;
    UnknownField(fields, m, seen, tag.tag, tag.wireType, tag.rest);
  }

  /** An unknown field in front of the remaining bytes leaves the struct alone. */
  lemma UnknownFirst(fields: seq<Field>, m: seq<Slot>, seen: set<nat>, u: seq<byte>, b: seq<byte>)
    requires WellFormed(fields) && Typed(fields, m) && IsUnknown(fields, u)
    ensures FieldLoop(fields, m, seen, u + b) == FieldLoop(fields, m, seen, b)
  {
    hide FieldLoop, FieldStep, WellFormed, Typed, IsUnknown;
    UnknownStep(fields, m, seen, u);
    assert u + [] == u;
    StepLocal(fields, m, seen, u, [], b);
    LoopStep(fields, m, seen, u + b);
  }

  // ---- At any nesting depth -------------------------------------------------------------------------

  /** A message with a hole: between the bytes `before` and `after`, or inside the submessage of
      field `index` that stands between them. The tag and the two lengths of the submessage, with the
      hole filled and left empty, are any bytes that decode to them. */
  datatype Context =
    | Here(before: seq<byte>, after: seq<byte>)
    | Inside(before: seq<byte>, tag: seq<byte>, index: nat, length: seq<byte>, shorter: seq<byte>,
             inner: Context, after: seq<byte>)

  /** The message with `u` in the hole. */
  function Fill(ctx: Context, u: seq<byte>): seq<byte>
  {
    match ctx
    case Here(a, b) => a + (u + b)
    case Inside(a, tag, _, length, _, inner, b) => a + (tag + (length + (Fill(inner, u) + b)))
  }

  /** The message with nothing in the hole. */
  function Empty(ctx: Context): seq<byte> {
    match ctx
    case Here(a, b) => a + b
    case Inside(a, tag, _, _, shorter, inner, b) => a + (tag + (shorter + (Empty(inner) + b)))
  }

  /** The path to the hole leads through submessage fields. */
  predicate Fits(fields: seq<Field>, ctx: Context)
    decreases ctx
  {
    match ctx
    case Here(_, _) => true
    case Inside(_, _, i, _, _, inner, _) =>
      i < |fields| && fields[i].ltype.Submessage? && Fits(fields[i].ltype.fields, inner)
  }

  /** The bytes are a length that the decoder reads as `n`. */
  predicate IsLength(length: seq<byte>, n: nat) {
    Varint32(length) == Ok(n, [])
  }

  /** The enclosing tags and lengths are those of the submessages that they enclose. */
  predicate Framed(fields: seq<Field>, ctx: Context, u: seq<byte>)
    requires Fits(fields, ctx)
    decreases ctx
  {
    match ctx
    case Here(_, _) => true
    case Inside(_, tag, i, length, shorter, inner, _) =>
      && DecodeTag(tag).Tag? && DecodeTag(tag).tag == fields[i].tag && DecodeTag(tag).rest == []
      && IsLength(length, |Fill(inner, u)|) && IsLength(shorter, |Empty(inner)|)
      && Framed(fields[i].ltype.fields, inner, u)
  }

  /** What the encoder writes for tags and for lengths below 2^32 will do. */
  lemma MinimalFrames(tag: nat, n: nat)
    requires 1 <= tag < TWO_32 / 8
    ensures DecodeTag(TagBytes(tag, WT_STRING)) == Tag(tag, WT_STRING, [])
    ensures n < TWO_32 ==> IsLength(VarintBytes(n), n)
  {
    DecodeTagOfBytes(tag, WT_STRING, []);
    assert TagBytes(tag, WT_STRING) + [] == TagBytes(tag, WT_STRING) && VarintBytes(n) + [] == VarintBytes(n);
    hide TagBytes, VarintBytes, Varint32;
    if n < TWO_32 { Varint32RoundTrip(n, []); }
  }

  /** The table of the message that has the hole. */
  function TableAt(fields: seq<Field>, ctx: Context): seq<Field>
    requires Fits(fields, ctx)
    decreases ctx
  {
    match ctx
    case Here(_, _) => fields
    case Inside(_, _, i, _, _, inner, _) => TableAt(fields[i].ltype.fields, inner)
  }

  /** The submessage struct that field `f` decodes into, when its slot is `s`. */
  function StartOf(f: Field, s: Slot): (m: seq<Slot>)
    requires WellFormedField(f) && f.ltype.Submessage? && TypedSlot(f, s)
    ensures Typed(f.ltype.fields, m)
  {
    match f.htype
    case Oneof => FreshMember(f).slots
    case Repeated =>
      if s.size >= f.arraySize then ZeroStruct(f.ltype.fields)
      else
        assert TypedItem(f, s.items[s.size]);
        Defaults(f.ltype.fields, s.items[s.size].slots)
    case _ =>
      assert TypedItem(f, s.items[0]);
      s.items[0].slots
  }

  /** Whether `bs` consists of whole fields that decode without ending the message. */
  predicate WholeFields(fields: seq<Field>, m: seq<Slot>, seen: set<nat>, bs: seq<byte>)
    requires WellFormed(fields) && Typed(fields, m)
  {
    FieldLoop(fields, m, seen, bs).Done? && !FieldLoop(fields, m, seen, bs).stopped
  }

  /** The struct that the submessage of field `i` decodes into, behind the fields `bs`. */
  function InnerStart(fields: seq<Field>, m: seq<Slot>, seen: set<nat>, bs: seq<byte>, i: nat): (start: seq<Slot>)
    requires WellFormed(fields) && Typed(fields, m) && WholeFields(fields, m, seen, bs)
    requires i < |fields| && fields[i].ltype.Submessage?
    ensures WellFormed(fields[i].ltype.fields) && Typed(fields[i].ltype.fields, start)
  {
    var d := FieldLoop(fields, m, seen, bs).m;
    assert WellFormedField(fields[i]) && TypedSlot(fields[i], d[Home(fields, i)]);
    StartOf(fields[i], d[Home(fields, i)])
  }

  /** Whole fields stand in front of the hole, at every level. */
  predicate AtBoundary(fields: seq<Field>, m: seq<Slot>, seen: set<nat>, ctx: Context)
    requires WellFormed(fields) && Typed(fields, m) && Fits(fields, ctx)
    decreases ctx
  {
    && WholeFields(fields, m, seen, ctx.before)
    && match ctx
       case Here(_, _) => true
       case Inside(a, _, i, _, _, inner, _) =>
         AtBoundary(fields[i].ltype.fields, InnerStart(fields, m, seen, a, i), {}, inner)
  }

  /** Two payloads decode alike: to the same struct or to the same error. */
  predicate Alike(fields: seq<Field>, start: seq<Slot>, p: seq<byte>, q: seq<byte>)
    requires WellFormed(fields) && Typed(fields, start)
  {
    var x, y := DecodeNoInit(fields, start, p), DecodeNoInit(fields, start, q);
    (x.Err? && x == y) || (x.Ok? && y.Ok? && x.value == y.value)
  }

  lemma RecordOf(length: seq<byte>, p: seq<byte>, b: seq<byte>)
    requires IsLength(length, |p|)
    ensures Delimited(length + (p + b)) == Ok(p, b)
  {
    hide Varint32;
    assert length + [] == length;
    Varint32Local(length, [], p + b);
    assert (p + b)[..|p|] == p && (p + b)[|p|..] == b;
  }

  lemma ItemAlike(f: Field, was: Item, lp: seq<byte>, p: seq<byte>, lq: seq<byte>, q: seq<byte>, b: seq<byte>)
    requires WellFormedField(f) && f.ltype.Submessage? && TypedItem(f, was) && IsLength(lp, |p|) && IsLength(lq, |q|)
    requires Alike(f.ltype.fields, if f.htype.Repeated? then Defaults(f.ltype.fields, was.slots) else was.slots, p, q)
    ensures DecItem(f, was, lp + (p + b)) == DecItem(f, was, lq + (q + b))
  {
    hide *;
    RecordOf(lp, p, b);
    RecordOf(lq, q, b);
    ItemOfRecord(f, was, lp + (p + b), p, q, b);
    ItemOfRecord(f, was, lq + (q + b), q, p, b);
  }

  /** A submessage item is decoded from the payload of its record. */
  lemma ItemOfRecord(f: Field, was: Item, bs: seq<byte>, p: seq<byte>, q: seq<byte>, b: seq<byte>)
    requires WellFormedField(f) && f.ltype.Submessage? && TypedItem(f, was) && Delimited(bs) == Ok(p, b)
    ensures var start := if f.htype.Repeated? then Defaults(f.ltype.fields, was.slots) else was.slots;
            DecItem(f, was, bs) == Inner(f.ltype.fields, start, p, b)
            && (Alike(f.ltype.fields, start, p, q) ==>
                  Inner(f.ltype.fields, start, p, b) == Inner(f.ltype.fields, start, q, b))
            && (Alike(f.ltype.fields, start, q, p) <==> Alike(f.ltype.fields, start, p, q))
  {
    hide DecodeNoInit, Delimited, WellFormed, Typed, Defaults, IsSuffix;
  }

  /** A submessage item in front of `b`, from its payload. */
  function Inner(fields: seq<Field>, start: seq<Slot>, p: seq<byte>, b: seq<byte>): Parse<Item>
    requires WellFormed(fields) && Typed(fields, start)
  {
    match DecodeNoInit(fields, start, p)
    case Err(e) => Err(e)
    case Ok(m, _) => Ok(Msg(m), b)
  }

  /** A submessage field decodes alike from two payloads that decode alike. */
  lemma SlotAlike(f: Field, s: Slot, wireType: nat, lp: seq<byte>, p: seq<byte>, lq: seq<byte>, q: seq<byte>,
                  b: seq<byte>)
    requires WellFormedField(f) && f.ltype.Submessage? && TypedSlot(f, s) && IsLength(lp, |p|) && IsLength(lq, |q|)
    requires WellFormed(f.ltype.fields) && Alike(f.ltype.fields, StartOf(f, s), p, q)
    ensures DecSlot(f, s, wireType, lp + (p + b)) == DecSlot(f, s, wireType, lq + (q + b))
  {
    hide DecItem, DecPacked, IsLength, WellFormed, Typed, Defaults, ZeroStruct, Alike, IsSuffix;
    match f.htype {
      case Required => ItemAlike(f, s.items[0], lp, p, lq, q, b);
      case Optional => ItemAlike(f, s.items[0], lp, p, lq, q, b);
      case Oneof => ItemAlike(f, FreshMember(f), lp, p, lq, q, b);
      case Repeated =>
        if s.size < f.arraySize { ItemAlike(f, s.items[s.size], lp, p, lq, q, b); }
    }
  }

  lemma StepAlike(fields: seq<Field>, m: seq<Slot>, seen: set<nat>, i: nat, tag: seq<byte>, x: seq<byte>, y: seq<byte>)
    requires WellFormed(fields) && Typed(fields, m) && i < |fields|
    requires WellFormedField(fields[i]) && TypedSlot(fields[i], m[Home(fields, i)])
    requires DecodeTag(tag).Tag? && DecodeTag(tag).tag == fields[i].tag && DecodeTag(tag).rest == []
    requires DecSlot(fields[i], m[Home(fields, i)], DecodeTag(tag).wireType, x)
          == DecSlot(fields[i], m[Home(fields, i)], DecodeTag(tag).wireType, y)
    ensures FieldLoop(fields, m, seen, tag + x) == FieldLoop(fields, m, seen, tag + y)
  {
    hide *;
    assert tag + [] == tag;
    HomeInRange(fields, m, i);
    DecodeTagLocal(tag, [], x);
    DecodeTagLocal(tag, [], y);
    KnownField(fields, i, m, seen, DecodeTag(tag).wireType, x);
    KnownField(fields, i, m, seen, DecodeTag(tag).wireType, y);
    RoundOfTag(fields, m, seen, tag + x);
    RoundOfTag(fields, m, seen, tag + y);
  }

  /** Unknown fields are transparent, at any field boundary at any depth. */
  lemma {:induction false} UnknownTransparent(fields: seq<Field>, m: seq<Slot>, seen: set<nat>, ctx: Context,
                                              u: seq<byte>)
    requires WellFormed(fields) && Typed(fields, m) && Fits(fields, ctx) && AtBoundary(fields, m, seen, ctx)
    requires IsUnknown(TableAt(fields, ctx), u) && Framed(fields, ctx, u)
    ensures FieldLoop(fields, m, seen, Fill(ctx, u)) == FieldLoop(fields, m, seen, Empty(ctx))
    decreases ctx
  {
    match ctx {
      case Here(a, b) => UnknownHere(fields, m, seen, a, b, u);
      case Inside(a, tag, i, length, shorter, inner, b) =>
        var sub, start := fields[i].ltype.fields, InnerStart(fields, m, seen, a, i);
        var p, q := Fill(inner, u), Empty(inner);
        assert AtBoundary(sub, start, {}, inner) && IsUnknown(TableAt(sub, inner), u) && Framed(sub, inner, u);
        assert Fill(ctx, u) == a + (tag + (length + (p + b))) && Empty(ctx) == a + (tag + (shorter + (q + b)));
        hide *;
        UnknownTransparent(sub, start, {}, inner, u);
        UnknownInside(fields, m, seen, a, tag, i, length, p, shorter, q, b);
    }
  }

  lemma UnknownHere(fields: seq<Field>, m: seq<Slot>, seen: set<nat>, a: seq<byte>, b: seq<byte>, u: seq<byte>)
    requires WellFormed(fields) && Typed(fields, m) && WholeFields(fields, m, seen, a) && IsUnknown(fields, u)
    ensures FieldLoop(fields, m, seen, a + (u + b)) == FieldLoop(fields, m, seen, a + b)
  {
    hide FieldLoop, WellFormed, Typed, IsUnknown;
    var loop := FieldLoop(fields, m, seen, a);
    LoopFolds(fields, m, seen, a, u + b);
    LoopFolds(fields, m, seen, a, b);
    UnknownFirst(fields, loop.m, loop.seen, u, b);
  }

  lemma UnknownInside(fields: seq<Field>, m: seq<Slot>, seen: set<nat>, a: seq<byte>, tag: seq<byte>, i: nat,
                      lp: seq<byte>, p: seq<byte>, lq: seq<byte>, q: seq<byte>, b: seq<byte>)
    requires WellFormed(fields) && Typed(fields, m) && WholeFields(fields, m, seen, a)
    requires i < |fields| && fields[i].ltype.Submessage? && IsLength(lp, |p|) && IsLength(lq, |q|)
    requires DecodeTag(tag).Tag? && DecodeTag(tag).tag == fields[i].tag && DecodeTag(tag).rest == []
    requires WellFormed(fields[i].ltype.fields) && Typed(fields[i].ltype.fields, InnerStart(fields, m, seen, a, i))
    requires var sub, start := fields[i].ltype.fields, InnerStart(fields, m, seen, a, i);
             FieldLoop(sub, start, {}, p) == FieldLoop(sub, start, {}, q)
    ensures FieldLoop(fields, m, seen, a + (tag + (lp + (p + b))))
         == FieldLoop(fields, m, seen, a + (tag + (lq + (q + b))))
  {
    var loop := FieldLoop(fields, m, seen, a);
    var f, s := fields[i], loop.m[Home(fields, i)];
    assert WellFormedField(f) && TypedSlot(f, s);
    assert InnerStart(fields, m, seen, a, i) == StartOf(f, s);
    assert loop.Done? && !loop.stopped;
    hide *;
    LoopFolds(fields, m, seen, a, tag + (lp + (p + b)));
    LoopFolds(fields, m, seen, a, tag + (lq + (q + b)));
    AlikeLoops(f.ltype.fields, StartOf(f, s), p, q);
    SlotAlike(f, s, DecodeTag(tag).wireType, lp, p, lq, q, b);
    StepAlike(fields, loop.m, loop.seen, i, tag, lp + (p + b), lq + (q + b));
  }

  lemma AlikeLoops(fields: seq<Field>, start: seq<Slot>, p: seq<byte>, q: seq<byte>)
    requires WellFormed(fields) && Typed(fields, start)
    requires FieldLoop(fields, start, {}, p) == FieldLoop(fields, start, {}, q)
    ensures Alike(fields, start, p, q)
  {
    hide FieldLoop, WellFormed, Typed, RequiredSeen;
  }

  /** Decoding a message does not see an unknown field in it: the same struct, the same bytes left,
      and the same error if there is one. */
  lemma DecodeIgnoresUnknown(fields: seq<Field>, was: seq<Slot>, ctx: Context, u: seq<byte>)
    requires WellFormed(fields) && Typed(fields, was) && Fits(fields, ctx)
    requires AtBoundary(fields, Defaults(fields, was), {}, ctx)
    requires IsUnknown(TableAt(fields, ctx), u) && Framed(fields, ctx, u)
    ensures Decode(fields, was, Fill(ctx, u)) == Decode(fields, was, Empty(ctx))
  {
    hide FieldLoop, AtBoundary, Fill, Empty, TableAt, IsUnknown, Framed;
    UnknownTransparent(fields, Defaults(fields, was), {}, ctx, u);
  }
}
