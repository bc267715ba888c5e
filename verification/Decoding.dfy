/** What pb_decode computes, as a function of the bytes and of the struct decoded into. */
module Decoding {
  import opened Basics
  import opened Bits
  import opened Wire
  import opened Descriptor
  import opened Message
  import opened Encoding

  /** Required fields beyond this many are not tracked. */
  const MAX_REQUIRED_FIELDS: nat := 64

  // ---- Items ---------------------------------------------------------------------------------

  /** A signed value stored into `n` bytes, refused when it does not survive the cast. */
  function NarrowSigned(n: nat, v: int): (r: Result<int>)
    ensures r.Success? ==> ValidDataSize(n) && r.value == v && -IntLimit(n) <= v < IntLimit(n)
  {
    if !ValidDataSize(n) then Failure(InvalidDataSize)
    else if SignedCast(v, 8 * n) != v then Failure(IntegerTooLarge)
    else Success(v)
  }

  function NarrowUnsigned(n: nat, v: nat): (r: Result<int>)
    ensures r.Success? ==> ValidDataSize(n) && r.value == v && v < 2 * IntLimit(n)
  {
    if !ValidDataSize(n) then Failure(InvalidDataSize)
    else if v % (2 * IntLimit(n)) != v then Failure(IntegerTooLarge)
    else Success(v)
  }

  /** The number a field of a varint type stores for the varint value `v`. Signed fields narrower
      than 64 bits take the low 32 bits first. */
  function FromVarint(f: Field, v: nat): (r: Result<int>)
    requires f.ltype.Varint? || f.ltype.UVarint? || f.ltype.SVarint?
    ensures r.Success? ==> NumFits(f, r.value)
  {
    match f.ltype
    case Varint => NarrowSigned(f.dataSize, SignedCast(v, if f.dataSize == 8 then 64 else 32))
    case SVarint => NarrowSigned(f.dataSize, UnZigZag(v))
    case UVarint => NarrowUnsigned(f.dataSize, v)
  }

  function DecVarint(f: Field, bs: seq<byte>): (p: Parse<Item>)
    requires f.ltype.Varint? || f.ltype.UVarint? || f.ltype.SVarint?
    ensures p.Ok? ==> TypedItem(f, p.value) && IsSuffix(p.rest, bs) && |p.rest| < |bs|
  {
    match Varint64(bs)
    case Err(e) => Err(e)
    case Ok(v, rest) =>
      match FromVarint(f, v)
      case Failure(e) => Err(e)
      case Success(n) => Ok(Num(n), rest)
  }

  function DecBool(f: Field, bs: seq<byte>): (p: Parse<Item>)
    requires f.ltype.Bool?
    ensures p.Ok? ==> TypedItem(f, p.value) && IsSuffix(p.rest, bs) && |p.rest| < |bs|
  {
    match Varint32(bs)
    case Err(e) => Err(e)
    case Ok(v, rest) => Ok(Num(if v != 0 then 1 else 0), rest)
  }

  function DecFixed(f: Field, width: nat, bs: seq<byte>): (p: Parse<Item>)
    requires (f.ltype.Fixed32? && width == 4) || (f.ltype.Fixed64? && width == 8)
    ensures p.Ok? ==> TypedItem(f, p.value) && IsSuffix(p.rest, bs) && |p.rest| < |bs|
  {
    match Take(bs, width)
    case Err(e) => Err(e)
    case Ok(data, rest) =>
      FixedBound(data);
      Ok(Num(FromLittleEndian(data)), rest)
  }

  lemma FixedBound(data: seq<byte>)
    ensures |data| == 4 ==> FromLittleEndian(data) < TWO_32
    ensures |data| == 8 ==> FromLittleEndian(data) < TWO_64
  {
    FromLittleEndianBound(data);
    Pow2Table();
    Pow2Add(32, 32);
  }

  lemma {:induction false} FromLittleEndianBound(bs: seq<byte>)
    ensures FromLittleEndian(bs) < Pow2(8 * |bs|)
  {
    if bs != [] {
      FromLittleEndianBound(bs[1..]);
      Pow2Seven(8 * |bs| - 8);
      assert Pow2(8 * |bs|) == 256 * Pow2(8 * |bs[1..]|);
    }
  }

  /** A byte string of a length that `f` can store. */
  function DecBlob(f: Field, bs: seq<byte>): (p: Parse<Item>)
    requires f.ltype.Bytes? || f.ltype.Str? || f.ltype.FixedLengthBytes?
    ensures p.Ok? ==> TypedItem(f, p.value) && IsSuffix(p.rest, bs) && |p.rest| < |bs|
  {
    match Varint32(bs)
    case Err(e) => Err(e)
    case Ok(size, rest) =>
      match BlobSize(f, size)
      case Failure(e) => Err(e)
      case Success(n) =>
        if f.ltype.FixedLengthBytes? && size == 0 then Ok(Blob(Zeros(f.dataSize)), rest)
        else
          match Take(rest, n)
          case Err(e) => Err(e)
          case Ok(data, rest') => Ok(Blob(data), rest')
  }

  /** The checks on the length of a byte string. The length of a string plus its terminator is
      computed in 32 bits. */
  function BlobSize(f: Field, size: nat): (r: Result<nat>)
    requires size < TWO_32
    ensures r.Success? ==> r.value == size
  {
    match f.ltype
    case Bytes =>
      if size > PB_SIZE_MAX then Failure(BytesOverflow)
      else if size > size + BYTES_OFFSET then Failure(SizeTooLarge)
      else if size + BYTES_OFFSET > f.dataSize then Failure(BytesOverflow)
      else Success(size)
    case Str =>
      var allocSize := (size + 1) % TWO_32;
      if allocSize < size then Failure(SizeTooLarge)
      else if allocSize > f.dataSize then Failure(StringOverflow)
      else Success(size)
    case _ =>
      if size > PB_SIZE_MAX then Failure(BytesOverflow)
      else if size != 0 && size != f.dataSize then Failure(IncorrectFixedLength)
      else Success(size)
  }

  /** One item of field `f`. A submessage is decoded into the struct that was there, which for
      array entries is first set to defaults. */
  function DecItem(f: Field, was: Item, bs: seq<byte>): (p: Parse<Item>)
    requires WellFormedField(f) && TypedItem(f, was)
    ensures p.Ok? ==> TypedItem(f, p.value) && IsSuffix(p.rest, bs) && |p.rest| < |bs|
    decreases f, 0
  {
    match f.ltype
    case Bool => DecBool(f, bs)
    case Varint => DecVarint(f, bs)
    case UVarint => DecVarint(f, bs)
    case SVarint => DecVarint(f, bs)
    case Fixed32 => DecFixed(f, 4, bs)
    case Fixed64 => DecFixed(f, 8, bs)
    case Bytes => DecBlob(f, bs)
    case Str => DecBlob(f, bs)
    case FixedLengthBytes => DecBlob(f, bs)
    case Submessage(sub) =>
      match Delimited(bs)
      case Err(e) => Err(e)
      case Ok(data, rest) =>
        var start := if f.htype.Repeated? then Defaults(sub, was.slots) else was.slots;
        match DecodeNoInit(sub, start, data)
        case Err(e) => Err(e)
        case Ok(m, _) => Ok(Msg(m), rest)
  }

  lemma SubmessageItem(f: Field, was: Item, bs: seq<byte>)
    requires WellFormedField(f) && TypedItem(f, was) && f.ltype.Submessage?
    ensures was.Msg? && WellFormed(f.ltype.fields) && Typed(f.ltype.fields, was.slots)
    ensures var record := Delimited(bs);
            && (record.Err? ==> DecItem(f, was, bs) == Err(record.error))
            && (record.Ok? ==>
                  var p := if f.htype.Repeated? then Decode(f.ltype.fields, was.slots, record.value)
                           else DecodeNoInit(f.ltype.fields, was.slots, record.value);
                  && (p.Err? ==> DecItem(f, was, bs) == Err(p.error))
                  && (p.Ok? ==> DecItem(f, was, bs) == Ok(Msg(p.value), record.rest)))
  {
    hide Delimited, DecodeNoInit, Defaults, WellFormed, Typed, IsSuffix;
  }

  // ---- Fields -------------------------------------------------------------------------------

  /** How many bytes an item leaves that cannot be decoded. */
  function LeftByFailing(f: Field, bs: seq<byte>): nat
    requires Packable(f)
  {
    match f.ltype
    case Bool => Varint32Left(bs)
    case Fixed32 => |bs|
    case Fixed64 => |bs|
    case _ => Varint64Left(bs)
  }

  /** The items of a packed array, appended to the ones that are there. Whatever keeps the loop from
      using up the record is reported as an overflow of the array. */
  function DecPacked(f: Field, s: Slot, bs: seq<byte>): (r: Result<Slot>)
    requires WellFormedField(f) && f.htype.Repeated? && Packable(f) && TypedSlot(f, s)
    ensures r.Success? ==> TypedSlot(f, r.value)
    decreases f, 1, |bs|
  {
    if bs == [] then Success(s)
    else if s.size >= f.arraySize then Failure(ArrayOverflow)
    else
      match DecItem(f, s.items[s.size], bs)
      case Err(e) => Failure(if LeftByFailing(f, bs) == 0 then e else ArrayOverflow)
      case Ok(it, rest) => DecPacked(f, Slot(s.size + 1, s.items[s.size := it]), rest)
  }

  /** One item of a packed array. */
  lemma PackedStep(f: Field, s: Slot, bs: seq<byte>)
    requires WellFormedField(f) && f.htype.Repeated? && Packable(f) && TypedSlot(f, s)
    ensures bs == [] ==> DecPacked(f, s, bs) == Success(s)
    ensures bs != [] && s.size >= f.arraySize ==> DecPacked(f, s, bs) == Failure(ArrayOverflow)
    ensures bs != [] && s.size < f.arraySize ==>
              && s.size < |s.items| && TypedItem(f, s.items[s.size])
              && var p := DecItem(f, s.items[s.size], bs);
              && (p.Err? ==>
                    DecPacked(f, s, bs) == Failure(if LeftByFailing(f, bs) == 0 then p.error else ArrayOverflow))
              && (p.Ok? ==>
                    var next := Slot(s.size + 1, s.items[s.size := p.value]);
                    TypedSlot(f, next) && |p.rest| < |bs| && DecPacked(f, s, bs) == DecPacked(f, next, p.rest))
  {
    hide DecItem, TypedItem, LeftByFailing, WellFormedField;
  }

  function DecPackedRecord(f: Field, s: Slot, bs: seq<byte>): (p: Parse<Slot>)
    requires WellFormedField(f) && f.htype.Repeated? && Packable(f) && TypedSlot(f, s)
    ensures p.Ok? ==> TypedSlot(f, p.value) && IsSuffix(p.rest, bs) && |p.rest| < |bs|
    decreases f, 2
  {
    match Delimited(bs)
    case Err(e) => Err(e)
    case Ok(data, rest) =>
      match DecPacked(f, s, data)
      case Failure(e) => Err(e)
      case Success(s') => Ok(s', rest)
  }

  /** The storage of a oneof member before it is decoded: a submessage is zeroed and set to
      defaults; other types do not look at what was there. */
  function FreshMember(f: Field): (it: Item)
    requires WellFormedField(f)
    ensures TypedItem(f, it)
  {
    match f.ltype
    case Submessage(sub) => Msg(Defaults(sub, ZeroStruct(sub)))
    case _ => ZeroItem(f)
  }

  /** One field, after its tag: decode_static_field. */
  function DecSlot(f: Field, s: Slot, wireType: nat, bs: seq<byte>): (p: Parse<Slot>)
    requires WellFormedField(f) && TypedSlot(f, s)
    ensures p.Ok? ==> TypedSlot(f, p.value) && IsSuffix(p.rest, bs) && |p.rest| < |bs|
    ensures p.Ok? && f.htype.Oneof? ==> p.value.size == f.tag
    decreases f, 3
  {
    match f.htype
    case Required =>
      (match DecItem(f, s.items[0], bs)
       case Err(e) => Err(e)
       case Ok(it, rest) => Ok(s.(items := [it]), rest))
    case Optional =>
      (match DecItem(f, s.items[0], bs)
       case Err(e) => Err(e)
       case Ok(it, rest) => Ok(Slot(if f.sizeOffset != 0 then 1 else s.size, [it]), rest))
    case Repeated =>
      if wireType == WT_STRING && Packable(f) then
        DecPackedRecord(f, s, bs)
      else if s.size >= f.arraySize then Err(ArrayOverflow)
      else
        (match DecItem(f, s.items[s.size], bs)
         case Err(e) => Err(e)
         case Ok(it, rest) => Ok(Slot(s.size + 1, s.items[s.size := it]), rest))
    case Oneof =>
      (match DecItem(f, FreshMember(f), bs)
       case Err(e) => Err(e)
       case Ok(it, rest) => Ok(Slot(f.tag, [it]), rest))
  }

  /** The cases of one field, each in terms of an item or a packed record. */
  lemma SlotCases(f: Field, s: Slot, wireType: nat, bs: seq<byte>)
    requires WellFormedField(f) && TypedSlot(f, s)
    ensures f.htype.Required? || f.htype.Optional? ==>
              && |s.items| > 0 && TypedItem(f, s.items[0])
              && var p := DecItem(f, s.items[0], bs);
              && var size := if f.htype.Optional? && f.sizeOffset != 0 then 1 else s.size;
              && (p.Err? ==> DecSlot(f, s, wireType, bs) == Err(p.error))
              && (p.Ok? ==> DecSlot(f, s, wireType, bs) == Ok(Slot(size, [p.value]), p.rest))
    ensures f.htype.Repeated? && wireType == WT_STRING && Packable(f) ==>
              DecSlot(f, s, wireType, bs) == DecPackedRecord(f, s, bs)
    ensures f.htype.Repeated? && !(wireType == WT_STRING && Packable(f)) ==>
              if s.size >= f.arraySize then DecSlot(f, s, wireType, bs) == Err(ArrayOverflow)
              else
                && s.size < |s.items| && TypedItem(f, s.items[s.size])
                && var p := DecItem(f, s.items[s.size], bs);
                && (p.Err? ==> DecSlot(f, s, wireType, bs) == Err(p.error))
                && (p.Ok? ==>
                      DecSlot(f, s, wireType, bs) == Ok(Slot(s.size + 1, s.items[s.size := p.value]), p.rest))
    ensures f.htype.Oneof? ==>
              var p := DecItem(f, FreshMember(f), bs);
              && (p.Err? ==> DecSlot(f, s, wireType, bs) == Err(p.error))
              && (p.Ok? ==> DecSlot(f, s, wireType, bs) == Ok(Slot(f.tag, [p.value]), p.rest))
  {
    hide DecItem, DecPackedRecord, FreshMember, WellFormedField, TypedItem, Packable, IsSuffix;
  }

  // ---- Messages ----------------------------------------------------------------------------

  /** The field with the given tag. */
  function FindField(fields: seq<Field>, tag: nat): (i: nat)
    ensures i <= |fields| && (i < |fields| ==> fields[i].tag == tag)
    ensures forall j: nat :: j < i ==> fields[j].tag != tag
  {
    if fields == [] || fields[0].tag == tag then 0
    else 1 + FindField(fields[1..], tag)
  }

  /** One round of the field loop: on to the next field, the end of the message, or an error. */
  datatype Step = Next(m: seq<Slot>, seen: set<nat>, rest: seq<byte>) | Stop(rest: seq<byte>) | Fail(error: Error)

  /** The field after its tag. Unknown fields are skipped. In an empty table a field number of 0
      finds the terminator, which is decoded like a bool. */
  function FieldBody(fields: seq<Field>, m: seq<Slot>, seen: set<nat>, tag: nat, wireType: nat, bs: seq<byte>)
      : (r: Step)
    requires WellFormed(fields) && Typed(fields, m)
    ensures !r.Stop?
    ensures r.Next? ==> Typed(fields, r.m) && IsSuffix(r.rest, bs)
    decreases fields, 0
  {
    if fields == [] && tag == 0 then
      match Varint32(bs)
      case Err(e) => Fail(e)
      case Ok(_, rest) => Next(m, seen, rest)
    else
      var i := FindField(fields, tag);
      if i == |fields| then
        match SkipField(wireType, bs)
        case Err(e) => Fail(e)
        case Ok(_, rest) => Next(m, seen, rest)
      else
        assert WellFormedField(fields[i]);
        match DecSlot(fields[i], m[Home(fields, i)], wireType, bs)
        case Err(e) => Fail(e)
        case Ok(s, rest) =>
          TypedUpdate(fields, m, i, s);
          Next(m[Home(fields, i) := s], seen + {i}, rest)
  }

  /** One round of the field loop of pb_decode_noinit. `seen` collects the fields decoded. */
  function FieldStep(fields: seq<Field>, m: seq<Slot>, seen: set<nat>, bs: seq<byte>): (r: Step)
    requires WellFormed(fields) && Typed(fields, m)
    ensures r.Next? ==> Typed(fields, r.m) && IsSuffix(r.rest, bs) && |r.rest| < |bs|
    ensures r.Stop? ==> IsSuffix(r.rest, bs)
    decreases fields, 1
  {
    match DecodeTag(bs)
    case TagErr(e) => Fail(e)
    case End(rest) => Stop(rest)
    case Tag(tag, wireType, rest) => FieldBody(fields, m, seen, tag, wireType, rest)
  }

  /** The struct after the field loop, the fields seen, the bytes left, and whether a zero tag
      ended the message. */
  datatype Loop = Done(m: seq<Slot>, seen: set<nat>, rest: seq<byte>, stopped: bool) | Failed(error: Error)

  function FieldLoop(fields: seq<Field>, m: seq<Slot>, seen: set<nat>, bs: seq<byte>): (r: Loop)
    requires WellFormed(fields) && Typed(fields, m)
    ensures r.Done? ==> Typed(fields, r.m) && IsSuffix(r.rest, bs) && (!r.stopped ==> r.rest == [])
    decreases fields, 2, |bs|
  {
    if bs == [] then Done(m, seen, bs, false)
    else
      match FieldStep(fields, m, seen, bs)
      case Fail(e) => Failed(e)
      case Stop(rest) => Done(m, seen, rest, true)
      case Next(m', seen', rest) => FieldLoop(fields, m', seen', rest)
  }

  lemma {:induction false} FindFieldIs(fields: seq<Field>, i: nat)
    requires UniqueTags(fields) && i < |fields|
    ensures FindField(fields, fields[i].tag) == i
  {
    var j := FindField(fields, fields[i].tag);
    assert j <= i;
  }

  lemma LoopStep(fields: seq<Field>, m: seq<Slot>, seen: set<nat>, bs: seq<byte>)
    requires WellFormed(fields) && Typed(fields, m)
    ensures bs == [] ==> FieldLoop(fields, m, seen, bs) == Done(m, seen, bs, false)
    ensures bs != [] ==>
              var step := FieldStep(fields, m, seen, bs);
              && (step.Fail? ==> FieldLoop(fields, m, seen, bs) == Failed(step.error))
              && (step.Stop? ==> FieldLoop(fields, m, seen, bs) == Done(m, seen, step.rest, true))
              && (step.Next? ==> FieldLoop(fields, m, seen, bs) == FieldLoop(fields, step.m, step.seen, step.rest))
  {
    hide FieldStep;
  }

  lemma HomeInRange(fields: seq<Field>, d: seq<Slot>, i: nat)
    requires Typed(fields, d) && i < |fields|
    ensures Home(fields, i) < |d| == |fields|
  {}

  /** What the field loop makes of the bytes behind the tag of field `i`. */
  lemma KnownField(fields: seq<Field>, i: nat, d: seq<Slot>, seen: set<nat>, wireType: nat, bs: seq<byte>)
    requires WellFormed(fields) && Typed(fields, d) && i < |fields|
    requires WellFormedField(fields[i]) && Home(fields, i) < |d| && TypedSlot(fields[i], d[Home(fields, i)])
    ensures var p, body := DecSlot(fields[i], d[Home(fields, i)], wireType, bs),
                           FieldBody(fields, d, seen, fields[i].tag, wireType, bs);
            && (p.Ok? ==> Typed(fields, d[Home(fields, i) := p.value])
                          && body == Next(d[Home(fields, i) := p.value], seen + {i}, p.rest))
            && (p.Err? ==> body == Fail(p.error))
  {
    FindFieldIs(fields, i);
    var p := DecSlot(fields[i], d[Home(fields, i)], wireType, bs);
    if p.Ok? { TypedUpdate(fields, d, i, p.value); }
    hide WellFormed, WellFormedField, Typed, TypedSlot, DecSlot, Home, FindField, IsSuffix, Varint32;
  }

  /** The same for a tag that is not in the table. */
  lemma UnknownField(fields: seq<Field>, d: seq<Slot>, seen: set<nat>, tag: nat, wireType: nat, bs: seq<byte>)
    requires WellFormed(fields) && Typed(fields, d) && (fields == [] ==> tag != 0)
    requires FindField(fields, tag) == |fields|
    ensures var p, body := SkipField(wireType, bs), FieldBody(fields, d, seen, tag, wireType, bs);
            && (p.Ok? ==> body == Next(d, seen, p.rest))
            && (p.Err? ==> body == Fail(p.error))
  {
    hide SkipField, WellFormed, Typed, DecSlot, FindField, Varint32;
  }

  /** The terminator of an empty table has tag 0. */
  lemma TerminatorField(d: seq<Slot>, seen: set<nat>, wireType: nat, bs: seq<byte>)
    requires WellFormed([]) && Typed([], d)
    ensures var p, body := Varint32(bs), FieldBody([], d, seen, 0, wireType, bs);
            && (p.Ok? ==> body == Next(d, seen, p.rest))
            && (p.Err? ==> body == Fail(p.error))
  {
    hide SkipField, WellFormed, Typed, DecSlot, FindField, Varint32;
  }

  /** One round, from the tag that it reads. */
  lemma RoundOfTag(fields: seq<Field>, d: seq<Slot>, seen: set<nat>, bs: seq<byte>)
    requires WellFormed(fields) && Typed(fields, d) && DecodeTag(bs).Tag?
    ensures var tag := DecodeTag(bs);
            var body := FieldBody(fields, d, seen, tag.tag, tag.wireType, tag.rest);
            && (body.Next? ==> FieldLoop(fields, d, seen, bs) == FieldLoop(fields, body.m, body.seen, body.rest))
            && (body.Fail? ==> FieldLoop(fields, d, seen, bs) == Failed(body.error))
  {
    assert bs != [];
    hide WellFormed, Typed, FieldBody, FieldLoop, Varint32;
    LoopStep(fields, d, seen, bs);
  }

  lemma StepShortens(fields: seq<Field>, m: seq<Slot>, seen: set<nat>, bs: seq<byte>)
    requires WellFormed(fields) && Typed(fields, m)
    ensures var step := FieldStep(fields, m, seen, bs);
            (step.Next? ==> |step.rest| < |bs|) && (step.Stop? ==> |step.rest| <= |bs|)
  {
    hide FieldBody, WellFormed, Typed, Varint32;
  }

  /** Every tracked required field was seen. */
  predicate RequiredSeen(fields: seq<Field>, seen: set<nat>) {
    forall i: nat :: i < |fields| && fields[i].htype.Required? && RequiredBefore(fields, i) < MAX_REQUIRED_FIELDS
      ==> i in seen
  }

  /** pb_decode_noinit: fields are merged into the struct that is there. */
  function DecodeNoInit(fields: seq<Field>, m: seq<Slot>, bs: seq<byte>): (p: Parse<seq<Slot>>)
    requires WellFormed(fields) && Typed(fields, m)
    ensures p.Ok? ==> Typed(fields, p.value) && IsSuffix(p.rest, bs)
    decreases fields, 3
  {
    match FieldLoop(fields, m, {}, bs)
    case Failed(e) => Err(e)
    case Done(m', seen, rest, _) =>
      if RequiredSeen(fields, seen) then Ok(m', rest) else Err(MissingRequiredField)
  }

  /** pb_decode: the same, starting from the default values. */
  function Decode(fields: seq<Field>, m: seq<Slot>, bs: seq<byte>): (p: Parse<seq<Slot>>)
    requires WellFormed(fields) && Typed(fields, m)
    ensures p.Ok? ==> Typed(fields, p.value) && IsSuffix(p.rest, bs)
  {
    DecodeNoInit(fields, Defaults(fields, m), bs)
  }

  /** pb_decode_delimited: one message behind its length. */
  function DecodeDelimited(fields: seq<Field>, m: seq<Slot>, bs: seq<byte>): (p: Parse<seq<Slot>>)
    requires WellFormed(fields) && Typed(fields, m)
    ensures p.Ok? ==> Typed(fields, p.value) && IsSuffix(p.rest, bs) && |p.rest| < |bs|
  {
    match Delimited(bs)
    case Err(e) => Err(e)
    case Ok(data, rest) =>
      match Decode(fields, m, data)
      case Err(e) => Err(e)
      case Ok(m', _) => Ok(m', rest)
  }

  lemma DecodeDefaults(fields: seq<Field>, m: seq<Slot>, bs: seq<byte>)
    requires WellFormed(fields) && Typed(fields, m)
    ensures Decode(fields, m, bs) == DecodeNoInit(fields, Defaults(fields, m), bs)
  {
    hide DecodeNoInit, Defaults;
  }
}
