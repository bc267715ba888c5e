/** Decoding is a fold over fields: each round of the field loop looks only at the bytes of its
    own field, so the loop over a concatenation is one loop after the other. */
module Locality {
  import opened Basics
  import opened Bits
  import opened Wire
  import opened Descriptor
  import opened Message
  import opened Encoding
  import opened Decoding

  // ---- Items and fields: success depends only on the bytes consumed ---------------------------

  lemma Varint64Local(c: seq<byte>, r: seq<byte>, t: seq<byte>)
    requires Varint64(c + r).Ok? && Varint64(c + r).rest == r
    ensures Varint64(c + t) == Ok(Varint64(c + r).value, t)
  {
    TakeVarintLocal(c, r, t, 10);
    hide TakeVarint;
  }

  lemma TakeLocal(c: seq<byte>, r: seq<byte>, t: seq<byte>, n: nat)
    requires Take(c + r, n).Ok? && Take(c + r, n).rest == r
    ensures Take(c + t, n) == Ok(Take(c + r, n).value, t) && Take(c + r, n).value == c
  {
    assert |c| == n;
    assert (c + t)[..n] == c == (c + r)[..n] && (c + t)[n..] == t;
  }

  lemma BlobDataLocal(c: seq<byte>, r: seq<byte>, t: seq<byte>, size: nat, rest: seq<byte>)
    requires Varint32(c + r) == Ok(size, rest) && Take(rest, size).Ok? && Take(rest, size).rest == r
    ensures Varint32(c + t).Ok? && Varint32(c + t).value == size
    ensures Take(Varint32(c + t).rest, size) == Ok(Take(rest, size).value, t)
  {
    assert IsSuffix(r, rest);
    hide Varint32, IsSuffix;
    SplitConsumed(c, r, rest);
    var h, data := Consumed(c + r, rest), Consumed(rest, r);
    assert c + t == h + (data + t);
    Varint32Local(h, rest, data + t);
    TakeLocal(data, r, t, size);
  }

  lemma DecBlobLocal(f: Field, c: seq<byte>, r: seq<byte>, t: seq<byte>)
    requires f.ltype.Bytes? || f.ltype.Str? || f.ltype.FixedLengthBytes?
    requires DecBlob(f, c + r).Ok? && DecBlob(f, c + r).rest == r
    ensures DecBlob(f, c + t) == Ok(DecBlob(f, c + r).value, t)
  {
    var size, rest := Varint32(c + r).value, Varint32(c + r).rest;
    hide Varint32, IsSuffix, Take;
    if f.ltype.FixedLengthBytes? && size == 0 {
      Varint32Local(c, r, t);
    } else {
      BlobDataLocal(c, r, t, size, rest);
    }
  }

  lemma DecItemLocal(f: Field, was: Item, c: seq<byte>, r: seq<byte>, t: seq<byte>)
    requires WellFormedField(f) && TypedItem(f, was)
    requires DecItem(f, was, c + r).Ok? && DecItem(f, was, c + r).rest == r
    ensures DecItem(f, was, c + t) == Ok(DecItem(f, was, c + r).value, t)
  {
    hide DecodeNoInit, Defaults, Varint64, Varint32, Delimited, Take, DecBlob, FromVarint;
    match f.ltype {
      case Bool => Varint32Local(c, r, t);
      case Varint => Varint64Local(c, r, t);
      case UVarint => Varint64Local(c, r, t);
      case SVarint => Varint64Local(c, r, t);
      case Fixed32 => TakeLocal(c, r, t, 4);
      case Fixed64 => TakeLocal(c, r, t, 8);
      case Bytes => DecBlobLocal(f, c, r, t);
      case Str => DecBlobLocal(f, c, r, t);
      case FixedLengthBytes => DecBlobLocal(f, c, r, t);
      case Submessage(sub) => DelimitedLocal(c, r, t);
    }
  }

  lemma DecSlotLocal(f: Field, s: Slot, wireType: nat, c: seq<byte>, r: seq<byte>, t: seq<byte>)
    requires WellFormedField(f) && TypedSlot(f, s)
    requires DecSlot(f, s, wireType, c + r).Ok? && DecSlot(f, s, wireType, c + r).rest == r
    ensures DecSlot(f, s, wireType, c + t) == Ok(DecSlot(f, s, wireType, c + r).value, t)
  {
    hide DecItem, DecPacked, Delimited, FreshMember;
    match f.htype {
      case Required => DecItemLocal(f, s.items[0], c, r, t);
      case Optional => DecItemLocal(f, s.items[0], c, r, t);
      case Oneof => DecItemLocal(f, FreshMember(f), c, r, t);
      case Repeated =>
        if wireType == WT_STRING && Packable(f) {
          DelimitedLocal(c, r, t);
        } else {
          DecItemLocal(f, s.items[s.size], c, r, t);
        }
    }
  }

  // ---- The field loop ---------------------------------------------------------------------------

  lemma BodyLocal(fields: seq<Field>, m: seq<Slot>, seen: set<nat>, tag: nat, wireType: nat,
                  c: seq<byte>, r: seq<byte>, t: seq<byte>)
    requires WellFormed(fields) && Typed(fields, m)
    requires FieldBody(fields, m, seen, tag, wireType, c + r).Next?
    requires FieldBody(fields, m, seen, tag, wireType, c + r).rest == r
    ensures FieldBody(fields, m, seen, tag, wireType, c + t)
         == FieldBody(fields, m, seen, tag, wireType, c + r).(rest := t)
  {
    var i := FindField(fields, tag);
    if i < |fields| {
      assert WellFormedField(fields[i]) && TypedSlot(fields[i], m[Home(fields, i)]);
    }
    hide FindField, DecSlot, SkipField, Varint32, WellFormed, Typed, Home;
    if fields == [] && tag == 0 {
      Varint32Local(c, r, t);
    } else if i == |fields| {
      SkipFieldLocal(wireType, c, r, t);
    } else {
      DecSlotLocal(fields[i], m[Home(fields, i)], wireType, c, r, t);
    }
  }

  /** A round that went on to `r` goes on to `t` when `t` follows its bytes instead. */
  lemma StepLocal(fields: seq<Field>, m: seq<Slot>, seen: set<nat>, c: seq<byte>, r: seq<byte>, t: seq<byte>)
    requires WellFormed(fields) && Typed(fields, m)
    requires FieldStep(fields, m, seen, c + r).Next? && FieldStep(fields, m, seen, c + r).rest == r
    ensures FieldStep(fields, m, seen, c + t) == FieldStep(fields, m, seen, c + r).(rest := t)
  {
    hide DecodeTag, IsSuffix, FieldBody, WellFormed, Typed;
    var tag := DecodeTag(c + r);
    SplitConsumed(c, r, tag.rest);
    var h, data := Consumed(c + r, tag.rest), Consumed(tag.rest, r);
    assert c + t == h + (data + t);
    DecodeTagLocal(h, tag.rest, data + t);
    BodyLocal(fields, m, seen, tag.tag, tag.wireType, data, r, t);
  }

  /** A zero tag ends the message whatever follows it. */
  lemma StepStopLocal(fields: seq<Field>, m: seq<Slot>, seen: set<nat>, c: seq<byte>, r: seq<byte>, t: seq<byte>)
    requires WellFormed(fields) && Typed(fields, m) && c + r != []
    requires FieldStep(fields, m, seen, c + r) == Stop(r)
    ensures FieldStep(fields, m, seen, c + t) == Stop(t)
  {
    assert Varint32(c + r) == Ok(0, r);
    Varint32Local(c, r, t);
    assert c != [];
    hide Varint32, DecSlot, SkipField, FindField;
  }

  /** The field loop on `a` followed by `b` is the loop on `a`, and then the loop on `b` into the
      same struct. */
  lemma {:induction false} LoopFolds(fields: seq<Field>, m: seq<Slot>, seen: set<nat>, a: seq<byte>, b: seq<byte>)
    requires WellFormed(fields) && Typed(fields, m)
    requires FieldLoop(fields, m, seen, a).Done? && !FieldLoop(fields, m, seen, a).stopped
    ensures var loop := FieldLoop(fields, m, seen, a);
            FieldLoop(fields, m, seen, a + b) == FieldLoop(fields, loop.m, loop.seen, b)
    decreases |a|
  {
    hide FieldLoop, FieldStep, WellFormed, Typed;
    LoopStep(fields, m, seen, a);
    if a == [] {
      assert a + b == b;
    } else {
      var step := FieldStep(fields, m, seen, a);
      var c := Consumed(a, step.rest);
      LoopStep(fields, m, seen, a + b);
      hide IsSuffix;
      assert a + b == c + (step.rest + b);
      StepLocal(fields, m, seen, c, step.rest, step.rest + b);
      LoopFolds(fields, step.m, step.seen, step.rest, b);
    }
  }

  /** Once a zero tag has ended the message, later bytes are left alone. */
  lemma {:induction false} LoopStopsBefore(fields: seq<Field>, m: seq<Slot>, seen: set<nat>, a: seq<byte>, b: seq<byte>)
    requires WellFormed(fields) && Typed(fields, m)
    requires FieldLoop(fields, m, seen, a).Done? && FieldLoop(fields, m, seen, a).stopped
    ensures var loop := FieldLoop(fields, m, seen, a);
            FieldLoop(fields, m, seen, a + b) == loop.(rest := loop.rest + b)
    decreases |a|
  {
    hide FieldLoop, FieldStep, WellFormed, Typed;
    LoopStep(fields, m, seen, a);
    var step := FieldStep(fields, m, seen, a);
    var c := Consumed(a, step.rest);
    LoopStep(fields, m, seen, a + b);
    assert a + b == c + (step.rest + b);
    if step.Stop? {
      StepStopLocal(fields, m, seen, c, step.rest, step.rest + b);
    } else {
      hide IsSuffix;
      StepLocal(fields, m, seen, c, step.rest, step.rest + b);
      LoopStopsBefore(fields, step.m, step.seen, step.rest, b);
    }
  }

  /** What was seen before only adds to what is seen. */
  lemma {:induction false} LoopSeen(fields: seq<Field>, m: seq<Slot>, seen: set<nat>, bs: seq<byte>)
    requires WellFormed(fields) && Typed(fields, m)
    ensures var alone, loop := FieldLoop(fields, m, {}, bs), FieldLoop(fields, m, seen, bs);
            && (alone.Failed? ==> loop == alone)
            && (alone.Done? ==> loop == alone.(seen := seen + alone.seen))
    decreases |bs|
  {
    hide FieldLoop, FieldStep, WellFormed, Typed;
    LoopStep(fields, m, {}, bs);
    LoopStep(fields, m, seen, bs);
    if bs != [] {
      var step := FieldStep(fields, m, {}, bs);
      StepSeen(fields, m, seen, bs);
      if step.Next? {
        LoopSeen(fields, step.m, step.seen, step.rest);
        LoopSeen(fields, step.m, seen + step.seen, step.rest);
      }
    }
  }

  lemma StepSeen(fields: seq<Field>, m: seq<Slot>, seen: set<nat>, bs: seq<byte>)
    requires WellFormed(fields) && Typed(fields, m)
    ensures var alone, step := FieldStep(fields, m, {}, bs), FieldStep(fields, m, seen, bs);
            if alone.Next? then step == alone.(seen := seen + alone.seen) else step == alone
  {
    hide DecSlot, DecodeTag, SkipField, FindField, Varint32;
  }

  /** Decoding a concatenation merges: when the fields of `a` decode to the struct `m1`, decoding
      `a + b` gives what decoding `b` into `m1` gives, and finds a required field missing only if
      neither part has it. */
  lemma DecodeMerges(fields: seq<Field>, m: seq<Slot>, a: seq<byte>, b: seq<byte>)
    requires WellFormed(fields) && Typed(fields, m)
    requires FieldLoop(fields, m, {}, a).Done? && !FieldLoop(fields, m, {}, a).stopped
    ensures var first := FieldLoop(fields, m, {}, a);
            var second := FieldLoop(fields, first.m, {}, b);
            DecodeNoInit(fields, m, a + b) ==
              if second.Failed? then Err(second.error)
              else if RequiredSeen(fields, first.seen + second.seen) then Ok(second.m, second.rest)
              else Err(MissingRequiredField)
  {
    var first := FieldLoop(fields, m, {}, a);
    LoopFolds(fields, m, {}, a, b);
    LoopSeen(fields, first.m, first.seen, b);
  }
}
