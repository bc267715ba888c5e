/** Framing: messages written one after the other behind their lengths, and messages ended by a
    zero tag, are read back without disturbing what follows them. */
module Framing {
  import opened Basics
  import opened Bits
  import opened Wire
  import opened Descriptor
  import opened Message
  import opened Encoding
  import opened Decoding
  import opened Locality
  import opened Validity
  import opened Restoring
  import opened RoundTrip

  // ---- Delimited messages -----------------------------------------------------------------------

  /** A message that comes back, and whose own length the decoder's 32 bits can express. */
  predicate Sendable(fields: seq<Field>, m: seq<Slot>): (sendable: bool)
    ensures sendable ==> Typed(fields, m)
  {
    Carried(fields, m) && Encode(fields, m).Success? && LengthFits(Encode(fields, m))
  }

  predicate AllSendable(fields: seq<Field>, ms: seq<seq<Slot>>) {
    forall k: nat :: k < |ms| ==> Sendable(fields, ms[k])
  }

  /** The outputs of pb_encode_delimited for each message, one after the other. */
  function EncodeStream(fields: seq<Field>, ms: seq<seq<Slot>>): (bs: seq<byte>)
    requires AllSendable(fields, ms)
  {
    if ms == [] then [] else EncDelimited(fields, ms[0]).value + EncodeStream(fields, ms[1..])
  }

  /** Messages read with pb_decode_delimited into the same struct until the bytes are used up. */
  function DecodeStream(fields: seq<Field>, was: seq<Slot>, bs: seq<byte>): Result<seq<seq<Slot>>>
    requires WellFormed(fields) && Typed(fields, was)
    decreases |bs|
  {
    if bs == [] then Success([])
    else
      match DecodeDelimited(fields, was, bs)
      case Err(e) => Failure(e)
      case Ok(m, rest) =>
        match DecodeStream(fields, m, rest)
        case Failure(e) => Failure(e)
        case Success(ms) => Success([m] + ms)
  }

  /** One delimited message, whatever follows it. */
  lemma DelimitedRoundTrip(fields: seq<Field>, m: seq<Slot>, was: seq<Slot>, t: seq<byte>)
    requires WellFormed(fields) && Sendable(fields, m) && Typed(fields, was)
    ensures EncDelimited(fields, m).Success? && EncDelimited(fields, m).value != []
    ensures var p := DecodeDelimited(fields, was, EncDelimited(fields, m).value + t);
            p.Ok? && p.rest == t && Same(fields, m, p.value)
  {
    CarriedRoundTrip(fields, m, was);
    var data := Encode(fields, m).value;
    assert EncDelimited(fields, m) == Success(Prefixed(data));
    assert |data| < TWO_32;
    hide WellFormed, Typed, Carried, Encode, Decode, Same, Delimited, Prefixed;
    PrefixedShorter(data);
    DelimitedOfPrefixed(data, t);
  }

  /** A concatenation of delimited messages decodes to the list of messages, and nothing is left. */
  lemma {:induction false} StreamRoundTrip(fields: seq<Field>, ms: seq<seq<Slot>>, was: seq<Slot>)
    requires WellFormed(fields) && Typed(fields, was) && AllSendable(fields, ms)
    ensures var r := DecodeStream(fields, was, EncodeStream(fields, ms));
            r.Success? && |r.value| == |ms| && forall k: nat :: k < |ms| ==> Same(fields, ms[k], r.value[k])
    decreases |ms|
  {
    if ms != [] {
      hide WellFormed, Typed, EncDelimited, DecodeDelimited, Same, Sendable;
      var first, rest := EncDelimited(fields, ms[0]).value, EncodeStream(fields, ms[1..]);
      DelimitedRoundTrip(fields, ms[0], was, rest);
      var m := DecodeDelimited(fields, was, first + rest).value;
      StreamRoundTrip(fields, ms[1..], m);
      StreamCons(fields, was, first, rest);
    }
  }

  lemma StreamCons(fields: seq<Field>, was: seq<Slot>, first: seq<byte>, rest: seq<byte>)
    requires WellFormed(fields) && Typed(fields, was) && first != []
    requires var p := DecodeDelimited(fields, was, first + rest); p.Ok? && p.rest == rest && Typed(fields, p.value)
    ensures var m, r := DecodeDelimited(fields, was, first + rest).value, DecodeStream(fields, was, first + rest);
            var tail := DecodeStream(fields, m, rest);
            tail.Success? ==> r == Success([m] + tail.value)
  {
    hide WellFormed, Typed, DecodeDelimited;
  }

  // ---- Null-terminated messages ----------------------------------------------------------------

  lemma ZeroTagStops(fields: seq<Field>, m: seq<Slot>, seen: set<nat>, t: seq<byte>)
    requires WellFormed(fields) && Typed(fields, m)
    ensures FieldLoop(fields, m, seen, [0] + t) == Done(m, seen, t, true)
  {
    var bs: seq<byte> := [0] + t;
    assert bs[1..] == t;
    assert DecodeTag(bs) == End(t);
    hide DecodeTag, FieldLoop, WellFormed, Typed;
    LoopStep(fields, m, seen, bs);
  }

  /** The output of pb_encode_nullterminated followed by any bytes: pb_decode returns the message
      and leaves exactly those bytes. */
  lemma NullTerminatedRoundTrip(fields: seq<Field>, m: seq<Slot>, was: seq<Slot>, t: seq<byte>)
    requires WellFormed(fields) && Carried(fields, m) && Typed(fields, was) && Encode(fields, m).Success?
    ensures var p := Decode(fields, was, Encode(fields, m).value + [0] + t);
            p.Ok? && p.rest == t && Same(fields, m, p.value)
  {
    hide *;
    var d, data := Defaults(fields, was), Encode(fields, m).value;
    DefaultsFresh(fields, was);
    DecodeDefaults(fields, was, data + [0] + t);
    CarriedMeans(fields, m);
    EncodedIsWhole(fields, m, d);
    var loop := FieldLoop(fields, d, {}, data);
    RestoredIsSame(fields, m, loop.m);
    ZeroTagStops(fields, loop.m, {}, t);
    assert data + [0] + t == data + ([0] + t) && loop.seen + {} == loop.seen;
    DecodeMerges(fields, d, data, [0] + t);
  }
}
