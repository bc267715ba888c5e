/** The codec as a client calls it: a buffer of the size that pb_get_encoded_size reports, pb_encode
    into it, and pb_decode of what it holds. */
module EndToEnd {
  import opened Basics
  import opened Bits
  import opened Wire
  import opened Descriptor
  import opened Message
  import opened Encoding
  import opened Decoding
  import opened Validity
  import opened RoundTrip
  import opened InputStream
  import opened OutputStream
  import Encoder
  import Decoder

  /** Encodes a message into a buffer that it fills to the last byte. */
  method Serialize(fields: seq<Field>, src: seq<Slot>) returns (buffer: array<byte>)
    requires WellFormed(fields) && Valid(fields, src)
    ensures fresh(buffer) && Encode(fields, src) == Success(buffer[..])
  {
    ValidEncodesFrom(fields, src, 0);
    hide Encode, Valid, Typed, WellFormed;
    var size := Encoder.PbGetEncodedSize(fields, src);
    buffer := new byte[size.value];
    var stream := new OStream.FromBuffer(buffer, size.value);
    ghost var before := stream.Now();
    var status := Encoder.PbEncode(stream, fields, src);
    WholeBuffer(before.bytes, Encode(fields, src).value);
  }

  /** Encodes a struct into a buffer of any size: it succeeds exactly when the message can be written and
      fits, and leaves the bytes behind it alone. */
  method SerializeInto(fields: seq<Field>, src: seq<Slot>, buffer: array<byte>) returns (r: Result<nat>)
    requires WellFormed(fields) && Typed(fields, src)
    modifies buffer
    ensures r.Success? <==> Encode(fields, src).Success? && |Encode(fields, src).value| <= buffer.Length
    ensures r.Success? ==> r.value == |Encode(fields, src).value|
                           && buffer[..] == Encode(fields, src).value + old(buffer[r.value..])
    ensures r.Failure? && Encode(fields, src).Success? ==> r == Failure(StreamFull)
  {
    hide Encode, Typed, WellFormed;
    var stream := new OStream.FromBuffer(buffer, buffer.Length);
    var status := Encoder.PbEncode(stream, fields, src);
    if status.Failure? {
      return Failure(status.error);
    }
    SplicedAtStart(old(buffer[..]), Encode(fields, src).value);
    return Success(stream.bytesWritten);
  }

  lemma SplicedAtStart(bytes: seq<byte>, data: seq<byte>)
    requires |data| <= |bytes|
    ensures Spliced(bytes, 0, data) == data + bytes[|data|..]
  {}

  lemma WholeBuffer(bytes: seq<byte>, data: seq<byte>)
    requires |bytes| == |data|
    ensures Spliced(bytes, 0, data) == data
  {}

  /** Decodes a serialized message into `dest`. */
  method Parse(fields: seq<Field>, buffer: array<byte>, dest: array<Slot>, ghost src: seq<Slot>) returns (r: Result<()>)
    requires WellFormed(fields) && Carried(fields, src) && Typed(fields, dest[..])
    requires Encode(fields, src) == Success(buffer[..])
    modifies dest
    ensures r.Success? && Same(fields, src, dest[..])
  {
    CarriedRoundTrip(fields, src, dest[..]);
    hide Encode, Decode, Typed, WellFormed, Same, Carried;
    var stream := new IStream.FromBuffer(buffer[..]);
    r := Decoder.PbDecode(stream, fields, dest);
  }
}
