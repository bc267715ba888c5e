/** What a receiver makes of a multipart body: it splits it at the delimiters and reads the header lines of
    each part up to the blank line. */
module MultipartReader {
  import opened Basics
  import opened Multipart

  /** The headers and the body of a part, as they are read. */
  datatype Received = Received(headers: seq<Header>, body: seq<byte>)

  /** Header lines up to a blank line, and the body behind it. The name of a header ends at the first colon
      and space, the line at the first carriage return and line feed. */
  function ReadPart(bs: seq<byte>): Option<Received>
    decreases |bs|
  {
    if OccursAt([13, 10], bs, 0) then Some(Received([], bs[2..]))
    else
      var n := FindFrom([58, 32], bs, 0);
      if n == |bs| then None
      else
        var line := bs[n + 2..];
        var v := FindFrom([13, 10], line, 0);
        if v == |line| then None
        else
          match ReadPart(line[v + 2..])
          case None => None
          case Some(r) => Some(Received([Header(bs[..n], line[..v])] + r.headers, r.body))
  }

  function ReadParts(contents: seq<seq<byte>>): Option<seq<Received>> {
    if contents == [] then Some([])
    else
      match ReadPart(contents[0])
      case None => None
      case Some(r) =>
        match ReadParts(contents[1..])
        case None => None
        case Some(rs) => Some([r] + rs)
  }

  /** A whole body: split at the delimiters, then part by part. */
  function ReadBody(boundary: seq<byte>, bs: seq<byte>): Option<seq<Received>> {
    match Split(boundary, bs)
    case None => None
    case Some(contents) => ReadParts(contents)
  }

  /** Headers that a line can carry: no line breaks, and no colon in the name. */
  predicate Readable(headers: seq<Header>) {
    forall k: nat :: k < |headers| ==>
      13 !in headers[k].name && 58 !in headers[k].name && 13 !in headers[k].value
  }

  /** A mark that `front` cannot begin is found right behind it. */
  lemma FoundBehind(mark: seq<byte>, front: seq<byte>, rest: seq<byte>)
    requires |mark| > 0 && mark[0] !in front
    ensures FindFrom(mark, front + mark + rest, 0) == |front|
    ensures (front + mark + rest)[..|front|] == front && (front + mark + rest)[|front| + |mark|..] == rest
    ensures front != [] ==> !OccursAt(mark, front + mark + rest, 0)
  {
    var bs := front + mark + rest;
    assert OccursAt(mark, bs, |front|);
    assert forall j: nat :: j < |front| ==> bs[j] == front[j];
    assert forall j: nat :: OccursAt(mark, bs, j) ==> bs[j] == bs[j..j + |mark|][0] == mark[0];
  }

  lemma NoLineBreak(name: seq<byte>, rest: seq<byte>)
    requires 13 !in name
    ensures !OccursAt([13, 10], name + [58, 32] + rest, 0)
  {
    var bs := name + [58, 32] + rest;
    assert bs[0] == if name == [] then 58 else name[0];
    assert |bs| >= 2 && bs[0..2][0] == bs[0];
  }

  /** Reading what encodeHeaders wrote in front of a body. */
  lemma {:induction false} ContentRead(headers: seq<Header>, body: seq<byte>)
    requires Readable(headers)
    ensures ReadPart(EncodeHeaders(headers) + body) == Some(Received(headers, body))
    decreases |headers|
  {
    if headers == [] {
      NoHeaders(body);
    } else {
      var h, tail := headers[0], EncodeHeaders(headers[1..]) + body;
      assert Readable(headers[1..]);
      ContentRead(headers[1..], body);
      FirstHeader(headers, body);
      assert [h] + headers[1..] == headers;
      hide EncodeHeaders, FindFrom, OccursAt, Readable;
      HeaderRead(h, tail);
    }
  }

  lemma NoHeaders(body: seq<byte>)
    ensures ReadPart(EncodeHeaders([]) + body) == Some(Received([], body))
  {
    var bs := EncodeHeaders([]) + body;
    assert bs == [13, 10] + body;
    assert bs[0..2] == [13, 10] && bs[2..] == body;
  }

  lemma FirstHeader(headers: seq<Header>, body: seq<byte>)
    requires headers != []
    ensures EncodeHeaders(headers) + body
         == headers[0].name + [58, 32] + (headers[0].value + [13, 10] + (EncodeHeaders(headers[1..]) + body))
  {
    var n, v, tail := headers[0].name, headers[0].value, EncodeHeaderLines(headers[1..]);
    assert EncodeHeaderLines(headers) == n + [58, 32] + v + [13, 10] + tail;
    hide EncodeHeaderLines;
    Regroup(n, [58, 32], v, [13, 10], tail, [13, 10], body);
  }

  lemma Regroup(a: seq<byte>, b: seq<byte>, c: seq<byte>, d: seq<byte>, e: seq<byte>, f: seq<byte>, g: seq<byte>)
    ensures a + b + c + d + e + f + g == a + b + (c + d + (e + f + g))
  {}

  lemma HeaderRead(h: Header, tail: seq<byte>)
    requires 13 !in h.name && 58 !in h.name && 13 !in h.value && ReadPart(tail).Some?
    ensures var r := ReadPart(tail).value;
            ReadPart(h.name + [58, 32] + (h.value + [13, 10] + tail)) == Some(Received([h] + r.headers, r.body))
  {
    var line := h.value + [13, 10] + tail;
    NoLineBreak(h.name, line);
    FoundBehind([58, 32], h.name, line);
    FoundBehind([13, 10], h.value, tail);
    hide OccursAt, FindFrom;
  }

  /** What the sender put into the parts from `k` on. */
  function Sent(parts: seq<Part>, k: nat): (sent: seq<Received>)
    requires k <= |parts|
    ensures |sent| == |parts| - k
    ensures forall i: nat :: i < |sent| ==> sent[i] == Received(parts[k + i].headers, parts[k + i].body)
    decreases |parts| - k
  {
    if k == |parts| then [] else [Received(parts[k].headers, parts[k].body)] + Sent(parts, k + 1)
  }

  lemma {:induction false} PartsRead(parts: seq<Part>, k: nat)
    requires k <= |parts| && forall i: nat :: i < |parts| ==> Readable(parts[i].headers)
    ensures ReadParts(Contents(parts, k)) == Some(Sent(parts, k))
    decreases |parts| - k
  {
    hide Readable, ReadPart, EncodeHeaders;
    if k < |parts| {
      ContentRead(parts[k].headers, parts[k].body);
      PartsRead(parts, k + 1);
      assert Contents(parts, k)[1..] == Contents(parts, k + 1);
    }
  }

  /** The delimiter and the close are those of section 5.1.1 of RFC 2046. */
  lemma DelimiterBytes(boundary: seq<byte>)
    ensures Delimiter(boundary) == [13, 10, 45, 45] + boundary
    ensures BoundaryData(boundary, Initial) == [45, 45] + boundary + [13, 10]
    ensures BoundaryData(boundary, Encapsulated) == Delimiter(boundary) + [13, 10]
    ensures BoundaryData(boundary, Final) == Delimiter(boundary) + [45, 45, 13, 10]
  {
    assert [13, 10] + [45, 45] == [13, 10, 45, 45];
    assert Delimiter(boundary) + [45, 45] + [13, 10] == Delimiter(boundary) + [45, 45, 13, 10];
  }

  /** A receiver of the whole body gets the headers and the body of every part, in order. */
  lemma BodyRead(boundary: seq<byte>, parts: seq<Part>)
    requires 13 !in boundary && Unmarked(parts) && parts != []
    requires forall i: nat :: i < |parts| ==>
               Readable(parts[i].headers) && !Occurs([13, 10, 45, 45] + boundary, Content(parts[i]))
    ensures ReadBody(boundary, Encoded(boundary, parts)) == Some(Sent(parts, 0))
  {
    DelimiterBytes(boundary);
    hide Unmarked, Readable, Occurs, Content, Delimiter, Split, Encoded;
    SplitEncoded(boundary, parts);
    PartsRead(parts, 0);
  }
}
