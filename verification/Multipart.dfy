/** Multipart bodies: the bytes that MultipartFormData.swift produces for a list of parts, and why
    a receiver that splits them at the delimiters of section 5.1.1 of RFC 2046 gets the parts back. */
module Multipart {
  import opened Basics

  const CR: byte := 13
  const LF: byte := 10
  const DASH: byte := 45
  const CRLF: seq<byte> := [CR, LF]
  const DASHES: seq<byte> := [DASH, DASH]
  /** A colon and a space, between the name and the value of a header. */
  const SEPARATOR: seq<byte> := [58, 32]

  datatype Header = Header(name: seq<byte>, value: seq<byte>)

  /** One body part, with the flags that say which boundaries it writes. */
  datatype Part = Part(headers: seq<Header>, body: seq<byte>, hasInitialBoundary: bool, hasFinalBoundary: bool)

  datatype BoundaryType = Initial | Encapsulated | Final

  function BoundaryData(boundary: seq<byte>, t: BoundaryType): seq<byte> {
    match t
    case Initial => DASHES + boundary + CRLF
    case Encapsulated => CRLF + DASHES + boundary + CRLF
    case Final => CRLF + DASHES + boundary + DASHES + CRLF
  }

  function EncodeHeaderLines(headers: seq<Header>): seq<byte> {
    if headers == [] then []
    else headers[0].name + SEPARATOR + headers[0].value + CRLF + EncodeHeaderLines(headers[1..])
  }

  function EncodeHeaders(headers: seq<Header>): seq<byte> {
    EncodeHeaderLines(headers) + CRLF
  }

  /** The bytes of a part between its delimiters. */
  function Content(p: Part): seq<byte> {
    EncodeHeaders(p.headers) + p.body
  }

  function EncodePart(boundary: seq<byte>, p: Part): seq<byte> {
    BoundaryData(boundary, if p.hasInitialBoundary then Initial else Encapsulated)
    + EncodeHeaders(p.headers) + p.body
    + if p.hasFinalBoundary then BoundaryData(boundary, Final) else []
  }

  function EncodeParts(boundary: seq<byte>, parts: seq<Part>): seq<byte> {
    if parts == [] then []
    else EncodeParts(boundary, parts[..|parts| - 1]) + EncodePart(boundary, parts[|parts| - 1])
  }

  /** The parts as one encoding call marks them: the first and the last get their flags. */
  function Marked(parts: seq<Part>): (marked: seq<Part>)
    ensures |marked| == |parts|
  {
    if parts == [] then []
    else
      var first := parts[0 := parts[0].(hasInitialBoundary := true)];
      first[|first| - 1 := first[|first| - 1].(hasFinalBoundary := true)]
  }

  function Encoded(boundary: seq<byte>, parts: seq<Part>): seq<byte> {
    EncodeParts(boundary, Marked(parts))
  }

  // ---- Splitting at the delimiters ---------------------------------------------------------------

  /** What separates two parts: a line break, two dashes and the boundary. */
  function Delimiter(boundary: seq<byte>): seq<byte> {
    CRLF + DASHES + boundary
  }

  predicate OccursAt(d: seq<byte>, bs: seq<byte>, k: nat) {
    k + |d| <= |bs| && bs[k..k + |d|] == d
  }

  predicate Occurs(d: seq<byte>, bs: seq<byte>) {
    exists k: nat :: k <= |bs| && OccursAt(d, bs, k)
  }

  /** The first position at or after `k` where `d` occurs, or the length when it does not. */
  function FindFrom(d: seq<byte>, bs: seq<byte>, k: nat): (r: nat)
    requires k <= |bs|
    ensures k <= r <= |bs|
    ensures forall j: nat :: k <= j < r ==> !OccursAt(d, bs, j)
    ensures r < |bs| ==> OccursAt(d, bs, r)
    decreases |bs| - k
  {
    if k == |bs| || OccursAt(d, bs, k) then k else FindFrom(d, bs, k + 1)
  }

  /** The parts in `bs`, which starts behind a delimiter: after two dashes there are none; a line
      break starts one, up to the next delimiter. */
  function SplitAfter(boundary: seq<byte>, bs: seq<byte>): Option<seq<seq<byte>>>
    decreases |bs|
  {
    if OccursAt(DASHES, bs, 0) then Some([])
    else if !OccursAt(CRLF, bs, 0) then None
    else
      var d, content := Delimiter(boundary), bs[2..];
      var k := FindFrom(d, content, 0);
      if k == |content| then None
      else
        match SplitAfter(boundary, content[k + |d|..])
        case None => None
        case Some(parts) => Some([content[..k]] + parts)
  }

  /** The parts of a whole body, which starts with two dashes and the boundary. */
  function Split(boundary: seq<byte>, bs: seq<byte>): Option<seq<seq<byte>>> {
    if OccursAt(DASHES + boundary, bs, 0) then SplitAfter(boundary, bs[2 + |boundary|..]) else None
  }

  // ---- Parts that one call encodes ------------------------------------------------------------------

  /** Parts that no earlier call has marked. */
  predicate Unmarked(parts: seq<Part>) {
    forall k: nat :: k < |parts| ==> !parts[k].hasInitialBoundary && !parts[k].hasFinalBoundary
  }

  /** The contents of the parts from `k` on, each behind a delimiter and a line break, and the close
      of the body. */
  function Tail(boundary: seq<byte>, parts: seq<Part>, k: nat): seq<byte>
    requires k <= |parts|
    decreases |parts| - k
  {
    if k == |parts| then Delimiter(boundary) + DASHES + CRLF
    else Delimiter(boundary) + CRLF + Content(parts[k]) + Tail(boundary, parts, k + 1)
  }

  /** What stands in front of the `k`-th part. */
  function Opening(boundary: seq<byte>, k: nat): seq<byte> {
    if k == 1 then DASHES + boundary else Delimiter(boundary)
  }

  /** The first `k` parts, without the close. */
  function Front(boundary: seq<byte>, parts: seq<Part>, k: nat): seq<byte>
    requires k <= |parts|
  {
    if k == 0 then []
    else Front(boundary, parts, k - 1) + Opening(boundary, k) + CRLF + Content(parts[k - 1])
  }

  lemma {:induction false} EncodePartsIsFront(boundary: seq<byte>, parts: seq<Part>, k: nat)
    requires Unmarked(parts) && 0 < k < |parts|
    ensures EncodeParts(boundary, Marked(parts)[..k]) == Front(boundary, parts, k)
  {
    hide *;
    EncodedStep(boundary, parts, k);
    FrontStep(boundary, parts, k);
    if k > 1 { EncodePartsIsFront(boundary, parts, k - 1); }
    AppendAll(Front(boundary, parts, k - 1), Opening(boundary, k), CRLF, Content(parts[k - 1]));
  }

  lemma EncodedStep(boundary: seq<byte>, parts: seq<Part>, k: nat)
    requires Unmarked(parts) && 0 < k < |parts|
    ensures k == 1 ==> EncodeParts(boundary, Marked(parts)[..k - 1]) == Front(boundary, parts, k - 1)
    ensures EncodeParts(boundary, Marked(parts)[..k])
         == EncodeParts(boundary, Marked(parts)[..k - 1]) + (Opening(boundary, k) + CRLF + Content(parts[k - 1]))
  {
    hide *;
    MarkedPart(parts, k);
    OpenedPart(boundary, parts[k - 1], k);
    EncodePartsStep(boundary, Marked(parts), k - 1);
    NoParts(boundary, parts);
  }

  lemma NoParts(boundary: seq<byte>, parts: seq<Part>)
    ensures EncodeParts(boundary, Marked(parts)[..0]) == [] == Front(boundary, parts, 0)
  {}

  lemma MarkedPart(parts: seq<Part>, k: nat)
    requires Unmarked(parts) && 0 < k < |parts|
    ensures !parts[k - 1].hasFinalBoundary && Marked(parts)[k - 1] == parts[k - 1].(hasInitialBoundary := k == 1)
  {}

  lemma EncodePartsStep(boundary: seq<byte>, parts: seq<Part>, i: nat)
    requires i < |parts|
    ensures EncodeParts(boundary, parts[..i + 1]) == EncodeParts(boundary, parts[..i]) + EncodePart(boundary, parts[i])
  {
    hide EncodePart;
    assert parts[..i + 1][..i] == parts[..i];
  }

  lemma OpenedPart(boundary: seq<byte>, p: Part, k: nat)
    requires !p.hasFinalBoundary
    ensures EncodePart(boundary, p.(hasInitialBoundary := k == 1)) == Opening(boundary, k) + CRLF + Content(p)
  {
    hide EncodeHeaders;
    var headers := EncodeHeaders(p.headers);
    assert BoundaryData(boundary, if k == 1 then Initial else Encapsulated) == Opening(boundary, k) + CRLF;
    AppendThree(Opening(boundary, k) + CRLF, headers, p.body);
  }

  lemma AppendThree(a: seq<byte>, b: seq<byte>, c: seq<byte>)
    ensures a + b + c + [] == a + (b + c)
  {}

  lemma FrontStep(boundary: seq<byte>, parts: seq<Part>, k: nat)
    requires 0 < k <= |parts|
    ensures Front(boundary, parts, k)
         == Front(boundary, parts, k - 1) + Opening(boundary, k) + CRLF + Content(parts[k - 1])
  {
    hide Delimiter, Content;
  }

  lemma AppendAll(a: seq<byte>, b: seq<byte>, c: seq<byte>, d: seq<byte>)
    ensures a + (b + c + d) == a + b + c + d
  {}

  /** The whole body is the parts in front of the close. */
  lemma EncodedIsFront(boundary: seq<byte>, parts: seq<Part>)
    requires Unmarked(parts) && parts != []
    ensures Encoded(boundary, parts) == Front(boundary, parts, |parts|) + Tail(boundary, parts, |parts|)
  {
    var n, marked := |parts|, Marked(parts);
    var start := Opening(boundary, n);
    var front := EncodeParts(boundary, marked[..n - 1]);
    LastPart(boundary, marked[n - 1], n == 1);
    assert n == 1 ==> front == [] == Front(boundary, parts, 0);
    assert Tail(boundary, parts, n) == Delimiter(boundary) + DASHES + CRLF;
    assert Front(boundary, parts, n) == Front(boundary, parts, n - 1) + start + CRLF + Content(parts[n - 1]);
    assert Content(marked[n - 1]) == Content(parts[n - 1]);
    hide BoundaryData, Content, Delimiter, Tail, Front;
    if n > 1 {
      EncodePartsIsFront(boundary, parts, n - 1);
    }
    hide EncodeParts, EncodePart, Marked;
    AppendAll(front, start, CRLF, Content(parts[n - 1]));
    Associative(front, start + CRLF + Content(parts[n - 1]), Tail(boundary, parts, n));
  }

  lemma LastPart(boundary: seq<byte>, p: Part, only: bool)
    requires p.hasFinalBoundary && p.hasInitialBoundary == only
    ensures EncodePart(boundary, p)
         == (if only then DASHES + boundary else Delimiter(boundary)) + CRLF + Content(p)
            + (Delimiter(boundary) + DASHES + CRLF)
  {
    hide EncodeHeaderLines;
  }

  lemma Associative(a: seq<byte>, b: seq<byte>, c: seq<byte>)
    ensures a + (b + c) == (a + b) + c
  {}

  lemma {:induction false} FrontAndTail(boundary: seq<byte>, parts: seq<Part>, k: nat)
    requires 0 < k <= |parts|
    ensures Front(boundary, parts, k) + Tail(boundary, parts, k)
         == DASHES + boundary + CRLF + Content(parts[0]) + Tail(boundary, parts, 1)
    decreases k
  {
    hide *;
    FrontStep(boundary, parts, k);
    TailUnfolds(boundary, parts, k - 1);
    OpeningMeans(boundary, k);
    var front, c, tail := Front(boundary, parts, k - 1), Content(parts[k - 1]), Tail(boundary, parts, k);
    if k > 1 {
      FrontAndTail(boundary, parts, k - 1);
      Regrouped(front, Delimiter(boundary), CRLF, c, tail);
    } else {
      NoParts(boundary, parts);
      assert [] + (DASHES + boundary) == DASHES + boundary;
    }
  }

  lemma OpeningMeans(boundary: seq<byte>, k: nat)
    ensures Opening(boundary, k) == if k == 1 then DASHES + boundary else Delimiter(boundary)
  {}

  lemma Regrouped(a: seq<byte>, b: seq<byte>, c: seq<byte>, d: seq<byte>, e: seq<byte>)
    ensures a + b + c + d + e == a + (b + c + d + e)
  {}

  lemma TailUnfolds(boundary: seq<byte>, parts: seq<Part>, k: nat)
    requires k < |parts|
    ensures Tail(boundary, parts, k) == Delimiter(boundary) + CRLF + Content(parts[k]) + Tail(boundary, parts, k + 1)
  {
    hide Delimiter, Content;
  }

  // ---- Unique decodability ---------------------------------------------------------------------------

  /** When the boundary has no CR, the delimiter in front of the next part is where the first
      occurrence is, unless the delimiter occurs within the part. */
  lemma DelimiterEndsContent(boundary: seq<byte>, content: seq<byte>, rest: seq<byte>)
    requires CR !in boundary
    ensures var d := Delimiter(boundary);
            FindFrom(d, content + d + rest, 0) == |content| <==> !Occurs(d, content)
    ensures FindFrom(Delimiter(boundary), content + Delimiter(boundary) + rest, 0) <= |content|
  {
    var d := Delimiter(boundary);
    var bs := content + d + rest;
    var r := FindFrom(d, bs, 0);
    assert bs[|content|..|content| + |d|] == d;
    assert OccursAt(d, bs, |content|);
    if r < |content| {
      assert OccursAt(d, bs, r);
      if r + |d| <= |content| {
        assert content[r..r + |d|] == bs[r..r + |d|];
        assert OccursAt(d, content, r);
      } else {
        NoStraddle(boundary, content, rest, r);
      }
    }
    if Occurs(d, content) {
      var k: nat :| k <= |content| && OccursAt(d, content, k);
      assert content[k..k + |d|] == bs[k..k + |d|];
      assert OccursAt(d, bs, k);
    }
  }

  /** The delimiter does not occur across the end of a content. */
  lemma NoStraddle(boundary: seq<byte>, content: seq<byte>, rest: seq<byte>, r: nat)
    requires CR !in boundary && r < |content| < r + |Delimiter(boundary)|
    ensures !OccursAt(Delimiter(boundary), content + Delimiter(boundary) + rest, r)
  {
    var d := Delimiter(boundary);
    var bs, j := content + d + rest, |content| - r;
    NoSecondCR(boundary, j);
    assert bs[|content|] == d[0] == CR;
    assert r + |d| <= |bs| ==> bs[r..r + |d|][j] == bs[r + j];
  }

  lemma NoSecondCR(boundary: seq<byte>, k: nat)
    requires CR !in boundary && 0 < k < |Delimiter(boundary)|
    ensures Delimiter(boundary)[k] != CR
  {
    if k >= 4 {
      assert Delimiter(boundary)[k] == boundary[k - 4];
    }
  }

  /** The contents of the parts from `k` on. */
  function Contents(parts: seq<Part>, k: nat): (cs: seq<seq<byte>>)
    requires k <= |parts|
    ensures |cs| == |parts| - k
    decreases |parts| - k
  {
    if k == |parts| then [] else [Content(parts[k])] + Contents(parts, k + 1)
  }

  lemma {:induction false} ContentsAt(parts: seq<Part>, k: nat, j: nat)
    requires k <= j < |parts|
    ensures Contents(parts, k)[j - k] == Content(parts[j])
    decreases j - k
  {
    if k < j { ContentsAt(parts, k + 1, j); }
  }

  /** No content contains the delimiter. */
  predicate Separable(boundary: seq<byte>, parts: seq<Part>, k: nat)
    requires k <= |parts|
  {
    forall j: nat :: k <= j < |parts| ==> !Occurs(Delimiter(boundary), Content(parts[j]))
  }

  /** Splitting behind the delimiter in front of part `k`. */
  lemma {:induction false} SplitTail(boundary: seq<byte>, parts: seq<Part>, k: nat)
    requires CR !in boundary && k <= |parts|
    ensures SplitAfter(boundary, Tail(boundary, parts, k)[|Delimiter(boundary)|..]) == Some(Contents(parts, k))
        <==> Separable(boundary, parts, k)
    decreases |parts| - k
  {
    var d, tail := Delimiter(boundary), Tail(boundary, parts, k);
    if k == |parts| {
      assert tail[|d|..] == DASHES + CRLF;
      assert OccursAt(DASHES, tail[|d|..], 0);
    } else {
      var content, next := Content(parts[k]), Tail(boundary, parts, k + 1);
      TailStarts(boundary, parts, k + 1);
      TailStep(d, content, next);
      assert Contents(parts, k) == [content] + Contents(parts, k + 1);
      assert tail == d + CRLF + content + next;
      hide *;
      SplitTail(boundary, parts, k + 1);
      SplitMore(boundary, parts, k, next[|d|..]);
    }
  }

  /** The content of part `k`, with the parts behind it already known to come out. */
  lemma SplitMore(boundary: seq<byte>, parts: seq<Part>, k: nat, rest: seq<byte>)
    requires CR !in boundary && k < |parts|
    requires SplitAfter(boundary, rest) == Some(Contents(parts, k + 1)) <==> Separable(boundary, parts, k + 1)
    ensures var content := Content(parts[k]);
            (SplitAfter(boundary, CRLF + content + Delimiter(boundary) + rest)
              == Some([content] + Contents(parts, k + 1)))
            <==> Separable(boundary, parts, k)
  {
    hide *;
    var content := Content(parts[k]);
    var bs := CRLF + content + Delimiter(boundary) + rest;
    SplitOne(boundary, content, rest);
    SameParts(boundary, parts, k);
    Glue(content, SplitAfter(boundary, bs), SplitAfter(boundary, rest), Contents(parts, k + 1),
         Occurs(Delimiter(boundary), content), Separable(boundary, parts, k + 1));
  }

  lemma Glue(content: seq<byte>, r: Option<seq<seq<byte>>>, others: Option<seq<seq<byte>>>, contents: seq<seq<byte>>,
             inside: bool, separable: bool)
    requires others == Some(contents) <==> separable
    requires !inside ==> r == if others.None? then None else Some([content] + others.value)
    requires inside ==> r.None? || (r.value != [] && r.value[0] != content)
    ensures r == Some([content] + contents) <==> !inside && separable
  {
    if !inside && others.Some? && [content] + others.value == [content] + contents {
      assert ([content] + others.value)[1..] == others.value && ([content] + contents)[1..] == contents;
    }
  }

  lemma TailStep(d: seq<byte>, content: seq<byte>, next: seq<byte>)
    requires |d| <= |next| && next == d + next[|d|..]
    ensures (d + CRLF + content + next)[|d|..] == CRLF + content + d + next[|d|..]
  {
    assert d + CRLF + content + next == d + (CRLF + content + next);
    assert CRLF + content + next == CRLF + content + d + next[|d|..];
  }

  lemma TailStarts(boundary: seq<byte>, parts: seq<Part>, k: nat)
    requires k <= |parts|
    ensures |Delimiter(boundary)| <= |Tail(boundary, parts, k)|
    ensures Tail(boundary, parts, k) == Delimiter(boundary) + Tail(boundary, parts, k)[|Delimiter(boundary)|..]
  {}

  lemma SameParts(boundary: seq<byte>, parts: seq<Part>, k: nat)
    requires k < |parts|
    ensures Separable(boundary, parts, k) <==>
            !Occurs(Delimiter(boundary), Content(parts[k])) && Separable(boundary, parts, k + 1)
  {}

  /** One part off the front: it comes out whole exactly when the delimiter is not in it. */
  lemma SplitOne(boundary: seq<byte>, content: seq<byte>, rest: seq<byte>)
    requires CR !in boundary
    ensures var r := SplitAfter(boundary, CRLF + content + Delimiter(boundary) + rest);
            var others := SplitAfter(boundary, rest);
            && (!Occurs(Delimiter(boundary), content) ==>
                  r == if others.None? then None else Some([content] + others.value))
            && (Occurs(Delimiter(boundary), content) ==> r.None? || (r.value != [] && r.value[0] != content))
  {
    var d := Delimiter(boundary);
    var bs := CRLF + content + d + rest;
    assert bs[2..] == content + d + rest;
    assert bs[..2] == CRLF && bs[0..0 + |CRLF|] == CRLF;
    assert bs[0] == CR;
    DelimiterEndsContent(boundary, content, rest);
    var k := FindFrom(d, bs[2..], 0);
    hide Occurs, FindFrom;
    if k == |content| {
      assert bs[2..][..k] == content && bs[2..][k + |d|..] == rest;
    }
  }

  lemma HeadStep(start: seq<byte>, content: seq<byte>, d: seq<byte>, next: seq<byte>)
    requires |d| <= |next| && next == d + next[|d|..]
    ensures OccursAt(start, start + CRLF + content + next, 0)
    ensures (start + CRLF + content + next)[|start|..] == CRLF + content + d + next[|d|..]
  {
    assert start + CRLF + content + next == start + (CRLF + content + d + next[|d|..]);
  }

  lemma SplitStart(boundary: seq<byte>, bs: seq<byte>)
    requires OccursAt(DASHES + boundary, bs, 0)
    ensures |DASHES + boundary| <= |bs|
    ensures Split(boundary, bs) == SplitAfter(boundary, bs[|DASHES + boundary|..])
  {}

  lemma EncodedShape(boundary: seq<byte>, parts: seq<Part>)
    requires Unmarked(parts) && parts != []
    ensures Encoded(boundary, parts) == DASHES + boundary + CRLF + Content(parts[0]) + Tail(boundary, parts, 1)
    ensures Contents(parts, 0) == [Content(parts[0])] + Contents(parts, 1)
  {
    EncodedIsFront(boundary, parts);
    FrontAndTail(boundary, parts, |parts|);
  }

  /** Multipart output is uniquely decodable: for any non-empty list of parts and a boundary without
      CR, splitting the output of one encoding call gives exactly the contents of the parts, if and
      only if the delimiter does not occur in any of them. */
  lemma SplitEncoded(boundary: seq<byte>, parts: seq<Part>)
    requires CR !in boundary && Unmarked(parts) && parts != []
    ensures Split(boundary, Encoded(boundary, parts)) == Some(Contents(parts, 0)) <==> Separable(boundary, parts, 0)
  {
    hide *;
    var start, d, content, next := DASHES + boundary, Delimiter(boundary), Content(parts[0]), Tail(boundary, parts, 1);
    EncodedShape(boundary, parts);
    TailStarts(boundary, parts, 1);
    HeadStep(start, content, d, next);
    SplitStart(boundary, Encoded(boundary, parts));
    SplitTail(boundary, parts, 1);
    SplitMore(boundary, parts, 0, next[|d|..]);
  }
}
