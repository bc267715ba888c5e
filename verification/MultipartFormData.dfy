/** MultipartFormData.swift: the in-memory encoder and the streamed writer, over input streams that
    hand out their bytes in pieces of any size and output streams that take them in such pieces. */
module MultipartFormData {
  import opened Basics
  import opened Multipart

  /** Bytes read from an input stream at a time. */
  const STREAM_BUFFER_SIZE: nat := 1024

  datatype EncodingError =
    | BodyPartInvalid(code: int)
    | OutputStreamFileAlreadyExists
    | OutputStreamURLInvalid
    | OutputStreamCreationFailed
    | InputStreamReadFailed
    | OutputStreamWriteFailed

  datatype Attempt<+T> = Done(value: T) | Thrown(error: EncodingError)

  /** An input stream. How much a read returns, and whether it fails, is up to the stream; only a
      faulty one fails. At the end it may claim to have more, and then has nothing. */
  class ByteSource {
    const faulty: bool
    var rest: seq<byte>

    constructor (data: seq<byte>, faulty: bool)
      ensures rest == data && this.faulty == faulty
    {
      rest, this.faulty := data, faulty;
    }

    method HasBytesAvailable() returns (more: bool)
      ensures rest != [] ==> more
    {
      more :| rest != [] ==> more;
    }

    method Read(maxLength: nat) returns (buffer: seq<byte>, error: bool)
      requires maxLength > 0
      modifies this
      ensures error ==> faulty && rest == old(rest)
      ensures !error ==> old(rest) == buffer + rest && |buffer| <= maxLength && (old(rest) != [] ==> buffer != [])
    {
      error :| error ==> faulty;
      if error {
        return [], true;
      }
      var least := if rest == [] then 0 else 1;
      var n: nat :| least <= n <= |rest| && n <= maxLength;
      buffer := rest[..n];
      rest := rest[n..];
    }
  }

  /** An output stream. Whether it has room is up to the stream, each time it is asked; a write takes
      as much as it likes, but something. It counts how often it had no room. */
  class ByteSink {
    const faulty: bool
    var written: seq<byte>
    ghost var refusals: nat

    constructor (faulty: bool)
      ensures written == [] && refusals == 0 && this.faulty == faulty
    {
      written, refusals, this.faulty := [], 0, faulty;
    }

    method HasSpaceAvailable() returns (space: bool)
      modifies this`refusals
      ensures refusals == old(refusals) + if space then 0 else 1
    {
      space :| true;
      refusals := refusals + if space then 0 else 1;
    }

    method Write(buffer: seq<byte>, maxLength: nat) returns (n: nat, error: bool)
      requires 0 < maxLength <= |buffer|
      modifies this`written
      ensures error ==> faulty
      ensures !error ==> 0 < n <= maxLength && written == old(written) + buffer[..n]
    {
      error :| error ==> faulty;
      if error {
        return 0, true;
      }
      n :| 0 < n <= maxLength;
      written := written + buffer[..n];
    }
  }

  // ---- What a stream received of a list of buffers --------------------------------------------------

  function Joined(buffers: seq<seq<byte>>): seq<byte> {
    if buffers == [] then [] else Joined(buffers[..|buffers| - 1]) + buffers[|buffers| - 1]
  }

  /** How many of the buffers are not in full among the pieces. */
  function Cut(buffers: seq<seq<byte>>, pieces: seq<seq<byte>>): (n: nat)
    requires |buffers| == |pieces|
  {
    if buffers == [] then 0
    else
      var last := |buffers| - 1;
      Cut(buffers[..last], pieces[..last]) + if pieces[last] == buffers[last] then 0 else 1
  }

  /** Each piece is what one buffer starts with. */
  predicate Pieces(buffers: seq<seq<byte>>, pieces: seq<seq<byte>>) {
    |pieces| == |buffers| && forall k: nat :: k < |buffers| ==> pieces[k] <= buffers[k]
  }

  lemma JoinedMore(buffers: seq<seq<byte>>, buffer: seq<byte>)
    ensures Joined(buffers + [buffer]) == Joined(buffers) + buffer
  {
    assert (buffers + [buffer])[..|buffers|] == buffers;
  }

  lemma {:induction false} JoinedBoth(a: seq<seq<byte>>, b: seq<seq<byte>>)
    ensures Joined(a + b) == Joined(a) + Joined(b)
    decreases |b|
  {
    if b == [] {
      assert a + b == a && Joined(a) + [] == Joined(a);
    } else {
      var init, last := b[..|b| - 1], b[|b| - 1];
      assert (a + b)[..|a + b| - 1] == a + init;
      JoinedBoth(a, init);
      assert Joined(a) + Joined(init) + last == Joined(a) + (Joined(init) + last);
    }
  }

  lemma CutMore(buffers: seq<seq<byte>>, pieces: seq<seq<byte>>, buffer: seq<byte>, piece: seq<byte>)
    requires |buffers| == |pieces|
    ensures Cut(buffers + [buffer], pieces + [piece]) == Cut(buffers, pieces) + if piece == buffer then 0 else 1
  {
    assert (buffers + [buffer])[..|buffers|] == buffers && (pieces + [piece])[..|pieces|] == pieces;
  }

  lemma {:induction false} CutBoth(a: seq<seq<byte>>, x: seq<seq<byte>>, b: seq<seq<byte>>, y: seq<seq<byte>>)
    requires |a| == |x| && |b| == |y|
    ensures Cut(a + b, x + y) == Cut(a, x) + Cut(b, y)
    decreases |b|
  {
    if b == [] {
      assert a + b == a && x + y == x;
    } else {
      var n := |b| - 1;
      assert (a + b)[..|a| + n] == a + b[..n] && (x + y)[..|x| + n] == x + y[..n];
      CutBoth(a, x, b[..n], y[..n]);
    }
  }

  /** The pieces add up to the buffers exactly when none is cut. */
  lemma {:induction false} UncutIsWhole(buffers: seq<seq<byte>>, pieces: seq<seq<byte>>)
    requires Pieces(buffers, pieces)
    ensures |Joined(pieces)| <= |Joined(buffers)|
    ensures Cut(buffers, pieces) == 0 ==> Joined(pieces) == Joined(buffers)
    ensures Cut(buffers, pieces) > 0 ==> |Joined(pieces)| < |Joined(buffers)|
    decreases |buffers|
  {
    if buffers != [] {
      var n := |buffers| - 1;
      UncutIsWhole(buffers[..n], pieces[..n]);
    }
  }

  /** A buffer that is cut in the middle leaves a hole: what arrives need not be what the whole starts
      with. */
  lemma HoleIsNoPrefix(a: byte, b: byte, c: byte)
    requires b != c
    ensures var buffers, pieces := [[a, b], [c]], [[a], [c]];
            Pieces(buffers, pieces) && Joined(pieces) == [a, c] && !(Joined(pieces) <= Joined(buffers))
  {
    hide Joined;
    JoinedTwo([a, b], [c]);
    JoinedTwo([a], [c]);
    assert ([a, b] + [c])[1] == b && ([a] + [c])[1] == c;
  }

  lemma JoinedTwo(x: seq<byte>, y: seq<byte>)
    ensures Joined([x, y]) == x + y
  {
    hide *;
    NothingJoined();
    JoinedMore([], x);
    JoinedMore([x], y);
    assert [] + [x] == [x] && [x] + [y] == [x, y] && [] + x == x;
  }

  lemma NothingJoined()
    ensures Joined([]) == []
  {}

  class BodyPart {
    const headers: seq<Header>
    const bodyStream: ByteSource
    var hasInitialBoundary: bool
    var hasFinalBoundary: bool

    constructor (headers: seq<Header>, bodyStream: ByteSource)
      ensures this.headers == headers && this.bodyStream == bodyStream && !hasInitialBoundary && !hasFinalBoundary
    {
      this.headers, this.bodyStream := headers, bodyStream;
      hasInitialBoundary, hasFinalBoundary := false, false;
    }

    ghost function View(): Part
      reads this, bodyStream
    {
      Part(headers, bodyStream.rest, hasInitialBoundary, hasFinalBoundary)
    }
  }

  class FormData {
    const boundary: seq<byte>
    var bodyParts: seq<BodyPart>
    var bodyPartError: Option<EncodingError>
    /** The parts and their streams. */
    ghost var Repr: set<object>

    /** Each part is its own object, and has its own stream. */
    ghost predicate Valid()
      reads this
    {
      && this !in Repr
      && (forall i: nat :: i < |bodyParts| ==> bodyParts[i] in Repr && bodyParts[i].bodyStream in Repr)
      && (forall i: nat, j: nat :: i < j < |bodyParts| ==>
            bodyParts[i] != bodyParts[j] && bodyParts[i].bodyStream != bodyParts[j].bodyStream)
    }

    ghost function ViewsTo(n: nat): (views: seq<Part>)
      requires n <= |bodyParts|
      reads this, bodyParts, set p | p in bodyParts :: p.bodyStream
      ensures |views| == n && forall i: nat :: i < n ==> views[i] == bodyParts[i].View()
    {
      if n == 0 then [] else ViewsTo(n - 1) + [bodyParts[n - 1].View()]
    }

    ghost function Views(): seq<Part>
      reads this, bodyParts, set p | p in bodyParts :: p.bodyStream
    {
      ViewsTo(|bodyParts|)
    }

    ghost predicate Faulty()
      reads this, bodyParts, set p | p in bodyParts :: p.bodyStream
    {
      exists p :: p in bodyParts && p.bodyStream.faulty
    }

    constructor (boundary: seq<byte>)
      ensures Valid() && this.boundary == boundary && bodyParts == [] && bodyPartError.None? && Repr == {}
    {
      this.boundary := boundary;
      bodyParts, bodyPartError, Repr := [], None, {};
    }

    method Append(headers: seq<Header>, stream: ByteSource)
      requires Valid() && stream !in Repr && stream as object != this
      requires forall p :: p in bodyParts ==> p.bodyStream != stream
      modifies this
      ensures Valid() && |bodyParts| == |old(bodyParts)| + 1 && bodyParts[..|old(bodyParts)|] == old(bodyParts)
      ensures var p := bodyParts[|old(bodyParts)|];
              fresh(p) && p.bodyStream == stream && p.View() == Part(headers, stream.rest, false, false)
    {
      var part := new BodyPart(headers, stream);
      bodyParts := bodyParts + [part];
      Repr := Repr + {part, stream};
    }

    /** The first part gets the initial boundary, the last the final one. */
    method MarkEnds()
      requires Valid()
      modifies Repr
      ensures Views() == Marked(old(Views()))
    {
      if bodyParts != [] {
        bodyParts[0].hasInitialBoundary := true;
        bodyParts[|bodyParts| - 1].hasFinalBoundary := true;
      }
    }

    // ---- In memory -----------------------------------------------------------------------------------

    /** encode(): all parts as one piece of data. It fails only when a part was invalid or one of the
        streams is faulty. */
    method Encode() returns (r: Attempt<seq<byte>>)
      requires Valid()
      modifies Repr
      ensures r.Done? ==> r.value == Encoded(boundary, old(Views()))
      ensures r.Thrown? ==> (bodyPartError.Some? && r.error == bodyPartError.value) || Faulty()
    {
      if bodyPartError.Some? {
        return Thrown(bodyPartError.value);
      }
      MarkEnds();
      ghost var views := Views();
      hide EncodeParts, EncodePart, Marked;
      var encoded: seq<byte> := [];
      for i := 0 to |bodyParts|
        invariant encoded == EncodeParts(boundary, views[..i])
        invariant forall j: nat :: i <= j < |bodyParts| ==> bodyParts[j].View() == views[j]
      {
        EncodePartsStep(boundary, views, i);
        var data := EncodeBodyPart(bodyParts[i]);
        if data.Thrown? {
          return Thrown(data.error);
        }
        encoded := encoded + data.value;
      }
      assert views[..|views|] == views;
      return Done(encoded);
    }

    method EncodeBodyPart(part: BodyPart) returns (r: Attempt<seq<byte>>)
      modifies part.bodyStream
      ensures r.Done? ==> r.value == EncodePart(boundary, old(part.View()))
      ensures r.Thrown? ==> part.bodyStream.faulty
    {
      var encoded := BoundaryData(boundary, if part.hasInitialBoundary then Initial else Encapsulated);
      encoded := encoded + EncodeHeaders(part.headers);
      var body := EncodeBodyStream(part.bodyStream);
      if body.Thrown? {
        return Thrown(body.error);
      }
      encoded := encoded + body.value;
      if part.hasFinalBoundary {
        encoded := encoded + BoundaryData(boundary, Final);
      }
      return Done(encoded);
    }

    method EncodeBodyStream(inputStream: ByteSource) returns (r: Attempt<seq<byte>>)
      modifies inputStream
      ensures r.Done? ==> r.value == old(inputStream.rest)
      ensures r.Thrown? ==> inputStream.faulty
    {
      var encoded: seq<byte> := [];
      var more := inputStream.HasBytesAvailable();
      while more
        invariant encoded + inputStream.rest == old(inputStream.rest)
        invariant inputStream.rest != [] ==> more
        decreases |inputStream.rest|, more
      {
        var buffer, error := inputStream.Read(STREAM_BUFFER_SIZE);
        if error {
          return Thrown(InputStreamReadFailed);
        }
        if |buffer| == 0 {
          break;
        }
        encoded := encoded + buffer;
        more := inputStream.HasBytesAvailable();
      }
      return Done(encoded);
    }

    // ---- Streamed -----------------------------------------------------------------------------------------

    /** writeEncodedData(to:): the parts' buffers in turn. Of each the stream receives what it had room
        for; it receives the in-memory encoding exactly when it never refused. */
    method WriteEncodedData(fileExists: bool, isFileURL: bool, outputStream: ByteSink?)
      returns (r: Attempt<()>, ghost buffers: seq<seq<byte>>, ghost pieces: seq<seq<byte>>)
      requires Valid()
      requires outputStream != null ==> outputStream !in Repr && outputStream as object != this
      modifies Repr, outputStream
      ensures bodyPartError.None? && !fileExists && isFileURL && outputStream != null && r.Done? ==>
                && Joined(buffers) == Encoded(boundary, old(Views())) && Pieces(buffers, pieces)
                && outputStream.written == old(outputStream.written) + Joined(pieces)
                && outputStream.refusals == old(outputStream.refusals) + Cut(buffers, pieces)
                && (outputStream.written == old(outputStream.written) + Encoded(boundary, old(Views()))
                    <==> outputStream.refusals == old(outputStream.refusals))
      ensures bodyPartError.Some? ==> r == Thrown(bodyPartError.value)
      ensures bodyPartError.None? && fileExists ==> r == Thrown(OutputStreamFileAlreadyExists)
      ensures bodyPartError.None? && !fileExists && !isFileURL ==> r == Thrown(OutputStreamURLInvalid)
      ensures bodyPartError.None? && !fileExists && isFileURL && outputStream == null ==>
                r == Thrown(OutputStreamCreationFailed)
      ensures bodyPartError.None? && !fileExists && isFileURL && outputStream != null && r.Thrown? ==>
                Faulty() || outputStream.faulty
    {
      buffers, pieces := [], [];
      if bodyPartError.Some? {
        return Thrown(bodyPartError.value), buffers, pieces;
      }
      if fileExists {
        return Thrown(OutputStreamFileAlreadyExists), buffers, pieces;
      } else if !isFileURL {
        return Thrown(OutputStreamURLInvalid), buffers, pieces;
      }
      if outputStream == null {
        return Thrown(OutputStreamCreationFailed), buffers, pieces;
      }
      MarkEnds();
      hide EncodeParts, Marked, Joined, Cut, Pieces;
      r, buffers, pieces := WriteParts(outputStream);
      if r.Done? { UncutIsWhole(buffers, pieces); }
    }

    /** The loop over the parts. */
    method WriteParts(outputStream: ByteSink)
      returns (r: Attempt<()>, ghost buffers: seq<seq<byte>>, ghost pieces: seq<seq<byte>>)
      requires Valid() && outputStream !in Repr && outputStream as object != this
      modifies Repr, outputStream
      ensures r.Done? ==> Received(outputStream, old(outputStream.written), old(outputStream.refusals), buffers, pieces)
                          && Joined(buffers) == EncodeParts(boundary, old(Views()))
      ensures r.Thrown? ==> Faulty() || outputStream.faulty
    {
      buffers, pieces := [], [];
      ghost var views, before, refused := Views(), outputStream.written, outputStream.refusals;
      assert EncodeParts(boundary, views[..0]) == [];
      NothingYet(before);
      assert Received(outputStream, before, refused, buffers, pieces);
      hide EncodeParts, EncodePart, Joined, Received;
      for i := 0 to |bodyParts|
        invariant Joined(buffers) == EncodeParts(boundary, views[..i])
        invariant Received(outputStream, before, refused, buffers, pieces)
        invariant forall j: nat :: i <= j < |bodyParts| ==> bodyParts[j].View() == views[j]
      {
        EncodePartsStep(boundary, views, i);
        var part;
        part, buffers, pieces := WriteBodyPart(bodyParts[i], outputStream, before, refused, buffers, pieces);
        if part.Thrown? {
          return Thrown(part.error), buffers, pieces;
        }
      }
      assert views[..|views|] == views;
      return Done(()), buffers, pieces;
    }

    /** Of the buffers, the output stream has received the pieces. */
    static ghost predicate Received(outputStream: ByteSink, before: seq<byte>, refused: nat,
                                    buffers: seq<seq<byte>>, pieces: seq<seq<byte>>)
      reads outputStream
    {
      && Pieces(buffers, pieces)
      && outputStream.written == before + Joined(pieces)
      && outputStream.refusals == refused + Cut(buffers, pieces)
    }

    static lemma NothingYet(before: seq<byte>)
      ensures Pieces([], []) && before + Joined([]) == before && Cut([], []) == 0 && Joined([]) == []
    {}

    method WriteBodyPart(part: BodyPart, outputStream: ByteSink, ghost before: seq<byte>, ghost refused: nat,
                         ghost behind: seq<seq<byte>>, ghost received: seq<seq<byte>>)
      returns (r: Attempt<()>, ghost buffers: seq<seq<byte>>, ghost pieces: seq<seq<byte>>)
      requires Received(outputStream, before, refused, behind, received)
      modifies part.bodyStream, outputStream
      ensures r.Done? ==> Received(outputStream, before, refused, buffers, pieces)
                          && Joined(buffers) == Joined(behind) + EncodePart(boundary, old(part.View()))
      ensures r.Thrown? ==> part.bodyStream.faulty || outputStream.faulty
    {
      hide BoundaryData, EncodeHeaders, Joined, Cut, Pieces, Received;
      var initial := BoundaryData(boundary, if part.hasInitialBoundary then Initial else Encapsulated);
      var headers := EncodeHeaders(part.headers);
      ghost var start, body := Joined(behind), part.bodyStream.rest;
      r, buffers, pieces := WriteBuffer(initial, outputStream, before, refused, behind, received);
      if r.Thrown? {
        return;
      }
      r, buffers, pieces := WriteBuffer(headers, outputStream, before, refused, buffers, pieces);
      if r.Thrown? {
        return;
      }
      r, buffers, pieces := WriteBodyStream(part.bodyStream, outputStream, before, refused, buffers, pieces);
      if r.Thrown? {
        return;
      }
      if part.hasFinalBoundary {
        var close := BoundaryData(boundary, Final);
        r, buffers, pieces := WriteBuffer(close, outputStream, before, refused, buffers, pieces);
        InTurn(start, initial, headers, body, close);
      } else {
        InTurn(start, initial, headers, body, []);
        assert start + initial + headers + body + [] == start + initial + headers + body;
      }
    }

    static lemma InTurn(start: seq<byte>, a: seq<byte>, b: seq<byte>, c: seq<byte>, d: seq<byte>)
      ensures start + a + b + c + d == start + (a + b + c + d)
    {}

    method WriteBodyStream(inputStream: ByteSource, outputStream: ByteSink, ghost before: seq<byte>, ghost refused: nat,
                           ghost behind: seq<seq<byte>>, ghost received: seq<seq<byte>>)
      returns (r: Attempt<()>, ghost buffers: seq<seq<byte>>, ghost pieces: seq<seq<byte>>)
      requires Received(outputStream, before, refused, behind, received)
      modifies inputStream, outputStream
      ensures r.Done? ==> Received(outputStream, before, refused, buffers, pieces)
                          && Joined(buffers) == Joined(behind) + old(inputStream.rest)
      ensures r.Thrown? ==> inputStream.faulty || outputStream.faulty
    {
      hide Joined, Cut, Pieces, Received;
      buffers, pieces := behind, received;
      ghost var start, copied: seq<byte> := Joined(behind), [];
      var more := inputStream.HasBytesAvailable();
      assert start + [] == start;
      while more
        invariant copied + inputStream.rest == old(inputStream.rest)
        invariant Joined(buffers) == start + copied
        invariant Received(outputStream, before, refused, buffers, pieces)
        invariant inputStream.rest != [] ==> more
        decreases |inputStream.rest|, more
      {
        var buffer, error := inputStream.Read(STREAM_BUFFER_SIZE);
        if error {
          return Thrown(InputStreamReadFailed), buffers, pieces;
        }
        if |buffer| == 0 {
          break;
        }
        r, buffers, pieces := WriteBuffer(buffer, outputStream, before, refused, buffers, pieces);
        if r.Thrown? {
          return;
        }
        assert start + copied + buffer == start + (copied + buffer);
        copied := copied + buffer;
        more := inputStream.HasBytesAvailable();
      }
      assert copied + [] == copied;
      r := Done(());
    }

    /** Writes the buffer in as many pieces as the stream takes it. When the stream has no room the
        rest of the buffer is dropped, without an error. */
    method WriteBuffer(data: seq<byte>, outputStream: ByteSink, ghost before: seq<byte>, ghost refused: nat,
                       ghost behind: seq<seq<byte>>, ghost received: seq<seq<byte>>)
      returns (r: Attempt<()>, ghost buffers: seq<seq<byte>>, ghost pieces: seq<seq<byte>>)
      requires Received(outputStream, before, refused, behind, received)
      modifies outputStream
      ensures r.Done? ==> Received(outputStream, before, refused, buffers, pieces)
                          && buffers == behind + [data] && Joined(buffers) == Joined(behind) + data
      ensures r.Thrown? ==> outputStream.faulty
    {
      buffers, pieces := behind + [data], received;
      ghost var done;
      r, done := WriteLoop(data, outputStream);
      pieces := received + [done];
      JoinedMore(behind, data);
      JoinedMore(received, done);
      CutMore(behind, received, data, done);
      hide Joined, Cut;
      assert before + Joined(received) + done == before + (Joined(received) + done);
    }

    /** The loop that writes a buffer. */
    method WriteLoop(data: seq<byte>, outputStream: ByteSink) returns (r: Attempt<()>, ghost done: seq<byte>)
      modifies outputStream
      ensures r.Done? ==> done <= data && outputStream.written == old(outputStream.written) + done
                          && outputStream.refusals == old(outputStream.refusals) + if done == data then 0 else 1
      ensures r.Thrown? ==> outputStream.faulty
    {
      var buffer, bytesToWrite: nat := data, |data|;
      done := [];
      assert outputStream.written + [] == outputStream.written && [] + buffer == data;
      while bytesToWrite > 0
        invariant if bytesToWrite > 0 then |buffer| == bytesToWrite && data == done + buffer else data == done
        invariant outputStream.written == old(outputStream.written) + done
        invariant outputStream.refusals == old(outputStream.refusals)
        decreases bytesToWrite
      {
        var space := outputStream.HasSpaceAvailable();
        if !space {
          return Done(()), done;
        }
        var n, error := outputStream.Write(buffer, bytesToWrite);
        if error {
          return Thrown(OutputStreamWriteFailed), done;
        }
        SplitBuffer(old(outputStream.written), done, buffer, n);
        done := done + buffer[..n];
        bytesToWrite := bytesToWrite - n;
        if bytesToWrite > 0 {
          buffer := buffer[n..];
        }
      }
      r := Done(());
    }

    static lemma SplitBuffer(before: seq<byte>, done: seq<byte>, buffer: seq<byte>, n: nat)
      requires n <= |buffer|
      ensures before + done + buffer[..n] == before + (done + buffer[..n])
      ensures done + buffer == done + buffer[..n] + buffer[n..]
    {}
  }
}
