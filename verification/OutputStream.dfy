/** The output stream of pb_encode.c: a writer into a bounded buffer, or a sizing stream that
    only counts. */
module OutputStream {
  import opened Basics
  import opened Bits
  import opened Wire
  import opened Encoding

  /** What a stream has written so far: its buffer, its position in it and its byte count. */
  datatype Snap = Snap(bytes: seq<byte>, pos: nat, written: nat)

  /** `bytes` with `data` at position `at`. */
  ghost function Spliced(bytes: seq<byte>, at: nat, data: seq<byte>): seq<byte>
    requires at + |data| <= |bytes|
  {
    bytes[..at] + data + bytes[at + |data|..]
  }

  /** Nothing outside the writable window of `before` was touched. */
  ghost predicate InWindow(maxSize: nat, before: Snap, after: Snap) {
    && |after.bytes| == |before.bytes|
    && forall k: nat :: k < |before.bytes| && !(before.pos <= k < before.pos + (maxSize - before.written))
         ==> after.bytes[k] == before.bytes[k]
  }

  /** An operation that has to emit `s` went from `before` to `after` with outcome `r`. It
      succeeds exactly when `s` is defined and, unless the stream only sizes, fits; then it has
      written those bytes and no others, and has counted them. The size of a submessage never
      changes between its two passes. */
  ghost predicate Emitted(sizing: bool, maxSize: nat, before: Snap, after: Snap, r: Result<()>, s: Bytes) {
    && r != Failure(SubmsgSizeChanged)
    && (sizing ==> after.bytes == before.bytes && after.pos == before.pos)
    && (!sizing ==> after.written <= maxSize && InWindow(maxSize, before, after)
                    && after.pos + before.written == before.pos + after.written)
    && match s
       case Failure(e) => r.Failure? && (sizing ==> r == Failure(e))
       case Success(bs) =>
         if sizing then r == Success(()) && after.written == before.written + |bs|
         else if before.written + |bs| > maxSize then r == Failure(StreamFull)
         else
           && r == Success(()) && before.pos + |bs| <= |before.bytes|
           && after == Snap(Spliced(before.bytes, before.pos, bs), before.pos + |bs|, before.written + |bs|)
  }

  /** Emitting nothing. */
  lemma EmittedNothing(sizing: bool, maxSize: nat, before: Snap)
    requires !sizing ==> before.written <= maxSize && before.pos <= |before.bytes|
    ensures Emitted(sizing, maxSize, before, before, Success(()), Success([]))
  {
    if !sizing {
      assert Spliced(before.bytes, before.pos, []) == before.bytes;
    }
  }

  /** Two operations in a row, the first of which succeeded. */
  lemma EmittedBoth(sizing: bool, maxSize: nat, a: Snap, b: Snap, c: Snap, q: Result<()>, s: Bytes, r: Result<()>,
                    t: Bytes)
    requires !sizing ==> a.written <= maxSize && a.pos + (maxSize - a.written) <= |a.bytes|
    requires q.Success? && Emitted(sizing, maxSize, a, b, q, s)
    requires Emitted(sizing, maxSize, b, c, r, t)
    ensures Emitted(sizing, maxSize, a, c, r, Append(s, t))
  {
    var x := s.value;
    if t.Success? && !sizing && b.written + |t.value| <= maxSize {
      SplicedTwice(a.bytes, a.pos, x, t.value);
    }
  }

  lemma SplicedTwice(bytes: seq<byte>, at: nat, x: seq<byte>, y: seq<byte>)
    requires at + |x| + |y| <= |bytes|
    ensures Spliced(Spliced(bytes, at, x), at + |x|, y) == Spliced(bytes, at, x + y)
  {}

  /** An operation that failed, followed by nothing. */
  lemma EmittedFailed(sizing: bool, maxSize: nat, a: Snap, b: Snap, s: Bytes, r: Result<()>, t: Bytes)
    requires Emitted(sizing, maxSize, a, b, r, s) && r.Failure?
    ensures Emitted(sizing, maxSize, a, b, r, Append(s, t))
  {}

  /** One more operation in a row that has to emit `whole`: `done` is behind, `next` was just
      tried, `later` is ahead. */
  lemma EmittedNext(sizing: bool, maxSize: nat, a: Snap, b: Snap, c: Snap,
                    done: Bytes, r: Result<()>, next: Bytes, later: Bytes, whole: Bytes)
    requires !sizing ==> a.written <= maxSize && a.pos + (maxSize - a.written) <= |a.bytes|
    requires Emitted(sizing, maxSize, a, b, Success(()), done)
    requires Emitted(sizing, maxSize, b, c, r, next)
    requires Append(done, Append(next, later)) == whole
    ensures Append(Append(done, next), later) == whole
    ensures r.Success? ==> Emitted(sizing, maxSize, a, c, Success(()), Append(done, next))
    ensures r.Failure? ==> Emitted(sizing, maxSize, a, c, r, whole)
  {
    hide Emitted, Append;
    AppendAssociative(done, next, later);
    EmittedBoth(sizing, maxSize, a, b, c, Success(()), done, r, next);
    if r.Failure? {
      EmittedFailed(sizing, maxSize, a, c, Append(done, next), r, later);
    } else {
      assert r == Success(());
    }
  }

  /** Giving up before anything is written. */
  lemma EmittedError(sizing: bool, maxSize: nat, before: Snap, e: Error)
    requires e != SubmsgSizeChanged && (!sizing ==> before.written <= maxSize)
    ensures Emitted(sizing, maxSize, before, before, Failure(e), Failure(e))
  {}

  /** Counting bytes without having them. */
  lemma EmittedCount(maxSize: nat, before: Snap, after: Snap, data: seq<byte>)
    requires after == before.(written := before.written + |data|)
    ensures Emitted(true, maxSize, before, after, Success(()), Success(data))
  {}

  /** A first pass on a sizing stream finds the exact size. */
  lemma SizingPass(maxSize: nat, before: Snap, after: Snap, r: Result<()>, s: Bytes)
    requires Emitted(true, maxSize, before, after, r, s) && before.written == 0
    ensures s.Success? ==> r == Success(()) && after.written == |s.value|
    ensures s.Failure? ==> r == Failure(s.error) && s.error != SubmsgSizeChanged
  {}

  /** A second pass, in a substream with exactly the room found by the first, succeeds; for the
      parent it is the same as writing the bytes itself. */
  lemma SecondPass(maxSize: nat, before: Snap, sub: Snap, r: Result<()>, data: seq<byte>)
    requires before.written + |data| <= maxSize && before.pos + |data| <= |before.bytes|
    requires Emitted(false, |data|, before.(written := 0), sub, r, Success(data))
    ensures sub.written == |data|
    ensures Emitted(false, maxSize, before, sub.(written := before.written + sub.written), r, Success(data))
  {}

  /** A record for which there is no room. */
  lemma NoRoom(maxSize: nat, before: Snap, data: seq<byte>)
    requires before.written <= maxSize < before.written + |data|
    ensures Emitted(false, maxSize, before, before, Failure(StreamFull), Success(data))
  {}

  class OStream {
    const buf: array<byte>
    const sizing: bool
    const maxSize: nat
    var pos: nat
    var bytesWritten: nat

    ghost predicate Valid()
      reads this
    {
      !sizing ==> bytesWritten <= maxSize && pos + (maxSize - bytesWritten) <= buf.Length
    }

    ghost function Now(): Snap
      reads this, buf
    {
      Snap(buf[..], pos, bytesWritten)
    }

    ghost predicate Emits(before: Snap, r: Result<()>, s: Bytes)
      reads this, buf
    {
      Valid() && Emitted(sizing, maxSize, before, Now(), r, s)
    }

    lemma EmitsMeans(before: Snap, r: Result<()>, s: Bytes)
      ensures Emits(before, r, s) <==> Valid() && Emitted(sizing, maxSize, before, Now(), r, s)
    {}

    /** Nothing is emitted yet, and there is room in the buffer for what may be. */
    lemma NothingYet()
      requires Valid()
      ensures Emits(Now(), Success(()), Success([]))
      ensures !sizing ==> Now().written <= maxSize && Now().pos + (maxSize - Now().written) <= |Now().bytes|
    {
      EmittedNothing(sizing, maxSize, Now());
    }

    constructor FromBuffer(buf: array<byte>, bufsize: nat)
      requires bufsize <= buf.Length
      ensures Valid() && this.buf == buf && !sizing && maxSize == bufsize && pos == 0 && bytesWritten == 0
    {
      this.buf, sizing, maxSize := buf, false, bufsize;
      pos, bytesWritten := 0, 0;
    }

    /** A stream without a callback, which only counts. */
    constructor Sizing()
      ensures Valid() && sizing && pos == 0 && bytesWritten == 0 && fresh(buf)
    {
      buf := new byte[0];
      sizing, maxSize := true, 0;
      pos, bytesWritten := 0, 0;
    }

    /** The substream for the second pass over a submessage: the parent's buffer and position,
        limited to the size found in the first pass. */
    constructor Within(parent: OStream, size: nat)
      requires parent.Valid() && !parent.sizing && parent.bytesWritten + size <= parent.maxSize
      ensures Valid() && buf == parent.buf && !sizing && maxSize == size
      ensures pos == parent.pos && bytesWritten == 0
    {
      buf, sizing, maxSize := parent.buf, false, size;
      pos, bytesWritten := parent.pos, 0;
    }

    /** Copies `src` to the buffer and moves behind it. */
    method BufWrite(src: seq<byte>)
      requires pos + |src| <= buf.Length
      modifies this`pos, buf
      ensures pos == old(pos) + |src|
      ensures buf[..] == Spliced(old(buf[..]), old(pos), src)
    {
      var dest := pos;
      pos := pos + |src|;
      for i := 0 to |src|
        modifies buf
        invariant buf[..] == old(buf[..])[..dest] + src[..i] + old(buf[..])[dest + i..]
      {
        buf[dest + i] := src[i];
      }
    }

    /** Writes `count` bytes of `src`; a sizing stream takes no data. */
    method Write(src: seq<byte>, count: nat) returns (r: Result<()>)
      requires Valid() && (!sizing ==> count == |src|)
      modifies this, buf
      ensures count == |src| ==> Emits(old(Now()), r, Success(src))
      ensures sizing ==> r == Success(()) && Now() == old(Now()).(written := old(bytesWritten) + count)
    {
      ghost var before := Now();
      if count > 0 && !sizing {
        if bytesWritten + count > maxSize {
          return Failure(StreamFull);
        }
        BufWrite(src);
      } else if !sizing {
        assert Spliced(before.bytes, before.pos, src) == before.bytes;
      }
      bytesWritten := bytesWritten + count;
      return Success(());
    }
  }
}
