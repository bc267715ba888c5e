/** The input stream of pb_decode.c over a memory buffer, with its primitive readers.
    Every reader is tied to the function of module Wire that says what it reads. */
module InputStream {
  import opened Basics
  import opened Bits
  import opened Wire

  class IStream {
    const buf: seq<byte>
    var pos: nat
    var bytesLeft: nat

    ghost predicate Valid()
      reads this
    {
      pos + bytesLeft <= |buf|
    }

    /** The bytes the stream may still read. */
    ghost function Rest(): seq<byte>
      requires Valid()
      reads this
    {
      buf[pos..pos + bytesLeft]
    }

    /** Where the readable part ends; no operation moves it forward. */
    ghost function End(): nat
      reads this
    {
      pos + bytesLeft
    }

    /** The stream is at `rest`, and still ends where it ended before. */
    ghost predicate Left(end: nat, rest: seq<byte>)
      reads this
    {
      Valid() && End() == end && Rest() == rest
    }

    /** The outcome `r` is the parse `p` of the bytes read, and the stream is left accordingly:
        the end is kept on success and never passed on failure. */
    ghost predicate Agrees<T(!new)>(r: Result<T>, p: Parse<T>, end: nat)
      reads this
    {
      && Valid() && End() <= end
      && match p
         case Ok(v, rest) => r == Success(v) && Left(end, rest)
         case Err(e) => r == Failure(e)
    }

    lemma LeftMeans(end: nat, rest: seq<byte>)
      ensures Left(end, rest) ==> Valid() && End() == end && Rest() == rest
      ensures Valid() ==> |Rest()| == bytesLeft && Left(End(), Rest())
    {}

    lemma AgreesMeans<T(!new)>(r: Result<T>, p: Parse<T>, end: nat)
      requires Agrees(r, p, end)
      ensures Valid() && End() <= end
      ensures p.Ok? ==> r == Success(p.value) && Left(end, p.rest)
      ensures p.Err? ==> r == Failure(p.error)
    {}

    lemma MeansAgrees<T(!new)>(r: Result<T>, p: Parse<T>, end: nat)
      requires Valid() && End() <= end
      requires p.Ok? ==> r == Success(p.value) && Left(end, p.rest)
      requires p.Err? ==> r == Failure(p.error)
      ensures Agrees(r, p, end)
    {}

    lemma Within()
      requires Valid()
      ensures pos + bytesLeft == End() <= |buf|
    {}

    /** A stream of which a record up to `at` was set aside is, when the record is closed, within its
        old end, and behind the record if that was used up. */
    lemma Closed(at: nat, end: nat, rest: seq<byte>)
      requires Valid() && pos <= at && at + bytesLeft == end <= |buf| && buf[at..end] == rest
      ensures End() <= end && (pos == at ==> Left(end, rest))
    {}

    lemma RestIs()
      ensures Valid() <==> pos + bytesLeft <= |buf|
      ensures End() == pos + bytesLeft && (Valid() ==> Rest() == buf[pos..pos + bytesLeft])
    {}

    /** Both parts of a window of the buffer, which holds `left` bytes from `at` on. */
    lemma Window(at: nat, left: nat, count: nat)
      requires at + left <= |buf| && count <= left
      ensures buf[at..at + left][..count] == buf[at..at + count]
      ensures buf[at..at + left][count..] == buf[at + count..at + left]
    {}

    constructor FromBuffer(buf: seq<byte>)
      ensures Valid() && this.buf == buf && Rest() == buf
    {
      this.buf := buf;
      pos, bytesLeft := 0, |buf|;
    }

    constructor Copy(parent: IStream, size: nat)
      ensures buf == parent.buf && pos == parent.pos && bytesLeft == size
    {
      buf, pos, bytesLeft := parent.buf, parent.pos, size;
    }

    /** The callback of a memory buffer: passes over `count` bytes, copying them into `dest` if there is
        one. */
    method BufRead(dest: array?<byte>, count: nat)
      requires pos + count <= |buf| && (dest != null ==> count <= dest.Length)
      modifies this`pos, dest
      ensures pos == old(pos) + count
      ensures dest != null ==> dest[..count] == buf[old(pos)..pos] && dest[count..] == old(dest[count..])
    {
      var source := pos;
      pos := pos + count;
      if dest != null {
        for i := 0 to count
          modifies dest
          invariant dest[..i] == buf[source..source + i]
          invariant dest[count..] == old(dest[count..])
        {
          dest[i] := buf[source + i];
        }
      }
    }

    /** Reads `count` bytes into `dest`, or discards them when `dest` is null. */
    method Read(dest: array?<byte>, count: nat) returns (r: Result<()>)
      requires Valid() && (dest != null ==> count <= dest.Length)
      modifies this`pos, this`bytesLeft, dest
      ensures Agrees(r, SkipBytes(old(Rest()), count), old(End()))
      ensures r.Success? && dest != null ==>
                dest[..count] == old(Rest())[..count] && dest[count..] == old(dest[count..])
      ensures r.Failure? && dest != null ==> dest[..] == old(dest[..])
      ensures r.Failure? ==> End() == old(End()) && bytesLeft == |old(Rest())|
    {
      hide IsSuffix;
      if count == 0 {
        return Success(());
      }
      if bytesLeft < count {
        return Failure(EndOfStream);
      }
      Window(pos, bytesLeft, count);
      BufRead(dest, count);
      bytesLeft := bytesLeft - count;
      return Success(());
    }

    method ReadByte() returns (r: Result<byte>)
      requires Valid()
      modifies this
      ensures Valid() && End() == old(End())
      ensures match r
              case Failure(e) => e == EndOfStream && old(Rest()) == [] && Rest() == []
              case Success(b) => old(Rest()) != [] && b == old(Rest())[0] && Rest() == old(Rest())[1..]
    {
      if bytesLeft == 0 {
        return Failure(EndOfStream);
      }
      var b := buf[pos];
      pos := pos + 1;
      bytesLeft := bytesLeft - 1;
      return Success(b);
    }

    /** Reads a varint into 32 bits; `eof` tells that there was nothing left to read. */
    method DecodeVarint32Eof() returns (r: Result<nat>, eof: bool)
      requires Valid()
      modifies this
      ensures Agrees(r, Varint32(old(Rest())), old(End()))
      ensures bytesLeft == Varint32Left(old(Rest()))
      ensures eof <==> old(Rest()) == []
      ensures eof ==> Left(old(End()), [])
    {
      hide Merge32, BadHighByte, Varint32, Varint32Left, Varint32More, Varint32MoreLeft;
      FirstByte(Rest());
      eof := false;
      var first := ReadByte();
      if first.Failure? {
        if bytesLeft == 0 {
          eof := true;
        }
        return Failure(first.error), eof;
      }
      var byte := first.value;
      var result: nat;
      if byte < 128 {
        result := byte;
      } else {
        var bitpos: nat := 7;
        result := byte - 128;
        while byte >= 128
          invariant Valid() && End() == old(End())
          invariant byte >= 128 ==> Varint32(old(Rest())) == Varint32More(Rest(), result, bitpos)
          invariant Varint32Left(old(Rest())) ==
                      if byte >= 128 then Varint32MoreLeft(Rest(), result, bitpos) else bytesLeft
          invariant byte < 128 ==> (Varint32(old(Rest())) ==
            if bitpos == 35 && (byte / 16) % 8 != 0 then Err(VarintOverflow) else Ok(result, Rest()))
          decreases bytesLeft, byte
        {
          FurtherByte(Rest(), result, bitpos);
          var next := ReadByte();
          if next.Failure? {
            return Failure(next.error), eof;
          }
          byte := next.value;
          if bitpos >= 32 && BadHighByte(byte, result, bitpos) {
            return Failure(VarintOverflow), eof;
          }
          result := Merge32(result, byte, bitpos);
          bitpos := (bitpos + 7) % 256;
        }
        if bitpos == 35 && (byte / 16) % 8 != 0 {
          return Failure(VarintOverflow), eof;
        }
      }
      return Success(result), eof;
    }

    method DecodeVarint32() returns (r: Result<nat>)
      requires Valid()
      modifies this
      ensures Agrees(r, Varint32(old(Rest())), old(End())) && bytesLeft == Varint32Left(old(Rest()))
    {
      var eof;
      r, eof := DecodeVarint32Eof();
    }

    /** Reads a varint of up to ten bytes into 64 bits. */
    method DecodeVarint() returns (r: Result<nat>)
      requires Valid()
      modifies this
      ensures Agrees(r, Varint64(old(Rest())), old(End())) && bytesLeft == Varint64Left(old(Rest()))
    {
      hide Pow2, BitOr, Weight, AddGroup, Going;
      ghost var all := Going(old(Rest()), 0, 0);
      StartGoing(old(Rest()));
      ghost var acc: nat, k: nat := 0, 0;
      var byte: byte, bitpos: nat, result: nat := 128, 0, 0;
      while byte >= 128
        invariant Valid() && End() == old(End())
        invariant k <= 10 && bitpos == 7 * k && bytesLeft + k == |old(Rest())|
        invariant byte >= 128 && k <= 9 ==> acc < Weight(k) && result == acc
        invariant byte >= 128 ==> all == Going(Rest(), acc, k)
        invariant byte < 128 ==> all == Ok(acc, Rest()) && result == acc % TWO_64
        decreases 10 - k, byte
      {
        StepGoing(Rest(), acc, k);
        if bitpos >= 64 {
          return Failure(VarintOverflow);
        }
        var next := ReadByte();
        if next.Failure? {
          return Failure(next.error);
        }
        byte := next.value;
        Merge64(acc, byte % 128, k);
        result := BitOr(result, Shl(byte % 128, bitpos) % TWO_64);
        bitpos := bitpos + 7;
        acc, k := AddGroup(acc, byte % 128, k), k + 1;
      }
      return Success(result);
    }

    method SkipVarint() returns (r: Result<()>)
      requires Valid()
      modifies this
      ensures Agrees(r, Wire.SkipVarint(old(Rest())), old(End()))
    {
      var byte := 128;
      while byte >= 128
        invariant Valid() && End() == old(End())
        invariant byte >= 128 ==> Wire.SkipVarint(old(Rest())) == Wire.SkipVarint(Rest())
        invariant byte < 128 ==> Wire.SkipVarint(old(Rest())) == Ok((), Rest())
        decreases bytesLeft, byte
      {
        var next := ReadByte();
        if next.Failure? {
          return Failure(next.error);
        }
        byte := next.value;
      }
      return Success(());
    }

    /** Reads a tag and splits it into field number and wire type. At the end of the stream,
        and at a zero byte where a tag should be, it fails with `eof` set. */
    method DecodeTag() returns (r: Result<(nat, nat)>, eof: bool)
      requires Valid()
      modifies this
      ensures Valid() && End() <= old(End())
      ensures match Wire.DecodeTag(old(Rest()))
              case Tag(tag, wireType, rest) => r == Success((tag, wireType)) && !eof && Left(old(End()), rest)
              case End(rest) => r.Failure? && eof && Left(old(End()), rest)
              case TagErr(e) => r == Failure(e) && !eof
    {
      hide Varint32;
      var temp;
      temp, eof := DecodeVarint32Eof();
      if temp.Failure? {
        return Failure(temp.error), eof;
      }
      if temp.value == 0 {
        return Failure(EndOfStream), true;
      }
      return Success((temp.value / 8, temp.value % 8)), eof;
    }

    method SkipField(wireType: nat) returns (r: Result<()>)
      requires Valid()
      modifies this
      ensures Agrees(r, Wire.SkipField(wireType, old(Rest())), old(End()))
    {
      hide Varint32;
      if wireType == WT_VARINT {
        r := SkipVarint();
      } else if wireType == WT_64BIT {
        r := Read(null, 8);
      } else if wireType == WT_STRING {
        var length := DecodeVarint32();
        if length.Failure? {
          return Failure(length.error);
        }
        r := Read(null, length.value);
      } else if wireType == WT_32BIT {
        r := Read(null, 4);
      } else {
        return Failure(InvalidWireType);
      }
    }

    /** Opens a substream limited to the length-delimited record ahead. The parent gives up the
        payload's bytes but stays positioned in front of them until the substream is closed. */
    method MakeSubstream() returns (r: Result<IStream>)
      requires Valid()
      modifies this
      ensures Valid() && End() <= old(End())
      ensures match Delimited(old(Rest()))
              case Err(e) => r == Failure(e)
              case Ok(data, rest) =>
                && r.Success? && fresh(r.value) && r.value.buf == buf && r.value.pos == pos
                && r.value.Left(pos + |data|, data)
                && pos + |data| + bytesLeft == old(End())
                && buf[pos + |data|..old(End())] == rest
    {
      hide *;
      ghost var bs, end := Rest(), End();
      DelimitedCases(bs);
      var size := DecodeVarint32();
      AgreesMeans(size, Varint32(bs), end);
      if size.Failure? {
        return Failure(size.error);
      }
      LeftMeans(end, Varint32(bs).rest);
      if bytesLeft < size.value {
        return Failure(ParentStreamTooShort);
      }
      RestIs();
      Window(pos, bytesLeft, size.value);
      var substream := new IStream.Copy(this, size.value);
      bytesLeft := bytesLeft - size.value;
      RestIs();
      substream.RestIs();
      substream.LeftMeans(substream.End(), substream.Rest());
      return Success(substream);
    }

    /** Skips what the substream left unread and moves the parent behind it. */
    method CloseSubstream(substream: IStream)
      requires substream != this && substream.Valid() && substream.buf == buf
      requires substream.End() + bytesLeft <= |buf|
      modifies this, substream
      ensures Valid() && pos == old(substream.End()) && bytesLeft == old(bytesLeft)
    {
      if substream.bytesLeft > 0 {
        var skipped := substream.Read(null, substream.bytesLeft);
      }
      pos := substream.pos;
    }
  }

  /** The parse of a varint whose first `k` groups, of value `acc`, are already read and whose
      other bytes are `bs`. */
  ghost function Going(bs: seq<byte>, acc: nat, k: nat): Parse<nat> {
    if k >= 10 then Err(VarintOverflow)
    else
      match TakeVarint(bs, 10 - k)
      case Ok(v, rest) => Ok(AddGroup(acc, v, k), rest)
      case Err(e) => Err(e)
  }

  lemma StartGoing(bs: seq<byte>)
    ensures Going(bs, 0, 0) == TakeVarint(bs, 10)
    ensures 0 < Weight(0)
  {
    hide TakeVarint;
  }

  lemma StepGoing(bs: seq<byte>, acc: nat, k: nat)
    ensures k >= 10 ==> Going(bs, acc, k) == Err(VarintOverflow)
    ensures k < 10 && bs == [] ==> Going(bs, acc, k) == Err(EndOfStream)
    ensures k < 10 && bs != [] && bs[0] < 128 ==> Going(bs, acc, k) == Ok(AddGroup(acc, bs[0], k), bs[1..])
    ensures k < 10 && bs != [] && bs[0] >= 128 ==>
              Going(bs, acc, k) == Going(bs[1..], AddGroup(acc, bs[0] - 128, k), k + 1)
  {
    hide AddGroup;
    if k < 10 && bs != [] && bs[0] >= 128 {
      var p := TakeVarint(bs[1..], 9 - k);
      if p.Ok? {
        var v := bs[0] - 128 + 128 * p.value;
        assert TakeVarint(bs, 10 - k) == Ok(v, p.rest);
        assert v % 128 == bs[0] - 128 && v / 128 == p.value;
        Regroup(acc, v, k);
      } else {
        assert TakeVarint(bs, 10 - k) == Err(p.error);
      }
    }
  }

  /** Or-ing group `k` into a 64-bit word; of the tenth group only one bit fits. */
  lemma Merge64(acc: nat, g: nat, k: nat)
    requires k <= 9 && acc < Weight(k) && g < 128
    ensures BitOr(acc, Shl(g, 7 * k) % TWO_64) == AddGroup(acc, g, k) % TWO_64
    ensures k <= 8 ==> AddGroup(acc, g, k) < Weight(k + 1) && AddGroup(acc, g, k) % TWO_64 == AddGroup(acc, g, k)
  {
    hide BitOr, Pow2, AddGroup;
    if k == 9 {
      Merge64Tenth(acc, g);
    } else {
      Merge64Low(acc, g, k);
      hide Weight;
    }
  }

  lemma Merge64Low(acc: nat, g: nat, k: nat)
    requires k <= 8 && acc < Weight(k) && g < 128
    ensures BitOr(acc, Shl(g, 7 * k) % TWO_64) == AddGroup(acc, g, k) < Weight(k + 1) <= TWO_63
  {
    hide BitOr, Pow2;
    NextWeight(acc, g, k);
    WeightIsPow2(k);
    OrDisjoint(acc, g, 7 * k);
    assert Weight(k + 1) <= TWO_63;
    hide Weight;
    assert Shl(g, 7 * k) == g * Weight(k) < TWO_63;
  }

  lemma Merge64Tenth(acc: nat, g: nat)
    requires acc < TWO_63 && g < 128
    ensures BitOr(acc, Shl(g, 63) % TWO_64) == AddGroup(acc, g, 9) % TWO_64
  {
    hide BitOr, Pow2;
    WeightIsPow2(9);
    OrDisjoint(acc, g % 2, 63);
    assert Shl(g, 63) == TWO_64 * (g / 2) + TWO_63 * (g % 2);
  }
}
