/** The wire format as functions on byte sequences: what the primitive readers and writers
    of pb_decode.c and pb_encode.c compute, and how they relate to each other. */
module Wire {
  import opened Basics
  import opened Bits

  /** The error messages of the library, one constructor each. */
  datatype Error =
    | EndOfStream
    | VarintOverflow
    | InvalidWireType
    | ParentStreamTooShort
    | ArrayOverflow
    | IntegerTooLarge
    | InvalidDataSize
    | BytesOverflow
    | SizeTooLarge
    | StringOverflow
    | IncorrectFixedLength
    | MissingRequiredField
    | InvalidFieldType
    | StreamFull
    | ArrayMaxSizeExceeded
    | BytesSizeExceeded
    | SubmsgSizeChanged

  datatype Result<+T> = Success(value: T) | Failure(error: Error)

  /** Outcome of a reader: a value and the bytes that are left, or an error. */
  datatype Parse<+T> = Ok(value: T, rest: seq<byte>) | Err(error: Error)

  predicate IsSuffix(r: seq<byte>, bs: seq<byte>) {
    |r| <= |bs| && r == bs[|bs| - |r|..]
  }

  /** The bytes of `bs` in front of its suffix `r`. */
  function Consumed(bs: seq<byte>, r: seq<byte>): (c: seq<byte>)
    requires IsSuffix(r, bs)
    ensures bs == c + r
  {
    bs[..|bs| - |r|]
  }

  // ---- Base 128 varints -------------------------------------------------------------

  function VarintBytes(v: nat): (bs: seq<byte>)
    ensures |bs| >= 1
  {
    if v < 128 then [v] else [v % 128 + 128] + VarintBytes(v / 128)
  }

  lemma VarintStep(v: nat)
    ensures v < 128 ==> VarintBytes(v) == [v]
    ensures v >= 128 ==> VarintBytes(v) == [v % 128 + 128] + VarintBytes(v / 128)
  {}

  lemma Uncons(b: byte, bs: seq<byte>, t: seq<byte>)
    ensures ([b] + bs + t)[0] == b && ([b] + bs + t)[1..] == bs + t
  {}

  lemma VarintSplit(w: nat, t: seq<byte>)
    requires w >= 128
    ensures (VarintBytes(w) + t)[0] == w % 128 + 128
    ensures (VarintBytes(w) + t)[1..] == VarintBytes(w / 128) + t
  {
    VarintStep(w);
    hide VarintBytes;
    Uncons(w % 128 + 128, VarintBytes(w / 128), t);
  }

  lemma VarintOneByte(v: nat, t: seq<byte>)
    requires v < 128
    ensures (VarintBytes(v) + t)[0] == v && (VarintBytes(v) + t)[1..] == t
  {
    VarintStep(v);
    hide VarintBytes;
    assert [v] + t == [v] + [] + t;
    Uncons(v, [], t);
  }

  /** Reads one varint of at most `limit` bytes, least significant group first. */
  function TakeVarint(bs: seq<byte>, limit: nat): (p: Parse<nat>)
    ensures p.Ok? ==> IsSuffix(p.rest, bs) && |p.rest| < |bs|
  {
    if limit == 0 then Err(VarintOverflow)
    else if bs == [] then Err(EndOfStream)
    else if bs[0] < 128 then Ok(bs[0], bs[1..])
    else
      match TakeVarint(bs[1..], limit - 1)
      case Ok(v, rest) => Ok(bs[0] - 128 + 128 * v, rest)
      case Err(e) => Err(e)
  }

  /** A varint in the 64-bit reading: ten bytes at most, the value truncated to 64 bits. */
  function Varint64(bs: seq<byte>): (p: Parse<nat>)
    ensures p.Ok? ==> p.value < TWO_64 && IsSuffix(p.rest, bs) && |p.rest| < |bs|
  {
    match TakeVarint(bs, 10)
    case Ok(v, rest) => Ok(v % TWO_64, rest)
    case Err(e) => Err(e)
  }

  /** Whether the fast reader refuses byte `b` at bit position `bitpos >= 32`: beyond 32 bits
      only zero groups and the sign extension of a negative number are let through. */
  predicate BadHighByte(b: byte, result: nat, bitpos: nat) {
    b % 128 != 0 && (result / TWO_31 == 0 || b != (if bitpos < 63 then 0xFF else 0x01))
  }

  /** The low 32 bits after the group of byte `b` is or-ed in at `bitpos`. */
  function Merge32(result: nat, b: byte, bitpos: nat): nat {
    if bitpos >= 32 then result else BitOr(result, Shl(b % 128, bitpos) % TWO_32)
  }

  /** The fast reader after its first byte. The bit position is an 8-bit counter that wraps. */
  function Varint32More(bs: seq<byte>, result: nat, bitpos: nat): (p: Parse<nat>)
    ensures p.Ok? ==> IsSuffix(p.rest, bs) && |p.rest| < |bs|
  {
    if bs == [] then Err(EndOfStream)
    else
      var b := bs[0];
      if bitpos >= 32 && BadHighByte(b, result, bitpos) then Err(VarintOverflow)
      else
        var r := Merge32(result, b, bitpos);
        var next := (bitpos + 7) % 256;
        if b >= 128 then Varint32More(bs[1..], r, next)
        else if next == 35 && (b / 16) % 8 != 0 then Err(VarintOverflow)
        else Ok(r, bs[1..])
  }

  /** A varint in the fast 32-bit reading. */
  function Varint32(bs: seq<byte>): (p: Parse<nat>)
    ensures p.Ok? ==> p.value < TWO_32 && IsSuffix(p.rest, bs) && |p.rest| < |bs|
  {
    if bs == [] then Err(EndOfStream)
    else if bs[0] < 128 then Ok(bs[0], bs[1..])
    else
      Varint32MoreBound(bs[1..], bs[0] - 128, 7);
      Varint32More(bs[1..], bs[0] - 128, 7)
  }

  /** How many bytes the fast reader leaves in the stream, whether or not it accepts. */
  function Varint32MoreLeft(bs: seq<byte>, result: nat, bitpos: nat): (n: nat)
    ensures Varint32More(bs, result, bitpos).Ok? ==> n == |Varint32More(bs, result, bitpos).rest|
  {
    if bs == [] then 0
    else if (bitpos >= 32 && BadHighByte(bs[0], result, bitpos)) || bs[0] < 128 then |bs| - 1
    else Varint32MoreLeft(bs[1..], Merge32(result, bs[0], bitpos), (bitpos + 7) % 256)
  }

  function Varint32Left(bs: seq<byte>): (n: nat)
    ensures Varint32(bs).Ok? ==> n == |Varint32(bs).rest|
  {
    if bs == [] then 0
    else if bs[0] < 128 then |bs| - 1
    else Varint32MoreLeft(bs[1..], bs[0] - 128, 7)
  }

  /** The first byte of the fast reading. */
  lemma FirstByte(bs: seq<byte>)
    ensures bs == [] ==> Varint32(bs) == Err(EndOfStream) && Varint32Left(bs) == 0
    ensures bs != [] && bs[0] < 128 ==> Varint32(bs) == Ok(bs[0], bs[1..]) && Varint32Left(bs) == |bs| - 1
    ensures bs != [] && bs[0] >= 128 ==>
              && Varint32(bs) == Varint32More(bs[1..], bs[0] - 128, 7)
              && Varint32Left(bs) == Varint32MoreLeft(bs[1..], bs[0] - 128, 7)
  {
    hide Varint32More, Varint32MoreLeft;
  }

  /** A further byte. */
  lemma FurtherByte(bs: seq<byte>, result: nat, bitpos: nat)
    ensures bs == [] ==>
              Varint32More(bs, result, bitpos) == Err(EndOfStream) && Varint32MoreLeft(bs, result, bitpos) == 0
    ensures bs != [] && bitpos >= 32 && BadHighByte(bs[0], result, bitpos) ==>
              && Varint32More(bs, result, bitpos) == Err(VarintOverflow)
              && Varint32MoreLeft(bs, result, bitpos) == |bs| - 1
    ensures bs != [] && !(bitpos >= 32 && BadHighByte(bs[0], result, bitpos)) ==>
              var r, next := Merge32(result, bs[0], bitpos), (bitpos + 7) % 256;
              if bs[0] >= 128 then
                && Varint32More(bs, result, bitpos) == Varint32More(bs[1..], r, next)
                && Varint32MoreLeft(bs, result, bitpos) == Varint32MoreLeft(bs[1..], r, next)
              else
                && Varint32MoreLeft(bs, result, bitpos) == |bs| - 1
                && Varint32More(bs, result, bitpos)
                   == if next == 35 && (bs[0] / 16) % 8 != 0 then Err(VarintOverflow) else Ok(r, bs[1..])
  {
    hide Merge32, BadHighByte;
  }

  /** How many bytes the general reader leaves, which takes ten before it finds a varint too long. */
  function Varint64Left(bs: seq<byte>): (n: nat) {
    match Varint64(bs)
    case Ok(_, rest) => |rest|
    case Err(e) => if e == VarintOverflow && |bs| >= 10 then |bs| - 10 else 0
  }

  lemma Merge32Bound(result: nat, b: byte, bitpos: nat)
    requires result < TWO_32
    ensures Merge32(result, b, bitpos) < TWO_32
  {
    Pow2Table();
    OrBound(result, Shl(b % 128, bitpos) % TWO_32, 32);
  }

  lemma {:induction false} Varint32MoreBound(bs: seq<byte>, result: nat, bitpos: nat)
    requires result < TWO_32
    ensures Varint32More(bs, result, bitpos).Ok? ==> Varint32More(bs, result, bitpos).value < TWO_32
    decreases bs
  {
    if bs != [] && !(bitpos >= 32 && BadHighByte(bs[0], result, bitpos)) {
      Merge32Bound(result, bs[0], bitpos);
      Varint32MoreBound(bs[1..], Merge32(result, bs[0], bitpos), (bitpos + 7) % 256);
    }
  }

  // A varint written and read back.

  lemma {:induction false} TakeVarintOfBytes(v: nat, limit: nat, t: seq<byte>)
    requires limit >= 1 && v < Pow2(7 * limit)
    ensures TakeVarint(VarintBytes(v) + t, limit) == Ok(v, t)
    decreases limit
  {
    hide VarintBytes, Pow2, IsSuffix;
    if v < 128 {
      VarintOneByte(v, t);
    } else {
      VarintSplit(v, t);
      OneGroupLess(v, limit);
      TakeVarintOfBytes(v / 128, limit - 1, t);
    }
  }

  lemma OneGroupLess(v: nat, limit: nat)
    requires limit >= 1 && 128 <= v < Pow2(7 * limit)
    ensures limit >= 2 && v / 128 < Pow2(7 * (limit - 1))
  {
    Pow2Seven(7 * (limit - 1));
    Pow2Table();
  }

  /** Every 64-bit value survives pb_encode_varint followed by pb_decode_varint, and exactly
      its own bytes are consumed. */
  lemma Varint64RoundTrip(v: nat, t: seq<byte>)
    requires v < TWO_64
    ensures Varint64(VarintBytes(v) + t) == Ok(v, t)
  {
    TenGroups();
    hide TakeVarint, VarintBytes, Pow2, IsSuffix;
    TakeVarintOfBytes(v, 10, t);
  }

  lemma TenGroups()
    ensures TWO_64 <= Pow2(70)
  {
    Pow2Table();
    Pow2Seven(63);
  }

  lemma {:induction false} VarintLength(v: nat, n: nat)
    requires n >= 1 && v < Pow2(7 * n)
    ensures |VarintBytes(v)| <= n
  {
    VarintStep(v);
    hide VarintBytes, Pow2;
    if v >= 128 {
      OneGroupLess(v, n);
      VarintLength(v / 128, n - 1);
    }
  }

  /** No 64-bit value needs more than the ten bytes of the encoder's local buffer. */
  lemma VarintFitsBuffer(v: nat)
    requires v < TWO_64
    ensures |VarintBytes(v)| <= 10
  {
    TenGroups();
    hide Pow2;
    VarintLength(v, 10);
  }

  // The fast reader against the general one.

  /** The weight of group `k` of a varint. */
  function Weight(k: nat): nat
    requires k <= 9
  {
    if k == 0 then 1 else if k == 1 then 0x80 else if k == 2 then 0x4000 else if k == 3 then 0x20_0000
    else if k == 4 then 0x1000_0000 else if k == 5 then 0x8_0000_0000 else if k == 6 then 0x400_0000_0000
    else if k == 7 then 0x2_0000_0000_0000 else if k == 8 then 0x100_0000_0000_0000 else TWO_63
  }

  /** The value `acc` of the groups below `k`, extended by the value `w` from group `k` on. */
  function AddGroup(acc: nat, w: nat, k: nat): nat
    requires k <= 9
  {
    acc + w * Weight(k)
  }

  lemma {:induction false} WeightIsPow2(k: nat)
    requires k <= 9
    ensures Pow2(7 * k) == Weight(k)
  {
    if k > 0 {
      WeightIsPow2(k - 1);
      Pow2Seven(7 * (k - 1));
    }
  }

  lemma ModAdd(a: nat, m: nat)
    ensures (a + TWO_32 * m) % TWO_32 == a % TWO_32
  {}

  lemma ShiftedGroup(g: nat)
    requires g < 128
    ensures (g * 0x1000_0000) % TWO_32 == (g % 16) * 0x1000_0000
  {
    ModAdd((g % 16) * 0x1000_0000, g / 16);
  }

  /** Or-ing in group `k`, in terms of the exact value read so far. */
  lemma MergeStep(acc: nat, b: byte, k: nat)
    requires 1 <= k <= 9 && acc < Weight(k)
    ensures Merge32(acc % TWO_32, b, 7 * k) == AddGroup(acc, b % 128, k) % TWO_32
  {
    hide *;
    MergeCases(acc, b, k);
    if k <= 3 {
      MergeLow(acc, b % 128, k);
    } else if k == 4 {
      MergeFifth(acc, b % 128);
    } else {
      HighGroup(acc, b % 128, k);
    }
  }

  lemma MergeCases(acc: nat, b: byte, k: nat)
    requires 1 <= k <= 9 && acc < Weight(k)
    ensures k <= 4 ==> Merge32(acc % TWO_32, b, 7 * k) == BitOr(acc, Shl(b % 128, 7 * k) % TWO_32)
    ensures k > 4 ==> Merge32(acc % TWO_32, b, 7 * k) == acc % TWO_32
    ensures 0 < TWO_32 && forall x: nat :: x < TWO_32 ==> x % TWO_32 == x
  {
    hide BitOr, Shl;
  }

  lemma MergeLow(acc: nat, g: nat, k: nat)
    requires 1 <= k <= 3 && acc < Weight(k) && g < 128
    ensures BitOr(acc, Shl(g, 7 * k) % TWO_32) == AddGroup(acc, g, k) < TWO_32
  {
    hide Pow2, BitOr;
    WeightIsPow2(k);
    OrDisjoint(acc, g, 7 * k);
  }

  /** The group at bit 28: only its low four bits fit. */
  lemma MergeFifth(acc: nat, g: nat)
    requires acc < Weight(4) && g < 128
    ensures BitOr(acc, Shl(g, 28) % TWO_32) == AddGroup(acc, g, 4) % TWO_32
  {
    hide Pow2, BitOr;
    WeightIsPow2(4);
    ShiftedGroup(g);
    OrDisjoint(acc, g % 16, 28);
    ModAdd(acc + (g % 16) * 0x1000_0000, g / 16);
  }

  /** Groups beyond bit 32 do not change the low 32 bits. */
  lemma HighGroup(acc: nat, g: nat, k: nat)
    requires 5 <= k <= 9
    ensures AddGroup(acc, g, k) % TWO_32 == acc % TWO_32
  {
    var q := Weight(k) / TWO_32;
    assert Weight(k) == TWO_32 * q;
    assert g * (TWO_32 * q) == TWO_32 * (g * q);
    ModAdd(acc, g * q);
  }

  lemma NextWeight(acc: nat, g: nat, k: nat)
    requires k <= 8 && acc < Weight(k) && g < 128
    ensures AddGroup(acc, g, k) < Weight(k + 1)
  {
    assert g * Weight(k) <= 127 * Weight(k);
  }

  /** Splitting the remaining value `w` into its next group and the rest. */
  lemma Regroup(acc: nat, w: nat, k: nat)
    requires k <= 8
    ensures AddGroup(AddGroup(acc, w % 128, k), w / 128, k + 1) == AddGroup(acc, w, k)
  {
    var p := Weight(k);
    assert Weight(k + 1) == 128 * p;
    assert w == w % 128 + 128 * (w / 128);
    assert (w % 128 + 128 * (w / 128)) * p == (w % 128) * p + (w / 128) * (128 * p);
  }

  lemma MoreStep(bs: seq<byte>, result: nat, bitpos: nat)
    requires bs != [] && bs[0] >= 128 && bitpos < 32
    ensures Varint32More(bs, result, bitpos) == Varint32More(bs[1..], Merge32(result, bs[0], bitpos), bitpos + 7)
  {
    hide Merge32, BadHighByte, IsSuffix;
  }

  /** The fast reader passes over a continued group below bit 32. */
  lemma MoreContinues(bs: seq<byte>, acc: nat, k: nat)
    requires bs != [] && bs[0] >= 128 && 1 <= k <= 4 && acc < Weight(k)
    ensures Varint32More(bs, acc % TWO_32, 7 * k)
         == Varint32More(bs[1..], AddGroup(acc, bs[0] - 128, k) % TWO_32, 7 * (k + 1))
    ensures AddGroup(acc, bs[0] - 128, k) < Weight(k + 1)
  {
    hide Merge32, AddGroup, Weight, Varint32More;
    assert bs[0] % 128 == bs[0] - 128;
    MoreStep(bs, acc % TWO_32, 7 * k);
    MergeStep(acc, bs[0], k);
    NextWeight(acc, bs[0] - 128, k);
  }

  lemma {:induction false} FastAgreesFrom(bs: seq<byte>, acc: nat, k: nat, v: nat, rest: seq<byte>)
    requires 1 <= k <= 9 && acc < Weight(k)
    requires TakeVarint(bs, 10 - k) == Ok(v, rest) && Varint32More(bs, acc % TWO_32, 7 * k).Ok?
    ensures Varint32More(bs, acc % TWO_32, 7 * k) == Ok(AddGroup(acc, v, k) % TWO_32, rest)
    decreases 10 - k
  {
    hide Pow2, BitOr, Merge32, Weight, AddGroup, IsSuffix, BadHighByte;
    MergeStep(acc, bs[0], k);
    if bs[0] >= 128 {
      var acc' := AddGroup(acc, bs[0] - 128, k);
      NextWeight(acc, bs[0] - 128, k);
      Regroup(acc, v, k);
      assert v % 128 == bs[0] - 128;
      assert Varint32More(bs, acc % TWO_32, 7 * k) == Varint32More(bs[1..], acc' % TWO_32, 7 * (k + 1));
      FastAgreesFrom(bs[1..], acc', k + 1, v / 128, rest);
    }
  }

  lemma FastAgrees(bs: seq<byte>, limit: nat, v: nat, rest: seq<byte>)
    requires limit == 10 && TakeVarint(bs, limit) == Ok(v, rest) && Varint32(bs).Ok?
    ensures Varint32(bs) == Ok(v % TWO_32, rest)
  {
    hide Pow2, BitOr, Merge32, Varint32More, IsSuffix;
    if bs[0] >= 128 {
      FastAgreesFrom(bs[1..], bs[0] - 128, 1, v / 128, rest);
      assert AddGroup(bs[0] - 128, v / 128, 1) == v;
    }
  }

  /** Whenever the fast reader accepts a varint of at most ten bytes, it returns the low 32 bits
      of the general reader's value and consumes the same bytes. */
  lemma FastVarintAgrees(bs: seq<byte>)
    requires TakeVarint(bs, 10).Ok? && Varint32(bs).Ok?
    ensures Varint64(bs).Ok?
    ensures Varint32(bs) == Ok(Varint64(bs).value % TWO_32, Varint64(bs).rest)
  {
    hide TakeVarint, Varint32;
    FastAgrees(bs, 10, TakeVarint(bs, 10).value, TakeVarint(bs, 10).rest);
    ModMod(TakeVarint(bs, 10).value);
  }

  lemma ModMod(v: nat)
    ensures v % TWO_64 % TWO_32 == v % TWO_32
  {
    ModAdd(v % TWO_64, TWO_32 * (v / TWO_64));
  }

  lemma {:induction false} FastAcceptsFrom(w: nat, acc: nat, k: nat, v: nat, t: seq<byte>)
    requires 1 <= k <= 4 && acc < Weight(k) && 1 <= w
    requires AddGroup(acc, w, k) == v < TWO_32
    ensures Varint32More(VarintBytes(w) + t, acc % TWO_32, 7 * k) == Ok(v, t)
    decreases 5 - k
  {
    if w < 128 {
      MoreEnds(w, acc, k, v, t);
    } else {
      assert k < 4;
      VarintSplit(w, t);
      MoreContinues(VarintBytes(w) + t, acc, k);
      Regroup(acc, w, k);
      hide Varint32More, VarintBytes, AddGroup, IsSuffix;
      FastAcceptsFrom(w / 128, AddGroup(acc, w % 128, k), k + 1, v, t);
    }
  }

  lemma MoreEnds(w: nat, acc: nat, k: nat, v: nat, t: seq<byte>)
    requires 1 <= k <= 4 && acc < Weight(k) && 1 <= w < 128
    requires AddGroup(acc, w, k) == v < TWO_32
    ensures Varint32More(VarintBytes(w) + t, acc % TWO_32, 7 * k) == Ok(v, t)
  {
    hide Pow2, BitOr, Merge32, BadHighByte;
    var bs := VarintBytes(w) + t;
    assert bs[0] == w && bs[1..] == t;
    MergeStep(acc, w, k);
    assert k == 4 ==> w < 16;
  }

  lemma FastFirst(bs: seq<byte>)
    requires bs != []
    ensures bs[0] < 128 ==> Varint32(bs) == Ok(bs[0], bs[1..])
    ensures bs[0] >= 128 ==> Varint32(bs) == Varint32More(bs[1..], bs[0] - 128, 7)
  {
    hide Varint32More, IsSuffix;
  }

  lemma FirstGroup(v: nat)
    ensures AddGroup(v % 128, v / 128, 1) == v && v % 128 % TWO_32 == v % 128 < Weight(1)
  {}

  /** A value below 2^32 survives the fast reader. */
  lemma Varint32RoundTrip(v: nat, t: seq<byte>)
    requires v < TWO_32
    ensures Varint32(VarintBytes(v) + t) == Ok(v, t)
  {
    var bs := VarintBytes(v) + t;
    FastFirst(bs);
    FirstGroup(v);
    hide Varint32, Varint32More, VarintBytes, AddGroup, Weight, IsSuffix;
    if v < 128 {
      VarintOneByte(v, t);
    } else {
      VarintSplit(v, t);
      FastAcceptsFrom(v / 128, v % 128, 1, v, t);
    }
  }

  lemma {:induction false} FastRejectsFrom(w: nat, acc: nat, result: nat, k: nat, t: seq<byte>)
    requires 1 <= k <= 8 && acc < Weight(k) && 1 <= w < Weight(9 - k)
    requires AddGroup(acc, w, k) >= TWO_32
    ensures Varint32More(VarintBytes(w) + t, result, 7 * k).Err?
    decreases 9 - k
  {
    hide Pow2, BitOr, Merge32;
    var bs := VarintBytes(w) + t;
    if w >= 128 {
      NextWeight(acc, w % 128, k);
      Regroup(acc, w, k);
      assert bs[1..] == VarintBytes(w / 128) + t;
      FastRejectsFrom(w / 128, AddGroup(acc, w % 128, k), Merge32(result, bs[0], 7 * k), k + 1, t);
    }
  }

  /** On the bytes pb_encode_varint writes for a value below 2^63, the fast reader accepts
      exactly the values below 2^32. */
  lemma FastVarintAccepts(v: nat, t: seq<byte>)
    requires v < TWO_63
    ensures Varint32(VarintBytes(v) + t).Ok? <==> v < TWO_32
  {
    if v < TWO_32 {
      hide Varint32, VarintBytes;
      Varint32RoundTrip(v, t);
    } else {
      FastFirst(VarintBytes(v) + t);
      FirstGroup(v);
      VarintSplit(v, t);
      assert 1 <= v / 128 < Weight(8);
      hide Varint32, Varint32More, VarintBytes, AddGroup, Weight, IsSuffix;
      FastRejectsFrom(v / 128, v % 128, v % 128, 1, t);
    }
  }

  lemma {:induction false} FastSignFrom(w: nat, acc: nat, k: nat, v: nat, t: seq<byte>)
    requires 1 <= k <= 4 && acc < Weight(k) && AddGroup(acc, w, k) == v
    requires TWO_64 - TWO_31 <= v < TWO_64
    ensures Varint32More(VarintBytes(w) + t, acc % TWO_32, 7 * k) == Ok(v % TWO_32, t)
    decreases 5 - k
  {
    SignGroup(w, acc, k, v);
    VarintSplit(w, t);
    hide Varint32More, AddGroup, Weight, VarintBytes, IsSuffix;
    MoreContinues(VarintBytes(w) + t, acc, k);
    Regroup(acc, w, k);
    var next := AddGroup(acc, w % 128, k);
    if k < 4 {
      FastSignFrom(w / 128, next, k + 1, v, t);
    } else {
      HighGroup(next, w / 128, 5);
      FastSignTail(v % TWO_32, t);
    }
  }

  /** The groups of a sign-extended negative number: there are always more, and those above
      bit 35 are all ones. */
  lemma SignGroup(w: nat, acc: nat, k: nat, v: nat)
    requires 1 <= k <= 4 && acc < Weight(k) && AddGroup(acc, w, k) == v
    requires TWO_64 - TWO_31 <= v < TWO_64
    ensures w >= 128 && TWO_31 <= v % TWO_32
    ensures k == 4 ==> w / 128 == 0x1FFF_FFFF
  {}

  /** The five bytes above bit 35 of a sign-extended negative 32-bit number. */
  lemma FastSignTail(result: nat, t: seq<byte>)
    requires TWO_31 <= result < TWO_32
    ensures Varint32More(VarintBytes(0x1FFF_FFFF) + t, result, 35) == Ok(result, t)
  {
    SignTailBytes();
    var b4: seq<byte> := [1] + t;
    var b3 := [255] + b4;
    var b2 := [255] + b3;
    var b1 := [255] + b2;
    var b0 := [255] + b1;
    assert VarintBytes(0x1FFF_FFFF) + t == b0;
    assert b4[1..] == t && b3[1..] == b4 && b2[1..] == b3 && b1[1..] == b2 && b0[1..] == b1;
    assert Varint32More(b4, result, 63) == Ok(result, t);
    assert Varint32More(b3, result, 56) == Ok(result, t);
    assert Varint32More(b2, result, 49) == Ok(result, t);
    assert Varint32More(b1, result, 42) == Ok(result, t);
  }

  lemma SignTailBytes()
    ensures VarintBytes(0x1FFF_FFFF) == [255, 255, 255, 255, 1]
  {
    assert VarintBytes(0xFF) == [255, 1];
    assert VarintBytes(0x7FFF) == [255] + VarintBytes(0xFF);
    assert VarintBytes(0x3F_FFFF) == [255] + VarintBytes(0x7FFF);
    assert VarintBytes(0x1FFF_FFFF) == [255] + VarintBytes(0x3F_FFFF);
  }

  /** The fast reader accepts every negative 32-bit integer that was sign-extended to 64 bits,
      and returns its 32-bit two's complement. */
  lemma FastVarintAcceptsNegative(n: int, t: seq<byte>)
    requires -(TWO_31 as int) <= n < 0
    ensures Varint32(VarintBytes(n + TWO_64) + t) == Ok(n + TWO_32, t)
  {
    var v := n + TWO_64;
    NegativeGroups(n);
    hide *;
    FastFirst(VarintBytes(v) + t);
    FirstGroup(v);
    VarintSplit(v, t);
    FastSignFrom(v / 128, v % 128, 1, v, t);
  }

  lemma NegativeGroups(n: int)
    requires -(TWO_31 as int) <= n < 0
    ensures (n + TWO_64) % TWO_32 == n + TWO_32
  {
  }

  // ---- Signed integers --------------------------------------------------------------

  function ZigZag(n: int): nat {
    if n < 0 then -2 * n - 1 else 2 * n
  }

  function UnZigZag(v: nat): int {
    if v % 2 == 1 then -(v / 2) - 1 else v / 2
  }

  /** The C cast of `v` to a signed integer of `bits` bits. */
  function SignedCast(v: int, bits: nat): (r: int)
    requires bits >= 1
    ensures -(Pow2(bits - 1) as int) <= r < Pow2(bits - 1)
  {
    var u := v % Pow2(bits);
    if u >= Pow2(bits - 1) then u - Pow2(bits) else u
  }

  lemma SignedCastFits(v: int, bits: nat)
    requires bits >= 1 && -(Pow2(bits - 1) as int) <= v < Pow2(bits - 1)
    ensures SignedCast(v, bits) == v
  {
    var m := Pow2(bits);
    if v >= 0 { ModIs(v, m, 0); } else { ModIs(v, m, -1); }
  }

  lemma ModIs(v: int, m: nat, q: int)
    requires m > 0 && q * m <= v < q * m + m
    ensures v % m == v - q * m
  {
    var x := v / m;
    assert v == m * x + v % m;
    assert x < q ==> (x + 1) * m <= q * m;
    assert x > q ==> (q + 1) * m <= x * m;
  }

  // ---- Fixed-width integers ---------------------------------------------------------

  function LittleEndian(v: nat, n: nat): (bs: seq<byte>)
    ensures |bs| == n
  {
    if n == 0 then [] else [v % 256] + LittleEndian(v / 256, n - 1)
  }

  function FromLittleEndian(bs: seq<byte>): nat {
    if bs == [] then 0 else bs[0] + 256 * FromLittleEndian(bs[1..])
  }

  lemma {:induction false} LittleEndianRoundTrip(v: nat, n: nat)
    requires v < Pow2(8 * n)
    ensures FromLittleEndian(LittleEndian(v, n)) == v
  {
    if n > 0 {
      Pow2Seven(8 * n - 8);
      assert Pow2(8 * n) == 256 * Pow2(8 * (n - 1));
      LittleEndianRoundTrip(v / 256, n - 1);
      assert LittleEndian(v, n)[1..] == LittleEndian(v / 256, n - 1);
    }
  }

  // ---- Raw bytes, length prefixes, tags and skipping ---------------------------------

  function Take(bs: seq<byte>, n: nat): (p: Parse<seq<byte>>)
    ensures p.Ok? ==> IsSuffix(p.rest, bs) && |p.value| == n
  {
    if |bs| < n then Err(EndOfStream) else Ok(bs[..n], bs[n..])
  }

  /** A length-delimited record: the payload a substream is limited to. */
  function Delimited(bs: seq<byte>): (p: Parse<seq<byte>>)
    ensures p.Ok? ==> IsSuffix(p.rest, bs) && |p.value| + |p.rest| < |bs|
  {
    match Varint32(bs)
    case Err(e) => Err(e)
    case Ok(n, rest) =>
      if |rest| < n then Err(ParentStreamTooShort) else Ok(rest[..n], rest[n..])
  }

  lemma DelimitedCases(bs: seq<byte>)
    ensures var size := Varint32(bs);
            && (size.Err? ==> Delimited(bs) == Err(size.error))
            && (size.Ok? && |size.rest| < size.value ==> Delimited(bs) == Err(ParentStreamTooShort))
            && (size.Ok? && |size.rest| >= size.value ==>
                  Delimited(bs) == Ok(size.rest[..size.value], size.rest[size.value..]))
  {
    hide Varint32, IsSuffix;
  }

  /** A length prefix followed by its data; the length is cast to 64 bits. */
  function Prefixed(data: seq<byte>): seq<byte> {
    VarintBytes(|data| % TWO_64) + data
  }

  lemma DelimitedOfPrefixed(data: seq<byte>, t: seq<byte>)
    requires |data| < TWO_32
    ensures Delimited(Prefixed(data) + t) == Ok(data, t)
  {
    assert Prefixed(data) + t == VarintBytes(|data|) + (data + t);
    Varint32RoundTrip(|data|, data + t);
  }

  const WT_VARINT: nat := 0
  const WT_64BIT: nat := 1
  const WT_STRING: nat := 2
  const WT_32BIT: nat := 5

  function TagBytes(tag: nat, wireType: nat): seq<byte> {
    VarintBytes(8 * tag + wireType)
  }

  /** What pb_decode_tag finds: a tag, the end of the message, or an error. */
  datatype TagResult =
    | Tag(tag: nat, wireType: nat, rest: seq<byte>)
    | End(rest: seq<byte>)
    | TagErr(error: Error)

  function DecodeTag(bs: seq<byte>): (r: TagResult)
    ensures r.Tag? ==> IsSuffix(r.rest, bs) && |r.rest| < |bs| && r.wireType < 8
    ensures r.End? ==> IsSuffix(r.rest, bs)
  {
    if bs == [] then End(bs)
    else
      match Varint32(bs)
      case Err(e) => TagErr(e)
      case Ok(v, rest) => if v == 0 then End(rest) else Tag(v / 8, v % 8, rest)
  }

  lemma DecodeTagOfBytes(tag: nat, wireType: nat, t: seq<byte>)
    requires wireType < 8 && 0 < 8 * tag + wireType && tag < TWO_32 / 8
    ensures DecodeTag(TagBytes(tag, wireType) + t) == Tag(tag, wireType, t)
  {
    hide VarintBytes, Varint32, IsSuffix;
    Varint32RoundTrip(8 * tag + wireType, t);
    assert (8 * tag + wireType) / 8 == tag && (8 * tag + wireType) % 8 == wireType;
  }

  function SkipVarint(bs: seq<byte>): (p: Parse<()>)
    ensures p.Ok? ==> IsSuffix(p.rest, bs) && |p.rest| < |bs|
  {
    if bs == [] then Err(EndOfStream)
    else if bs[0] < 128 then Ok((), bs[1..])
    else SkipVarint(bs[1..])
  }

  function SkipBytes(bs: seq<byte>, n: nat): (p: Parse<()>)
    ensures p.Ok? ==> IsSuffix(p.rest, bs)
  {
    if |bs| < n then Err(EndOfStream) else Ok((), bs[n..])
  }

  function SkipField(wireType: nat, bs: seq<byte>): (p: Parse<()>)
    ensures p.Ok? ==> IsSuffix(p.rest, bs)
  {
    if wireType == WT_VARINT then SkipVarint(bs)
    else if wireType == WT_64BIT then SkipBytes(bs, 8)
    else if wireType == WT_STRING then
      match Varint32(bs)
      case Err(e) => Err(e)
      case Ok(n, rest) => SkipBytes(rest, n)
    else if wireType == WT_32BIT then SkipBytes(bs, 4)
    else Err(InvalidWireType)
  }

  // ---- Locality: a reader that succeeds looks only at the bytes it consumes ----------

  lemma {:induction false} TakeVarintLocal(c: seq<byte>, r: seq<byte>, t: seq<byte>, limit: nat)
    requires TakeVarint(c + r, limit).Ok? && TakeVarint(c + r, limit).rest == r
    ensures TakeVarint(c + t, limit) == Ok(TakeVarint(c + r, limit).value, t)
    decreases limit
  {
    assert |c| >= 1;
    assert (c + r)[1..] == c[1..] + r && (c + t)[1..] == c[1..] + t;
    if c[0] >= 128 {
      TakeVarintLocal(c[1..], r, t, limit - 1);
    } else {
      assert |(c + r)[1..]| == |r|;
      assert c[1..] == [];
    }
  }

  lemma {:induction false} Varint32MoreLocal(c: seq<byte>, r: seq<byte>, t: seq<byte>, result: nat, bitpos: nat)
    requires Varint32More(c + r, result, bitpos).Ok? && Varint32More(c + r, result, bitpos).rest == r
    ensures Varint32More(c + t, result, bitpos) == Ok(Varint32More(c + r, result, bitpos).value, t)
    decreases c
  {
    hide Pow2, BitOr, Merge32;
    assert |c| >= 1;
    assert (c + r)[1..] == c[1..] + r && (c + t)[1..] == c[1..] + t;
    if c[0] >= 128 {
      Varint32MoreLocal(c[1..], r, t, Merge32(result, c[0], bitpos), (bitpos + 7) % 256);
    } else {
      assert |(c + r)[1..]| == |r|;
      assert c[1..] == [];
    }
  }

  lemma Varint32Local(c: seq<byte>, r: seq<byte>, t: seq<byte>)
    requires Varint32(c + r).Ok? && Varint32(c + r).rest == r
    ensures Varint32(c + t) == Ok(Varint32(c + r).value, t)
  {
    hide Pow2, BitOr, Merge32;
    assert |c| >= 1;
    assert (c + r)[1..] == c[1..] + r && (c + t)[1..] == c[1..] + t;
    if c[0] >= 128 {
      Varint32MoreLocal(c[1..], r, t, c[0] - 128, 7);
    } else {
      assert |(c + r)[1..]| == |r|;
      assert c[1..] == [];
    }
  }

  lemma SplitConsumed(c: seq<byte>, r: seq<byte>, rest: seq<byte>)
    requires IsSuffix(rest, c + r) && IsSuffix(r, rest)
    ensures c == Consumed(c + r, rest) + Consumed(rest, r)
  {}

  lemma DelimitedLocal(c: seq<byte>, r: seq<byte>, t: seq<byte>)
    requires Delimited(c + r).Ok? && Delimited(c + r).rest == r
    ensures Delimited(c + t) == Ok(Delimited(c + r).value, t)
  {
    hide Varint32;
    var rest := Varint32(c + r).rest;
    var data := Delimited(c + r).value;
    assert IsSuffix(r, rest);
    hide IsSuffix;
    var h := Consumed(c + r, rest);
    assert rest == data + r;
    SplitConsumed(c, r, rest);
    Varint32Local(h, rest, data + t);
    assert c + t == h + (data + t);
  }

  lemma DecodeTagLocal(c: seq<byte>, r: seq<byte>, t: seq<byte>)
    requires DecodeTag(c + r).Tag? && DecodeTag(c + r).rest == r
    ensures DecodeTag(c + t) == DecodeTag(c + r).(rest := t)
  {
    Varint32Local(c, r, t);
  }

  lemma SkipBytesLocal(c: seq<byte>, r: seq<byte>, t: seq<byte>, n: nat)
    requires SkipBytes(c + r, n).Ok? && SkipBytes(c + r, n).rest == r
    ensures SkipBytes(c + t, n) == Ok((), t)
  {
    assert |c| == n;
    assert (c + t)[n..] == t;
  }

  lemma {:induction false} SkipVarintLocal(c: seq<byte>, r: seq<byte>, t: seq<byte>)
    requires SkipVarint(c + r).Ok? && SkipVarint(c + r).rest == r
    ensures SkipVarint(c + t) == Ok((), t)
    decreases c
  {
    assert |c| >= 1;
    assert (c + r)[1..] == c[1..] + r && (c + t)[1..] == c[1..] + t;
    if c[0] >= 128 {
      SkipVarintLocal(c[1..], r, t);
    } else {
      assert |(c + r)[1..]| == |r|;
      assert c[1..] == [];
    }
  }

  lemma SkipStringLocal(c: seq<byte>, r: seq<byte>, t: seq<byte>, n: nat, rest: seq<byte>)
    requires Varint32(c + r) == Ok(n, rest) && SkipBytes(rest, n).Ok? && SkipBytes(rest, n).rest == r
    ensures Varint32(c + t).Ok? && Varint32(c + t).value == n && SkipBytes(Varint32(c + t).rest, n) == Ok((), t)
  {
    assert IsSuffix(r, rest);
    hide Varint32, SkipBytes, IsSuffix;
    SplitConsumed(c, r, rest);
    var h, data := Consumed(c + r, rest), Consumed(rest, r);
    assert c + t == h + (data + t);
    Varint32Local(h, rest, data + t);
    SkipBytesLocal(data, r, t, n);
  }

  lemma SkipFieldLocal(wireType: nat, c: seq<byte>, r: seq<byte>, t: seq<byte>)
    requires SkipField(wireType, c + r).Ok? && SkipField(wireType, c + r).rest == r
    ensures SkipField(wireType, c + t) == Ok((), t)
  {
    hide Varint32, SkipVarint, SkipBytes;
    if wireType == WT_VARINT {
      SkipVarintLocal(c, r, t);
    } else if wireType == WT_64BIT {
      SkipBytesLocal(c, r, t, 8);
    } else if wireType == WT_32BIT {
      SkipBytesLocal(c, r, t, 4);
    } else {
      SkipStringLocal(c, r, t, Varint32(c + r).value, Varint32(c + r).rest);
    }
  }
}
