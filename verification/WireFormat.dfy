/** The wire format in plain numbers, as the Protocol Buffers Encoding specification gives it: which bytes
    there are for a value, and which value a reader takes from bytes that no encoder here writes. */
module WireFormat {
  import opened Basics
  import opened Bits
  import opened Wire
  import opened Descriptor
  import opened Message
  import opened Encoding
  import opened Decoding
  import opened Scalars

  // ---- Digits ------------------------------------------------------------------------------------

  lemma Distribute(a: int, b: int, q: int, y: int)
    requires a > 0 && 0 <= y < b
    ensures a * (b * q + y) == a * b * q + a * y && 0 <= a * y <= a * b - a
  {
    assert a * (b * q + y) == a * (b * q) + a * y;
    assert a * (b * q) == a * b * q;
    AtLeast(a, y);
    AtLeast(a, b - y - 1);
    assert a * (b - y - 1) == a * b - a * y - a;
  }

  lemma AtLeast(a: int, y: int)
    requires a > 0 && y >= 0
    ensures a * y >= 0
  {}

  lemma DivDiv(v: nat, a: nat, b: nat)
    requires a > 0 && b > 0
    ensures a * b > 0 && v / a / b == v / (a * b)
  {
    var x, q, y := v / a, v / a / b, v / a % b;
    assert x == b * q + y;
    assert v == a * x + v % a == a * (b * q + y) + v % a;
    Distribute(a, b, q, y);
    var d, r := a * b, a * y + v % a;
    assert v == d * q + r && 0 <= r < d;
    QuotientUnique(v, d, q, r);
  }

  lemma QuotientUnique(v: nat, d: nat, q: nat, r: nat)
    requires d > 0 && v == d * q + r && r < d
    ensures v / d == q
  {
    var missing := v / d - q;
    assert d * missing == r - v % d;
  }

  /** A varint has the digits of the number in base 128, the least significant first, each but the last with
      128 added; and no more of them than the number needs. */
  lemma {:induction false} VarintDigits(v: nat, i: nat)
    requires i < |VarintBytes(v)|
    ensures VarintBytes(v)[i] == v / Pow2(7 * i) % 128 + if i + 1 < |VarintBytes(v)| then 128 else 0
    ensures v < Pow2(7 * |VarintBytes(v)|)
    ensures |VarintBytes(v)| > 1 ==> v >= Pow2(7 * |VarintBytes(v)| - 7)
    decreases v
  {
    hide *;
    VarintStep(v);
    PowZero();
    if v >= 128 {
      var n := |VarintBytes(v / 128)|;
      VarintDigits(v / 128, if i > 0 then i - 1 else 0);
      Pow2Seven(7 * n);
      Pow2Seven(7 * n - 7);
      DigitStep(v, Pow2(7 * n), Pow2(7 * n - 7));
      if i > 0 {
        Pow2Seven(7 * i - 7);
        DivDiv(v, 128, Pow2(7 * i - 7));
      }
    }
  }

  lemma PowZero()
    ensures Pow2(0) == 1 && Pow2(7) == 128
  {}

  lemma DigitStep(v: nat, p: nat, q: nat)
    ensures v / 128 < p ==> v < 128 * p
    ensures v / 128 >= q ==> v >= 128 * q
  {}

  /** Fixed-width numbers have their base 256 digits, the least significant first. */
  lemma {:induction false} FixedDigits(v: nat, n: nat, i: nat)
    requires i < n
    ensures LittleEndian(v, n)[i] == v / Pow2(8 * i) % 256
    decreases n
  {
    if i > 0 {
      FixedDigits(v / 256, n - 1, i - 1);
      Pow2Seven(8 * i - 8);
      assert Pow2(8 * i) == 256 * Pow2(8 * i - 8);
      DivDiv(v, 256, Pow2(8 * i - 8));
    }
  }

  // ---- Varints that are longer than they need be ---------------------------------------------------

  function Padding(z: nat): (bs: seq<byte>)
    ensures |bs| == z + 1
  {
    if z == 0 then [0] else [128] + Padding(z - 1)
  }

  /** The digits of `v`, all of them marked as not the last, and `z` marked zeros and a zero behind them. */
  function Padded(v: nat, z: nat): (bs: seq<byte>)
    ensures |bs| >= 1
  {
    if v < 128 then [v + 128] + Padding(z) else [v % 128 + 128] + Padded(v / 128, z)
  }

  /** Zeros do not change what the fast reader has. */
  lemma {:induction false} PaddingRead(z: nat, t: seq<byte>, result: nat, bitpos: nat)
    ensures Varint32More(Padding(z) + t, result, bitpos) == Ok(result, t)
  {
    hide *;
    var bs := Padding(z) + t;
    PaddingSplit(z, t);
    FurtherByte(bs, result, bitpos);
    ZeroGroup(bs[0], result, bitpos);
    if z > 0 { PaddingRead(z - 1, t, result, (bitpos + 7) % 256); }
  }

  lemma PaddingSplit(z: nat, t: seq<byte>)
    ensures var bs := Padding(z) + t;
            && bs[0] == (if z == 0 then 0 else 128)
            && bs[1..] == if z == 0 then t else Padding(z - 1) + t
  {
    var bs, rest := Padding(z) + t, if z == 0 then [] else Padding(z - 1);
    assert bs == [if z == 0 then 0 else 128] + rest + t;
    hide Padding;
    Uncons(if z == 0 then 0 else 128, rest, t);
    assert [] + t == t;
  }

  lemma ZeroGroup(b: byte, result: nat, bitpos: nat)
    requires b % 128 == 0
    ensures Merge32(result, b, bitpos) == result && !BadHighByte(b, result, bitpos)
  {
    OrZero(result);
    assert Shl(0, bitpos) == 0;
  }

  lemma PaddedSplit(v: nat, z: nat, t: seq<byte>)
    ensures var bs := Padded(v, z) + t;
            && bs[0] == v % 128 + 128
            && bs[1..] == if v < 128 then Padding(z) + t else Padded(v / 128, z) + t
  {
    hide Padding;
    var bs := Padded(v, z) + t;
    var rest := if v < 128 then Padding(z) else Padded(v / 128, z);
    assert bs == [v % 128 + 128] + rest + t;
    Uncons(v % 128 + 128, rest, t);
  }

  lemma {:induction false} PaddedFrom(acc: nat, w: nat, k: nat, z: nat, t: seq<byte>)
    requires 1 <= k <= 4 && acc < Weight(k) && AddGroup(acc, w, k) < 8 * TWO_32
    ensures Varint32More(Padded(w, z) + t, acc % TWO_32, 7 * k) == Ok(AddGroup(acc, w, k) % TWO_32, t)
    decreases w
  {
    hide *;
    var bs := Padded(w, z) + t;
    PaddedSplit(w, z, t);
    LowWeights(acc, w, k);
    MoreContinues(bs, acc, k);
    if w < 128 {
      PaddingRead(z, t, AddGroup(acc, w, k) % TWO_32, 7 * (k + 1));
    } else {
      Regroup(acc, w, k);
      PaddedFrom(AddGroup(acc, w % 128, k), w / 128, k + 1, z, t);
    }
  }

  lemma LowWeights(acc: nat, w: nat, k: nat)
    requires 1 <= k <= 4 && acc < Weight(k) && AddGroup(acc, w, k) < 8 * TWO_32
    ensures w >= 128 ==> k < 4
  {}

  lemma FirstGroup(v: nat)
    ensures v % 128 < Weight(1) && AddGroup(v % 128, v / 128, 1) == v
    ensures v % 128 % TWO_32 == v % 128 && (v < 128 ==> v % TWO_32 == v)
  {}

  /** Trailing zeros are let through, however many, as the source says. But of a number of five digits only the
      low 32 bits are then read: a padded varint from 2^32 on is cut, where the minimal one is refused. */
  lemma PaddedRead(v: nat, z: nat, t: seq<byte>)
    requires v < 8 * TWO_32
    ensures Varint32(Padded(v, z) + t) == Ok(v % TWO_32, t)
  {
    hide *;
    var bs := Padded(v, z) + t;
    PaddedSplit(v, z, t);
    FirstByte(bs);
    FirstGroup(v);
    if v < 128 {
      PaddingRead(z, t, v, 7);
    } else {
      PaddedFrom(v % 128, v / 128, 1, z, t);
    }
  }

  // ---- Numbers of fields and wire types -----------------------------------------------------------

  /** A field begins with eight times its number plus 0 for varints, 1 for 64 bits, 2 for a record and 5 for
      32 bits; a packed array is a record. */
  lemma FieldBegins(f: Field, items: seq<Item>)
    requires TypedItems(f, items)
    ensures FieldTag(f) == VarintBytes(8 * f.tag +
              match f.ltype
              case Bool => 0
              case Varint => 0
              case UVarint => 0
              case SVarint => 0
              case Fixed32 => 5
              case Fixed64 => 1
              case Extension => 0
              case _ => 2)
    ensures EncPacked(f, items).Success? ==>
              EncPackedRecord(f, items).Success?
              && EncPackedRecord(f, items).value == VarintBytes(8 * f.tag + 2) + Prefixed(EncPacked(f, items).value)
  {
    hide VarintBytes, EncPacked, Prefixed;
  }

  /** What is skipped for each wire type; the others are refused. */
  lemma SkippedByNumber(wireType: nat, bs: seq<byte>)
    ensures SkipField(0, bs) == SkipVarint(bs)
    ensures SkipField(1, bs) == if |bs| < 8 then Err(EndOfStream) else Ok((), bs[8..])
    ensures SkipField(5, bs) == if |bs| < 4 then Err(EndOfStream) else Ok((), bs[4..])
    ensures SkipField(2, bs) ==
              match Varint32(bs)
              case Err(e) => Err(e)
              case Ok(n, rest) => if |rest| < n then Err(EndOfStream) else Ok((), rest[n..])
    ensures wireType !in {0, 1, 2, 5} ==> SkipField(wireType, bs) == Err(InvalidWireType)
  {
    hide Varint32, SkipVarint;
  }

  /** A record announced with `n` bytes needs that many; with fewer it is refused, and a byte string too. */
  lemma RecordExactly(f: Field, n: nat, rest: seq<byte>)
    requires n < TWO_32
    ensures Delimited(VarintBytes(n) + rest)
         == if |rest| < n then Err(ParentStreamTooShort) else Ok(rest[..n], rest[n..])
    ensures (f.ltype.Bytes? || f.ltype.Str? || f.ltype.FixedLengthBytes?) && |rest| < n ==>
              DecBlob(f, VarintBytes(n) + rest).Err?
  {
    Varint32RoundTrip(n, rest);
    DelimitedCases(VarintBytes(n) + rest);
    hide Varint32, VarintBytes, BlobSize, IsSuffix, Delimited;
  }

  // ---- Signs ---------------------------------------------------------------------------------------

  /** The cast gives the one number in range that differs from `v` by a multiple of 2^bits. */
  lemma CastExact(v: int, bits: nat, w: int)
    requires bits >= 1
    ensures SignedCast(v, bits) == w <==>
              -(Pow2(bits - 1) as int) <= w < Pow2(bits - 1) && (v - w) % Pow2(bits) == 0
  {
    var m, half, c := Pow2(bits), Pow2(bits - 1), SignedCast(v, bits);
    assert m == 2 * half;
    assert c == v % m || c == v % m - m;
    hide Pow2, SignedCast;
    CastCongruent(v, m, c);
    if -(half as int) <= w < half && (v - w) % m == 0 {
      NoOtherNear(v, m, c, w);
    }
  }

  lemma CastCongruent(v: int, m: nat, c: int)
    requires m > 0 && (c == v % m || c == v % m - m)
    ensures (v - c) % m == 0
  {
    var k := v / m;
    if c == v % m {
      MultipleMod(v - c, m, k);
    } else {
      assert m * (k + 1) == m * k + m;
      MultipleMod(v - c, m, k + 1);
    }
  }

  lemma NoOtherNear(v: int, m: int, c: int, w: int)
    requires m > 0 && (v - c) % m == 0 && (v - w) % m == 0 && -m < c - w < m
    ensures c == w
  {
    var a, b := (v - w) / m, (v - c) / m;
    assert c - w == m * a - m * b == m * (a - b);
    Nearest(m, a - b);
  }

  lemma Nearest(m: int, k: int)
    requires m > 0 && -m < m * k < m
    ensures k == 0
  {}

  lemma MultipleMod(x: int, m: int, k: int)
    requires m > 0 && x == m * k
    ensures x % m == 0
  {
    ModIs(x, m, k);
  }

  /** A zigzag number of 0, 1, 2, 3, ... is 0, -1, 1, -2, ...: even ones are halved, odd ones negative. */
  lemma ZigZagTable(k: int)
    requires k >= 0
    ensures ZigZag(k) == 2 * k && ZigZag(-k - 1) == 2 * k + 1
    ensures UnZigZag(2 * k) == k && UnZigZag(2 * k + 1) == -k - 1
  {}

  /** A negative number of 32 bits or fewer is read alike from the ten bytes that this encoder writes and from
      the five bytes of encoders that write 32-bit varints. */
  lemma ShortNegative(f: Field, n: int)
    requires f.ltype.Varint? && f.dataSize in {1, 2, 4} && NumFits(f, n) && n < 0
    ensures FromVarint(f, TWO_32 + n) == Success(n) && FromVarint(f, TWO_64 + n) == Success(n)
  {
    hide *;
    ShortRange(f, n);
    ShortField(f, TWO_32 + n);
    ShortField(f, TWO_64 + n);
    VarintFieldExact(f, TWO_32 + n);
    VarintFieldExact(f, TWO_64 + n);
    CastExact(TWO_32 + n, 32, n);
    CastExact(TWO_64 + n, 32, n);
  }

  lemma ShortRange(f: Field, n: int)
    requires f.ltype.Varint? && f.dataSize in {1, 2, 4} && NumFits(f, n) && n < 0
    ensures Pow2(31) == TWO_31 && Pow2(32) == TWO_32 && -(TWO_31 as int) <= n < TWO_31
    ensures 0 < TWO_32 + n && 0 < TWO_64 + n && TWO_32 % TWO_32 == 0 && TWO_64 % TWO_32 == 0
  {
    Pow2Table();
    assert Pow2(32) == 2 * Pow2(31);
    hide Pow2;
    IntLimitsGrow(f.dataSize);
  }

  lemma ShortField(f: Field, v: nat)
    requires f.ltype.Varint? && f.dataSize in {1, 2, 4}
    ensures ValidDataSize(f.dataSize) && NumberOf(f, v) == SignedCast(v, 32)
  {
    hide SignedCast;
  }

  /** Which numbers fit a field of 1, 2, 4 or 8 bytes. */
  predicate InRange(f: Field, n: int) {
    f.dataSize in {1, 2, 4, 8} &&
    if f.ltype.UVarint? then 0 <= n < Pow2(8 * f.dataSize)
    else -(Pow2(8 * f.dataSize - 1) as int) <= n < Pow2(8 * f.dataSize - 1)
  }

  /** A varint field accepts exactly the values whose number is in the range of its size, and stores that
      number: for unsigned fields the value itself, for zigzag fields as the table above says, and for signed
      fields the number that differs from it by a multiple of 2^64 or, in fields of 4 bytes or fewer, 2^32. */
  lemma RangeExactly(f: Field, v: nat)
    requires f.ltype.Varint? || f.ltype.UVarint? || f.ltype.SVarint?
    ensures f.ltype.UVarint? ==> FromVarint(f, v).Success? == InRange(f, v)
    ensures f.ltype.SVarint? ==> FromVarint(f, v).Success? == InRange(f, UnZigZag(v))
    ensures FromVarint(f, v).Success? ==>
              var n := FromVarint(f, v).value;
              && InRange(f, n)
              && (f.ltype.UVarint? ==> n == v)
              && (f.ltype.SVarint? ==> n == UnZigZag(v))
              && (f.ltype.Varint? ==> (v - n) % Pow2(if f.dataSize == 8 then 64 else 32) == 0)
    ensures f.ltype.Varint? ==>
              forall n: int :: InRange(f, n) && (v - n) % Pow2(if f.dataSize == 8 then 64 else 32) == 0 ==>
                FromVarint(f, v) == Success(n)
  {
    hide *;
    VarintFieldExact(f, v);
    RangeIsFit(f);
    NumberMeans(f, v);
    if f.ltype.Varint? {
      var bits := if f.dataSize == 8 then 64 else 32;
      CastExact(v, bits, SignedCast(v, bits));
      forall n: int | InRange(f, n) && (v - n) % Pow2(bits) == 0
        ensures FromVarint(f, v) == Success(n)
      {
        RangeGrows(f, n);
        CastExact(v, bits, n);
      }
    }
  }

  lemma NumberMeans(f: Field, v: nat)
    requires f.ltype.Varint? || f.ltype.UVarint? || f.ltype.SVarint?
    ensures f.ltype.UVarint? ==> NumberOf(f, v) == v
    ensures f.ltype.SVarint? ==> NumberOf(f, v) == UnZigZag(v)
    ensures f.ltype.Varint? ==> NumberOf(f, v) == SignedCast(v, if f.dataSize == 8 then 64 else 32)
    ensures forall bits: nat :: Pow2(bits) > 0
  {
    hide SignedCast, UnZigZag;
  }

  lemma RangeIsFit(f: Field)
    requires f.ltype.Varint? || f.ltype.UVarint? || f.ltype.SVarint?
    ensures forall n: int :: InRange(f, n) <==> ValidDataSize(f.dataSize) && NumFits(f, n)
  {
    if ValidDataSize(f.dataSize) {
      var half := IntLimit(f.dataSize);
      assert Pow2(8 * f.dataSize) == 2 * Pow2(8 * f.dataSize - 1);
      hide Pow2, IntLimit;
    }
  }

  lemma RangeGrows(f: Field, n: int)
    requires f.ltype.Varint? && InRange(f, n)
    ensures f.dataSize != 8 ==> -(Pow2(31) as int) <= n < Pow2(31)
    ensures f.dataSize == 8 ==> -(Pow2(63) as int) <= n < Pow2(63)
  {
    RangeIsFit(f);
    IntLimitsGrow(f.dataSize);
    Pow2Table();
    assert Pow2(32) == 2 * Pow2(31);
    hide Pow2, IntLimit;
  }

  /** Any varint but 0 is read as true, and any number but 0 is written as true. */
  lemma BoolRead(f: Field, v: nat, t: seq<byte>)
    requires f.ltype.Bool? && v < TWO_32
    ensures DecBool(f, VarintBytes(v) + t) == Ok(Num(if v == 0 then 0 else 1), t)
    ensures v < 256 ==> EncItem(f, Num(v)) == Success([if v == 0 then 0 else 1])
  {
    VarintStep(if v != 0 then 1 else 0);
    hide VarintBytes, Varint32;
    Varint32RoundTrip(v, t);
  }

  /** Fixed-length bytes of which none are sent are zeros. */
  lemma NoFixedBytes(f: Field, t: seq<byte>)
    requires f.ltype.FixedLengthBytes?
    ensures var p := DecBlob(f, [0] + t);
            && p.Ok? && p.rest == t && |p.value.data| == f.dataSize
            && forall k: nat :: k < f.dataSize ==> p.value.data[k] == 0
  {
    assert ([0] + t)[1..] == t;
    hide Varint32More, IsSuffix;
  }

  /** Of a string with a zero byte in it only what is in front of that is written. */
  lemma StringWritten(f: Field, front: seq<byte>, rest: seq<byte>)
    requires f.ltype.Str? && 0 !in front && |front| + 1 + |rest| <= f.dataSize
    ensures EncItem(f, Blob(front + [0] + rest)) == Success(Prefixed(front))
  {
    var data := front + [0] + rest;
    FirstZero(front, rest);
    assert data[..|front|] == front;
    hide Prefixed, StrLen;
  }

  lemma {:induction false} FirstZero(front: seq<byte>, rest: seq<byte>)
    requires 0 !in front
    ensures StrLen(front + [0] + rest) == |front|
  {
    var data := front + [0] + rest;
    if front != [] {
      assert data[0] == front[0] && front[0] in front;
      assert data[1..] == front[1..] + [0] + rest;
      FirstZero(front[1..], rest);
    }
  }

  /** A C string ends at its first zero byte, or with its buffer. */
  lemma {:induction false} StringEnds(data: seq<byte>)
    ensures 0 !in data[..StrLen(data)] && (StrLen(data) < |data| ==> data[StrLen(data)] == 0)
  {
    if data != [] && data[0] != 0 {
      StringEnds(data[1..]);
      var n := StrLen(data[1..]);
      assert data[..n + 1] == [data[0]] + data[1..][..n];
    }
  }
}
