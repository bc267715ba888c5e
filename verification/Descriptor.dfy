/** Message descriptors: the field tables that drive the encoder and the decoder, and the
    struct layout that the tables describe by offset deltas. */
module Descriptor {
  import opened Basics
  import opened Wire

  /** The largest pb_size_t of the 32-bit field configuration; as a data offset it marks a
      member that shares the storage of the oneof member before it. */
  const PB_SIZE_MAX: nat := 0xFFFF_FFFF

  /** Width of a pointer member. */
  const ADDRESS_SIZE: nat := 8

  /** One typed value of a message struct: a number, a byte string, or an inline submessage. */
  datatype Item = Num(n: int) | Blob(data: seq<byte>) | Msg(slots: seq<Slot>)

  /** The storage of one field: its has-flag, count or oneof selector, and its values. */
  datatype Slot = Slot(size: nat, items: seq<Item>)

  datatype AType = Static | Pointer | Callback
  datatype HType = Required | Optional | Repeated | Oneof
  datatype LType =
    | Bool | Varint | UVarint | SVarint | Fixed32 | Fixed64
    | Bytes | Str | Submessage(fields: seq<Field>) | Extension | FixedLengthBytes

  datatype Field = Field(
    tag: nat,
    ltype: LType,
    htype: HType,
    atype: AType,
    dataOffset: nat,
    sizeOffset: int,
    dataSize: nat,
    arraySize: nat,
    default: Option<Item>)

  // ---- Layout ------------------------------------------------------------------------

  /** Whether field `i` is a further member of the oneof that field `i - 1` belongs to. */
  predicate InUnion(fields: seq<Field>, i: nat)
    requires i < |fields|
  {
    i > 0 && fields[i - 1].htype.Oneof? && fields[i].htype.Oneof? && fields[i].dataOffset == PB_SIZE_MAX
  }

  /** The field whose storage field `i` uses: itself, or the first member of its oneof. */
  function Home(fields: seq<Field>, i: nat): (h: nat)
    requires i < |fields|
    ensures h <= i
  {
    if InUnion(fields, i) then Home(fields, i - 1) else i
  }

  /** The room a field takes in the struct. */
  function Span(f: Field): nat {
    if f.atype.Static? && f.htype.Repeated? then f.dataSize * f.arraySize
    else if f.atype.Pointer? then ADDRESS_SIZE
    else f.dataSize
  }

  /** Offset of a field's data in the struct, computed from the start of the table. */
  function DataAt(fields: seq<Field>, i: nat): nat
    requires i < |fields|
  {
    if i == 0 then fields[0].dataOffset
    else if InUnion(fields, i) then DataAt(fields, i - 1)
    else DataAt(fields, i - 1) + Span(fields[i - 1]) + fields[i].dataOffset
  }

  /** Offset of a field's has-flag, count or selector. */
  function SizeAt(fields: seq<Field>, i: nat): int
    requires i < |fields|
  {
    DataAt(fields, i) + fields[i].sizeOffset
  }

  /** The number of required fields among the first `i`. */
  function RequiredBefore(fields: seq<Field>, i: nat): (n: nat)
    requires i <= |fields|
    ensures n <= i
  {
    if i == 0 then 0
    else RequiredBefore(fields, i - 1) + (if fields[i - 1].htype.Required? then 1 else 0)
  }

  /** All members of a oneof keep their selector at the same place. */
  predicate SharedSelectors(fields: seq<Field>) {
    forall i: nat :: i < |fields| && InUnion(fields, i) ==> fields[i].sizeOffset == fields[i - 1].sizeOffset
  }

  lemma {:induction false} RequiredBeforeGrows(fields: seq<Field>, i: nat, j: nat)
    requires i <= j <= |fields|
    ensures RequiredBefore(fields, i) <= RequiredBefore(fields, j)
    decreases j
  {
    if i < j { RequiredBeforeGrows(fields, i, j - 1); }
  }

  lemma RequiredBeforeStrict(fields: seq<Field>, i: nat, j: nat)
    requires i < j <= |fields| && fields[i].htype.Required?
    ensures RequiredBefore(fields, i) < RequiredBefore(fields, j)
  {
    RequiredBeforeGrows(fields, i + 1, j);
  }

  /** The running number of a required field identifies it. */
  lemma RequiredIndexInjective(fields: seq<Field>, i: nat, j: nat)
    requires i < |fields| && j < |fields|
    requires fields[i].htype.Required? && fields[j].htype.Required?
    requires RequiredBefore(fields, i) == RequiredBefore(fields, j)
    ensures i == j
  {
    if i < j { RequiredBeforeStrict(fields, i, j); }
    if j < i { RequiredBeforeStrict(fields, j, i); }
  }

  /** Every number below the count belongs to some required field. */
  lemma {:induction false} RequiredIndexOnto(fields: seq<Field>, n: nat, r: nat) returns (i: nat)
    requires n <= |fields| && r < RequiredBefore(fields, n)
    ensures i < n && fields[i].htype.Required? && RequiredBefore(fields, i) == r
  {
    if fields[n - 1].htype.Required? && RequiredBefore(fields, n - 1) == r {
      i := n - 1;
    } else {
      i := RequiredIndexOnto(fields, n - 1, r);
    }
  }

  lemma {:induction false} DataAtGrows(fields: seq<Field>, i: nat, j: nat)
    requires i <= j < |fields|
    requires TakesRoom(fields)
    ensures DataAt(fields, i) <= DataAt(fields, j) && Home(fields, i) <= Home(fields, j)
    ensures DataAt(fields, i) == DataAt(fields, j) <==> Home(fields, i) == Home(fields, j)
    decreases j
  {
    if i < j {
      DataAtGrows(fields, i, j - 1);
    }
  }

  /** The data pointer identifies the storage: two fields have the same data offset exactly when
      they are members of the same oneof, or the same field. */
  lemma PointerIdentifiesSlot(fields: seq<Field>, i: nat, j: nat)
    requires i < |fields| && j < |fields|
    requires TakesRoom(fields)
    ensures DataAt(fields, i) == DataAt(fields, j) <==> Home(fields, i) == Home(fields, j)
  {
    if i <= j { DataAtGrows(fields, i, j); } else { DataAtGrows(fields, j, i); }
  }

  lemma {:induction false} HomeKind(fields: seq<Field>, i: nat)
    requires i < |fields|
    ensures fields[i].htype.Oneof? <==> fields[Home(fields, i)].htype.Oneof?
    ensures Home(fields, Home(fields, i)) == Home(fields, i)
    ensures !fields[i].htype.Oneof? ==> Home(fields, i) == i
  {
    if InUnion(fields, i) { HomeKind(fields, i - 1); }
  }

  /** Only oneof members share their storage. */
  lemma HomesApart(fields: seq<Field>, i: nat, j: nat)
    requires i < |fields| && j < |fields| && i != j && Home(fields, i) == Home(fields, j)
    ensures fields[i].htype.Oneof? && fields[j].htype.Oneof?
  {
    HomeKind(fields, i);
    HomeKind(fields, j);
  }

  // ---- Storage by address --------------------------------------------------------------------------

  /** Every field takes room, as members of a C struct do. */
  predicate TakesRoom(fields: seq<Field>) {
    forall k: nat :: k < |fields| ==> Span(fields[k]) > 0
  }

  /** The first field from `k` on whose data is at `offset`, or the length of the table. */
  function FirstAt(fields: seq<Field>, offset: int, k: nat): (i: nat)
    requires k <= |fields|
    ensures k <= i <= |fields| && (i < |fields| ==> DataAt(fields, i) == offset)
    ensures forall j: nat :: k <= j < i ==> DataAt(fields, j) != offset
    decreases |fields| - k
  {
    if k == |fields| || DataAt(fields, k) == offset then k else FirstAt(fields, offset, k + 1)
  }

  /** The slot that a data pointer leads to is the one that the field uses. */
  lemma FirstAtIsHome(fields: seq<Field>, i: nat)
    requires TakesRoom(fields) && i < |fields|
    ensures FirstAt(fields, DataAt(fields, i), 0) == Home(fields, i)
  {
    var h, k := Home(fields, i), FirstAt(fields, DataAt(fields, i), 0);
    HomeKind(fields, i);
    hide DataAt, Home, FirstAt;
    PointerIdentifiesSlot(fields, h, i);
    assert k <= h;
    PointerIdentifiesSlot(fields, k, i);
  }

  /** When field `k` starts storage of its own, that is behind the data of field `j`, if this shares
      its storage with field `k - 1`. */
  predicate ClearsField(fields: seq<Field>, k: nat, j: nat)
    requires j < k < |fields|
  {
    !InUnion(fields, k) && Home(fields, j) == Home(fields, k - 1) ==>
      Span(fields[j]) <= Span(fields[k - 1]) + fields[k].dataOffset
  }

  /** The storage that follows a oneof starts behind all of its members, not only the last one. */
  predicate ClearsMembers(fields: seq<Field>) {
    forall k: nat, j: nat :: j < k < |fields| ==> ClearsField(fields, k, j)
  }

  /** Fields that do not share their storage occupy disjoint byte ranges. */
  lemma {:induction false} RangesApart(fields: seq<Field>, i: nat, j: nat)
    requires ClearsMembers(fields) && TakesRoom(fields) && i < j < |fields| && Home(fields, i) != Home(fields, j)
    ensures DataAt(fields, i) + Span(fields[i]) <= DataAt(fields, j)
    decreases j
  {
    NextStorage(fields, j);
    assert ClearsField(fields, j, i);
    hide Span, DataAt, Home, InUnion, ClearsMembers;
    if !InUnion(fields, j) && Home(fields, j - 1) == Home(fields, i) {
      PointerIdentifiesSlot(fields, i, j - 1);
    } else {
      RangesApart(fields, i, j - 1);
    }
  }

  lemma NextStorage(fields: seq<Field>, j: nat)
    requires 0 < j < |fields|
    ensures InUnion(fields, j) ==> Home(fields, j) == Home(fields, j - 1) && DataAt(fields, j) == DataAt(fields, j - 1)
    ensures !InUnion(fields, j) ==> Home(fields, j) == j
    ensures !InUnion(fields, j) ==>
              DataAt(fields, j) == DataAt(fields, j - 1) + Span(fields[j - 1]) + fields[j].dataOffset
  {
    hide Span;
  }
}
