/** The struct layout behind a field table. The macros of pb.h turn the absolute offsets of a C struct's
    members into the deltas of the table; the iterator turns the deltas into the offsets again. */
module Layout {
  import opened Basics
  import opened Descriptor
  import opened FieldIterator

  /** A member of a C struct: its offset, the size of the whole member, the size of one entry of an array
      or of what a pointer points to, the number of entries of an array, the offset of its has-flag, count
      or selector, and whether it is a further member of the union of the member before it. */
  datatype Member = Member(
    tag: nat,
    ltype: LType,
    htype: HType,
    atype: AType,
    default: Option<Item>,
    offset: nat,
    size: nat,
    entrySize: nat,
    entries: nat,
    flagOffset: Option<nat>,
    joins: bool)

  predicate IsArray(m: Member) {
    m.atype.Static? && m.htype.Repeated?
  }

  /** What the compiler sees to for one member. */
  predicate Sized(m: Member) {
    && 0 < m.size && m.offset + m.size < PB_SIZE_MAX
    && (IsArray(m) ==> 0 < m.entrySize && m.size == m.entrySize * m.entries)
    && (m.atype.Pointer? ==> m.size == 8)
  }

  /** A struct: its members stand one behind the other, and those of a union in the same place. */
  predicate IsStruct(ms: seq<Member>) {
    && (forall i: nat :: i < |ms| ==> Sized(ms[i]))
    && (forall i: nat :: i < |ms| && ms[i].joins ==>
          && i > 0 && ms[i - 1].htype.Oneof? && ms[i].htype.Oneof?
          && ms[i].offset == ms[i - 1].offset && ms[i].flagOffset == ms[i - 1].flagOffset)
    && (forall i: nat, j: nat :: i < j < |ms| && !ms[j].joins ==> ms[i].offset + ms[i].size <= ms[j].offset)
  }

  // ---- The macros --------------------------------------------------------------------------------

  /** PB_DATAOFFSET_FIRST, PB_DATAOFFSET_OTHER and PB_DATAOFFSET_UNION. */
  function DataOffset(ms: seq<Member>, i: nat): nat
    requires IsStruct(ms) && i < |ms|
  {
    if ms[i].joins then PB_SIZE_MAX
    else if i == 0 then ms[i].offset
    else ms[i].offset - ms[i - 1].offset - ms[i - 1].size
  }

  /** The entry of the field table for member `i`. */
  function Entry(ms: seq<Member>, i: nat): Field
    requires IsStruct(ms) && i < |ms|
  {
    var m := ms[i];
    Field(m.tag, m.ltype, m.htype, m.atype, DataOffset(ms, i),
          if m.flagOffset.Some? then m.flagOffset.value - m.offset else 0,
          if IsArray(m) || m.atype.Pointer? then m.entrySize else m.size,
          if IsArray(m) then (assert Sized(m); m.size / m.entrySize) else 0,
          m.default)
  }

  function Table(ms: seq<Member>): (fields: seq<Field>)
    requires IsStruct(ms)
    ensures |fields| == |ms| && forall i: nat :: i < |ms| ==> fields[i] == Entry(ms, i)
  {
    seq(|ms|, i requires 0 <= i < |ms| => Entry(ms, i))
  }

  // ---- What the table says of the struct ---------------------------------------------------------

  lemma EntryCount(entrySize: nat, entries: nat)
    requires entrySize > 0
    ensures entrySize * entries / entrySize == entries
  {
    var size := entrySize * entries;
    var missing := entries - size / entrySize;
    assert entrySize * missing == size % entrySize;
  }

  /** The table keeps the number of entries of an array, and the room that a member takes. */
  lemma EntrySpans(ms: seq<Member>, i: nat)
    requires IsStruct(ms) && i < |ms|
    ensures IsArray(ms[i]) ==> Entry(ms, i).arraySize == ms[i].entries
    ensures Span(Entry(ms, i)) == ms[i].size
  {
    assert Sized(ms[i]);
    if IsArray(ms[i]) { EntryCount(ms[i].entrySize, ms[i].entries); }
  }

  lemma JoinsInUnion(ms: seq<Member>, i: nat)
    requires IsStruct(ms) && i < |ms|
    ensures InUnion(Table(ms), i) <==> ms[i].joins
  {
    assert Sized(ms[i]);
  }

  /** Computing the offsets from the table gives those of the struct: of every member, and of its has-flag,
      count or selector, also behind arrays, pointers and unions. */
  lemma {:induction false} OffsetsAreThose(ms: seq<Member>, i: nat)
    requires IsStruct(ms) && i < |ms|
    ensures DataAt(Table(ms), i) == ms[i].offset
    ensures ms[i].flagOffset.Some? ==> SizeAt(Table(ms), i) == ms[i].flagOffset.value
  {
    hide *;
    JoinsInUnion(ms, i);
    EntryMeans(ms, i);
    if i > 0 {
      OffsetsAreThose(ms, i - 1);
      EntrySpans(ms, i - 1);
      NextStorage(Table(ms), i);
    }
  }

  lemma EntryMeans(ms: seq<Member>, i: nat)
    requires IsStruct(ms) && i < |ms|
    ensures ms[i].joins ==> i > 0 && ms[i].offset == ms[i - 1].offset
    ensures i == 0 ==> DataAt(Table(ms), 0) == ms[0].offset
    ensures i > 0 && !ms[i].joins ==> Table(ms)[i].dataOffset == ms[i].offset - ms[i - 1].offset - ms[i - 1].size
    ensures i > 0 ==> Table(ms)[i - 1] == Entry(ms, i - 1)
    ensures ms[i].flagOffset.Some? ==>
              SizeAt(Table(ms), i) == DataAt(Table(ms), i) + ms[i].flagOffset.value - ms[i].offset
  {
    assert Sized(ms[i]);
  }

  /** The pointers of the iterator, wherever it was led by its methods, are those of the member. */
  lemma IteratorPoints(iter: FieldIter, ms: seq<Member>)
    requires IsStruct(ms) && ms != [] && iter.fields == Table(ms) && iter.Valid()
    ensures iter.pos < |ms| && iter.pData == iter.destStruct + ms[iter.pos].offset
    ensures ms[iter.pos].flagOffset.Some? ==> iter.pSize == iter.destStruct + ms[iter.pos].flagOffset.value
  {
    OffsetsAreThose(ms, iter.pos);
    hide IsStruct, Table, DataAt;
  }

  /** The table of a struct is one that the iterator and the codec can work with, and the slots of the
      model are where the members are: the same for members of a union, and apart for others. */
  lemma TableFits(ms: seq<Member>)
    requires IsStruct(ms)
    ensures SharedSelectors(Table(ms)) && TakesRoom(Table(ms)) && ClearsMembers(Table(ms))
  {
    forall i: nat | i < |ms|
      ensures Span(Table(ms)[i]) > 0
      ensures InUnion(Table(ms), i) ==> Table(ms)[i].sizeOffset == Table(ms)[i - 1].sizeOffset
    {
      EntrySpans(ms, i);
      JoinsInUnion(ms, i);
      assert Sized(ms[i]);
    }
    forall k: nat, j: nat | j < k < |ms|
      ensures ClearsField(Table(ms), k, j)
    {
      MemberCleared(ms, k, j);
    }
  }

  /** A member that does not join another starts behind those before it. */
  lemma StartsBehind(ms: seq<Member>, k: nat, j: nat)
    requires IsStruct(ms) && j < k < |ms| && !ms[k].joins
    ensures ms[j].offset + ms[j].size <= ms[k].offset
    ensures Table(ms)[j] == Entry(ms, j) && Table(ms)[k - 1] == Entry(ms, k - 1)
    ensures Table(ms)[k].dataOffset == ms[k].offset - ms[k - 1].offset - ms[k - 1].size
  {}

  lemma MemberCleared(ms: seq<Member>, k: nat, j: nat)
    requires IsStruct(ms) && j < k < |ms|
    ensures ClearsField(Table(ms), k, j)
  {
    hide *;
    JoinsInUnion(ms, k);
    if !ms[k].joins && Home(Table(ms), j) == Home(Table(ms), k - 1) {
      StartsBehind(ms, k, j);
      EntrySpans(ms, j);
      EntrySpans(ms, k - 1);
      SameHome(ms, j, k - 1);
    }
    ClearedBy(Table(ms), k, j);
  }

  lemma ClearedBy(fields: seq<Field>, k: nat, j: nat)
    requires j < k < |fields|
    requires InUnion(fields, k) || Home(fields, j) != Home(fields, k - 1)
             || Span(fields[j]) <= Span(fields[k - 1]) + fields[k].dataOffset
    ensures ClearsField(fields, k, j)
  {}

  /** Fields share a slot exactly when their members are in the same place. */
  lemma SameHome(ms: seq<Member>, i: nat, j: nat)
    requires IsStruct(ms) && i <= j < |ms|
    ensures Home(Table(ms), i) == Home(Table(ms), j) <==> ms[i].offset == ms[j].offset
    decreases j
  {
    if i < j {
      JoinsInUnion(ms, j);
      SameHome(ms, i, j - 1);
      assert Sized(ms[i]);
      hide InUnion;
    }
  }
}
