/** The cyclic field iterator of pb_common.c. */
module FieldIterator {
  import opened Wire
  import opened Descriptor

  /** The index `k` steps after `start` in a cycle of `n`. */
  function Cyclic(start: nat, k: nat, n: nat): int {
    if start + k < n then start + k else start + k - n
  }

  /** Whether a search for `tag` stops at position `i`. An empty table has only its terminator,
      whose tag is 0. */
  predicate Matches(fields: seq<Field>, i: nat, tag: nat) {
    if i < |fields| then fields[i].tag == tag && !fields[i].ltype.Extension?
    else tag == 0
  }

  class FieldIter {
    const fields: seq<Field>
    const destStruct: int
    var pos: nat
    var requiredFieldIndex: nat
    var pData: int
    var pSize: int

    /** The pointers and the index of required fields are those computed from scratch for the
        current field. */
    ghost predicate Valid()
      reads this
    {
      if fields == [] then
        pos == 0 && requiredFieldIndex == 0 && pData == destStruct && pSize == destStruct
      else
        && pos < |fields| && SharedSelectors(fields)
        && requiredFieldIndex == RequiredBefore(fields, pos)
        && pData == destStruct + DataAt(fields, pos)
        && pSize == destStruct + SizeAt(fields, pos)
    }

    lemma Position()
      requires Valid()
      ensures fields != [] ==> pos < |fields| && requiredFieldIndex == RequiredBefore(fields, pos)
    {}

    /** The slot that the data pointer leads to is the storage of the current field. */
    function DataSlot(): (h: nat)
      requires Valid() && fields != [] && TakesRoom(fields)
      reads this
      ensures h == Home(fields, pos)
    {
      FirstAtIsHome(fields, pos);
      FirstAt(fields, pData - destStruct, 0)
    }

    constructor (fields: seq<Field>, destStruct: int)
      requires SharedSelectors(fields)
      ensures Valid() && pos == 0 && this.fields == fields && this.destStruct == destStruct
    {
      this.fields, this.destStruct := fields, destStruct;
      new;
      var more := Begin();
    }

    method Begin() returns (more: bool)
      requires SharedSelectors(fields)
      modifies this
      ensures Valid() && pos == 0
      ensures more <==> fields != []
    {
      pos := 0;
      requiredFieldIndex := 0;
      if fields == [] {
        pData, pSize := destStruct, destStruct;
      } else {
        pData := destStruct + fields[0].dataOffset;
        pSize := pData + fields[0].sizeOffset;
      }
      return fields != [];
    }

    /** Steps to the next field, from the last one back to the first; the result tells whether
        that did not wrap around. */
    method Next() returns (more: bool)
      requires Valid()
      modifies this
      ensures Valid()
      ensures fields == [] ==> !more
      ensures fields != [] ==> pos == Cyclic(old(pos), 1, |fields|) && (more <==> old(pos) + 1 < |fields|)
      ensures more ==> old(pos) + 1 == pos < |fields|
    {
      if fields == [] {
        return false;
      }
      var prev := fields[pos];
      pos := pos + 1;
      if pos == |fields| {
        var again := Begin();
        return false;
      }
      var prevSize := prev.dataSize;
      if prev.htype.Oneof? && fields[pos].htype.Oneof? && fields[pos].dataOffset == PB_SIZE_MAX {
        return true;
      } else if prev.atype.Static? && prev.htype.Repeated? {
        prevSize := prevSize * prev.arraySize;
      } else if prev.atype.Pointer? {
        prevSize := ADDRESS_SIZE;
      }
      if prev.htype.Required? {
        requiredFieldIndex := requiredFieldIndex + 1;
      }
      pData := pData + prevSize + fields[pos].dataOffset;
      pSize := pData + fields[pos].sizeOffset;
      return true;
    }

    /** Searches for `tag` from the current field on, around the whole table. It stops at the
        first match, after at most one visit to each field; without a match the iterator is
        back where it was. */
    method Find(tag: nat) returns (found: bool, ghost steps: nat)
      requires Valid()
      modifies this
      ensures Valid() && steps <= |fields|
      ensures found ==> pos == Cyclic(old(pos), steps, |fields|) && Matches(fields, pos, tag)
      ensures found ==> forall k: nat :: k < steps ==> !Matches(fields, Cyclic(old(pos), k, |fields|), tag)
      ensures !found ==> pos == old(pos) && forall i: nat :: i < |fields| ==> !Matches(fields, i, tag)
      ensures fields == [] ==> (found <==> tag == 0)
    {
      var start := pos;
      steps := 0;
      while true
        invariant Valid() && pos == Cyclic(start, steps, |fields|)
        invariant steps <= |fields| && (steps > 0 ==> pos != start)
        invariant forall k: nat :: k < steps ==> !Matches(fields, Cyclic(start, k, |fields|), tag)
        decreases |fields| - steps
      {
        if (if pos < |fields| then fields[pos].tag == tag && !fields[pos].ltype.Extension? else tag == 0) {
          return true, steps;
        }
        var more := Next();
        if pos == start {
          forall i: nat | i < |fields|
            ensures !Matches(fields, i, tag)
          {
            assert i == Cyclic(start, if i >= start then i - start else i - start + |fields|, |fields|);
          }
          return false, steps;
        }
        steps := steps + 1;
      }
    }
  }
}
