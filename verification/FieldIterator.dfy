/**
 The cyclic field iterator of pb_common.c. It walks the descriptor entries and keeps three things up to date: a count
 of the required fields passed and the addresses of the current field's data and of its count or has_ flag.
 */
module FieldIterator {
  import opened Message

  /** What pb_field_iter_next adds to the data address when it leaves field `f`. */
  function SizeInStruct(f: Field): nat {
    if f.h.Repeated? then f.dataSize * f.h.arraySize else f.dataSize
  }

  /** The offset of field `i` in the struct. */
  function OffsetAt(fs: seq<Field>, i: nat): nat
    requires i < |fs|
  {
    if i == 0 then fs[0].dataOffset
    else if Joined(fs, i) then OffsetAt(fs, i - 1)
    else OffsetAt(fs, i - 1) + SizeInStruct(fs[i - 1]) + fs[i].dataOffset
  }

  /** The offset of what counts the field: its count, has_ flag or which_ tag, one for all members of a oneof. */
  function CountOffsetAt(fs: seq<Field>, i: nat): int
    requires i < |fs|
  {
    OffsetAt(fs, i) + fs[Cell(fs, i)].sizeOffset
  }

  class FieldIter {
    const fields: seq<Field>
    const destStruct: int
    var pos: nat
    var requiredFieldIndex: nat
    var pData: int
    var pSize: int

    /** In an empty descriptor the iterator stays on the terminator. */
    ghost predicate Valid()
      reads this
    {
      (pos < |fields| || (fields == [] && pos == 0)) && Derived()
    }

    /** Everything but `pos` is determined by `pos`. Loops that only need `pos` hide it. */
    ghost predicate Derived()
      reads this
      requires pos < |fields| || (fields == [] && pos == 0)
    {
      && requiredFieldIndex == RequiredIndex(fields, pos)
      && pData == destStruct + (if fields == [] then 0 else OffsetAt(fields, pos))
      && pSize == destStruct + (if fields == [] then 0 else CountOffsetAt(fields, pos))
    }

    /** pb_field_iter_begin on a new iterator; the result it returns is `fields != []`. */
    constructor (fields: seq<Field>, destStruct: int)
      ensures this.fields == fields && this.destStruct == destStruct
      ensures Valid() && pos == 0
    {
      this.fields := fields;
      this.destStruct := destStruct;
      pos := 0;
      requiredFieldIndex := 0;
      pData := destStruct + (if fields == [] then 0 else fields[0].dataOffset);
      pSize := destStruct + (if fields == [] then 0 else fields[0].dataOffset + fields[0].sizeOffset);
    }

    /** pb_field_iter_begin on the iterator's own descriptor */
    method Restart()
      requires fields != []
      modifies this
      ensures Valid() && pos == 0
    {
      pos := 0;
      requiredFieldIndex := 0;
      pData := destStruct + fields[0].dataOffset;
      pSize := pData + fields[0].sizeOffset;
    }

    /** pb_field_iter_next: one step round the cycle; false when it wraps. */
    method Next() returns (more: bool)
      requires Valid()
      modifies this
      ensures Valid()
      ensures more <==> old(pos) + 1 < |fields|
      ensures pos == if more then old(pos) + 1 else 0
    {
      if pos == |fields| { return false; }
      var prev := fields[pos];
      pos := pos + 1;
      if pos == |fields| {
        Restart();
        return false;
      }
      if prev.h.Oneof? && fields[pos].h.Oneof? && fields[pos].dataOffset == PB_SIZE_MAX {
        return true;
      }
      var prevSize := if prev.h.Repeated? then prev.dataSize * prev.h.arraySize else prev.dataSize;
      if prev.h.Required? { requiredFieldIndex := requiredFieldIndex + 1; }
      pData := pData + prevSize + fields[pos].dataOffset;
      pSize := pData + fields[pos].sizeOffset;
      return true;
    }

    /** The entry `k` steps round the cycle from `start`. */
    function At(start: nat, k: nat): nat
      requires start < |fields| && k <= |fields|
    {
      if start + k < |fields| then start + k else start + k - |fields|
    }

    /**
     pb_field_iter_find: to the nearest entry with this tag, going round the cycle at most once. A failed search
     leaves the whole iterator as it was. The terminator of an empty descriptor has tag 0.
     */
    method Find(tag: nat) returns (found: bool)
      requires Valid()
      modifies this
      ensures Valid()
      ensures fields == [] ==> (found <==> tag == 0)
      ensures fields != [] ==> (found <==> exists i :: 0 <= i < |fields| && fields[i].tag == tag)
      ensures found && fields != [] ==>
        fields[pos].tag == tag
        && exists k :: 0 <= k < |fields| && pos == At(old(pos), k)
                       && forall j :: 0 <= j < k ==> fields[At(old(pos), j)].tag != tag
      ensures !found ==>
        pos == old(pos) && requiredFieldIndex == old(requiredFieldIndex) && pData == old(pData) && pSize == old(pSize)
      ensures found && DistinctTags(fields) && fields != [] ==> pos == FindTag(fields, tag)
    {
      var start := pos;
      if fields == [] {
        found := tag == 0;
        return;
      }
      ghost var k := 0;
      while true
        invariant Valid() && k < |fields| && start < |fields| && pos == At(start, k)
        invariant forall j :: 0 <= j < k ==> fields[At(start, j)].tag != tag
        decreases |fields| - k
      {
        if fields[pos].tag == tag {
          if DistinctTags(fields) { FindTagAt(fields, pos); }
          return true;
        }
        var _ := Next();
        k := k + 1;
        if pos == start {
          forall i | 0 <= i < |fields| ensures fields[i].tag != tag {
            var j := if start <= i then i - start else i - start + |fields|;
            assert At(start, j) == i;
          }
          return false;
        }
      }
    }
  }

  // ---------- the slots of Message are the storage areas ----------

  lemma {:induction false} OffsetOfCell(fs: seq<Field>, i: nat)
    requires i < |fs|
    ensures OffsetAt(fs, Cell(fs, i)) == OffsetAt(fs, i)
  {
    if Joined(fs, i) { OffsetOfCell(fs, i - 1); }
  }

  /** A field that starts a storage area of its own lies behind everything before it. */
  lemma {:induction false} OffsetsGrow(fs: seq<Field>, i: nat, j: nat)
    requires i < j < |fs| && Cell(fs, i) != Cell(fs, j) && forall k :: 0 <= k < |fs| ==> SizeInStruct(fs[k]) > 0
    ensures OffsetAt(fs, i) < OffsetAt(fs, j)
    decreases j
  {
    if Joined(fs, j) {
      OffsetsGrow(fs, i, j - 1);
    } else if i < j - 1 {
      OffsetAtMonotone(fs, i, j - 1);
    }
  }

  lemma {:induction false} OffsetAtMonotone(fs: seq<Field>, i: nat, j: nat)
    requires i <= j < |fs|
    ensures OffsetAt(fs, i) <= OffsetAt(fs, j)
    decreases j
  {
    if i < j { OffsetAtMonotone(fs, i, j - 1); }
  }

  /** Two fields have the same address exactly when they are members of one oneof, that is, share a slot. */
  lemma SameSlotIffSameAddress(fs: seq<Field>, i: nat, j: nat)
    requires i < |fs| && j < |fs| && forall k :: 0 <= k < |fs| ==> SizeInStruct(fs[k]) > 0
    ensures OffsetAt(fs, i) == OffsetAt(fs, j) <==> Cell(fs, i) == Cell(fs, j)
  {
    OffsetOfCell(fs, i);
    OffsetOfCell(fs, j);
    if Cell(fs, i) != Cell(fs, j) {
      if i < j { OffsetsGrow(fs, i, j); } else { OffsetsGrow(fs, j, i); }
    }
  }

  lemma NextBehind(fs: seq<Field>, i: nat)
    requires i + 1 < |fs| && !Joined(fs, i + 1)
    ensures OffsetAt(fs, i) + SizeInStruct(fs[i]) <= OffsetAt(fs, i + 1)
  {
    hide SizeInStruct, Joined;
  }

  lemma SizeIs(f: Field, size: nat)
    requires size == if f.h.Repeated? then f.dataSize * f.h.arraySize else f.dataSize
    ensures SizeInStruct(f) == size
  {
  }

  /** A field's storage, all entries of an array included, ends before that of later fields outside its oneof begins. */
  lemma StorageDisjoint(fs: seq<Field>, i: nat, j: nat, size: nat)
    requires i < j < |fs| && !(fs[i].h.Oneof? && fs[i + 1].h.Oneof? && fs[i + 1].dataOffset == PB_SIZE_MAX)
    requires size == if fs[i].h.Repeated? then fs[i].dataSize * fs[i].h.arraySize else fs[i].dataSize
    ensures OffsetAt(fs, i) + size <= OffsetAt(fs, j)
  {
    hide SizeInStruct, OffsetAt;
    SizeIs(fs[i], size);
    assert !Joined(fs, i + 1);
    NextBehind(fs, i);
    OffsetAtMonotone(fs, i + 1, j);
  }

  /** The entry says how far its data is behind the end of the entry before it, and its count from its data. */
  predicate DescribesAt(fs: seq<Field>, offsets: seq<nat>, counts: seq<int>, i: nat)
    requires |offsets| == |counts| == |fs| && i < |fs|
  {
    if i > 0 && fs[i - 1].h.Oneof? && fs[i].h.Oneof? && fs[i].dataOffset == PB_SIZE_MAX then
      offsets[i] == offsets[i - 1] && counts[i] == counts[i - 1]
    else
      && counts[i] == offsets[i] + fs[i].sizeOffset
      && offsets[i] == (if i == 0 then 0 else offsets[i - 1] + SizeInStruct(fs[i - 1])) + fs[i].dataOffset
  }

  /** The descriptor is that of a struct whose fields lie at `offsets` and their counts at `counts`. */
  predicate Describes(fs: seq<Field>, offsets: seq<nat>, counts: seq<int>) {
    |offsets| == |counts| == |fs| && forall i | 0 <= i < |fs| :: DescribesAt(fs, offsets, counts, i)
  }

  /** Walking the entries leads to the fields and their counts, wherever the struct has them. */
  lemma {:induction false} LayoutFound(fs: seq<Field>, offsets: seq<nat>, counts: seq<int>, i: nat)
    requires Describes(fs, offsets, counts) && i < |fs|
    ensures OffsetAt(fs, i) == offsets[i] && CountOffsetAt(fs, i) == counts[i]
    decreases i
  {
    hide SizeInStruct;
    assert DescribesAt(fs, offsets, counts, i);
    if i > 0 { LayoutFound(fs, offsets, counts, i - 1); }
  }
}
