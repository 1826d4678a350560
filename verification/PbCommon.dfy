/** lib/nanopb-0.3.9.3/pb_common.c: the iterator over a descriptor table. */
module PbCommon {
  import opened PbWire
  import opened PbTypes

  // ----- What the iterator computes, from the table -----

  /** The position of the first field with this tag. */
  function Find(fields: seq<Field>, tag: nat): (i: Option<nat>)
    ensures i.Some? ==> i.value < |fields| && fields[i.value].tag == tag
    ensures i.None? ==> forall j :: 0 <= j < |fields| ==> fields[j].tag != tag
  {
    if fields == [] then None
    else if fields[0].tag == tag then Some(0)
    else
      match Find(fields[1..], tag)
      case None => None
      case Some(i) =>
        assert fields[1..][i] == fields[i + 1];
        Some(i + 1)
  }

  /** Distinct tags: there is only one such field. */
  lemma {:induction false} FindAt(fields: seq<Field>, i: nat)
    requires i < |fields| && DistinctTags(fields)
    ensures Find(fields, fields[i].tag) == Some(i)
  {
  }

  /** How many required fields precede position i. */
  function RequiredBefore(fields: seq<Field>, i: nat): (n: nat)
    requires i <= |fields|
    ensures n <= i
  {
    if i == 0 then 0
    else RequiredBefore(fields, i - 1) + if fields[i - 1].htype.Required? then 1 else 0
  }

  /** The next field shares the union the previous one is in. */
  predicate SameUnion(prev: Field, next: Field) {
    prev.htype.OneOf? && next.htype.OneOf? && next.dataOffset == PB_SIZE_MAX
  }

  /** The room a field takes in the struct. */
  function StructSize(f: Field): nat {
    if f.htype.Repeated? then f.dataSize * f.arraySize else f.dataSize
  }

  /** Where the data of field i is, counted from the start of the struct. */
  function DataAt(fields: seq<Field>, i: nat): nat
    requires i < |fields|
  {
    if i == 0 then fields[0].dataOffset
    else if SameUnion(fields[i - 1], fields[i]) then DataAt(fields, i - 1)
    else DataAt(fields, i - 1) + StructSize(fields[i - 1]) + fields[i].dataOffset
  }

  /** Where the has_ flag, the count or the which_ number of field i is. */
  function SizeAt(fields: seq<Field>, i: nat): int
    requires i < |fields|
  {
    if i > 0 && SameUnion(fields[i - 1], fields[i]) then SizeAt(fields, i - 1)
    else DataAt(fields, i) + fields[i].sizeOffset
  }

  /** A field that does not share a union with the next one ends before every later field begins; the
      members of a union lie in the same place. */
  lemma {:induction false} FieldsApart(fields: seq<Field>, i: nat, j: nat)
    requires i < j < |fields|
    ensures DataAt(fields, i) <= DataAt(fields, j)
    ensures !SameUnion(fields[i], fields[i + 1]) ==> DataAt(fields, i) + StructSize(fields[i]) <= DataAt(fields, j)
    ensures (forall k :: i < k <= j ==> SameUnion(fields[k - 1], fields[k])) ==>
      DataAt(fields, j) == DataAt(fields, i) && SizeAt(fields, j) == SizeAt(fields, i)
    decreases j
  {
    hide StructSize;
    if i < j - 1 {
      FieldsApart(fields, i, j - 1);
    }
  }

  /** A table whose offsets were taken from a struct: member i is at data[i], and its has_ flag, count or which_
      number at size[i]. An offset is the gap behind the previous member; members of a oneof other than its first
      are marked with 65535 instead, and all lie in the same place. */
  ghost predicate TakenFrom(fields: seq<Field>, data: seq<nat>, size: seq<int>) {
    && |data| == |size| == |fields|
    && (fields != [] ==> fields[0].dataOffset == data[0] && fields[0].sizeOffset == size[0] - data[0])
    && forall i :: 0 < i < |fields| ==>
         var prev, f := fields[i - 1], fields[i];
         if prev.htype.OneOf? && f.htype.OneOf? && f.dataOffset == 65535 then
           data[i] == data[i - 1] && size[i] == size[i - 1]
         else
           && f.sizeOffset == size[i] - data[i]
           && f.dataOffset ==
              data[i] - data[i - 1] - (if prev.htype.Repeated? then prev.arraySize * prev.dataSize else prev.dataSize)
  }

  /** The iterator's sums find every member of the struct where it is. */
  lemma {:induction false} LayoutFollowed(fields: seq<Field>, data: seq<nat>, size: seq<int>, i: nat)
    requires TakenFrom(fields, data, size) && i < |fields|
    ensures DataAt(fields, i) == data[i] && SizeAt(fields, i) == size[i]
    decreases i
  {
    if i > 0 {
      LayoutFollowed(fields, data, size, i - 1);
    }
  }

  /** The number of required fields before i. */
  lemma {:induction false} RequiredCounted(fields: seq<Field>, i: nat)
    requires i <= |fields|
    ensures RequiredBefore(fields, i) == |set j | 0 <= j < i && fields[j].htype.Required?|
    decreases i
  {
    var a := set j | 0 <= j < i && fields[j].htype.Required?;
    if i > 0 {
      RequiredCounted(fields, i - 1);
      var b := set j | 0 <= j < i - 1 && fields[j].htype.Required?;
      assert a == if fields[i - 1].htype.Required? then b + {i - 1} else b;
    }
  }

  ghost predicate NonzeroTags(fields: seq<Field>) {
    forall i :: 0 <= i < |fields| ==> fields[i].tag != 0
  }

  /** Valid tables have distinct nonzero tags. */
  lemma TagsNonzero(fields: seq<Field>)
    requires ValidDescriptor(fields)
    ensures NonzeroTags(fields) && DistinctTags(fields)
  {
    hide ShapedValue, DistinctTags;
  }

  // ----- The iterator -----

  /** pb_field_iter_t. The table's terminator, with tag zero and no offsets, is at |fields|. */
  class FieldIter {
    const fields: seq<Field>
    const destStruct: int
    var pos: nat
    var requiredFieldIndex: nat
    var pData: int
    var pSize: int

    /** Every reachable state: the iterator rests on a field, or on the terminator of an empty
        table, and its other parts are the sums over the fields before it. */
    ghost predicate Valid()
      reads this
    {
      && NonzeroTags(fields) && (pos < |fields| || (pos == 0 && fields == []))
      && (if pos < |fields| then
            && requiredFieldIndex == RequiredBefore(fields, pos)
            && pData == destStruct + DataAt(fields, pos) && pSize == destStruct + SizeAt(fields, pos)
          else requiredFieldIndex == 0 && pData == pSize == destStruct)
    }

    /** The tag under the iterator. */
    function Tag(): nat
      reads this
      requires pos <= |fields|
    {
      if pos < |fields| then fields[pos].tag else 0
    }

    /** An iterator for a table, to be started with Begin. */
    constructor (fields: seq<Field>, destStruct: int)
      ensures this.fields == fields && this.destStruct == destStruct
    {
      this.fields := fields;
      this.destStruct := destStruct;
    }

    /** pb_field_iter_begin */
    method Begin() returns (some: bool)
      requires NonzeroTags(fields)
      modifies this
      ensures Valid() && pos == 0 && (some <==> fields != [])
    {
      pos := 0;
      requiredFieldIndex := 0;
      pData := destStruct + if fields == [] then 0 else fields[0].dataOffset;
      pSize := pData + if fields == [] then 0 else fields[0].sizeOffset;
      some := fields != [];
    }

    /** pb_field_iter_next: false when it wraps to the beginning. */
    method Next() returns (more: bool)
      requires Valid()
      modifies this
      ensures Valid() && (more <==> old(pos) + 1 < |fields|)
      ensures pos == if more then old(pos) + 1 else 0
    {
      if pos == |fields| {
        return false;
      }
      var prev := fields[pos];
      pos := pos + 1;
      if pos == |fields| {
        var _ := Begin();
        return false;
      }
      var here := fields[pos];
      if SameUnion(prev, here) {
        return true;
      }
      var prevSize := prev.dataSize;
      if prev.htype.Repeated? {
        prevSize := prevSize * prev.arraySize;
      }
      if prev.htype.Required? {
        requiredFieldIndex := requiredFieldIndex + 1;
      }
      pData := pData + prevSize + here.dataOffset;
      pSize := pData + here.sizeOffset;
      more := true;
    }

    /** pb_field_iter_find: searches the circle from where it stands. */
    method Find(tag: nat) returns (found: bool)
      requires Valid()
      modifies this
      ensures Valid()
      ensures found <==> (exists i :: 0 <= i < |fields| && fields[i].tag == tag) || (fields == [] && tag == 0)
      ensures if found then Tag() == tag else pos == old(pos)
    {
      var start := pos;
      ghost var visited := 0;
      while true
        invariant Valid() && 0 <= visited && (visited < |fields| || visited == 0)
        invariant pos ==
          if start + visited < |fields| then start + visited
          else if fields == [] then 0
          else start + visited - |fields|
        invariant forall i :: start <= i < start + visited && i < |fields| ==> fields[i].tag != tag
        invariant forall i :: 0 <= i < start + visited - |fields| ==> fields[i].tag != tag
        decreases |fields| - visited
      {
        if Tag() == tag {
          return true;
        }
        var _ := Next();
        visited := visited + 1;
        if pos == start {
          return false;
        }
      }
    }
  }
}
