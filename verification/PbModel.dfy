/**
 nanopb message descriptors and the typed storage they describe, restricted to statically allocated fields,
 and the iterator that walks a descriptor. The members of a oneof share one storage slot.
 */
module PbModel {
  import opened Wrappers
  import opened PbVarint

  datatype LType =
    | Varint | UVarint | SVarint | Fixed32 | Fixed64
    | BytesType | StringType | Submessage | FixedLengthBytes

  predicate Packable(l: LType) {
    l in {Varint, UVarint, SVarint, Fixed32, Fixed64}
  }

  datatype HType = Required | Optional | Repeated | Oneof

  /** Submessage fields, a default value, or nothing. */
  datatype Ptr = Null | Default(value: Value) | Sub(desc: Descriptor)

  /**
   One entry of a descriptor table. `hasSize` says that the struct has a presence flag, an element count or a
   oneof selector for the field, that is, that `sizeOffset` is not zero; `inUnion` that the field continues the union
   of the field before it, which the table marks by the largest offset. `dataOffset` counts from the end of the field
   before, `sizeOffset` from the field itself.
   */
  datatype Field = Field(
    tag: nat,
    ltype: LType,
    htype: HType,
    inUnion: bool,
    hasSize: bool,
    dataOffset: nat,
    sizeOffset: int,
    dataSize: nat,
    arraySize: nat,
    ptr: Ptr)

  /** The entries of a table before its terminator. */
  datatype Descriptor = Descriptor(fields: seq<Field>)

  datatype Value =
    | IntV(n: int)
    | BytesV(data: Bytes)
    | StringV(chars: Bytes)
    | FixedV(bytes: Bytes)
    | MessageV(slots: seq<Slot>)

  datatype Member = Member(tag: nat, value: Value)

  /**
   The storage of a field: a value, a value with a presence flag, an array with its count, or a union with its
   selector. What a cleared flag, an unselected member or an index past the count would hide is not represented.
   */
  datatype Slot =
    | Single(v: Value)
    | Opt(o: Option<Value>)
    | Many(items: seq<Value>)
    | Union(sel: Option<Member>)

  // ----- Layout -----

  /** Whether a field lies in the same union as the one before it. */
  predicate Shares(prev: Field, cur: Field) {
    prev.htype == Oneof && cur.htype == Oneof && cur.inUnion
  }

  /** The storage slot of field `i`. */
  function SlotOf(d: Descriptor, i: nat): nat
    requires i < |d.fields|
  {
    if i == 0 then 0
    else SlotOf(d, i - 1) + if Shares(d.fields[i - 1], d.fields[i]) then 0 else 1
  }

  function SlotCount(d: Descriptor): nat {
    if d.fields == [] then 0 else SlotOf(d, |d.fields| - 1) + 1
  }

  lemma {:induction false} SlotOrder(d: Descriptor, i: nat, j: nat)
    requires i <= j < |d.fields|
    ensures SlotOf(d, i) <= SlotOf(d, j) < SlotCount(d)
    decreases |d.fields| - i
  {
    if i < j {
      SlotOrder(d, i + 1, j);
    } else if j + 1 < |d.fields| {
      SlotOrder(d, j + 1, |d.fields| - 1);
    }
  }

  /** The bytes a field takes in the struct. */
  function Width(f: Field): nat { if f.htype == Repeated then f.dataSize * f.arraySize else f.dataSize }

  /** Where field `i` lies in the struct; the members of a union lie at the same place. */
  function DataAt(d: Descriptor, i: nat): nat
    requires i < |d.fields|
  {
    if i == 0 then d.fields[0].dataOffset
    else if Shares(d.fields[i - 1], d.fields[i]) then DataAt(d, i - 1)
    else DataAt(d, i - 1) + Width(d.fields[i - 1]) + d.fields[i].dataOffset
  }

  /** Where its flag, count or selector lies; the members of a union have one selector. */
  function SizeAt(d: Descriptor, i: nat): int
    requires i < |d.fields|
  {
    if i > 0 && Shares(d.fields[i - 1], d.fields[i]) then SizeAt(d, i - 1)
    else DataAt(d, i) + d.fields[i].sizeOffset
  }

  /** Fields lie one behind the other: a field, or a union by its last member, ends before any later field starts. */
  lemma {:induction false} FieldsDoNotOverlap(d: Descriptor, i: nat, j: nat)
    requires i < j < |d.fields| && !Shares(d.fields[i], d.fields[i + 1])
    ensures DataAt(d, i) + Width(d.fields[i]) <= DataAt(d, j)
    decreases j - i
  {
    hide Width, Shares;
    if i + 1 < j {
      FieldsDoNotOverlap(d, i, j - 1);
    }
  }

  /** Fields lie at the same place, with one selector, if they share a slot. */
  lemma {:induction false} SlotHasOnePlace(d: Descriptor, i: nat, j: nat)
    requires i <= j < |d.fields| && SlotOf(d, i) == SlotOf(d, j)
    ensures DataAt(d, i) == DataAt(d, j) && SizeAt(d, i) == SizeAt(d, j)
    decreases j - i
  {
    hide Width, Shares;
    if i < j {
      SlotOrder(d, i, j - 1);
      SlotHasOnePlace(d, i, j - 1);
    }
  }

  /** The number of required fields before field `i`. */
  function RequiredBefore(d: Descriptor, i: nat): nat
    requires i <= |d.fields|
  {
    if i == 0 then 0 else RequiredBefore(d, i - 1) + if d.fields[i - 1].htype == Required then 1 else 0
  }

  predicate DistinctTags(d: Descriptor) {
    forall i, j | 0 <= i < j < |d.fields| :: d.fields[i].tag != d.fields[j].tag
  }

  // ----- The iterator -----

  /** The first field with the tag in cyclic order from `start`, of the `n - k` fields not yet looked at. */
  function FindFrom(d: Descriptor, start: nat, k: nat, tag: nat): (r: Option<nat>)
    requires start < |d.fields| && k <= |d.fields|
    ensures r.Some? ==> r.value < |d.fields| && d.fields[r.value].tag == tag
    decreases |d.fields| - k
  {
    if k == |d.fields| then None
    else
      var i := (start + k) % |d.fields|;
      if d.fields[i].tag == tag then Some(i) else FindFrom(d, start, k + 1, tag)
  }

  lemma {:induction false} FindsIfPresent(d: Descriptor, start: nat, k: nat, tag: nat, i: nat)
    requires start < |d.fields| && k <= i < |d.fields| && d.fields[(start + i) % |d.fields|].tag == tag
    ensures FindFrom(d, start, k, tag).Some?
    decreases |d.fields| - k
  {
    if k < i {
      FindsIfPresent(d, start, k + 1, tag, i);
    }
  }

  /** One lap reaches every field. */
  lemma CyclicIndex(start: nat, i: nat, n: nat) returns (k: nat)
    requires start < n && i < n
    ensures k < n && (start + k) % n == i
  {
    WrapOnce(i, n);
    if i >= start {
      k := i - start;
      assert start + k == i;
    } else {
      k := i + n - start;
      assert start + k == i + n;
    }
  }

  lemma WrapOnce(i: nat, n: nat)
    requires i < n
    ensures (i + n) % n == i && i % n == i
  {
    assert (i + n) % n == i % n by {
      AddModulus(i, n);
    }
  }

  lemma AddModulus(i: nat, n: nat)
    requires i < n
    ensures (i + n) % n == i
  {
    assert i + n == 1 * n + i;
    ModUnique(i + n, n, 1, i);
  }

  lemma ModUnique(x: nat, n: nat, q: nat, r: nat)
    requires n > 0 && r < n && x == q * n + r
    ensures x % n == r
  {
    var p := x / n;
    assert x == p * n + x % n;
    if p < q {
      MulOrder(p + 1, q, n);
    } else if q < p {
      MulOrder(q + 1, p, n);
    }
  }

  /** A search finds the tag, from wherever it starts, exactly when some field has it. */
  lemma FindIffPresent(d: Descriptor, start: nat, tag: nat)
    requires start < |d.fields|
    ensures FindFrom(d, start, 0, tag).Some? <==> exists i :: 0 <= i < |d.fields| && d.fields[i].tag == tag
  {
    if i :| 0 <= i < |d.fields| && d.fields[i].tag == tag {
      var k := CyclicIndex(start, i, |d.fields|);
      FindsIfPresent(d, start, 0, tag, k);
    }
  }

  /** With distinct tags the result does not depend on where the search starts. */
  lemma FindIgnoresStart(d: Descriptor, a: nat, b: nat, tag: nat)
    requires DistinctTags(d) && a < |d.fields| && b < |d.fields|
    ensures FindFrom(d, a, 0, tag) == FindFrom(d, b, 0, tag)
  {
    FindIffPresent(d, a, tag);
    FindIffPresent(d, b, tag);
  }

  /** An empty table consists of its terminator, whose tag is zero; otherwise no field has tag zero. */
  predicate Terminated(d: Descriptor) {
    forall i | 0 <= i < |d.fields| :: d.fields[i].tag != 0
  }

  /** So it is for the descriptors of all submessages. */
  predicate WellFormed(d: Descriptor)
    decreases d
  {
    Terminated(d) && forall i | 0 <= i < |d.fields| :: d.fields[i].ptr.Sub? ==> WellFormed(d.fields[i].ptr.desc)
  }

  predicate WellFormedField(f: Field) {
    f.ptr.Sub? ==> WellFormed(f.ptr.desc)
  }

  /**
   Walks a descriptor in laps, keeping the place of the field and of its size in the struct, which slot of the storage
   that is, and the count of required fields passed.
   */
  class FieldIter {
    const desc: Descriptor
    var pos: nat
    var slot: nat
    var data: nat
    var size: int
    var requiredIndex: nat

    ghost predicate Valid()
      reads this
    {
      && Terminated(desc)
      && (if desc.fields == [] then pos == 0 && slot == 0 && requiredIndex == 0
          else
            && pos < |desc.fields| && slot == SlotOf(desc, pos) && requiredIndex == RequiredBefore(desc, pos)
            && data == DataAt(desc, pos) && size == SizeAt(desc, pos))
    }

    /** The tag at the position; at the terminator it is zero. */
    function Tag(): nat
      requires Valid()
      reads this
    {
      if desc.fields == [] then 0 else desc.fields[pos].tag
    }

    constructor Begin(d: Descriptor)
      requires Terminated(d)
      ensures Valid() && desc == d && pos == 0
    {
      desc, pos, slot, requiredIndex := d, 0, 0, 0;
      data := if d.fields == [] then 0 else d.fields[0].dataOffset;
      size := if d.fields == [] then 0 else d.fields[0].dataOffset + d.fields[0].sizeOffset;
    }

    /** Moves to the next field, or back to the first; says whether it was the former. */
    method Next() returns (more: bool)
      requires Valid()
      modifies this
      ensures Valid() && more == (old(pos) + 1 < |desc.fields|)
      ensures pos == if more then old(pos) + 1 else 0
    {
      if desc.fields == [] {
        return false;
      }
      var prev := desc.fields[pos];
      pos := pos + 1;
      if pos == |desc.fields| {
        pos, slot, requiredIndex := 0, 0, 0;
        data := desc.fields[0].dataOffset;
        size := data + desc.fields[0].sizeOffset;
        return false;
      }
      var cur := desc.fields[pos];
      if prev.htype == Oneof && cur.htype == Oneof && cur.inUnion {
        return true;
      }
      var prevSize := prev.dataSize;
      if prev.htype == Repeated {
        prevSize := prevSize * prev.arraySize;
      }
      if prev.htype == Required {
        requiredIndex := requiredIndex + 1;
      }
      slot := slot + 1;
      data := data + prevSize + cur.dataOffset;
      size := data + cur.sizeOffset;
      return true;
    }

    /** Searches one lap for a field with the tag. On an empty descriptor, tag zero matches the terminator. */
    method Find(tag: nat) returns (found: bool)
      requires Valid()
      modifies this
      ensures Valid()
      ensures desc.fields == [] ==> found == (tag == 0)
      ensures desc.fields != [] ==>
        var r := FindFrom(desc, old(pos), 0, tag);
        found == r.Some? && pos == if found then r.value else old(pos)
    {
      if desc.fields == [] {
        return tag == 0;
      }
      var start := pos;
      ghost var k, n := 0, |desc.fields|;
      WrapOnce(pos, n);
      while true
        invariant Valid() && 0 <= k < n && pos == (start + k) % n
        invariant FindFrom(desc, start, 0, tag) == FindFrom(desc, start, k, tag)
        decreases n - k
      {
        if Tag() == tag {
          return true;
        }
        NextCyclic(start, k, n);
        var _ := Next();
        k := k + 1;
        if pos == start {
          BackAtStart(start, k, n);
          return false;
        }
      }
    }
  }

  /** One step of a lap. */
  lemma NextCyclic(start: nat, k: nat, n: nat)
    requires start < n && k < n
    ensures var p := (start + k) % n; (start + k + 1) % n == if p + 1 < n then p + 1 else 0
  {
    var p, q := (start + k) % n, (start + k) / n;
    assert start + k == q * n + p;
    if p + 1 < n {
      ModUnique(start + k + 1, n, q, p + 1);
    } else {
      assert start + k + 1 == (q + 1) * n + 0 by {
        Distribute1(q, n);
      }
      ModUnique(start + k + 1, n, q + 1, 0);
    }
  }

  lemma Distribute1(q: nat, n: nat)
    ensures (q + 1) * n == q * n + n
  {
  }

  /** A lap comes back to its start only after all fields. */
  lemma BackAtStart(start: nat, k: nat, n: nat)
    requires start < n && 0 < k <= n && (start + k) % n == start
    ensures k == n
  {
    if k < n {
      if start + k < n {
        SmallIsItself(start + k, n);
      } else {
        ModUnique(start + k, n, 1, start + k - n);
      }
    }
  }

  lemma SmallIsItself(x: nat, n: nat)
    requires x < n
    ensures x % n == x
  {
  }
}
