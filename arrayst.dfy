// The unordered symbol table on one array of nodes in insertion order.
// Slot 0 is a sentinel that `get` overwrites with the key it looks for, so
// that its downward scan needs no bounds test.

module ArraySearch {
  import opened Common

  /** `DEFAULT_INITIAL_CAPACITY`. */
  const DefaultInitialCapacity: nat := 8

  /** An array slot: Java's null, or a node with its key and value. */
  datatype Slot<V> = Empty | Node(key: Option<Key>, val: Option<V>)

  class ArrayST<V> {
    var nodes: array<Slot<V>>
    /** One more than the number of pairs: the sentinel counts. */
    var size: int
    /** The pairs of slots [1, size), in slot order. */
    ghost var contents: seq<Entry<V>>

    /** Slot 0 holds the sentinel node, slots [1, size) the pairs with
        distinct non-null keys, and the slots after them null. */
    ghost predicate Valid()
      reads this, nodes
    {
      1 <= size <= nodes.Length &&
      |contents| == size - 1 &&
      (forall i :: 0 <= i < size ==> nodes[i].Node?) &&
      DistinctKeys(contents) &&
      (forall i :: 0 <= i < |contents| ==> nodes[i + 1] == Node(Some(contents[i].key), contents[i].value)) &&
      (forall i :: size <= i < nodes.Length ==> nodes[i] == Empty)
    }

    /** `ArrayST(int)` for a positive capacity: only the sentinel is in use. */
    constructor (capacity: nat)
      requires capacity >= 1
      ensures Valid() && contents == [] && nodes.Length == capacity && fresh(nodes)
    {
      var a := new Slot<V>[capacity](_ => Empty);
      a[0] := Node(None, None);
      assert forall i :: 1 <= i < capacity ==> a[i] == Empty;
      nodes := a;
      size := 1;
      contents := [];
    }

    /** `ArrayST()`. */
    constructor Default()
      ensures Valid() && contents == [] && nodes.Length == DefaultInitialCapacity && fresh(nodes)
    {
      var a := new Slot<V>[DefaultInitialCapacity](_ => Empty);
      a[0] := Node(None, None);
      nodes := a;
      size := 1;
      contents := [];
    }

    /** `put`: a null key is an illegal argument; a present key gets its
        value overwritten (null included); a new key is appended. */
    method Put(k: Option<Key>, v: Option<V>) returns (o: Outcome)
      requires Valid()
      modifies this, nodes
      ensures Valid()
      ensures k.None? ==> o == Fail(IllegalArgument) && contents == old(contents)
      ensures k.Some? ==> o == Pass
      ensures k.Some? && k.value in KeysOf(old(contents)) ==>
        |contents| == |old(contents)| &&
        forall i :: 0 <= i < |contents| ==>
          contents[i] == if old(contents)[i].key == k.value then Entry(k.value, v) else old(contents)[i]
      ensures k.Some? && k.value !in KeysOf(old(contents)) ==> contents == old(contents) + [Entry(k.value, v)]
      ensures k.Some? ==> Common.Get(contents, k.value) == v
      ensures k.Some? ==> forall j :: j != k.value ==> Common.Get(contents, j) == Common.Get(old(contents), j)
    {
      if k.None? {
        return Fail(IllegalArgument);
      }
      var key := k.value;
      ghost var c := contents;
      var i := 1;
      while i < size
        invariant 1 <= i <= size
        invariant forall j :: 0 <= j < i - 1 ==> c[j].key != key
      {
        if nodes[i].key == k {
          OverwriteSlot(i, v);
          forall p | 0 <= p < |c| && p != i - 1 ensures c[p].key != key {
            assert c[p].key != c[i - 1].key;
          }
          forall j ensures Common.Get(contents, j) == if j == key then v else Common.Get(c, j) {
            GetReplace(c, i - 1, v, j);
          }
          return Pass;
        }
        i := i + 1;
      }
      assert key !in KeysOf(c);
      EnsureCapacityInternal(size + 1);
      AppendSlot(Entry(key, v));
      forall j ensures Common.Get(contents, j) == if j == key then v else Common.Get(c, j) {
        GetSnoc(c, Entry(key, v), j);
      }
      return Pass;
    }

    /** The first branch of `put`: the node in slot `i` gets value `v`. */
    method OverwriteSlot(i: int, v: Option<V>)
      requires Valid() && 1 <= i < size
      modifies this, nodes
      ensures Valid() && nodes == old(nodes) && size == old(size)
      ensures contents == old(contents)[i - 1 := Entry(old(contents)[i - 1].key, v)]
    {
      ghost var c := contents;
      nodes[i] := Node(nodes[i].key, v);
      contents := c[i - 1 := Entry(c[i - 1].key, v)];
      assert forall p :: 0 <= p < |c| ==> contents[p].key == c[p].key;
    }

    /** The second branch of `put`: with room for one more slot, a node for
        the new pair goes into slot `size`. */
    method AppendSlot(e: Entry<V>)
      requires Valid() && size < nodes.Length && e.key !in KeysOf(contents)
      modifies this, nodes
      ensures Valid() && nodes == old(nodes)
      ensures contents == old(contents) + [e] && size == old(size) + 1
    {
      DistinctSnoc(contents, e);
      nodes[size] := Node(Some(e.key), e.value);
      contents := contents + [e];
      size := size + 1;
    }

    /** `ensureCapacityInternal` with `grow` as written, which from a
        positive capacity always makes room for one more slot. */
    method EnsureCapacityInternal(miniCapacity: nat)
      requires Valid() && miniCapacity <= size + 1
      modifies this
      ensures Valid() && contents == old(contents) && size == old(size)
      ensures nodes.Length >= miniCapacity && nodes.Length >= old(nodes.Length)
      ensures miniCapacity - old(nodes.Length) > 0 ==>
        nodes.Length == GrowAsWritten(old(nodes.Length)) && fresh(nodes)
      ensures miniCapacity - old(nodes.Length) <= 0 ==> nodes == old(nodes)
    {
      if miniCapacity - nodes.Length > 0 {
        GrowAsWrittenRoom(nodes.Length);
        nodes := CopyOf(nodes, GrowAsWritten(nodes.Length), Empty);
      }
    }

    /** `get`: a null key is an illegal argument; otherwise the key goes into
        the sentinel and the scan runs down from the last slot, ending at the
        sentinel (whose value is null) when the key is absent. */
    method Get(k: Option<Key>) returns (r: Result<Option<V>>)
      requires Valid()
      modifies nodes
      ensures Valid()
      ensures k.None? ==> r == Err(IllegalArgument)
      ensures k.Some? ==> r == Ok(Common.Get(contents, k.value))
    {
      if k.None? {
        return Err(IllegalArgument);
      }
      var i := size - 1;
      nodes[0] := Node(k, None);
      while nodes[i].key != k
        invariant 0 <= i < size
        invariant nodes[0] == Node(k, None)
        invariant forall j :: i < j < size ==> nodes[j].key != k
        decreases i
      {
        i := i - 1;
      }
      if i > 0 {
        GetDistinct(contents, i - 1);
      } else {
        assert forall j :: 0 <= j < |contents| ==> contents[j].key != k.value by {
          forall j | 0 <= j < |contents| ensures contents[j].key != k.value {
            assert nodes[j + 1].key != k;
          }
        }
        assert k.value !in KeysOf(contents);
      }
      return Ok(nodes[i].val);
    }

    /** `size`: the slots in use, less the sentinel. */
    method Size() returns (n: int)
      requires Valid()
      ensures n == |contents|
    {
      return size - 1;
    }

    /** `keys`: the keys of slots [1, size), in insertion order. */
    method Keys() returns (ks: seq<Key>)
      requires Valid()
      ensures ks == KeysOf(contents)
    {
      ks := [];
      var i := 1;
      while i < size
        invariant 1 <= i <= size
        invariant ks == KeysOf(contents[..i - 1])
      {
        SliceSnoc(contents, 0, i - 1);
        KeysOfAppend(contents[..i - 1], [contents[i - 1]]);
        ks := ks + [nodes[i].key.value];
        i := i + 1;
      }
      assert contents[..size - 1] == contents;
    }

    /** `forEach`: a null action throws; otherwise the action sees the pairs
        in insertion order (the visits are returned). */
    method ForEach(actionGiven: bool) returns (r: Result<seq<Entry<V>>>)
      requires Valid()
      ensures !actionGiven ==> r == Err(NullPointer)
      ensures actionGiven ==> r == Ok(contents)
    {
      if !actionGiven {
        return Err(NullPointer);
      }
      var seen: seq<Entry<V>> := [];
      var i := 1;
      while i < size
        invariant 1 <= i <= size
        invariant seen == contents[..i - 1]
      {
        SliceSnoc(contents, 0, i - 1);
        seen := seen + [Entry(nodes[i].key.value, nodes[i].val)];
        i := i + 1;
      }
      assert contents[..size - 1] == contents;
      return Ok(seen);
    }

    /** The inherited `contains`: the key reads a non-null value; a null key
        is an illegal argument, from `get`. */
    method Contains(k: Option<Key>) returns (r: Result<bool>)
      requires Valid()
      modifies nodes
      ensures Valid()
      ensures k.None? ==> r == Err(IllegalArgument)
      ensures k.Some? ==> r == Ok(Common.Get(contents, k.value).Some?)
    {
      var v :- Get(k);
      return Ok(v.Some?);
    }

    /** The inherited `delete`: a contained key is put again with a null
        value, which stays in its slot as a pair that no longer counts as
        contained; a null key is an illegal argument. */
    method Delete(k: Option<Key>) returns (o: Outcome)
      requires Valid()
      modifies this, nodes
      ensures Valid()
      ensures k.None? ==> o == Fail(IllegalArgument) && contents == old(contents)
      ensures k.Some? ==> o == Pass && |contents| == |old(contents)|
      ensures k.Some? ==> forall i :: 0 <= i < |contents| ==>
        contents[i] == if old(contents)[i].key == k.value then Entry(k.value, None) else old(contents)[i]
      ensures k.Some? ==> Common.Get(contents, k.value) == None
      ensures k.Some? ==> forall j :: j != k.value ==> Common.Get(contents, j) == Common.Get(old(contents), j)
    {
      var present := Contains(k);
      if present.Err? {
        return Fail(present.error);
      }
      if present.value {
        o := Put(k, None);
      } else {
        forall i | 0 <= i < |contents| && contents[i].key == k.value ensures contents[i].value == None {
          GetDistinct(contents, i);
        }
        return Pass;
      }
    }

    /** The inherited `isEmpty`. */
    method IsEmpty() returns (b: bool)
      requires Valid()
      ensures b <==> contents == []
    {
      var n := Size();
      return n == 0;
    }
  }

  /** `new ArrayST(capacity)`: a capacity that is not positive is an illegal argument. */
  method NewArrayST<V>(capacity: int) returns (r: Result<ArrayST<V>>)
    ensures capacity <= 0 ==> r == Err(IllegalArgument)
    ensures capacity > 0 ==>
      r.Ok? && fresh(r.value) && r.value.Valid() && r.value.contents == [] && r.value.nodes.Length == capacity
  {
    if capacity <= 0 {
      return Err(IllegalArgument);
    }
    var st := new ArrayST<V>(capacity);
    return Ok(st);
  }
}
