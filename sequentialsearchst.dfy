// The unordered symbol table on a singly linked list: new keys go in
// front of the head, and every lookup walks from the head to the tail.

module Sequential {
  import opened Common

  /** The chain after `put(k, v)`: the node holding `k` takes the value `v`,
      or, when no node holds `k`, a new node goes in front of the head. */
  function PutList<V>(s: seq<Entry<V>>, k: Key, v: Option<V>): seq<Entry<V>> {
    if k in KeysOf(s) then seq(|s|, i requires 0 <= i < |s| => if s[i].key == k then Entry(k, v) else s[i])
    else [Entry(k, v)] + s
  }

  /** With distinct keys, overwriting touches only the node at `i`, the one holding `k`. */
  lemma PutListAt<V>(s: seq<Entry<V>>, k: Key, v: Option<V>, i: int)
    requires DistinctKeys(s) && 0 <= i < |s| && s[i].key == k
    ensures PutList(s, k, v) == s[i := Entry(k, v)]
  {
    assert KeysOf(s)[i] == k;
    assert forall p :: 0 <= p < |s| && p != i ==> s[p].key != k;
  }

  /** `put` keeps the keys distinct, answers `v` for `k` and the old answer
      for every other key, and adds a node exactly when `k` was absent. */
  lemma PutListSpec<V>(s: seq<Entry<V>>, k: Key, v: Option<V>, j: Key)
    requires DistinctKeys(s)
    ensures DistinctKeys(PutList(s, k, v))
    ensures Common.Get(PutList(s, k, v), j) == if j == k then v else Common.Get(s, j)
    ensures |PutList(s, k, v)| == if k in KeysOf(s) then |s| else |s| + 1
  {
    if k in KeysOf(s) {
      var i :| 0 <= i < |s| && KeysOf(s)[i] == k;
      PutListAt(s, k, v, i);
      assert s[i := Entry(k, v)] == s[i := Entry(s[i].key, v)];
      ReplaceKeys(s, i, v);
      GetReplace(s, i, v, j);
    } else {
      DistinctCons(Entry(k, v), s);
      GetCons(Entry(k, v), s, j);
    }
  }

  /** `put` leaves the chain holding exactly its old keys and `k`. */
  lemma PutListKeys<V>(s: seq<Entry<V>>, k: Key, v: Option<V>, j: Key)
    ensures j in KeysOf(PutList(s, k, v)) <==> j == k || j in KeysOf(s)
  {
    var r := PutList(s, k, v);
    if k in KeysOf(s) {
      assert KeysOf(r) == KeysOf(s);
    } else {
      assert KeysOf(r) == [k] + KeysOf(s);
    }
  }

  /** The walk of `get` from the head: the value of the first node whose
      key equals `k`, or null when the walk reaches the tail. */
  method GetList<V>(list: seq<Entry<V>>, k: Key) returns (r: Option<V>)
    ensures r == Common.Get(list, k)
  {
    var i := 0;
    while i < |list|
      invariant 0 <= i <= |list|
      invariant Common.Get(list[i..], k) == Common.Get(list, k)
    {
      assert list[i..][0] == list[i] && list[i..][1..] == list[i + 1..];
      if list[i].key == k {
        return list[i].value;
      }
      i := i + 1;
    }
    return None;
  }

  class SequentialSearchST<V> {
    /** The pairs of the chain that starts at `first`, head first. */
    var list: seq<Entry<V>>
    /** The node counter the table keeps beside the chain. */
    var size: int

    /** Each key is on at most one node, and the counter counts the nodes. */
    ghost predicate Valid()
      reads this
    {
      DistinctKeys(list) && size == |list|
    }

    constructor ()
      ensures Valid() && list == []
    {
      list := [];
      size := 0;
    }

    /** Overwrites the value of the node holding `k`, or links a new node
        in front of the head when no node holds it. */
    method Put(k: Key, v: Option<V>)
      requires Valid()
      modifies this
      ensures Valid()
      ensures list == PutList(old(list), k, v)
      ensures Common.Get(list, k) == v
      ensures forall j :: j != k ==> Common.Get(list, j) == Common.Get(old(list), j)
    {
      forall j ensures Common.Get(PutList(list, k, v), j) == if j == k then v else Common.Get(list, j) {
        PutListSpec(list, k, v, j);
      }
      PutListSpec(list, k, v, k);
      var i := 0;
      while i < |list|
        invariant 0 <= i <= |list|
        invariant forall j :: 0 <= j < i ==> list[j].key != k
      {
        if list[i].key == k {
          ghost var before := list;
          PutListAt(before, k, v, i);
          list := list[i := Entry(k, v)];
          return;
        }
        i := i + 1;
      }
      assert k !in KeysOf(list);
      list := [Entry(k, v)] + list;
      size := size + 1;
    }

    /** The value of the first node whose key equals `k`, or null. */
    method Get(k: Key) returns (r: Option<V>)
      requires Valid()
      ensures r == Common.Get(list, k)
    {
      r := GetList(list, k);
    }

    method Size() returns (n: int)
      requires Valid()
      ensures n == |list|
    {
      return size;
    }

    /** The keys from the head to the tail. */
    method Keys() returns (ks: seq<Key>)
      requires Valid()
      ensures ks == KeysOf(list)
    {
      ks := [];
      var i := 0;
      while i < |list|
        invariant 0 <= i <= |list|
        invariant ks == KeysOf(list[..i])
      {
        assert list[..i + 1] == list[..i] + [list[i]];
        KeysOfAppend(list[..i], [list[i]]);
        ks := ks + [list[i].key];
        i := i + 1;
      }
      assert list[..i] == list;
    }

    /** The pairs in the order the action sees them, from the head to the
        tail; a missing action is a null pointer. */
    method ForEach(actionGiven: bool) returns (r: Result<seq<Entry<V>>>)
      requires Valid()
      ensures !actionGiven ==> r == Err(NullPointer)
      ensures actionGiven ==> r == Ok(list)
    {
      if !actionGiven {
        return Err(NullPointer);
      }
      var seen: seq<Entry<V>> := [];
      var i := 0;
      while i < |list|
        invariant 0 <= i <= |list|
        invariant seen == list[..i]
      {
        seen := seen + [list[i]];
        i := i + 1;
      }
      assert list[..i] == list;
      return Ok(seen);
    }

    /** Unlinks the node holding `k`, if any; a null key is a null pointer. */
    method Delete(k: Option<Key>) returns (o: Outcome)
      requires Valid()
      modifies this
      ensures Valid()
      ensures k.None? ==> o == Fail(NullPointer) && list == old(list)
      ensures k.Some? ==> o == Pass && list == Remove(old(list), k.value)
      ensures k.Some? && k.value in KeysOf(old(list)) ==> size == old(size) - 1
      ensures k.Some? && k.value !in KeysOf(old(list)) ==> list == old(list)
      ensures k.Some? ==> Common.Get(list, k.value) == None
      ensures k.Some? ==> forall j :: j != k.value ==> Common.Get(list, j) == Common.Get(old(list), j)
    {
      if k.None? {
        return Fail(NullPointer);
      }
      RemoveCount(list, k.value);
      forall j ensures Common.Get(Remove(list, k.value), j) == if j == k.value then None else Common.Get(list, j) {
        RemoveSpec(list, k.value, j);
      }
      if size == 0 {
        return Pass;
      }
      var i := 0;
      while i < |list|
        invariant 0 <= i <= |list|
        invariant forall j :: 0 <= j < i ==> list[j].key != k.value
      {
        if list[i].key == k.value {
          RemoveAt(list, i);
          RemoveDistinct(list, k.value);
          list := list[..i] + list[i + 1..];
          size := size - 1;
          return Pass;
        }
        i := i + 1;
      }
      assert k.value !in KeysOf(list);
      return Pass;
    }

    /** `contains`, inherited: a key is contained when its value reads non-null. */
    method Contains(k: Key) returns (b: bool)
      requires Valid()
      ensures b <==> Common.Get(list, k).Some?
    {
      var v := Get(k);
      return v != None;
    }

    /** `isEmpty`, inherited. */
    method IsEmpty() returns (b: bool)
      requires Valid()
      ensures b <==> list == []
    {
      var n := Size();
      return n == 0;
    }
  }
}
