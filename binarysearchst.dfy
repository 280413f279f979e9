// The ordered symbol table on two parallel arrays kept in ascending key
// order: binary search for the rank, shifting on insertion and deletion.

module BinarySearch {
  import opened Common

  /** `DEFAULT_INITIAL_CAPACITY`. */
  const DefaultInitialCapacity: nat := 8

  class BinarySearchST<V> {
    var keys: array<Option<Key>>
    var values: array<Option<V>>
    var size: int
    /** The pairs in slots [0, size), in slot order. */
    ghost var contents: seq<Entry<V>>

    /** Slots [0, size) hold the pairs in ascending key order with non-null
        values; the slots after them hold null. */
    ghost predicate Valid()
      reads this, keys, values
    {
      keys as object != values as object &&
      keys.Length == values.Length &&
      0 <= size <= keys.Length &&
      |contents| == size &&
      Sorted(contents) &&
      (forall i :: 0 <= i < size ==> keys[i] == Some(contents[i].key)) &&
      (forall i :: 0 <= i < size ==> values[i] == contents[i].value && values[i].Some?) &&
      (forall i :: size <= i < keys.Length ==> keys[i] == None && values[i] == None)
    }

    /** `BinarySearchST(int)` for a capacity that is not negative. */
    constructor (capacity: nat)
      ensures Valid() && contents == [] && keys.Length == capacity
      ensures fresh(keys) && fresh(values)
    {
      keys := new Option<Key>[capacity](_ => None);
      values := new Option<V>[capacity](_ => None);
      size := 0;
      contents := [];
    }

    /** `BinarySearchST()`. */
    constructor Default()
      ensures Valid() && contents == [] && keys.Length == DefaultInitialCapacity
      ensures fresh(keys) && fresh(values)
    {
      keys := new Option<Key>[DefaultInitialCapacity](_ => None);
      values := new Option<V>[DefaultInitialCapacity](_ => None);
      size := 0;
      contents := [];
    }

    /** The binary search of `rank` (after its null check): the number of
        keys below `k`, which is also where `k` is or would go. */
    method RankOf(k: Key) returns (r: int)
      requires Valid()
      ensures 0 <= r <= size && r == CountBelow(contents, k)
      ensures forall i :: 0 <= i < r ==> contents[i].key < k
      ensures forall i :: r <= i < size ==> contents[i].key >= k
      ensures k in KeysOf(contents) <==> r < size && contents[r].key == k
    {
      var lo, hi := 0, size - 1;
      while lo <= hi
        invariant 0 <= lo <= hi + 1 <= size
        invariant forall i :: 0 <= i < lo ==> contents[i].key < k
        invariant forall i :: hi < i < size ==> contents[i].key > k
        decreases hi - lo
      {
        var mid := (lo + hi) / 2;
        assert keys[mid] == Some(contents[mid].key);
        var key := keys[mid].value;
        if k < key {
          hi := mid - 1;
        } else if k > key {
          lo := mid + 1;
        } else {
          r := mid;
          RankAt(contents, k, r);
          return;
        }
      }
      r := lo;
      RankAt(contents, k, r);
    }

    /** `rank`: a null key is an illegal argument. */
    method Rank(k: Option<Key>) returns (r: Result<int>)
      requires Valid()
      ensures k.None? ==> r == Err(IllegalArgument)
      ensures k.Some? ==> r == Ok(CountBelow(contents, k.value)) && 0 <= r.value <= |contents|
    {
      if k.None? {
        return Err(IllegalArgument);
      }
      var i := RankOf(k.value);
      return Ok(i);
    }

    /** `get`: null on an empty table (even for a null key), otherwise the
        value paired with the key, or null. */
    method Get(k: Option<Key>) returns (r: Result<Option<V>>)
      requires Valid()
      ensures contents == [] ==> r == Ok(None)
      ensures contents != [] && k.None? ==> r == Err(IllegalArgument)
      ensures k.Some? ==> r == Ok(Common.Get(contents, k.value))
    {
      if size == 0 {
        return Ok(None);
      }
      if k.None? {
        return Err(IllegalArgument);
      }
      var i := RankOf(k.value);
      if i < size && keys[i] == k {
        GetDistinct(contents, i);
        return Ok(values[i]);
      }
      return Ok(None);
    }

    /** The inherited `contains`: with no null values stored, exactly the keys present. */
    method Contains(k: Key) returns (b: bool)
      requires Valid()
      ensures b <==> Common.Get(contents, k).Some?
      ensures b <==> k in KeysOf(contents)
    {
      var v := Get(Some(k));
      if k in KeysOf(contents) {
        var i :| 0 <= i < |contents| && contents[i].key == k;
        GetDistinct(contents, i);
      }
      return v.value.Some?;
    }

    method Size() returns (n: int)
      requires Valid()
      ensures n == |contents|
    {
      return size;
    }

    /** The inherited `isEmpty`. */
    method IsEmpty() returns (b: bool)
      requires Valid()
      ensures b <==> contents == []
    {
      return size == 0;
    }

    /** `min`: the first key; an empty table throws. */
    method Min() returns (r: Result<Key>)
      requires Valid()
      ensures contents == [] ==> r == Err(NoSuchElement)
      ensures contents != [] ==> r == Ok(contents[0].key)
      ensures r.Ok? ==> forall i :: 0 <= i < |contents| ==> r.value <= contents[i].key
    {
      if size == 0 {
        return Err(NoSuchElement);
      }
      return Ok(keys[0].value);
    }

    /** `max`: the last key; an empty table throws. */
    method Max() returns (r: Result<Key>)
      requires Valid()
      ensures contents == [] ==> r == Err(NoSuchElement)
      ensures contents != [] ==> r == Ok(contents[|contents| - 1].key)
      ensures r.Ok? ==> forall i :: 0 <= i < |contents| ==> contents[i].key <= r.value
    {
      if size == 0 {
        return Err(NoSuchElement);
      }
      return Ok(keys[size - 1].value);
    }

    /** `floor`: `k` itself when present, otherwise the key just before its rank, or null. */
    method Floor(k: Option<Key>) returns (r: Result<Option<Key>>)
      requires Valid()
      ensures k.None? ==> r == Err(IllegalArgument)
      ensures k.Some? ==> r.Ok? && IsFloor(contents, k.value, r.value)
    {
      if k.None? {
        return Err(IllegalArgument);
      }
      var i := RankOf(k.value);
      SortedFloorAt(contents, k.value, i);
      if i < size && k.value == keys[i].value {
        return Ok(keys[i]);
      }
      if i == 0 {
        return Ok(None);
      }
      return Ok(keys[i - 1]);
    }

    /** `ceiling`: the slot at the rank of `k`, which is null when every key
        is below `k`, and lies past the array when that array is also full. */
    method Ceiling(k: Option<Key>) returns (r: Result<Option<Key>>)
      requires Valid()
      ensures k.None? ==> r == Err(IllegalArgument)
      ensures k.Some? && CountBelow(contents, k.value) == keys.Length ==> r == Err(IndexOutOfBounds)
      ensures k.Some? && CountBelow(contents, k.value) < keys.Length ==>
        r.Ok? && IsCeiling(contents, k.value, r.value)
    {
      if k.None? {
        return Err(IllegalArgument);
      }
      var i := RankOf(k.value);
      if i >= keys.Length {
        return Err(IndexOutOfBounds);
      }
      SortedCeilingAt(contents, k.value, i);
      return Ok(keys[i]);
    }

    /** `select`: the key of rank `i`; an index outside [0, size) throws. */
    method Select(i: int) returns (r: Result<Key>)
      requires Valid()
      ensures (i < 0 || i >= |contents|) ==> r == Err(IndexOutOfBounds)
      ensures 0 <= i < |contents| ==> r == Ok(contents[i].key)
      ensures r.Ok? ==> CountBelow(contents, r.value) == i
    {
      if i >= size || i < 0 {
        return Err(IndexOutOfBounds);
      }
      SortedRank(contents, i);
      return Ok(keys[i].value);
    }

    /** `keys(lo, hi)`: the slots from rank(lo) up to rank(hi), then `hi`
        itself when present; a null bound is an illegal argument. */
    method KeysBetween(lo: Option<Key>, hi: Option<Key>) returns (r: Result<seq<Key>>)
      requires Valid()
      ensures (lo.None? || hi.None?) ==> r == Err(IllegalArgument)
      ensures lo.Some? && hi.Some? ==> r == Ok(KeysOf(Between(contents, lo.value, hi.value)))
      ensures lo.Some? && hi.Some? && lo.value > hi.value ==> r == Ok([])
    {
      if lo.None? || hi.None? {
        return Err(IllegalArgument);
      }
      var l, h := lo.value, hi.value;
      if l > h {
        BetweenEmpty(contents, l, h);
        return Ok([]);
      }
      var rl := RankOf(l);
      var rh := RankOf(h);
      BetweenRanks(contents, l, h, rl, rh);
      var list := KeysFrom(rl, rh);
      var present := Contains(h);
      if present {
        var at := RankOf(h);
        assert at == rh && rh < size && contents[rh].key == h;
        assert keys[at] == Some(h);
        KeysSnoc(contents, rl, rh);
        list := list + [keys[at].value];
        assert list == KeysOf(contents[rl..rh + 1]);
      } else {
        assert !(rh < size && contents[rh].key == h);
      }
      return Ok(list);
    }

    /** `Arrays.asList(keys).subList(a, b)`: the keys of slots [a, b). */
    method KeysFrom(a: int, b: int) returns (list: seq<Key>)
      requires Valid() && 0 <= a <= b <= size
      ensures list == KeysOf(contents[a..b])
    {
      list := [];
      var j := a;
      while j < b
        invariant a <= j <= b
        invariant list == KeysOf(contents[a..j])
      {
        KeysSnoc(contents, a, j);
        assert keys[j] == Some(contents[j].key);
        list := list + [keys[j].value];
        j := j + 1;
      }
    }

    /** The inherited `keys()`, that is `keys(min(), max())`: every key in
        ascending order; `min` throws on an empty table. */
    method Keys() returns (r: Result<seq<Key>>)
      requires Valid()
      ensures contents == [] ==> r == Err(NoSuchElement)
      ensures contents != [] ==> r == Ok(KeysOf(contents))
    {
      var lo := Min();
      if lo.Err? {
        return Err(lo.error);
      }
      var hi := Max();
      BetweenBounds(contents);
      r := KeysBetween(Some(lo.value), Some(hi.value));
    }

    /** The inherited `size(lo, hi)`: from `contains(hi)` and two ranks, the
        number of keys in [lo, hi]. */
    method SizeBetween(lo: Key, hi: Key) returns (n: int)
      requires Valid()
      ensures n == |Between(contents, lo, hi)|
    {
      if hi < lo {
        BetweenEmpty(contents, lo, hi);
        return 0;
      }
      BetweenCount(contents, lo, hi);
      var present := Contains(hi);
      var rh := RankOf(hi);
      var rl := RankOf(lo);
      if present {
        return rh - rl + 1;
      }
      return rh - rl;
    }

    /** `forEach`: a null action throws; otherwise the action sees the pairs
        in slot order, which is ascending key order (the visits are returned). */
    method ForEach(actionGiven: bool) returns (r: Result<seq<Entry<V>>>)
      requires Valid()
      ensures !actionGiven ==> r == Err(NullPointer)
      ensures actionGiven ==> r == Ok(contents) && Sorted(r.value)
    {
      if !actionGiven {
        return Err(NullPointer);
      }
      var seen: seq<Entry<V>> := [];
      var i := 0;
      while i < size
        invariant 0 <= i <= size
        invariant seen == contents[..i]
      {
        seen := seen + [Entry(keys[i].value, values[i])];
        i := i + 1;
      }
      assert contents[..size] == contents;
      return Ok(seen);
    }

    /** `ensureCapacityInternal` with the corrected `grow`: afterwards there
        is room for `miniCapacity` slots, with the pairs where they were. */
    method EnsureCapacityInternal(miniCapacity: nat)
      requires Valid()
      modifies this
      ensures Valid() && contents == old(contents) && size == old(size)
      ensures keys.Length >= miniCapacity && keys.Length >= old(keys.Length)
      ensures miniCapacity - old(keys.Length) > 0 ==>
        keys.Length == Grow(old(keys.Length), miniCapacity) && fresh(keys) && fresh(values)
      ensures miniCapacity - old(keys.Length) <= 0 ==> keys == old(keys) && values == old(values)
    {
      if miniCapacity - keys.Length > 0 {
        var newCapacity := Grow(keys.Length, miniCapacity);
        keys := CopyOf(keys, newCapacity, None);
        values := CopyOf(values, newCapacity, None);
      }
    }

    /** `put`: a null key or value is an illegal argument; a present key gets
        its value overwritten; a new key goes in at its rank, the later pairs
        moving one slot up. */
    method Put(k: Option<Key>, v: Option<V>) returns (o: Outcome)
      requires Valid()
      modifies this, keys, values
      ensures Valid()
      ensures (k.None? || v.None?) ==> o == Fail(IllegalArgument) && contents == old(contents)
      ensures k.Some? && v.Some? ==> o == Pass && contents == Insert(old(contents), Entry(k.value, v))
      ensures k.Some? && v.Some? ==> Common.Get(contents, k.value) == v
      ensures k.Some? && v.Some? ==>
        forall j :: j != k.value ==> Common.Get(contents, j) == Common.Get(old(contents), j)
      ensures k.Some? && v.Some? ==>
        size == if k.value in KeysOf(old(contents)) then old(size) else old(size) + 1
    {
      if k.None? || v.None? {
        return Fail(IllegalArgument);
      }
      var key := k.value;
      var e := Entry(key, v);
      var i := RankOf(key);
      ghost var c := contents;
      InsertAtCut(c, i, e);
      InsertCount(c, e);
      InsertSpec(c, e, key);
      forall j ensures Common.Get(Insert(c, e), j) == if j == key then v else Common.Get(c, j) {
        InsertSpec(c, e, j);
      }
      if i < size && keys[i] == k {
        Overwrite(i, v);
        return Pass;
      }
      EnsureCapacityInternal(size + 1);
      InsertSlot(i, e);
      return Pass;
    }

    /** The first branch of `put`: the value in slot `i` is replaced. */
    method Overwrite(i: int, v: Option<V>)
      requires Valid() && 0 <= i < size && v.Some?
      modifies values, this
      ensures Valid() && keys == old(keys) && values == old(values) && size == old(size)
      ensures contents == old(contents)[i := Entry(old(contents)[i].key, v)]
    {
      values[i] := v;
      contents := contents[i := Entry(contents[i].key, v)];
    }

    /** The second branch of `put`: with room for one more slot, the pairs
        from slot `i` on move up and `e` goes into slot `i`. */
    method InsertSlot(i: int, e: Entry<V>)
      requires Valid() && 0 <= i <= size < keys.Length && e.value.Some?
      requires Sorted(contents[..i] + [e] + contents[i..])
      modifies this, keys, values
      ensures Valid() && keys == old(keys) && values == old(values)
      ensures contents == old(contents)[..i] + [e] + old(contents)[i..] && size == old(size) + 1
    {
      ghost var c := contents;
      ShiftUp(i);
      keys[i] := Some(e.key);
      values[i] := e.value;
      InsertedAt(c, i, e);
      contents := c[..i] + [e] + c[i..];
      size := size + 1;
      forall p | 0 <= p < size
        ensures keys[p] == Some(contents[p].key) && values[p] == contents[p].value && values[p].Some?
      {
        if p < i {
          assert contents[p] == c[p];
        } else if p > i {
          assert contents[p] == c[p - 1];
        }
      }
    }

    /** The loop of `put` that moves the pairs of slots [i, size) one slot up. */
    method ShiftUp(i: int)
      requires Valid() && 0 <= i <= size < keys.Length
      modifies keys, values
      ensures forall p :: 0 <= p < i ==> keys[p] == Some(contents[p].key) && values[p] == contents[p].value
      ensures forall p :: i < p <= size ==>
        keys[p] == Some(contents[p - 1].key) && values[p] == contents[p - 1].value
      ensures forall p :: size < p < keys.Length ==> keys[p] == None && values[p] == None
    {
      var j := size;
      while j > i
        invariant i <= j <= size
        invariant forall p :: 0 <= p < j ==> keys[p] == Some(contents[p].key) && values[p] == contents[p].value
        invariant forall p :: j < p <= size ==>
          keys[p] == Some(contents[p - 1].key) && values[p] == contents[p - 1].value
        invariant forall p :: size < p < keys.Length ==> keys[p] == None && values[p] == None
      {
        keys[j] := keys[j - 1];
        values[j] := values[j - 1];
        j := j - 1;
      }
    }

    /** `delete`: a null key is an illegal argument; an empty table or an
        absent key changes nothing; otherwise the later pairs move one slot
        down and the freed last slot is nulled. */
    method Delete(k: Option<Key>) returns (o: Outcome)
      requires Valid()
      modifies this, keys, values
      ensures Valid() && keys == old(keys) && values == old(values)
      ensures k.None? ==> o == Fail(IllegalArgument) && contents == old(contents)
      ensures k.Some? ==> o == Pass && contents == Remove(old(contents), k.value)
      ensures k.Some? ==> Common.Get(contents, k.value) == None
      ensures k.Some? ==>
        forall j :: j != k.value ==> Common.Get(contents, j) == Common.Get(old(contents), j)
      ensures k.Some? ==>
        size == if k.value in KeysOf(old(contents)) then old(size) - 1 else old(size)
    {
      if k.None? {
        return Fail(IllegalArgument);
      }
      var key := k.value;
      ghost var c := contents;
      RemoveSorted(c, key);
      if size == 0 {
        return Pass;
      }
      var i := RankOf(key);
      if i == size || keys[i].value != key {
        return Pass;
      }
      RemoveAt(c, i);
      RemoveSlot(i);
      return Pass;
    }

    /** The shifting part of `delete`: the pairs after slot `i` move down
        and the freed last slot is nulled. */
    method RemoveSlot(i: int)
      requires Valid() && 0 <= i < size
      requires Sorted(contents[..i] + contents[i + 1..])
      modifies this, keys, values
      ensures Valid() && keys == old(keys) && values == old(values)
      ensures contents == old(contents)[..i] + old(contents)[i + 1..] && size == old(size) - 1
    {
      ghost var c := contents;
      ShiftDown(i);
      size := size - 1;
      keys[size] := None;
      values[size] := None;
      RemovedAt(c, i);
      contents := c[..i] + c[i + 1..];
      forall p | 0 <= p < size
        ensures keys[p] == Some(contents[p].key) && values[p] == contents[p].value && values[p].Some?
      {
        if p < i {
          assert contents[p] == c[p];
        } else {
          assert contents[(p + 1) - 1] == c[p + 1];
        }
      }
      forall p | size <= p < keys.Length ensures keys[p] == None && values[p] == None {
        if p > size {
          assert p >= size + 1;
        }
      }
    }

    /** The loop of `delete` that moves the pairs of slots (i, size) one slot down. */
    method ShiftDown(i: int)
      requires Valid() && 0 <= i < size
      modifies keys, values
      ensures forall p :: 0 <= p < i ==> keys[p] == Some(contents[p].key) && values[p] == contents[p].value
      ensures forall p :: i <= p < size - 1 ==>
        keys[p] == Some(contents[p + 1].key) && values[p] == contents[p + 1].value
      ensures forall p :: size <= p < keys.Length ==> keys[p] == None && values[p] == None
    {
      var j := i;
      while j < size - 1
        invariant i <= j <= size - 1
        invariant forall p :: 0 <= p < i ==> keys[p] == Some(contents[p].key) && values[p] == contents[p].value
        invariant forall p :: i <= p < j ==>
          keys[p] == Some(contents[p + 1].key) && values[p] == contents[p + 1].value
        invariant forall p :: j < p < size ==> keys[p] == Some(contents[p].key) && values[p] == contents[p].value
        invariant forall p :: size <= p < keys.Length ==> keys[p] == None && values[p] == None
      {
        keys[j] := keys[j + 1];
        values[j] := values[j + 1];
        j := j + 1;
      }
    }

    /** The inherited `deleteMin`, that is `delete(min())`: an empty table
        throws; otherwise the least pair goes. */
    method DeleteMin() returns (o: Outcome)
      requires Valid()
      modifies this, keys, values
      ensures Valid()
      ensures old(contents) == [] ==> o == Fail(NoSuchElement) && contents == old(contents)
      ensures old(contents) != [] ==> o == Pass && contents == old(contents)[1..]
    {
      var m := Min();
      if m.Err? {
        return Fail(m.error);
      }
      RemoveAt(contents, 0);
      o := Delete(Some(m.value));
    }

    /** The inherited `deleteMax`, that is `delete(max())`: an empty table
        throws; otherwise the greatest pair goes. */
    method DeleteMax() returns (o: Outcome)
      requires Valid()
      modifies this, keys, values
      ensures Valid()
      ensures old(contents) == [] ==> o == Fail(NoSuchElement) && contents == old(contents)
      ensures old(contents) != [] ==> o == Pass && contents == old(contents)[..|old(contents)| - 1]
    {
      var m := Max();
      if m.Err? {
        return Fail(m.error);
      }
      RemoveAt(contents, |contents| - 1);
      assert contents[|contents|..] == [];
      o := Delete(Some(m.value));
    }
  }

  /** What `delete` promises of the sorted pairs: they stay sorted, `k`
      reads null and every other key as before, and one pair goes exactly
      when `k` was present. */
  lemma RemoveSorted<V>(c: seq<Entry<V>>, k: Key)
    requires Sorted(c)
    ensures DistinctKeys(c) && Sorted(Remove(c, k))
    ensures forall j :: Common.Get(Remove(c, k), j) == if j == k then None else Common.Get(c, j)
    ensures k in KeysOf(c) ==> |Remove(c, k)| == |c| - 1
    ensures k !in KeysOf(c) ==> Remove(c, k) == c
  {
    SortedDistinct(c);
    forall j ensures Common.Get(Remove(c, k), j) == if j == k then None else Common.Get(c, j) {
      RemoveSpec(c, k, j);
    }
    RemoveCount(c, k);
    SortedRemove(c, k);
  }

  /** `new BinarySearchST(capacity)`: a negative capacity cannot be allocated. */
  method NewBinarySearchST<V>(capacity: int) returns (r: Result<BinarySearchST<V>>)
    ensures capacity < 0 ==> r == Err(NegativeArraySize)
    ensures capacity >= 0 ==>
      r.Ok? && fresh(r.value) && r.value.Valid() && r.value.contents == [] && r.value.keys.Length == capacity
  {
    if capacity < 0 {
      return Err(NegativeArraySize);
    }
    var st := new BinarySearchST<V>(capacity);
    return Ok(st);
  }
}
