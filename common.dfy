/** Shared vocabulary of the symbol tables: Java's null as `Option`, the
    exceptions the tables throw, keys, stored pairs, and the abstract
    operations on the sequence of pairs a table holds. */
module Common {

  /** A value or Java's `null`. */
  datatype Option<+T> = None | Some(value: T)

  /** The unchecked exceptions the symbol tables throw. */
  datatype Error =
    | IllegalArgument    // IllegalArgumentException
    | NullPointer        // NullPointerException (a dereference of null, or Objects.requireNonNull)
    | NoSuchElement      // NoSuchElementException
    | IndexOutOfBounds   // IndexOutOfBoundsException / ArrayIndexOutOfBoundsException
    | NegativeArraySize  // NegativeArraySizeException
    | InitialState       // SymbolTableInitialException

  /** A result or the exception that the Java code throws instead. */
  datatype Result<+T> = Ok(value: T) | Err(error: Error) {
    predicate IsFailure() { Err? }
    function PropagateFailure<U>(): Result<U> requires Err? { Err(error) }
    function Extract(): T requires Ok? { value }
  }

  /** A `void` operation that returns normally or throws. */
  datatype Outcome = Pass | Fail(error: Error)

  /** Keys: one total order, in which `compareTo`, `equals` and `hashCode` agree. */
  type Key = int

  /** A stored key together with its (possibly null) value. */
  datatype Entry<+V> = Entry(key: Key, value: Option<V>)

  /** The keys of a sequence of pairs, in order. */
  function KeysOf<V>(s: seq<Entry<V>>): (ks: seq<Key>)
    ensures |ks| == |s|
    ensures forall i :: 0 <= i < |s| ==> ks[i] == s[i].key
  {
    if s == [] then [] else [s[0].key] + KeysOf(s[1..])
  }

  /** Strictly ascending keys: the order of every ordered table. */
  predicate Sorted<V>(s: seq<Entry<V>>) {
    forall i, j :: 0 <= i < j < |s| ==> s[i].key < s[j].key
  }

  /** No key occurs twice: the invariant of every table. */
  predicate DistinctKeys<V>(s: seq<Entry<V>>) {
    forall i, j :: 0 <= i < j < |s| ==> s[i].key != s[j].key
  }

  /** What `get` answers: the value stored under the first occurrence of
      `k`, or null when `k` is absent (a stored null also reads as null). */
  function Get<V>(s: seq<Entry<V>>, k: Key): (r: Option<V>)
    ensures k !in KeysOf(s) ==> r == None
    ensures r.Some? ==> Entry(k, r) in s
  {
    if s == [] then None
    else if s[0].key == k then s[0].value
    else Get(s[1..], k)
  }

  /** The pairs whose key is below `k`, in order. */
  function Below<V>(s: seq<Entry<V>>, k: Key): seq<Entry<V>>
  {
    if s == [] then []
    else if s[0].key < k then [s[0]] + Below(s[1..], k)
    else Below(s[1..], k)
  }

  /** The pairs whose key is above `k`, in order. */
  function Above<V>(s: seq<Entry<V>>, k: Key): seq<Entry<V>>
  {
    if s == [] then []
    else if s[0].key > k then [s[0]] + Above(s[1..], k)
    else Above(s[1..], k)
  }

  /** The pairs whose key is not `k`, in order: the table after `delete(k)`. */
  function Remove<V>(s: seq<Entry<V>>, k: Key): seq<Entry<V>>
  {
    if s == [] then []
    else if s[0].key != k then [s[0]] + Remove(s[1..], k)
    else Remove(s[1..], k)
  }

  /** An ordered table after `put(e.key, e.value)`: the pair takes the place
      of the old pair with that key, or its place in key order. */
  function Insert<V>(s: seq<Entry<V>>, e: Entry<V>): seq<Entry<V>> {
    Below(s, e.key) + [e] + Above(s, e.key)
  }

  /** The number of keys below `k`: what `rank(k)` answers. */
  function CountBelow<V>(s: seq<Entry<V>>, k: Key): nat {
    |Below(s, k)|
  }

  // ---------------------------------------------------------------------
  // Lemmas about the operations on pair sequences.

  lemma {:induction false} KeysOfAppend<V>(a: seq<Entry<V>>, b: seq<Entry<V>>)
    ensures KeysOf(a + b) == KeysOf(a) + KeysOf(b)
  {
    if a == [] {
      assert a + b == b;
    } else {
      assert (a + b)[0] == a[0] && (a + b)[1..] == a[1..] + b;
      KeysOfAppend(a[1..], b);
    }
  }

  lemma {:induction false} InKeysOf<V>(s: seq<Entry<V>>, k: Key)
    ensures k in KeysOf(s) <==> exists e :: e in s && e.key == k
  {
    if s != [] {
      InKeysOf(s[1..], k);
      assert forall e :: e in s <==> e == s[0] || e in s[1..];
    }
  }

  lemma {:induction false} GetAppend<V>(a: seq<Entry<V>>, b: seq<Entry<V>>, k: Key)
    ensures Get(a + b, k) == if k in KeysOf(a) then Get(a, k) else Get(b, k)
  {
    if a == [] {
      assert a + b == b;
    } else {
      assert (a + b)[0] == a[0] && (a + b)[1..] == a[1..] + b;
      assert KeysOf(a) == [a[0].key] + KeysOf(a[1..]);
      GetAppend(a[1..], b, k);
    }
  }

  lemma {:induction false} BelowAppend<V>(a: seq<Entry<V>>, b: seq<Entry<V>>, k: Key)
    ensures Below(a + b, k) == Below(a, k) + Below(b, k)
  {
    if a == [] {
      assert a + b == b;
    } else {
      assert (a + b)[0] == a[0] && (a + b)[1..] == a[1..] + b;
      BelowAppend(a[1..], b, k);
    }
  }

  lemma {:induction false} AboveAppend<V>(a: seq<Entry<V>>, b: seq<Entry<V>>, k: Key)
    ensures Above(a + b, k) == Above(a, k) + Above(b, k)
  {
    if a == [] {
      assert a + b == b;
    } else {
      assert (a + b)[0] == a[0] && (a + b)[1..] == a[1..] + b;
      AboveAppend(a[1..], b, k);
    }
  }

  lemma {:induction false} RemoveAppend<V>(a: seq<Entry<V>>, b: seq<Entry<V>>, k: Key)
    ensures Remove(a + b, k) == Remove(a, k) + Remove(b, k)
  {
    if a == [] {
      assert a + b == b;
    } else {
      assert (a + b)[0] == a[0] && (a + b)[1..] == a[1..] + b;
      RemoveAppend(a[1..], b, k);
    }
  }

  /** Filtering out keys that do not occur changes nothing. */
  lemma {:induction false} RemoveAbsent<V>(s: seq<Entry<V>>, k: Key)
    requires k !in KeysOf(s)
    ensures Remove(s, k) == s
  {
    if s != [] {
      assert k !in KeysOf(s[1..]);
      RemoveAbsent(s[1..], k);
    }
  }

  lemma {:induction false} BelowAll<V>(s: seq<Entry<V>>, k: Key)
    requires forall i :: 0 <= i < |s| ==> s[i].key < k
    ensures Below(s, k) == s
  {
    if s != [] { BelowAll(s[1..], k); }
  }

  lemma {:induction false} BelowNone<V>(s: seq<Entry<V>>, k: Key)
    requires forall i :: 0 <= i < |s| ==> s[i].key >= k
    ensures Below(s, k) == []
  {
    if s != [] { BelowNone(s[1..], k); }
  }

  lemma {:induction false} AboveAll<V>(s: seq<Entry<V>>, k: Key)
    requires forall i :: 0 <= i < |s| ==> s[i].key > k
    ensures Above(s, k) == s
  {
    if s != [] { AboveAll(s[1..], k); }
  }

  lemma {:induction false} AboveNone<V>(s: seq<Entry<V>>, k: Key)
    requires forall i :: 0 <= i < |s| ==> s[i].key <= k
    ensures Above(s, k) == []
  {
    if s != [] { AboveNone(s[1..], k); }
  }

  /** Sorted sequences split at any position into a lower and an upper part. */
  lemma SortedSplit<V>(a: seq<Entry<V>>, b: seq<Entry<V>>)
    requires Sorted(a + b)
    ensures Sorted(a) && Sorted(b)
    ensures forall i, j :: 0 <= i < |a| && 0 <= j < |b| ==> a[i].key < b[j].key
  {
    assert forall i :: 0 <= i < |a| ==> (a + b)[i] == a[i];
    assert forall j :: 0 <= j < |b| ==> (a + b)[|a| + j] == b[j];
  }

  /** A cut point `r` of a key-ascending sequence at `k` (everything before `r`
      below `k`, everything from `r` on at least `k`) fixes `Below` and `Above`. */
  lemma {:induction false} SortedCut<V>(s: seq<Entry<V>>, r: int, k: Key)
    requires 0 <= r <= |s|
    requires forall i :: 0 <= i < r ==> s[i].key < k
    requires forall i :: r <= i < |s| ==> s[i].key >= k
    requires forall i :: r < i < |s| ==> s[i].key > k
    ensures Below(s, k) == s[..r]
    ensures Above(s, k) == if r < |s| && s[r].key == k then s[r + 1..] else s[r..]
  {
    if r == 0 {
      BelowNone(s, k);
      if s != [] && s[0].key == k {
        AboveAll(s[1..], k);
      } else {
        AboveAll(s, k);
      }
    } else {
      var t := s[1..];
      assert forall i :: 0 <= i < |t| ==> t[i] == s[i + 1];
      SortedCut(t, r - 1, k);
      assert s[..r] == [s[0]] + t[..r - 1];
      assert s[r..] == t[r - 1..];
    }
  }

  /** In a sorted sequence, `Below` and `Above` of any key cover everything but that key. */
  lemma {:induction false} SortedBelowAbove<V>(s: seq<Entry<V>>, k: Key)
    requires Sorted(s)
    ensures Below(s, k) + Above(s, k) == Remove(s, k)
  {
    if s != [] {
      SortedBelowAbove(s[1..], k);
      if s[0].key >= k {
        BelowNone(s[1..], k);
      }
    }
  }

  lemma {:induction false} BelowMembers<V>(s: seq<Entry<V>>, k: Key)
    ensures forall e :: e in Below(s, k) <==> e in s && e.key < k
  {
    if s != [] { BelowMembers(s[1..], k); }
  }

  lemma {:induction false} AboveMembers<V>(s: seq<Entry<V>>, k: Key)
    ensures forall e :: e in Above(s, k) <==> e in s && e.key > k
  {
    if s != [] { AboveMembers(s[1..], k); }
  }

  lemma {:induction false} RemoveMembers<V>(s: seq<Entry<V>>, k: Key)
    ensures forall e :: e in Remove(s, k) <==> e in s && e.key != k
  {
    if s != [] { RemoveMembers(s[1..], k); }
  }

  /** Every key of `s` is above `m`. */
  predicate KeysAbove<V>(s: seq<Entry<V>>, m: Key) {
    forall i :: 0 <= i < |s| ==> s[i].key > m
  }

  /** Every key of `s` is below `m`. */
  predicate KeysBelow<V>(s: seq<Entry<V>>, m: Key) {
    forall i :: 0 <= i < |s| ==> s[i].key < m
  }

  lemma {:induction false} FilterKeysAbove<V>(s: seq<Entry<V>>, k: Key, m: Key)
    requires KeysAbove(s, m)
    ensures KeysAbove(Below(s, k), m) && KeysAbove(Above(s, k), m) && KeysAbove(Remove(s, k), m)
  {
    if s != [] { FilterKeysAbove(s[1..], k, m); }
  }

  lemma {:induction false} FilterKeysBelow<V>(s: seq<Entry<V>>, k: Key, m: Key)
    requires KeysBelow(s, m)
    ensures KeysBelow(Below(s, k), m) && KeysBelow(Above(s, k), m) && KeysBelow(Remove(s, k), m)
  {
    if s != [] { FilterKeysBelow(s[1..], k, m); }
  }

  lemma {:induction false} BelowKeys<V>(s: seq<Entry<V>>, k: Key)
    ensures KeysBelow(Below(s, k), k)
  {
    if s != [] { BelowKeys(s[1..], k); }
  }

  lemma {:induction false} AboveKeys<V>(s: seq<Entry<V>>, k: Key)
    ensures KeysAbove(Above(s, k), k)
  {
    if s != [] { AboveKeys(s[1..], k); }
  }

  /** A key below all keys of a sorted sequence can go in front of it. */
  lemma SortedCons<V>(x: Entry<V>, t: seq<Entry<V>>)
    requires Sorted(t) && KeysAbove(t, x.key)
    ensures Sorted([x] + t)
  {
    forall i, j | 0 <= i < j < |[x] + t| ensures ([x] + t)[i].key < ([x] + t)[j].key {
      assert ([x] + t)[j] == t[j - 1];
      if i > 0 { assert ([x] + t)[i] == t[i - 1]; }
    }
  }

  /** Two sorted sequences, all keys of the first below all of the second, join sorted. */
  lemma SortedConcat<V>(a: seq<Entry<V>>, b: seq<Entry<V>>)
    requires Sorted(a) && Sorted(b)
    requires forall i, j :: 0 <= i < |a| && 0 <= j < |b| ==> a[i].key < b[j].key
    ensures Sorted(a + b)
  {
    forall i, j | 0 <= i < j < |a + b| ensures (a + b)[i].key < (a + b)[j].key {
      if j < |a| {
        assert (a + b)[i] == a[i] && (a + b)[j] == a[j];
      } else if i >= |a| {
        assert (a + b)[i] == b[i - |a|] && (a + b)[j] == b[j - |a|];
      } else {
        assert (a + b)[i] == a[i] && (a + b)[j] == b[j - |a|];
      }
    }
  }

  lemma {:induction false} SortedBelow<V>(s: seq<Entry<V>>, k: Key)
    requires Sorted(s)
    ensures Sorted(Below(s, k))
  {
    if s != [] {
      SortedBelow(s[1..], k);
      FilterKeysAbove(s[1..], k, s[0].key);
      if s[0].key < k { SortedCons(s[0], Below(s[1..], k)); }
    }
  }

  lemma {:induction false} SortedAbove<V>(s: seq<Entry<V>>, k: Key)
    requires Sorted(s)
    ensures Sorted(Above(s, k))
  {
    if s != [] {
      SortedAbove(s[1..], k);
      FilterKeysAbove(s[1..], k, s[0].key);
      if s[0].key > k { SortedCons(s[0], Above(s[1..], k)); }
    }
  }

  lemma {:induction false} SortedRemove<V>(s: seq<Entry<V>>, k: Key)
    requires Sorted(s)
    ensures Sorted(Remove(s, k))
  {
    if s != [] {
      SortedRemove(s[1..], k);
      FilterKeysAbove(s[1..], k, s[0].key);
      if s[0].key != k { SortedCons(s[0], Remove(s[1..], k)); }
    }
  }

  /** `put` on an ordered table keeps it ordered and answers the new value
      for its key and the old answer for every other key. */
  lemma InsertSpec<V>(s: seq<Entry<V>>, e: Entry<V>, k: Key)
    requires Sorted(s)
    ensures Sorted(Insert(s, e))
    ensures Get(Insert(s, e), k) == if k == e.key then e.value else Get(s, k)
  {
    var lo, hi := Below(s, e.key), Above(s, e.key);
    SortedBelow(s, e.key);
    SortedAbove(s, e.key);
    BelowKeys(s, e.key);
    AboveKeys(s, e.key);
    SortedCons(e, hi);
    SortedConcat(lo, [e] + hi);
    assert lo + [e] + hi == lo + ([e] + hi);
    GetAppend(lo, [e] + hi, k);
    GetAppend([e], hi, k);
    if k != e.key {
      SortedBelowAbove(s, e.key);
      RemoveKeepsGet(s, e.key, k);
      GetAppend(lo, hi, k);
    } else {
      assert k !in KeysOf(lo);
    }
  }

  /** Removing one key leaves the answers for all other keys alone. */
  lemma {:induction false} RemoveKeepsGet<V>(s: seq<Entry<V>>, k: Key, j: Key)
    requires j != k
    ensures Get(Remove(s, k), j) == Get(s, j)
  {
    if s != [] { RemoveKeepsGet(s[1..], k, j); }
  }

  /** `delete` on a table answers null for the deleted key and the old
      answer for every other key. */
  lemma RemoveSpec<V>(s: seq<Entry<V>>, k: Key, j: Key)
    ensures Get(Remove(s, k), j) == if j == k then None else Get(s, j)
    ensures k !in KeysOf(Remove(s, k))
  {
    InKeysOf(Remove(s, k), k);
    if j != k { RemoveKeepsGet(s, k, j); }
  }

  /** In a table with distinct keys, `Get` finds the value of any stored pair. */
  lemma {:induction false} GetDistinct<V>(s: seq<Entry<V>>, i: int)
    requires DistinctKeys(s) && 0 <= i < |s|
    ensures Get(s, s[i].key) == s[i].value
  {
    if i > 0 { GetDistinct(s[1..], i - 1); }
  }

  lemma SortedDistinct<V>(s: seq<Entry<V>>)
    requires Sorted(s)
    ensures DistinctKeys(s)
  {
  }

  /** A key among keys that are all above `m` is above `m`. */
  lemma KeysAboveIn<V>(s: seq<Entry<V>>, m: Key, k: Key)
    requires KeysAbove(s, m)
    ensures k in KeysOf(s) ==> k > m
  {
  }

  lemma KeysBelowIn<V>(s: seq<Entry<V>>, m: Key, k: Key)
    requires KeysBelow(s, m)
    ensures k in KeysOf(s) ==> k < m
  {
  }

  lemma KeysOfPrefix<V>(a: seq<Entry<V>>, b: seq<Entry<V>>, k: Key)
    requires a <= b && k in KeysOf(a)
    ensures k in KeysOf(b)
  {
    var i :| 0 <= i < |a| && KeysOf(a)[i] == k;
    assert KeysOf(b)[i] == k;
  }

  /** In the pairs of a search-tree node, a key is found on the side of
      the node's key it belongs to. */
  lemma KeysAround<V>(l: seq<Entry<V>>, x: Entry<V>, r: seq<Entry<V>>, k: Key)
    requires KeysBelow(l, x.key) && KeysAbove(r, x.key) && k in KeysOf(l + [x] + r)
    ensures k < x.key ==> k in KeysOf(l)
    ensures k > x.key ==> k in KeysOf(r)
  {
    KeysOfAppend(l + [x], r);
    KeysOfAppend(l, [x]);
    assert KeysOf([x]) == [x.key];
    KeysAboveIn(r, x.key, k);
    KeysBelowIn(l, x.key, k);
  }

  /** Removing a key from the pairs of a search-tree node removes it from
      the side it belongs to, or removes the node's own pair. */
  lemma RemoveAround<V>(l: seq<Entry<V>>, x: Entry<V>, r: seq<Entry<V>>, k: Key)
    requires KeysBelow(l, x.key) && KeysAbove(r, x.key)
    ensures k < x.key ==> Remove(l + [x] + r, k) == Remove(l, k) + [x] + r
    ensures k > x.key ==> Remove(l + [x] + r, k) == l + [x] + Remove(r, k)
    ensures k == x.key ==> Remove(l + [x] + r, k) == l + r
  {
    RemoveAppend(l + [x], r, k);
    RemoveAppend(l, [x], k);
    if k < x.key {
      assert Remove([x], k) == [x];
      KeysAboveIn(r, x.key, k);
      RemoveAbsent(r, k);
    } else if k > x.key {
      assert Remove([x], k) == [x];
      KeysBelowIn(l, x.key, k);
      RemoveAbsent(l, k);
    } else {
      assert Remove([x], k) == [];
      KeysAboveIn(r, x.key, k);
      RemoveAbsent(r, k);
      KeysBelowIn(l, x.key, k);
      RemoveAbsent(l, k);
      assert Remove(l + [x], k) == l;
    }
  }

  /** Dropping the first element of `l + [x] + r` drops it from `l`. */
  lemma DropFirst<T>(l: seq<T>, x: T, r: seq<T>)
    requires l != []
    ensures (l + [x] + r)[1..] == l[1..] + [x] + r
  {
  }

  /** Dropping the last element of `l + [x] + r` drops it from `r`. */
  lemma DropLast<T>(l: seq<T>, x: T, r: seq<T>)
    requires r != []
    ensures (l + [x] + r)[..|l + [x] + r| - 1] == l + [x] + r[..|r| - 1]
  {
  }

  /** Putting back the first element of the right part where the middle one was. */
  lemma ShiftFirst<T>(l: seq<T>, x: T, r: seq<T>)
    requires r != [] && x == r[0]
    ensures l + [x] + r[1..] == l + r
  {
    assert r == [x] + r[1..];
  }

  /** Extending a slice by the element after it. */
  lemma SliceSnoc<T>(s: seq<T>, a: int, b: int)
    requires 0 <= a <= b < |s|
    ensures s[a..b + 1] == s[a..b] + [s[b]]
  {
  }

  /** The keys of a slice that grows by one pair. */
  lemma KeysSnoc<V>(s: seq<Entry<V>>, a: int, b: int)
    requires 0 <= a <= b < |s|
    ensures KeysOf(s[a..b + 1]) == KeysOf(s[a..b]) + [s[b].key]
  {
    SliceSnoc(s, a, b);
    KeysOfAppend(s[a..b], [s[b]]);
  }

  /** The positions of `s` after `x` is put in at `i`. */
  lemma InsertedAt<T>(s: seq<T>, i: int, x: T)
    requires 0 <= i <= |s|
    ensures |s[..i] + [x] + s[i..]| == |s| + 1
    ensures forall p :: 0 <= p < i ==> (s[..i] + [x] + s[i..])[p] == s[p]
    ensures (s[..i] + [x] + s[i..])[i] == x
    ensures forall p :: i < p <= |s| ==> (s[..i] + [x] + s[i..])[p] == s[p - 1]
  {
  }

  /** The positions of `s` after the element at `i` is taken out. */
  lemma RemovedAt<T>(s: seq<T>, i: int)
    requires 0 <= i < |s|
    ensures |s[..i] + s[i + 1..]| == |s| - 1
    ensures forall p :: 0 <= p < i ==> (s[..i] + s[i + 1..])[p] == s[p]
    ensures forall p :: i < p < |s| ==> (s[..i] + s[i + 1..])[p - 1] == s[p]
  {
  }

  /** Removing a key of a table with distinct keys drops exactly one pair;
      removing an absent key drops none. */
  lemma {:induction false} RemoveCount<V>(s: seq<Entry<V>>, k: Key)
    requires DistinctKeys(s)
    ensures k in KeysOf(s) ==> |Remove(s, k)| == |s| - 1
    ensures k !in KeysOf(s) ==> Remove(s, k) == s
  {
    if s == [] {
    } else {
      assert KeysOf(s) == [s[0].key] + KeysOf(s[1..]);
      if s[0].key == k {
        assert k !in KeysOf(s[1..]);
        RemoveAbsent(s[1..], k);
      } else {
        RemoveCount(s[1..], k);
      }
    }
  }

  /** `put` on an ordered table keeps the size for a present key and adds one for a new key. */
  lemma InsertCount<V>(s: seq<Entry<V>>, e: Entry<V>)
    requires Sorted(s)
    ensures |Insert(s, e)| == if e.key in KeysOf(s) then |s| else |s| + 1
  {
    SortedBelowAbove(s, e.key);
    RemoveCount(s, e.key);
  }

  /** `Insert` into a node's pairs happens in the part its key belongs to. */
  lemma InsertAround<V>(l: seq<Entry<V>>, x: Entry<V>, r: seq<Entry<V>>, e: Entry<V>)
    requires KeysBelow(l, x.key) && KeysAbove(r, x.key)
    ensures e.key < x.key ==> Insert(l + [x] + r, e) == Insert(l, e) + [x] + r
    ensures e.key > x.key ==> Insert(l + [x] + r, e) == l + [x] + Insert(r, e)
    ensures e.key == x.key ==> Insert(l + [x] + r, e) == l + [e] + r
  {
    var k := e.key;
    BelowAppend(l + [x], r, k);
    BelowAppend(l, [x], k);
    AboveAppend(l + [x], r, k);
    AboveAppend(l, [x], k);
    if k < x.key {
      InsertLeft(l, x, r, e);
    } else if k > x.key {
      InsertRight(l, x, r, e);
    } else {
      BelowAll(l, k);
      AboveNone(l, k);
      BelowNone(r, k);
      AboveAll(r, k);
    }
  }

  lemma InsertLeft<V>(l: seq<Entry<V>>, x: Entry<V>, r: seq<Entry<V>>, e: Entry<V>)
    requires KeysAbove(r, x.key) && e.key < x.key
    requires Below(l + [x] + r, e.key) == Below(l, e.key) + Below([x], e.key) + Below(r, e.key)
    requires Above(l + [x] + r, e.key) == Above(l, e.key) + Above([x], e.key) + Above(r, e.key)
    ensures Insert(l + [x] + r, e) == Insert(l, e) + [x] + r
  {
    BelowNone(r, e.key);
    AboveAll(r, e.key);
    assert Below([x], e.key) == [];
    assert Above([x], e.key) == [x];
  }

  lemma InsertRight<V>(l: seq<Entry<V>>, x: Entry<V>, r: seq<Entry<V>>, e: Entry<V>)
    requires KeysBelow(l, x.key) && e.key > x.key
    requires Below(l + [x] + r, e.key) == Below(l, e.key) + Below([x], e.key) + Below(r, e.key)
    requires Above(l + [x] + r, e.key) == Above(l, e.key) + Above([x], e.key) + Above(r, e.key)
    ensures Insert(l + [x] + r, e) == l + [x] + Insert(r, e)
  {
    var k := e.key;
    var lo, hi := Below(r, k), Above(r, k);
    assert Below(l + [x] + r, k) == l + [x] + lo by {
      BelowAll(l, k);
      assert Below([x], k) == [x];
    }
    assert Above(l + [x] + r, k) == hi by {
      AboveNone(l, k);
      assert Above([x], k) == [];
    }
    calc {
      Insert(l + [x] + r, e);
      Below(l + [x] + r, k) + [e] + Above(l + [x] + r, k);
      (l + [x] + lo) + [e] + hi;
      { assert (l + [x] + lo) + [e] + hi == l + [x] + (lo + [e] + hi); }
      l + [x] + (lo + [e] + hi);
      l + [x] + Insert(r, e);
    }
  }

  // ---------------------------------------------------------------------
  // Tables with distinct keys in insertion order (the unordered tables).

  /** A pair whose key is new can go in front of a table with distinct keys. */
  lemma DistinctCons<V>(x: Entry<V>, t: seq<Entry<V>>)
    requires DistinctKeys(t) && x.key !in KeysOf(t)
    ensures DistinctKeys([x] + t)
  {
    forall i, j | 0 <= i < j < |[x] + t| ensures ([x] + t)[i].key != ([x] + t)[j].key {
      assert ([x] + t)[j] == t[j - 1];
      if i > 0 {
        assert ([x] + t)[i] == t[i - 1];
      } else {
        assert KeysOf(t)[j - 1] == t[j - 1].key;
      }
    }
  }

  /** A pair whose key is new can go after a table with distinct keys. */
  lemma DistinctSnoc<V>(t: seq<Entry<V>>, x: Entry<V>)
    requires DistinctKeys(t) && x.key !in KeysOf(t)
    ensures DistinctKeys(t + [x])
  {
    forall i, j | 0 <= i < j < |t + [x]| ensures (t + [x])[i].key != (t + [x])[j].key {
      assert (t + [x])[i] == t[i];
      if j < |t| {
        assert (t + [x])[j] == t[j];
      } else {
        assert KeysOf(t)[i] == t[i].key;
      }
    }
  }

  lemma GetCons<V>(x: Entry<V>, t: seq<Entry<V>>, k: Key)
    ensures Get([x] + t, k) == if k == x.key then x.value else Get(t, k)
  {
    assert ([x] + t)[0] == x && ([x] + t)[1..] == t;
  }

  /** A pair appended after the last one answers only for a key that is new. */
  lemma GetSnoc<V>(t: seq<Entry<V>>, x: Entry<V>, k: Key)
    requires x.key !in KeysOf(t)
    ensures Get(t + [x], k) == if k == x.key then x.value else Get(t, k)
  {
    GetAppend(t, [x], k);
    assert Get([x], k) == if k == x.key then x.value else None;
  }

  /** Overwriting the value of the `i`-th pair of a table with distinct keys
      changes the answer for its key only, and no key. */
  lemma {:induction false} GetReplace<V>(s: seq<Entry<V>>, i: int, v: Option<V>, j: Key)
    requires DistinctKeys(s) && 0 <= i < |s|
    ensures Get(s[i := Entry(s[i].key, v)], j) == if j == s[i].key then v else Get(s, j)
  {
    var e := Entry(s[i].key, v);
    var u := s[i := e];
    if i == 0 {
      assert u[0] == e && u[1..] == s[1..];
    } else {
      var t := s[1..];
      assert u[0] == s[0] && u[1..] == t[i - 1 := e];
      assert t[i - 1] == s[i] && s[0].key != s[i].key;
      assert DistinctKeys(t) by {
        forall a, b | 0 <= a < b < |t| ensures t[a].key != t[b].key {
          assert t[a] == s[a + 1] && t[b] == s[b + 1];
        }
      }
      GetReplace(t, i - 1, v, j);
    }
  }

  /** Overwriting values keeps the keys. */
  lemma ReplaceKeys<V>(s: seq<Entry<V>>, i: int, v: Option<V>)
    requires 0 <= i < |s|
    ensures KeysOf(s[i := Entry(s[i].key, v)]) == KeysOf(s)
  {
  }

  /** Removing the key of the `i`-th pair of a table with distinct keys cuts out exactly that pair. */
  lemma {:induction false} RemoveAt<V>(s: seq<Entry<V>>, i: int)
    requires DistinctKeys(s) && 0 <= i < |s|
    ensures Remove(s, s[i].key) == s[..i] + s[i + 1..]
  {
    var k := s[i].key;
    if i == 0 {
      assert k !in KeysOf(s[1..]);
      RemoveAbsent(s[1..], k);
    } else {
      var t := s[1..];
      assert t[i - 1] == s[i];
      RemoveAt(t, i - 1);
      assert s[..i] == [s[0]] + t[..i - 1];
      assert s[i + 1..] == t[i..];
    }
  }

  /** Removing a key keeps the others distinct. */
  lemma {:induction false} RemoveDistinct<V>(s: seq<Entry<V>>, k: Key)
    requires DistinctKeys(s)
    ensures DistinctKeys(Remove(s, k))
  {
    if s != [] {
      RemoveDistinct(s[1..], k);
      if s[0].key != k {
        RemoveMembers(s[1..], k);
        InKeysOf(Remove(s[1..], k), s[0].key);
        InKeysOf(s[1..], s[0].key);
        assert s[0].key !in KeysOf(s[1..]);
        assert s[0].key !in KeysOf(Remove(s[1..], k));
        DistinctCons(s[0], Remove(s[1..], k));
      }
    }
  }

  // ---------------------------------------------------------------------
  // Ordered tables: ranges, rank, floor and ceiling.

  /** The pairs whose key lies in [lo, hi], in order: what `keys(lo, hi)` lists. */
  function Between<V>(s: seq<Entry<V>>, lo: Key, hi: Key): seq<Entry<V>>
  {
    if s == [] then []
    else if lo <= s[0].key <= hi then [s[0]] + Between(s[1..], lo, hi)
    else Between(s[1..], lo, hi)
  }

  lemma {:induction false} BetweenAppend<V>(a: seq<Entry<V>>, b: seq<Entry<V>>, lo: Key, hi: Key)
    ensures Between(a + b, lo, hi) == Between(a, lo, hi) + Between(b, lo, hi)
  {
    if a == [] {
      assert a + b == b;
    } else {
      assert (a + b)[0] == a[0] && (a + b)[1..] == a[1..] + b;
      BetweenAppend(a[1..], b, lo, hi);
    }
  }

  lemma {:induction false} BetweenAll<V>(s: seq<Entry<V>>, lo: Key, hi: Key)
    requires forall i :: 0 <= i < |s| ==> lo <= s[i].key <= hi
    ensures Between(s, lo, hi) == s
  {
    if s != [] { BetweenAll(s[1..], lo, hi); }
  }

  /** A sorted table lies entirely between its least and its greatest key:
      `keys(min(), max())` lists every key. */
  lemma BetweenBounds<V>(s: seq<Entry<V>>)
    requires Sorted(s) && s != []
    ensures Between(s, s[0].key, s[|s| - 1].key) == s
  {
    BetweenAll(s, s[0].key, s[|s| - 1].key);
  }

  /** An empty range holds no pair. */
  lemma {:induction false} BetweenEmpty<V>(s: seq<Entry<V>>, lo: Key, hi: Key)
    requires hi < lo
    ensures Between(s, lo, hi) == []
  {
    if s != [] { BetweenEmpty(s[1..], lo, hi); }
  }

  /** In a sorted table the range [lo, hi] holds rank(hi) - rank(lo) pairs,
      and one more when `hi` is a key. */
  lemma {:induction false} BetweenCount<V>(s: seq<Entry<V>>, lo: Key, hi: Key)
    requires Sorted(s) && lo <= hi
    ensures |Between(s, lo, hi)| == CountBelow(s, hi) - CountBelow(s, lo) + if hi in KeysOf(s) then 1 else 0
  {
    if s != [] {
      var t := s[1..];
      assert KeysOf(s) == [s[0].key] + KeysOf(t);
      BetweenCount(t, lo, hi);
      if s[0].key == hi {
        KeysAboveIn(t, hi, hi);
      }
    }
  }

  /** A rank never exceeds the size. */
  lemma {:induction false} CountBelowBound<V>(s: seq<Entry<V>>, k: Key)
    ensures 0 <= CountBelow(s, k) <= |s|
  {
    if s != [] { CountBelowBound(s[1..], k); }
  }

  /** In a sorted table the rank of the `i`-th key is `i`. */
  lemma SortedRank<V>(s: seq<Entry<V>>, i: int)
    requires Sorted(s) && 0 <= i < |s|
    ensures CountBelow(s, s[i].key) == i
  {
    SortedCut(s, i, s[i].key);
  }

  /** `f` is the greatest key of `s` that is at most `k`, or null when there is none. */
  ghost predicate IsFloor<V>(s: seq<Entry<V>>, k: Key, f: Option<Key>) {
    (f.None? <==> forall e :: e in s ==> e.key > k) &&
    (f.Some? ==>
       f.value in KeysOf(s) && f.value <= k &&
       forall e :: e in s && e.key <= k ==> e.key <= f.value)
  }

  /** `c` is the least key of `s` that is at least `k`, or null when there is none. */
  ghost predicate IsCeiling<V>(s: seq<Entry<V>>, k: Key, c: Option<Key>) {
    (c.None? <==> forall e :: e in s ==> e.key < k) &&
    (c.Some? ==>
       c.value in KeysOf(s) && c.value >= k &&
       forall e :: e in s && e.key >= k ==> e.key >= c.value)
  }

  /** The pairs of a search-tree node: all of `l` below `x`, all of `r` above. */
  lemma NodeOrder<V>(l: seq<Entry<V>>, x: Entry<V>, r: seq<Entry<V>>)
    requires Sorted(l + [x] + r)
    ensures Sorted(l) && Sorted(r)
    ensures forall e :: e in l ==> e.key < x.key
    ensures forall e :: e in r ==> e.key > x.key
    ensures KeysOf(l + [x] + r) == KeysOf(l) + [x.key] + KeysOf(r)
  {
    assert l + [x] + r == l + ([x] + r);
    SortedSplit(l, [x] + r);
    assert ([x] + r)[0] == x;
    SortedSplit([x], r);
    KeysOfAppend(l + [x], r);
    KeysOfAppend(l, [x]);
    assert KeysOf([x]) == [x.key];
  }

  /** A node whose key is `k` is its own floor and ceiling. */
  lemma AroundHere<V>(l: seq<Entry<V>>, x: Entry<V>, r: seq<Entry<V>>)
    requires Sorted(l + [x] + r)
    ensures IsFloor(l + [x] + r, x.key, Some(x.key))
    ensures IsCeiling(l + [x] + r, x.key, Some(x.key))
  {
    NodeOrder(l, x, r);
  }

  /** When the node's key is above `k`, the floor lies on the left. */
  lemma FloorLeft<V>(l: seq<Entry<V>>, x: Entry<V>, r: seq<Entry<V>>, k: Key, f: Option<Key>)
    requires Sorted(l + [x] + r) && x.key > k && IsFloor(l, k, f)
    ensures IsFloor(l + [x] + r, k, f)
  {
    NodeOrder(l, x, r);
  }

  /** When the node's key is below `k`, the floor is the right side's, or the node's own. */
  lemma FloorRight<V>(l: seq<Entry<V>>, x: Entry<V>, r: seq<Entry<V>>, k: Key, f: Option<Key>)
    requires Sorted(l + [x] + r) && x.key < k && IsFloor(r, k, f)
    ensures IsFloor(l + [x] + r, k, if f.None? then Some(x.key) else f)
  {
    NodeOrder(l, x, r);
  }

  /** When the node's key is below `k`, the ceiling lies on the right. */
  lemma CeilingRight<V>(l: seq<Entry<V>>, x: Entry<V>, r: seq<Entry<V>>, k: Key, c: Option<Key>)
    requires Sorted(l + [x] + r) && x.key < k && IsCeiling(r, k, c)
    ensures IsCeiling(l + [x] + r, k, c)
  {
    NodeOrder(l, x, r);
  }

  /** When the node's key is above `k`, the ceiling is the left side's, or the node's own. */
  lemma CeilingLeft<V>(l: seq<Entry<V>>, x: Entry<V>, r: seq<Entry<V>>, k: Key, c: Option<Key>)
    requires Sorted(l + [x] + r) && x.key > k && IsCeiling(l, k, c)
    ensures IsCeiling(l + [x] + r, k, if c.None? then Some(x.key) else c)
  {
    NodeOrder(l, x, r);
  }

  /** The floor read off a sorted table at the cut `r` where `rank` stops:
      the key at `r` itself when it is `k`, otherwise the key before `r`. */
  lemma SortedFloorAt<V>(s: seq<Entry<V>>, k: Key, r: int)
    requires Sorted(s) && 0 <= r <= |s|
    requires forall i :: 0 <= i < r ==> s[i].key < k
    requires forall i :: r <= i < |s| ==> s[i].key >= k
    ensures IsFloor(s, k, if r < |s| && s[r].key == k then Some(k) else if r == 0 then None else Some(s[r - 1].key))
  {
    var f := if r < |s| && s[r].key == k then Some(k) else if r == 0 then None else Some(s[r - 1].key);
    forall e | e in s
      ensures e.key <= k ==> f.Some? && e.key <= f.value
      ensures f.None? ==> e.key > k
    {
      var i :| 0 <= i < |s| && s[i] == e;
      if r < |s| && s[r].key == k {
      } else if i >= r {
        assert i > r || s[i].key != k;
      }
    }
    if f.Some? {
      if r < |s| && s[r].key == k {
        assert KeysOf(s)[r] == k;
      } else {
        assert KeysOf(s)[r - 1] == s[r - 1].key;
      }
      assert s[if r < |s| && s[r].key == k then r else r - 1] in s;
    }
  }

  /** The ceiling read off a sorted table at the cut `r` where `rank` stops:
      the key at `r`, or none when `r` is past the end. */
  lemma SortedCeilingAt<V>(s: seq<Entry<V>>, k: Key, r: int)
    requires Sorted(s) && 0 <= r <= |s|
    requires forall i :: 0 <= i < r ==> s[i].key < k
    requires forall i :: r <= i < |s| ==> s[i].key >= k
    ensures IsCeiling(s, k, if r < |s| then Some(s[r].key) else None)
  {
    var c := if r < |s| then Some(s[r].key) else None;
    forall e | e in s
      ensures e.key >= k ==> c.Some? && e.key >= c.value
      ensures c.None? ==> e.key < k
    {
      var i :| 0 <= i < |s| && s[i] == e;
    }
    if r < |s| {
      assert KeysOf(s)[r] == s[r].key;
      assert s[r] in s;
    }
  }

  lemma {:induction false} BetweenNone<V>(s: seq<Entry<V>>, lo: Key, hi: Key)
    requires forall i :: 0 <= i < |s| ==> s[i].key < lo || s[i].key > hi
    ensures Between(s, lo, hi) == []
  {
    if s != [] { BetweenNone(s[1..], lo, hi); }
  }

  /** With the keys below `lo` before `a`, those in [lo, hi] from `a` to `b`
      and those above `hi` from `b` on, the range [lo, hi] is the slice
      from `a` to `b`: what `keys(lo, hi)` copies between two ranks. */
  lemma BetweenCut<V>(s: seq<Entry<V>>, lo: Key, hi: Key, a: int, b: int)
    requires 0 <= a <= b <= |s|
    requires forall i :: 0 <= i < a ==> s[i].key < lo
    requires forall i :: a <= i < b ==> lo <= s[i].key <= hi
    requires forall i :: b <= i < |s| ==> s[i].key > hi
    ensures Between(s, lo, hi) == s[a..b]
  {
    assert s == s[..a] + s[a..b] + s[b..];
    BetweenAppend(s[..a] + s[a..b], s[b..], lo, hi);
    BetweenAppend(s[..a], s[a..b], lo, hi);
    BetweenNone(s[..a], lo, hi);
    BetweenAll(s[a..b], lo, hi);
    BetweenNone(s[b..], lo, hi);
  }

  /** The cut `r` of a sorted table at `k` that binary search stops at is
      the rank of `k`, and `k` is a key exactly when it sits at `r`. */
  lemma RankAt<V>(s: seq<Entry<V>>, k: Key, r: int)
    requires Sorted(s) && 0 <= r <= |s|
    requires forall i :: 0 <= i < r ==> s[i].key < k
    requires forall i :: r <= i < |s| ==> s[i].key >= k
    ensures CountBelow(s, k) == r
    ensures k in KeysOf(s) <==> r < |s| && s[r].key == k
  {
    forall i | r < i < |s| ensures s[i].key > k { assert s[r].key < s[i].key; }
    SortedCut(s, r, k);
    if r < |s| && s[r].key == k {
      assert KeysOf(s)[r] == k;
    }
  }

  /** At the cut `i` of a sorted table at `e.key`, `Insert` overwrites the
      pair at `i` when it holds that key, and otherwise puts `e` in at `i`. */
  lemma InsertAtCut<V>(s: seq<Entry<V>>, i: int, e: Entry<V>)
    requires Sorted(s) && 0 <= i <= |s|
    requires forall j :: 0 <= j < i ==> s[j].key < e.key
    requires forall j :: i <= j < |s| ==> s[j].key >= e.key
    ensures i < |s| && s[i].key == e.key ==> Insert(s, e) == s[i := e]
    ensures !(i < |s| && s[i].key == e.key) ==> Insert(s, e) == s[..i] + [e] + s[i..]
  {
    forall j | i < j < |s| ensures s[j].key > e.key { assert s[i].key < s[j].key; }
    SortedCut(s, i, e.key);
    if i < |s| && s[i].key == e.key {
      assert s[..i] + [e] + s[i + 1..] == s[i := e];
    }
  }

  /** In a sorted table, the range [lo, hi] is the slice from rank(lo) to
      rank(hi), plus the pair at rank(hi) when that pair holds `hi`. */
  lemma BetweenRanks<V>(s: seq<Entry<V>>, lo: Key, hi: Key, a: int, b: int)
    requires Sorted(s) && lo <= hi && 0 <= a <= |s| && 0 <= b <= |s|
    requires forall i :: 0 <= i < a ==> s[i].key < lo
    requires forall i :: a <= i < |s| ==> s[i].key >= lo
    requires forall i :: 0 <= i < b ==> s[i].key < hi
    requires forall i :: b <= i < |s| ==> s[i].key >= hi
    ensures a <= b
    ensures b < |s| && s[b].key == hi ==> Between(s, lo, hi) == s[a..b + 1]
    ensures !(b < |s| && s[b].key == hi) ==> Between(s, lo, hi) == s[a..b]
  {
    if b < |s| && s[b].key == hi {
      BetweenCut(s, lo, hi, a, b + 1);
    } else {
      forall i | b <= i < |s| ensures s[i].key > hi {
        if i > b { assert s[b].key < s[i].key; }
      }
      BetweenCut(s, lo, hi, a, b);
    }
  }

  /** The pairs of an ordered table after `put`: the new pair, and every old
      pair with another key. */
  lemma InsertMembers<V>(s: seq<Entry<V>>, x: Entry<V>)
    ensures forall e :: e in Insert(s, x) <==> e == x || (e in s && e.key != x.key)
  {
    BelowMembers(s, x.key);
    AboveMembers(s, x.key);
  }

  /** Two tables with distinct keys and the same pairs hold the same keys
      and answer `get` alike. */
  lemma SameMembersGet<V>(s: seq<Entry<V>>, t: seq<Entry<V>>, j: Key)
    requires DistinctKeys(s) && DistinctKeys(t)
    requires forall e :: e in s <==> e in t
    ensures j in KeysOf(s) <==> j in KeysOf(t)
    ensures Get(s, j) == Get(t, j)
  {
    InKeysOf(s, j);
    InKeysOf(t, j);
    if j in KeysOf(s) {
      var i :| 0 <= i < |s| && KeysOf(s)[i] == j;
      assert s[i] in t;
      var p :| 0 <= p < |t| && t[p] == s[i];
      GetDistinct(s, i);
      GetDistinct(t, p);
    }
  }

  // ---------------------------------------------------------------------
  // Capacity of the array-backed tables

  /** The capacity `grow` picks, below the `hugeCapacity` clamp: twice 1,
      otherwise half as much again as before, and never less than before. */
  function GrowAsWritten(oldCapacity: nat): nat
  {
    var n := if oldCapacity == 1 then oldCapacity * 2 else oldCapacity + oldCapacity / 2;
    if n - oldCapacity < 0 then oldCapacity else n
  }

  /** From any positive capacity `grow` makes room for one more slot. */
  lemma GrowAsWrittenRoom(oldCapacity: nat)
    requires oldCapacity >= 1
    ensures GrowAsWritten(oldCapacity) >= oldCapacity + 1
  {
  }

  /** From capacity 0, `grow` as written stays at 0: the guard compares the
      new capacity with the old one instead of with the capacity required. */
  lemma GrowAsWrittenStuck()
    ensures GrowAsWritten(0) == 0 && GrowAsWritten(0) < 0 + 1
  {
  }

  /** `grow` with the guard of `ArrayList.grow`: never below `minCapacity`. */
  function Grow(oldCapacity: nat, minCapacity: nat): (n: nat)
    ensures n >= minCapacity && n >= oldCapacity
  {
    var n := if oldCapacity == 1 then oldCapacity * 2 else oldCapacity + oldCapacity / 2;
    if n - minCapacity < 0 then minCapacity else n
  }

  /** For a positive capacity that must make room for one more slot, the
      corrected `grow` and the one as written agree. */
  lemma GrowAgrees(oldCapacity: nat, minCapacity: nat)
    requires oldCapacity >= 1 && minCapacity <= oldCapacity + 1
    ensures Grow(oldCapacity, minCapacity) == GrowAsWritten(oldCapacity)
  {
  }

  /** `Arrays.copyOf` to a length no shorter: the old slots, then `pad` (null). */
  method CopyOf<T>(a: array<T>, n: nat, pad: T) returns (b: array<T>)
    requires n >= a.Length
    ensures fresh(b) && b.Length == n
    ensures forall i :: 0 <= i < a.Length ==> b[i] == a[i]
    ensures forall i :: a.Length <= i < n ==> b[i] == pad
  {
    b := new T[n](_ => pad);
    var i := 0;
    while i < a.Length
      invariant 0 <= i <= a.Length
      invariant forall j :: 0 <= j < i ==> b[j] == a[j]
      invariant forall j :: a.Length <= j < n ==> b[j] == pad
    {
      b[i] := a[i];
      i := i + 1;
    }
  }
}
