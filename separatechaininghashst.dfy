// The hash table of separate chaining: an array of buckets, each a chain
// (`SequentialSearchST`) until it holds `TreeifyThreshold` pairs and a
// red-black tree (`RedBlackBST`) from then on. A bucket is modelled by the
// pairs it holds together with its kind; its operations are those of the
// two tables, as functions on their values.

module SeparateChaining {
  import opened Common
  import Sequential
  import RedBlack

  /** `DEFAULT_SIZE`. */
  const DefaultSize: int := 997
  /** `DEFAULT_LOAD_FACTOR`. */
  const DefaultLoadFactor: real := 0.75
  /** `TREEIFY_THRESHOLD`. */
  const TreeifyThreshold: int := 8

  /** Java's `int`, the type of `hashCode`. */
  newtype Int32 = x: int | -0x8000_0000 <= x < 0x8000_0000

  /** A hash bucket: a chain of pairs, head first, or a red-black tree. */
  datatype Bucket<V> = List(list: seq<Entry<V>>) | Tree(root: RedBlack.Tree<V>)

  /** The pairs of a bucket in the order its `forEach` visits them. */
  function Pairs<V>(b: Bucket<V>): seq<Entry<V>> {
    match b
    case List(l) => l
    case Tree(t) => RedBlack.Elements(t)
  }

  /** The invariant of the table a bucket is: distinct keys for a chain, a
      left-leaning red-black tree for a tree. */
  ghost predicate BucketOk<V>(b: Bucket<V>) {
    match b
    case List(l) => DistinctKeys(l)
    case Tree(t) => RedBlack.IsLLRB(t)
  }

  lemma BucketDistinct<V>(b: Bucket<V>)
    requires BucketOk(b)
    ensures DistinctKeys(Pairs(b))
  {
    if b.Tree? {
      SortedDistinct(RedBlack.Elements(b.root));
    }
  }

  /** `size()` of a bucket: the chain's length, or the count stored at the
      tree's root; either way the number of pairs it holds. */
  function BucketSize<V>(b: Bucket<V>): (n: int)
    requires BucketOk(b)
    ensures n == |Pairs(b)|
  {
    match b
    case List(l) => |l|
    case Tree(t) => RedBlack.SizesOkCount(t); RedBlack.SizeOf(t)
  }

  /** `put` on a bucket: that of `SequentialSearchST` or of `RedBlackBST`. */
  function BucketPut<V>(b: Bucket<V>, k: Key, v: Option<V>): (r: Bucket<V>)
    requires BucketOk(b)
    ensures BucketOk(r) && (r.Tree? <==> b.Tree?)
  {
    match b
    case List(l) => Sequential.PutListSpec(l, k, v, k); List(Sequential.PutList(l, k, v))
    case Tree(t) => RedBlack.PutRootValid(t, k, v); Tree(RedBlack.PutRoot(t, k, v))
  }

  /** A bucket after `put(k, v)` answers `v` for `k` and the old answer for
      every other key, and holds one more pair exactly when `k` is new. */
  lemma BucketPutSpec<V>(b: Bucket<V>, k: Key, v: Option<V>, j: Key)
    requires BucketOk(b)
    ensures Common.Get(Pairs(BucketPut(b, k, v)), j) == if j == k then v else Common.Get(Pairs(b), j)
    ensures |Pairs(BucketPut(b, k, v))| == if k in KeysOf(Pairs(b)) then |Pairs(b)| else |Pairs(b)| + 1
  {
    match b
    case List(l) =>
      Sequential.PutListSpec(l, k, v, j);
    case Tree(t) =>
      RedBlack.PutRootValid(t, k, v);
      InsertSpec(RedBlack.Elements(t), Entry(k, v), j);
      InsertCount(RedBlack.Elements(t), Entry(k, v));
  }

  /** `delete` on a bucket: the chain unlinks the key's node; the tree
      removes it only when `get` answers non-null for it. */
  function BucketDelete<V>(b: Bucket<V>, k: Key): (r: Bucket<V>)
    requires BucketOk(b)
    ensures BucketOk(r) && (r.Tree? <==> b.Tree?)
  {
    match b
    case List(l) => RemoveDistinct(l, k); List(Remove(l, k))
    case Tree(t) =>
      if Common.Get(RedBlack.Elements(t), k).Some? then
        InKeysOf(RedBlack.Elements(t), k);
        RedBlack.DeleteRootValid(t, k);
        Tree(RedBlack.DeleteRoot(RedBlack.Invert, t, k).value)
      else b
  }

  /** The bucket after `put(k, v)` holds exactly its old keys and `k`. */
  lemma BucketPutKeys<V>(b: Bucket<V>, k: Key, v: Option<V>, j: Key)
    requires BucketOk(b)
    ensures j in KeysOf(Pairs(BucketPut(b, k, v))) <==> j == k || j in KeysOf(Pairs(b))
  {
    match b
    case List(l) =>
      Sequential.PutListKeys(l, k, v, j);
    case Tree(t) =>
      RedBlack.PutRootValid(t, k, v);
      InsertKeys(RedBlack.Elements(t), Entry(k, v), j);
  }

  /** Inserting a pair into a table adds its key and keeps the others. */
  lemma InsertKeys<V>(s: seq<Entry<V>>, x: Entry<V>, j: Key)
    ensures j in KeysOf(Insert(s, x)) <==> j == x.key || j in KeysOf(s)
  {
    var u := Insert(s, x);
    InsertMembers(s, x);
    if j == x.key {
      assert x in u;
      KeyOfMember(u, x);
    } else if j in KeysOf(s) {
      var q :| 0 <= q < |s| && KeysOf(s)[q] == j;
      InsertKeeps(s, x, s[q]);
      KeyOfMember(u, s[q]);
    } else if j in KeysOf(u) {
      var q :| 0 <= q < |u| && KeysOf(u)[q] == j;
      InsertFrom(s, x, u[q]);
      KeyOfMember(s, u[q]);
    }
  }

  lemma InsertKeeps<V>(s: seq<Entry<V>>, x: Entry<V>, e: Entry<V>)
    requires e in s && e.key != x.key
    ensures e in Insert(s, x)
  {
    InsertMembers(s, x);
  }

  lemma InsertFrom<V>(s: seq<Entry<V>>, x: Entry<V>, e: Entry<V>)
    requires e in Insert(s, x) && e != x
    ensures e in s
  {
    InsertMembers(s, x);
  }

  /** The key of a pair of a table is a key of it. */
  lemma KeyOfMember<V>(s: seq<Entry<V>>, e: Entry<V>)
    requires e in s
    ensures e.key in KeysOf(s)
  {
    var q :| 0 <= q < |s| && s[q] == e;
    assert KeysOf(s)[q] == e.key;
  }

  /** Removing a key from a table keeps every other key and adds none. */
  lemma RemoveKeys<V>(s: seq<Entry<V>>, k: Key, j: Key)
    ensures j in KeysOf(Remove(s, k)) <==> j != k && j in KeysOf(s)
  {
    var u := Remove(s, k);
    if j != k && j in KeysOf(s) {
      var q :| 0 <= q < |s| && KeysOf(s)[q] == j;
      RemoveKeeps(s, k, s[q]);
      KeyOfMember(u, s[q]);
    } else if j in KeysOf(u) {
      var q :| 0 <= q < |u| && KeysOf(u)[q] == j;
      RemoveFrom(s, k, u[q]);
      KeyOfMember(s, u[q]);
    }
  }

  lemma RemoveKeeps<V>(s: seq<Entry<V>>, k: Key, e: Entry<V>)
    requires e in s && e.key != k
    ensures e in Remove(s, k)
  {
    RemoveMembers(s, k);
  }

  lemma RemoveFrom<V>(s: seq<Entry<V>>, k: Key, e: Entry<V>)
    requires e in Remove(s, k)
    ensures e in s && e.key != k
  {
    RemoveMembers(s, k);
  }

  /** A bucket after `delete(k)` answers null for `k` and the old answer for
      every other key, and holds one pair fewer exactly when it no longer
      holds `k` but did before. */
  lemma BucketDeleteSpec<V>(b: Bucket<V>, k: Key, j: Key)
    requires BucketOk(b)
    ensures Common.Get(Pairs(BucketDelete(b, k)), j) == if j == k then None else Common.Get(Pairs(b), j)
    ensures |Pairs(BucketDelete(b, k))| ==
      |Pairs(b)| - if k in KeysOf(Pairs(b)) && k !in KeysOf(Pairs(BucketDelete(b, k))) then 1 else 0
  {
    BucketDistinct(b);
    RemoveCount(Pairs(b), k);
    RemoveSpec(Pairs(b), k, j);
    if b.Tree? && Common.Get(Pairs(b), k).Some? {
      InKeysOf(Pairs(b), k);
      RedBlack.DeleteRootValid(b.root, k);
    }
  }

  /** The bucket after `delete(k)` keeps every other key and gains none;
      a tree keeps `k` when it maps it to null. */
  lemma BucketDeleteKeys<V>(b: Bucket<V>, k: Key, j: Key)
    requires BucketOk(b)
    ensures j in KeysOf(Pairs(BucketDelete(b, k))) ==> j in KeysOf(Pairs(b))
    ensures j != k && j in KeysOf(Pairs(b)) ==> j in KeysOf(Pairs(BucketDelete(b, k)))
  {
    var s := Pairs(b);
    if b.List? {
      RemoveKeys(s, k, j);
    } else if Common.Get(s, k).Some? {
      InKeysOf(s, k);
      RedBlack.DeleteRootValid(b.root, k);
      RemoveKeys(s, k, j);
    }
  }

  /** `key.hashCode() & 0x7fffffff`: clearing the sign bit of the
      two's-complement hash code leaves a non-negative number, the code
      itself when it is non-negative and the code plus 2^31 otherwise. */
  function Mask31(h: Int32): (r: int)
    ensures 0 <= r < 0x8000_0000
    ensures h >= 0 ==> r == h as int
    ensures h < 0 ==> r == h as int + 0x8000_0000
  {
    h as int % 0x8000_0000
  }

  /** The bucket index `hash` gives a non-null key among `m` buckets: the
      masked hash code modulo `m`. */
  function Index(hc: Key -> Int32, k: Key, m: int): (i: int)
    requires m >= 1
    ensures 0 <= i < m
  {
    Mask31(hc(k)) % m
  }

  /** `(int) (loadFactor * M)`: the product truncated toward zero, which for
      a load factor in (0, 1] lies between 0 and M. */
  function Threshold(loadFactor: real, m: int): (t: int)
    requires 0.0 < loadFactor <= 1.0 && m >= 0
    ensures 0 <= t <= m
  {
    assert 0.0 <= loadFactor * m as real <= m as real;
    (loadFactor * m as real).Floor
  }

  /** The threshold is the largest whole number of buckets not above the
      load factor's share of M. */
  lemma ThresholdFloor(loadFactor: real, m: int)
    requires 0.0 < loadFactor <= 1.0 && m >= 0
    ensures Threshold(loadFactor, m) as real <= loadFactor * m as real < Threshold(loadFactor, m) as real + 1.0
  {
  }

  /** The number of buckets that hold at least one pair. */
  function FilledCount<V>(s: seq<Bucket<V>>): (n: nat)
    ensures n <= |s|
  {
    if |s| == 0 then 0
    else FilledCount(s[..|s| - 1]) + if |Pairs(s[|s| - 1])| > 0 then 1 else 0
  }

  /** The number of tree buckets. */
  function TreeCount<V>(s: seq<Bucket<V>>): (n: nat)
    ensures n <= |s|
  {
    if |s| == 0 then 0
    else TreeCount(s[..|s| - 1]) + if s[|s| - 1].Tree? then 1 else 0
  }

  /** The pairs `forEach` visits: bucket after bucket, each in its own order. */
  function Flatten<V>(s: seq<Bucket<V>>): seq<Entry<V>> {
    if |s| == 0 then [] else Flatten(s[..|s| - 1]) + Pairs(s[|s| - 1])
  }

  function Sum(s: seq<int>): int {
    if |s| == 0 then 0 else Sum(s[..|s| - 1]) + s[|s| - 1]
  }

  /** The buckets after `resize`: the old ones at their old indices, then as
      many new empty chains. */
  ghost function Resized<V>(s: seq<Bucket<V>>): seq<Bucket<V>> {
    s + seq(|s|, _ => List([]))
  }

  /** Replacing one bucket changes the number of filled buckets by what the
      two buckets contribute. */
  lemma {:induction false} FilledUpdate<V>(s: seq<Bucket<V>>, i: int, b: Bucket<V>)
    requires 0 <= i < |s|
    ensures FilledCount(s[i := b]) ==
      FilledCount(s) - (if |Pairs(s[i])| > 0 then 1 else 0) + (if |Pairs(b)| > 0 then 1 else 0)
  {
    var t := s[i := b];
    if i < |s| - 1 {
      assert t[..|t| - 1] == s[..|s| - 1][i := b];
      FilledUpdate(s[..|s| - 1], i, b);
    } else {
      assert t[..|t| - 1] == s[..|s| - 1];
    }
  }

  /** Empty buckets added after the others fill nothing. */
  lemma {:induction false} FilledAppendEmpty<V>(s: seq<Bucket<V>>, e: seq<Bucket<V>>)
    requires forall i :: 0 <= i < |e| ==> |Pairs(e[i])| == 0
    ensures FilledCount(s + e) == FilledCount(s)
  {
    if |e| > 0 {
      var t := s + e;
      assert t[..|t| - 1] == s + e[..|e| - 1];
      FilledAppendEmpty(s, e[..|e| - 1]);
    } else {
      assert s + e == s;
    }
  }

  /** Resizing fills no more buckets. */
  lemma FilledResized<V>(s: seq<Bucket<V>>)
    ensures FilledCount(Resized(s)) == FilledCount(s)
  {
    FilledAppendEmpty(s, seq(|s|, _ => List([])));
  }

  /** A pair some bucket holds is visited by `forEach`. */
  lemma {:induction false} FlattenHas<V>(s: seq<Bucket<V>>, e: Entry<V>, i: int)
    requires 0 <= i < |s| && e in Pairs(s[i])
    ensures e in Flatten(s)
  {
    var u := s[..|s| - 1];
    assert Flatten(s) == Flatten(u) + Pairs(s[|s| - 1]);
    if i < |s| - 1 {
      assert u[i] == s[i];
      FlattenHas(u, e, i);
    }
  }

  /** A pair `forEach` visits is held by some bucket. */
  lemma {:induction false} FlattenFrom<V>(s: seq<Bucket<V>>, e: Entry<V>)
    requires e in Flatten(s)
    ensures exists i :: 0 <= i < |s| && e in Pairs(s[i])
  {
    var u, last := s[..|s| - 1], |s| - 1;
    assert Flatten(s) == Flatten(u) + Pairs(s[last]);
    if e in Flatten(u) {
      FlattenFrom(u, e);
      var i :| 0 <= i < |u| && e in Pairs(u[i]);
      assert s[i] == u[i];
    } else {
      assert e in Pairs(s[last]);
    }
  }

  /** A pair is visited by `forEach` exactly when some bucket holds it. */
  lemma FlattenMembers<V>(s: seq<Bucket<V>>, e: Entry<V>)
    ensures e in Flatten(s) <==> exists i :: 0 <= i < |s| && e in Pairs(s[i])
  {
    if e in Flatten(s) {
      FlattenFrom(s, e);
    }
    forall i | 0 <= i < |s| && e in Pairs(s[i])
      ensures e in Flatten(s)
    {
      FlattenHas(s, e, i);
    }
  }


  /** The bucket sizes add up to the number of pairs `forEach` visits. */
  lemma {:induction false} FlattenCount<V>(s: seq<Bucket<V>>, sizes: seq<int>)
    requires |sizes| == |s| && forall i :: 0 <= i < |s| ==> sizes[i] == |Pairs(s[i])|
    ensures Sum(sizes) == |Flatten(s)|
  {
    if |s| > 0 {
      FlattenCount(s[..|s| - 1], sizes[..|sizes| - 1]);
    }
  }

  /** Turning buckets into trees, and never back, cannot lower the number of trees. */
  lemma {:induction false} TreeCountMono<V>(s: seq<Bucket<V>>, t: seq<Bucket<V>>)
    requires |s| <= |t|
    requires forall i :: 0 <= i < |s| ==> (s[i].Tree? ==> t[i].Tree?)
    ensures TreeCount(s) <= TreeCount(t)
  {
    if |s| < |t| {
      TreeCountMono(s, t[..|t| - 1]);
    } else if |s| > 0 {
      TreeCountMono(s[..|s| - 1], t[..|t| - 1]);
    }
  }

  /** Replacing one bucket changes the number of pairs by the difference
      of the two buckets' sizes. */
  lemma FlattenUpdateCount<V>(s: seq<Bucket<V>>, i: int, b: Bucket<V>)
    requires 0 <= i < |s|
    ensures |Flatten(s[i := b])| == |Flatten(s)| - |Pairs(s[i])| + |Pairs(b)|
  {
    FlattenConcat(s);
    FlattenConcat(s[i := b]);
    assert Lists(s[i := b]) == Lists(s)[i := Pairs(b)];
    ConcatUpdateCount(Lists(s), i, Pairs(b));
  }

  /** Empty buckets added after the others add no pairs. */
  lemma {:induction false} FlattenAppendEmpty<V>(s: seq<Bucket<V>>, e: seq<Bucket<V>>)
    requires forall i :: 0 <= i < |e| ==> Pairs(e[i]) == []
    ensures Flatten(s + e) == Flatten(s)
  {
    if |e| > 0 {
      var t := s + e;
      assert t[..|t| - 1] == s + e[..|e| - 1];
      FlattenAppendEmpty(s, e[..|e| - 1]);
    } else {
      assert s + e == s;
    }
  }

  /** After `resize`, `forEach` still visits the same pairs in the same order. */
  lemma FlattenResized<V>(s: seq<Bucket<V>>)
    ensures Flatten(Resized(s)) == Flatten(s)
  {
    FlattenAppendEmpty(s, seq(|s|, _ => List([])));
  }

  /** Every key sits in the bucket its hash code selects among the `|s|`
      buckets: the condition under which `get` finds what `put` stored. */
  ghost predicate Placed<V>(s: seq<Bucket<V>>, hc: Key -> Int32) {
    |s| >= 1 &&
    forall i, j :: 0 <= i < |s| && j in KeysOf(Pairs(s[i])) ==> Index(hc, j, |s|) == i
  }

  /** A bucket whose keys all hash to its index keeps the table placed. */
  lemma ReplacePlaced<V>(s: seq<Bucket<V>>, hc: Key -> Int32, i: int, r: Bucket<V>)
    requires Placed(s, hc) && 0 <= i < |s|
    requires forall j :: j in KeysOf(Pairs(r)) ==> Index(hc, j, |s|) == i
    ensures Placed(s[i := r], hc)
  {
    var t := s[i := r];
    forall p, j | 0 <= p < |t| && j in KeysOf(Pairs(t[p])) ensures Index(hc, j, |t|) == p {
      if p != i {
        assert t[p] == s[p];
      }
    }
  }

  /** The pairs of each bucket, in index order. */
  function Lists<V>(s: seq<Bucket<V>>): (ps: seq<seq<Entry<V>>>)
    ensures |ps| == |s| && forall i :: 0 <= i < |s| ==> ps[i] == Pairs(s[i])
  {
    seq(|s|, i requires 0 <= i < |s| => Pairs(s[i]))
  }

  /** Tables one after the other. */
  function Concat<V>(ps: seq<seq<Entry<V>>>): seq<Entry<V>> {
    if |ps| == 0 then [] else Concat(ps[..|ps| - 1]) + ps[|ps| - 1]
  }

  /** What `forEach` visits is the buckets' pairs one after the other. */
  lemma {:induction false} FlattenConcat<V>(s: seq<Bucket<V>>)
    ensures Flatten(s) == Concat(Lists(s))
  {
    if |s| > 0 {
      FlattenConcat(s[..|s| - 1]);
      assert Lists(s)[..|s| - 1] == Lists(s[..|s| - 1]);
    }
  }

  /** Key `j` is in none of the tables but table `i`. */
  ghost predicate OnlyIn<V>(ps: seq<seq<Entry<V>>>, i: int, j: Key) {
    forall q :: 0 <= q < |ps| && q != i ==> j !in KeysOf(ps[q])
  }

  /** When key `j` is in no table but table `i`, the tables before `p`
      hold it exactly when `i` is among them and holds it, and they answer
      it as table `i` does. */
  lemma {:induction false} OnlyInPrefix<V>(ps: seq<seq<Entry<V>>>, i: int, p: int, j: Key)
    requires OnlyIn(ps, i, j) && 0 <= p <= |ps|
    ensures j in KeysOf(Concat(ps[..p])) <==> 0 <= i < p && j in KeysOf(ps[i])
    ensures Common.Get(Concat(ps[..p]), j) == if 0 <= i < p then Common.Get(ps[i], j) else None
  {
    if p > 0 {
      OnlyInPrefix(ps, i, p - 1, j);
      ConcatPrefixAnswers(ps, p, j);
      if i != p - 1 {
        assert j !in KeysOf(ps[p - 1]);
      }
    }
  }

  /** The keys and answers of the tables before `p`: those before `p - 1`
      first, then table `p - 1`. */
  lemma ConcatPrefixAnswers<V>(ps: seq<seq<Entry<V>>>, p: int, j: Key)
    requires 0 < p <= |ps|
    ensures j in KeysOf(Concat(ps[..p])) <==> j in KeysOf(Concat(ps[..p - 1])) || j in KeysOf(ps[p - 1])
    ensures Common.Get(Concat(ps[..p]), j) ==
      if j in KeysOf(Concat(ps[..p - 1])) then Common.Get(Concat(ps[..p - 1]), j) else Common.Get(ps[p - 1], j)
  {
    var a, b := Concat(ps[..p - 1]), ps[p - 1];
    ConcatPrefixSnoc(ps, p);
    KeysOfAppend(a, b);
    GetAppend(a, b, j);
  }

  /** The tables before `p` are those before `p - 1`, then table `p - 1`. */
  lemma ConcatPrefixSnoc<V>(ps: seq<seq<Entry<V>>>, p: int)
    requires 0 < p <= |ps|
    ensures Concat(ps[..p]) == Concat(ps[..p - 1]) + ps[p - 1]
  {
    assert ps[..p][..p - 1] == ps[..p - 1];
  }

  /** Replacing one table changes the length of the concatenation by the
      difference of the two tables' lengths. */
  lemma {:induction false} ConcatUpdateCount<V>(ps: seq<seq<Entry<V>>>, i: int, q: seq<Entry<V>>)
    requires 0 <= i < |ps|
    ensures |Concat(ps[i := q])| == |Concat(ps)| - |ps[i]| + |q|
  {
    var t := ps[i := q];
    if i < |ps| - 1 {
      assert t[..|t| - 1] == ps[..|ps| - 1][i := q];
      ConcatUpdateCount(ps[..|ps| - 1], i, q);
    } else {
      assert t[..|t| - 1] == ps[..|ps| - 1];
    }
  }

  /** Every key is in no table but the one `at` names. */
  ghost predicate PlacedBy<V>(ps: seq<seq<Entry<V>>>, at: Key -> int) {
    forall q, j :: 0 <= q < |ps| && j in KeysOf(ps[q]) ==> at(j) == q
  }

  /** The placed buckets are placed by their hash index. */
  lemma PlacedLists<V>(s: seq<Bucket<V>>, hc: Key -> Int32)
    requires Placed(s, hc)
    ensures PlacedBy(Lists(s), (k: Key) => Index(hc, k, |s|))
  {
    var at := (k: Key) => Index(hc, k, |s|);
    forall q, j | 0 <= q < |s| && j in KeysOf(Lists(s)[q]) ensures at(j) == q {
      assert Lists(s)[q] == Pairs(s[q]);
    }
  }

  /** In a placed table, a key's bucket answers `get` as the whole table
      does, and holds the key exactly when `forEach` visits it. */
  lemma PlacedGet<V>(s: seq<Bucket<V>>, hc: Key -> Int32, j: Key)
    requires Placed(s, hc)
    ensures Common.Get(Pairs(s[Index(hc, j, |s|)]), j) == Common.Get(Flatten(s), j)
    ensures j in KeysOf(Pairs(s[Index(hc, j, |s|)])) <==> j in KeysOf(Flatten(s))
  {
    var ps, i := Lists(s), Index(hc, j, |s|);
    PlacedLists(s, hc);
    assert OnlyIn(ps, i, j);
    OnlyInPrefix(ps, i, |ps|, j);
    assert ps[..|ps|] == ps;
    FlattenConcat(s);
  }

  /** Two tables with no common key, each without repeated keys, make one
      without repeated keys. */
  lemma DistinctAppend<V>(a: seq<Entry<V>>, b: seq<Entry<V>>)
    requires DistinctKeys(a) && DistinctKeys(b)
    requires forall j :: j in KeysOf(a) ==> j !in KeysOf(b)
    ensures DistinctKeys(a + b)
  {
    var c := a + b;
    forall x, y | 0 <= x < y < |c| ensures c[x].key != c[y].key {
      if y < |a| {
        assert c[x] == a[x] && c[y] == a[y];
      } else if x >= |a| {
        assert c[x] == b[x - |a|] && c[y] == b[y - |a|];
      } else {
        assert c[x] == a[x] && c[y] == b[y - |a|];
        KeyAt(a, x);
        KeyAt(b, y - |a|);
      }
    }
  }

  /** The key at a position of a table is one of its keys. */
  lemma KeyAt<V>(s: seq<Entry<V>>, q: int)
    requires 0 <= q < |s|
    ensures s[q].key in KeysOf(s)
  {
    assert KeysOf(s)[q] == s[q].key;
  }

  /** Tables without repeated keys, each key in the one `at` names, make
      one without repeated keys. */
  lemma {:induction false} PlacedByDistinct<V>(ps: seq<seq<Entry<V>>>, at: Key -> int, p: int)
    requires PlacedBy(ps, at) && 0 <= p <= |ps|
    requires forall q :: 0 <= q < |ps| ==> DistinctKeys(ps[q])
    ensures DistinctKeys(Concat(ps[..p]))
  {
    if p > 0 {
      PlacedByDistinct(ps, at, p - 1);
      var a, b := Concat(ps[..p - 1]), ps[p - 1];
      ConcatPrefixSnoc(ps, p);
      forall j | j in KeysOf(a) ensures j !in KeysOf(b) {
        PrefixMissesNext(ps, at, p, j);
      }
      DistinctAppend(a, b);
    }
  }

  /** No key of the tables before `p - 1` is in table `p - 1`. */
  lemma PrefixMissesNext<V>(ps: seq<seq<Entry<V>>>, at: Key -> int, p: int, j: Key)
    requires PlacedBy(ps, at) && 0 < p <= |ps| && j in KeysOf(Concat(ps[..p - 1]))
    ensures j !in KeysOf(ps[p - 1])
  {
    assert OnlyIn(ps, at(j), j);
    OnlyInPrefix(ps, at(j), p - 1, j);
  }

  /** In a placed table of valid buckets, `forEach` visits every key once. */
  lemma PlacedDistinct<V>(s: seq<Bucket<V>>, hc: Key -> Int32)
    requires Placed(s, hc)
    requires forall i :: 0 <= i < |s| ==> BucketOk(s[i])
    ensures DistinctKeys(Flatten(s))
  {
    var ps := Lists(s);
    PlacedLists(s, hc);
    forall q | 0 <= q < |ps| ensures DistinctKeys(ps[q]) {
      BucketDistinct(s[q]);
    }
    PlacedByDistinct(ps, (k: Key) => Index(hc, k, |s|), |ps|);
    assert ps[..|ps|] == ps;
    FlattenConcat(s);
  }

  /** A table of one bucket holding key 1, under the hash code that is 1
      for every key. */
  function OneKeyTable(): seq<Bucket<int>> {
    [List([Entry(1, Some(7))])]
  }

  /** `resize` keeps the buckets where they are, so the key of a placed
      table whose hash code is odd lands outside the bucket `hash` selects
      among the doubled buckets: `get` answers null for it although
      `forEach` still visits it. */
  lemma ResizeLosesKey()
    ensures var s, hc := OneKeyTable(), (k: Key) => 1 as Int32;
      Placed(s, hc) &&
      Common.Get(Pairs(s[Index(hc, 1, |s|)]), 1) == Some(7) &&
      !Placed(Resized(s), hc) &&
      Index(hc, 1, |Resized(s)|) == 1 &&
      Common.Get(Pairs(Resized(s)[Index(hc, 1, |Resized(s)|)]), 1) == None &&
      Entry(1, Some(7)) in Flatten(Resized(s))
  {
    var s, hc := OneKeyTable(), (k: Key) => 1 as Int32;
    var t := Resized(s);
    assert t == [List([Entry(1, Some(7))]), List([])];
    assert KeysOf(Pairs(t[0])) == [1];
    assert Mask31(1) == 1 && Index(hc, 1, |t|) == 1;
    assert 1 in KeysOf(Pairs(t[0]));
    FlattenResized(s);
    assert Flatten(s) == Flatten(s[..0]) + Pairs(s[0]);
  }

  /** What a bucket `r` is after `put(k, v)` on bucket `b`: it answers `v`
      for `k` and the old answer for every other key, holds one more pair
      exactly when `k` was absent, and is a tree when `b` was one or when
      it has reached `TreeifyThreshold` pairs. A chain that stays a chain is
      the chain's own `put`, so its order is known too. */
  ghost predicate PutInto<V>(b: Bucket<V>, r: Bucket<V>, k: Key, v: Option<V>) {
    Answers(Pairs(b), Pairs(r), k, v) &&
    (r.Tree? <==> b.Tree? || |Pairs(r)| >= TreeifyThreshold) &&
    ChainPut(b, r, k, v)
  }

  /** A chain that stays a chain after `put(k, v)` is the chain's own `put`. */
  ghost predicate ChainPut<V>(b: Bucket<V>, r: Bucket<V>, k: Key, v: Option<V>) {
    b.List? && r.List? ==> Pairs(r) == Sequential.PutList(Pairs(b), k, v)
  }

  /** What a table `r` is after `put(k, v)` on table `b`: it answers `v`
      for `k` and the old answer for every other key, holds the old keys
      and `k`, and holds one more pair exactly when `k` was absent. */
  ghost predicate Answers<V>(b: seq<Entry<V>>, r: seq<Entry<V>>, k: Key, v: Option<V>) {
    Common.Get(r, k) == v &&
    (forall j :: j != k ==> Common.Get(r, j) == Common.Get(b, j)) &&
    (forall j :: j in KeysOf(r) <==> j == k || j in KeysOf(b)) &&
    |r| == (if k in KeysOf(b) then |b| else |b| + 1)
  }

  /** `get` on a bucket: the chain's walk from the head, or the tree's
      descent from the root. */
  method BucketGet<V>(b: Bucket<V>, k: Key) returns (r: Option<V>)
    requires BucketOk(b)
    ensures r == Common.Get(Pairs(b), k)
  {
    match b
    case List(l) =>
      r := Sequential.GetList(l, k);
    case Tree(t) =>
      r := RedBlack.GetTree(t, k);
  }

  /** The bucket's own `put`, as a step of the table's. */
  method PutPair<V>(b: Bucket<V>, k: Key, v: Option<V>) returns (r: Bucket<V>)
    requires BucketOk(b)
    ensures BucketOk(r) && (r.Tree? <==> b.Tree?)
    ensures Answers(Pairs(b), Pairs(r), k, v)
    ensures b.List? ==> Pairs(r) == Sequential.PutList(Pairs(b), k, v)
    ensures b.Tree? ==> Pairs(r) == Insert(Pairs(b), Entry(k, v))
  {
    r := BucketPut(b, k, v);
    if b.Tree? {
      RedBlack.PutRootValid(b.root, k, v);
    }
    forall j ensures Common.Get(Pairs(r), j) == if j == k then v else Common.Get(Pairs(b), j) {
      BucketPutSpec(b, k, v, j);
    }
    forall j ensures j in KeysOf(Pairs(r)) <==> j == k || j in KeysOf(Pairs(b)) {
      BucketPutKeys(b, k, v, j);
    }
    BucketPutSpec(b, k, v, k);
  }

  /** The bucket's part of `put`: the bucket's own `put`, then `treeify`
      once it holds `TreeifyThreshold` pairs. */
  method PutBucket<V>(b: Bucket<V>, k: Key, v: Option<V>) returns (r: Bucket<V>)
    requires BucketOk(b)
    ensures BucketOk(r) && PutInto(b, r, k, v)
  {
    var put := PutPair(b, k, v);
    if BucketSize(put) >= TreeifyThreshold {
      r := TreeOf(put);
      TreeifiedAnswers(b, put, r, k, v);
    } else {
      r := put;
    }
  }

  /** A tree holding the same pairs as the bucket after its `put` answers
      as that bucket does. */
  lemma TreeifiedAnswers<V>(b: Bucket<V>, put: Bucket<V>, r: Bucket<V>, k: Key, v: Option<V>)
    requires BucketOk(put) && BucketOk(r) && SameBucket(r, put)
    requires Answers(Pairs(b), Pairs(put), k, v)
    ensures Answers(Pairs(b), Pairs(r), k, v)
  {
    forall j ensures Common.Get(Pairs(r), j) == Common.Get(Pairs(put), j) &&
      (j in KeysOf(Pairs(r)) <==> j in KeysOf(Pairs(put)))
    {
      SameBucketGet(r, put, j);
    }
  }

  /** What a table `r` is after `delete(k)` on table `b`: it answers null
      for `k` and the old answer for every other key, keeps every other key
      and gains none, and holds one pair fewer exactly when `k` has left. */
  ghost predicate Removes<V>(b: seq<Entry<V>>, r: seq<Entry<V>>, k: Key) {
    Common.Get(r, k) == None &&
    (forall j :: j != k ==> Common.Get(r, j) == Common.Get(b, j)) &&
    (forall j :: j in KeysOf(r) ==> j in KeysOf(b)) &&
    (forall j :: j != k && j in KeysOf(b) ==> j in KeysOf(r)) &&
    |r| == |b| - (if k in KeysOf(b) && k !in KeysOf(r) then 1 else 0)
  }

  /** The bucket's own `delete`, as a step of the table's. */
  method DeletePair<V>(b: Bucket<V>, k: Key) returns (r: Bucket<V>)
    requires BucketOk(b)
    ensures BucketOk(r) && (r.Tree? <==> b.Tree?)
    ensures Removes(Pairs(b), Pairs(r), k)
  {
    r := BucketDelete(b, k);
    forall j ensures Common.Get(Pairs(r), j) == if j == k then None else Common.Get(Pairs(b), j) {
      BucketDeleteSpec(b, k, j);
    }
    forall j ensures (j in KeysOf(Pairs(r)) ==> j in KeysOf(Pairs(b))) &&
      (j != k && j in KeysOf(Pairs(b)) ==> j in KeysOf(Pairs(r)))
    {
      BucketDeleteKeys(b, k, j);
    }
    BucketDeleteSpec(b, k, k);
  }

  /** In a placed table, replacing the bucket `h` of key `k` by `r`, which
      answers `put(k, v)` as that bucket would, keeps the table placed,
      and the table answers `put(k, v)` as a whole. */
  lemma PutTable<V>(s: seq<Bucket<V>>, hc: Key -> Int32, h: int, k: Key, v: Option<V>, r: Bucket<V>)
    requires Placed(s, hc) && h == Index(hc, k, |s|) && Answers(Pairs(s[h]), Pairs(r), k, v)
    ensures Placed(s[h := r], hc) && Answers(Flatten(s), Flatten(s[h := r]), k, v)
  {
    forall j | j in KeysOf(Pairs(r)) ensures Index(hc, j, |s|) == h {
      assert j == k || j in KeysOf(Pairs(s[h]));
    }
    ReplacePlaced(s, hc, h, r);
    PutAnswers(s, hc, h, k, v, r);
  }

  /** The answers of placed tables that differ in the bucket `h` of key
      `k` only, which answers `put(k, v)`. */
  lemma PutAnswers<V>(s: seq<Bucket<V>>, hc: Key -> Int32, h: int, k: Key, v: Option<V>, r: Bucket<V>)
    requires Placed(s, hc) && h == Index(hc, k, |s|) && Placed(s[h := r], hc)
    requires Answers(Pairs(s[h]), Pairs(r), k, v)
    ensures Answers(Flatten(s), Flatten(s[h := r]), k, v)
  {
    var t := s[h := r];
    forall j | j != k ensures Common.Get(Flatten(t), j) == Common.Get(Flatten(s), j) {
      PutAnswerAt(s, hc, h, k, v, r, j);
    }
    forall j ensures j in KeysOf(Flatten(t)) <==> j == k || j in KeysOf(Flatten(s)) {
      PutAnswerAt(s, hc, h, k, v, r, j);
    }
    PutAnswerAt(s, hc, h, k, v, r, k);
    PutCount(s, hc, h, k, v, r);
  }

  /** In a placed table, the bucket of `k` answering `put(k, v)` adds a
      pair exactly when the table lacked `k`. */
  lemma PutCount<V>(s: seq<Bucket<V>>, hc: Key -> Int32, h: int, k: Key, v: Option<V>, r: Bucket<V>)
    requires Placed(s, hc) && h == Index(hc, k, |s|) && Answers(Pairs(s[h]), Pairs(r), k, v)
    ensures |Flatten(s[h := r])| == if k in KeysOf(Flatten(s)) then |Flatten(s)| else |Flatten(s)| + 1
  {
    FlattenUpdateCount(s, h, r);
    PlacedGet(s, hc, k);
  }

  /** What placed tables that differ in the bucket `h` of key `k` only,
      which answers `put(k, v)`, answer for key `j`. */
  lemma PutAnswerAt<V>(s: seq<Bucket<V>>, hc: Key -> Int32, h: int, k: Key, v: Option<V>, r: Bucket<V>, j: Key)
    requires Placed(s, hc) && h == Index(hc, k, |s|) && Placed(s[h := r], hc)
    requires Answers(Pairs(s[h]), Pairs(r), k, v)
    ensures Common.Get(Flatten(s[h := r]), j) == if j == k then v else Common.Get(Flatten(s), j)
    ensures j in KeysOf(Flatten(s[h := r])) <==> j == k || j in KeysOf(Flatten(s))
  {
    ReplacedAnswer(s, hc, h, r, j);
  }

  /** In placed tables that differ in bucket `i` only, every key of another
      bucket gets the same answer. */
  lemma ReplacedAnswer<V>(s: seq<Bucket<V>>, hc: Key -> Int32, i: int, r: Bucket<V>, j: Key)
    requires Placed(s, hc) && 0 <= i < |s| && Placed(s[i := r], hc)
    ensures var t := s[i := r];
      if Index(hc, j, |s|) == i then
        Common.Get(Flatten(t), j) == Common.Get(Pairs(r), j) &&
        Common.Get(Flatten(s), j) == Common.Get(Pairs(s[i]), j) &&
        (j in KeysOf(Flatten(t)) <==> j in KeysOf(Pairs(r))) &&
        (j in KeysOf(Flatten(s)) <==> j in KeysOf(Pairs(s[i])))
      else
        Common.Get(Flatten(t), j) == Common.Get(Flatten(s), j) &&
        (j in KeysOf(Flatten(t)) <==> j in KeysOf(Flatten(s)))
  {
    var t := s[i := r];
    PlacedGet(s, hc, j);
    PlacedGet(t, hc, j);
  }

  /** In a placed table, replacing the bucket `h` of key `k` by `r`, which
      answers `delete(k)` as that bucket would, keeps the table placed,
      and the table answers `delete(k)` as a whole. */
  lemma DeleteTable<V>(s: seq<Bucket<V>>, hc: Key -> Int32, h: int, k: Key, r: Bucket<V>)
    requires Placed(s, hc) && h == Index(hc, k, |s|) && Removes(Pairs(s[h]), Pairs(r), k)
    ensures Placed(s[h := r], hc) && Removes(Flatten(s), Flatten(s[h := r]), k)
  {
    forall j | j in KeysOf(Pairs(r)) ensures Index(hc, j, |s|) == h {
      assert j in KeysOf(Pairs(s[h]));
    }
    ReplacePlaced(s, hc, h, r);
    DeleteAnswers(s, hc, h, k, r);
  }

  /** The answers of placed tables that differ in the bucket `h` of key
      `k` only, which answers `delete(k)`. */
  lemma DeleteAnswers<V>(s: seq<Bucket<V>>, hc: Key -> Int32, h: int, k: Key, r: Bucket<V>)
    requires Placed(s, hc) && h == Index(hc, k, |s|) && Placed(s[h := r], hc)
    requires Removes(Pairs(s[h]), Pairs(r), k)
    ensures Removes(Flatten(s), Flatten(s[h := r]), k)
  {
    var t := s[h := r];
    forall j ensures (j != k ==> Common.Get(Flatten(t), j) == Common.Get(Flatten(s), j)) &&
      (j in KeysOf(Flatten(t)) ==> j in KeysOf(Flatten(s))) &&
      (j != k && j in KeysOf(Flatten(s)) ==> j in KeysOf(Flatten(t)))
    {
      ReplacedAnswer(s, hc, h, r, j);
    }
    ReplacedAnswer(s, hc, h, r, k);
    FlattenUpdateCount(s, h, r);
  }

  /** The buckets of a table: each a valid bucket, and at most `filled`
      of them holding a pair. */
  ghost predicate ChainsOk<V>(s: seq<Bucket<V>>, filled: int) {
    (forall i :: 0 <= i < |s| ==> BucketOk(s[i])) && FilledCount(s) <= filled
  }

  /** Valid buckets stay valid when bucket `h` is replaced by a valid
      bucket holding a pair, once an empty bucket `h` counts as filled. */
  lemma ChainsPut<V>(s: seq<Bucket<V>>, f0: int, f1: int, h: int, r: Bucket<V>)
    requires ChainsOk(s, f0) && 0 <= h < |s| && f1 == f0 + (if |Pairs(s[h])| == 0 then 1 else 0)
    requires BucketOk(r) && |Pairs(r)| > 0
    ensures ChainsOk(s[h := r], f1)
  {
    FilledUpdate(s, h, r);
  }

  /** Valid buckets stay valid, with the same count of filled buckets,
      when bucket `h` is replaced by a valid bucket holding no more pairs. */
  lemma ChainsDelete<V>(s: seq<Bucket<V>>, filled: int, h: int, r: Bucket<V>)
    requires ChainsOk(s, filled) && 0 <= h < |s| && BucketOk(r) && |Pairs(r)| <= |Pairs(s[h])|
    ensures ChainsOk(s[h := r], filled)
  {
    FilledUpdate(s, h, r);
  }

  /** The bucket `h` of `k` taking `put(k, v)` is the table's `put(k, v)`. */
  lemma PutStep<V>(s: seq<Bucket<V>>, hc: Key -> Int32, h: int, k: Key, v: Option<V>, r: Bucket<V>)
    requires |s| >= 1 && h == Index(hc, k, |s|) && PutInto(s[h], r, k, v)
    ensures PutDone(s, s[h := r], h, k, v) && PutPlaced(s, s[h := r], hc, k, v)
  {
    FlattenUpdateCount(s, h, r);
    if Placed(s, hc) {
      PutTable(s, hc, h, k, v, r);
    }
  }

  /** The bucket `h` of `k` taking `delete(k)` is the table's `delete(k)`. */
  lemma DeleteStep<V>(s: seq<Bucket<V>>, hc: Key -> Int32, h: int, k: Key, r: Bucket<V>)
    requires |s| >= 1 && h == Index(hc, k, |s|)
    requires (r.Tree? <==> s[h].Tree?) && Removes(Pairs(s[h]), Pairs(r), k)
    ensures DeleteDone(s, s[h := r], h, k) && DeletePlaced(s, s[h := r], hc, k)
  {
    FlattenUpdateCount(s, h, r);
    if Placed(s, hc) {
      DeleteTable(s, hc, h, k, r);
    }
  }

  /** Buckets `t` after `delete(k)` on buckets `b` through bucket `h`:
      only bucket `h` changed, it answers the delete and stays the same
      kind of table, and there is one pair fewer exactly when `k` left. */
  ghost predicate DeleteDone<V>(b: seq<Bucket<V>>, t: seq<Bucket<V>>, h: int, k: Key) {
    0 <= h < |b| == |t| && t == b[h := t[h]] &&
    Removes(Pairs(b[h]), Pairs(t[h]), k) && (t[h].Tree? <==> b[h].Tree?) &&
    |Flatten(t)| == |Flatten(b)| - (if k in KeysOf(Pairs(b[h])) && k !in KeysOf(Pairs(t[h])) then 1 else 0)
  }

  /** Placed buckets `b` stay placed after `delete(k)` and the table
      answers it as a whole. */
  ghost predicate DeletePlaced<V>(b: seq<Bucket<V>>, t: seq<Bucket<V>>, hc: Key -> Int32, k: Key) {
    Placed(b, hc) ==> Placed(t, hc) && Removes(Flatten(b), Flatten(t), k)
  }

  /** Buckets `t` after `put(k, v)` on buckets `b` through bucket `h`:
      only bucket `h` changed, it answers the put, and there is one more
      pair exactly when `k` was absent. */
  ghost predicate PutDone<V>(b: seq<Bucket<V>>, t: seq<Bucket<V>>, h: int, k: Key, v: Option<V>) {
    0 <= h < |b| == |t| && t == b[h := t[h]] && PutInto(b[h], t[h], k, v) &&
    |Flatten(t)| == |Flatten(b)| + (if k in KeysOf(Pairs(b[h])) then 0 else 1)
  }

  /** Placed buckets `b` stay placed after `put(k, v)` and the table
      answers it as a whole. */
  ghost predicate PutPlaced<V>(b: seq<Bucket<V>>, t: seq<Bucket<V>>, hc: Key -> Int32, k: Key, v: Option<V>) {
    Placed(b, hc) ==> Placed(t, hc) && Answers(Flatten(b), Flatten(t), k, v)
  }

  class SeparateChainingHashST<V> {
    /** `N`: raised by every `put`, lowered by every `delete`. */
    var n: int
    /** `M`: the number of buckets. */
    var m: int
    var threshold: int
    /** The number of puts that found their bucket empty. */
    var filledNum: int
    var sts: array<Bucket<V>>
    const loadFactor: real
    /** The keys' `hashCode`. */
    const hashCode: Key -> Int32

    /** M buckets, each a valid table, and a load factor in (0, 1];
        `filledNum` counts at least the buckets holding a pair (a `delete`
        may empty a bucket without lowering it). */
    ghost predicate Valid()
      reads this`m, this`sts, this`filledNum, sts
    {
      m >= 1 && sts.Length == m &&
      0.0 < loadFactor <= 1.0 &&
      ChainsOk(sts[..], filledNum)
    }

    /** `threshold` is the load factor's share of M, rounded down. */
    ghost predicate ThresholdOk()
      reads this`threshold, this`m
    {
      0.0 < loadFactor <= 1.0 && m >= 0 && threshold == Threshold(loadFactor, m)
    }

    /** The pairs `forEach` visits. */
    ghost function Contents(): seq<Entry<V>>
      reads this`sts, sts
    {
      Flatten(sts[..])
    }

    /** Every key is in the bucket `hash` selects for it: true of a new
        table, kept by `put` without a resize and by `delete`, and lost by
        `resize`, which moves no pair. */
    ghost predicate Reachable()
      reads this`sts, sts
    {
      Placed(sts[..], hashCode)
    }

    /** `SeparateChainingHashST(M, loadFactor)` for valid arguments: M empty chains. */
    constructor (buckets: int, lf: real, hash: Key -> Int32)
      requires buckets >= 1 && 0.0 < lf <= 1.0
      ensures Valid() && Reachable() && Contents() == [] && fresh(sts)
      ensures m == buckets && loadFactor == lf && hashCode == hash && n == 0 && filledNum == 0
      ensures ThresholdOk()
      ensures forall i :: 0 <= i < m ==> sts[i] == List([])
    {
      var chains := EmptyChains(buckets, hash);
      m := buckets;
      loadFactor := lf;
      hashCode := hash;
      threshold := Threshold(lf, buckets);
      n := 0;
      filledNum := 0;
      sts := chains;
    }

    /** `hash`: 0 for a null key, otherwise the masked hash code modulo M,
        an index of a bucket. */
    function Hash(key: Option<Key>): (h: int)
      reads this`m
      requires m >= 1
      ensures 0 <= h < m
      ensures key.None? ==> h == 0
      ensures key.Some? ==> h == Index(hashCode, key.value, m)
    {
      if key.None? then 0 else Index(hashCode, key.value, m)
    }

    /** `put`: first a resize when `filledNum` has reached the threshold,
        then the put into the key's bucket, and one more on `N`. Without a
        resize, a table whose keys were reachable stays so and answers
        `put(k, v)` as a symbol table; `N` counts every put, so it runs
        ahead of the pairs on an overwrite. */
    method Put(k: Key, v: Option<V>)
      requires Valid()
      modifies this, sts
      ensures Valid()
      ensures m == if old(filledNum) >= old(threshold) then 2 * old(m) else old(m)
      ensures old(filledNum) >= old(threshold) ==> ThresholdOk()
      ensures old(filledNum) < old(threshold) ==> threshold == old(threshold)
      ensures var b := if old(filledNum) >= old(threshold) then Resized(old(sts[..])) else old(sts[..]);
        PutDone(b, sts[..], Hash(Some(k)), k, v) &&
        filledNum == old(filledNum) + (if |Pairs(b[Hash(Some(k))])| == 0 then 1 else 0)
      ensures old(filledNum) < old(threshold) ==> PutPlaced(old(sts[..]), sts[..], hashCode, k, v)
      ensures n == old(n) + 1
    {
      ResizeIfFull();
      ghost var b := sts[..];
      var h := Hash(Some(k));
      var wasEmpty := PutAt(h, k, v);
      ghost var t := sts[..];
      assert PutDone(b, t, h, k, v);
      Count(wasEmpty);
      assert sts[..] == t;
    }

    /** The counters of `put`: `filledNum` when the bucket was empty, and `N`. */
    method Count(wasEmpty: bool)
      modifies this`filledNum, this`n
      ensures filledNum == old(filledNum) + (if wasEmpty then 1 else 0) && n == old(n) + 1
      ensures m == old(m) && threshold == old(threshold) && sts == old(sts) && sts[..] == old(sts[..])
    {
      filledNum := filledNum + if wasEmpty then 1 else 0;
      n := n + 1;
    }

    /** The first step of `put`: a resize once `filledNum` has reached the
        threshold. */
    method ResizeIfFull()
      requires Valid()
      modifies this
      ensures Valid() && n == old(n) && filledNum == old(filledNum)
      ensures m == if old(filledNum) >= old(threshold) then 2 * old(m) else old(m)
      ensures old(filledNum) >= old(threshold) ==> ThresholdOk()
      ensures old(filledNum) < old(threshold) ==> threshold == old(threshold)
      ensures sts[..] == if old(filledNum) >= old(threshold) then Resized(old(sts[..])) else old(sts[..])
      ensures Contents() == old(Contents())
      ensures old(filledNum) >= old(threshold) ==> fresh(sts)
      ensures old(filledNum) < old(threshold) ==> sts == old(sts)
    {
      if filledNum >= threshold {
        Resize();
      }
    }

    /** The bucket part of `put`: whether the bucket was empty (it then
        counts as filled), the bucket's own put, and `treeify` once the
        bucket holds `TreeifyThreshold` pairs. */
    method PutAt(h: int, k: Key, v: Option<V>) returns (wasEmpty: bool)
      requires Valid() && h == Hash(Some(k))
      modifies sts
      ensures wasEmpty <==> |Pairs(old(sts[h]))| == 0
      ensures ChainsOk(sts[..], filledNum + if wasEmpty then 1 else 0)
      ensures PutDone(old(sts[..]), sts[..], h, k, v)
      ensures PutPlaced(old(sts[..]), sts[..], hashCode, k, v)
    {
      var b := sts[h];
      ghost var s0 := sts[..];
      wasEmpty := BucketSize(b) == 0;
      var r := PutBucket(b, k, v);
      SetBucket(h, r);
      assert k in KeysOf(Pairs(r));
      ChainsPut(s0, filledNum, filledNum + if wasEmpty then 1 else 0, h, r);
      PutStep(s0, hashCode, h, k, v, r);
    }

    /** `sts[h] = r`. */
    method SetBucket(h: int, r: Bucket<V>)
      requires 0 <= h < sts.Length
      modifies sts
      ensures sts[..] == old(sts[..])[h := r]
    {
      sts[h] := r;
    }

    /** `resize`: M doubles; the old buckets keep their indices, new empty
        chains fill the rest, nothing is rehashed, and the threshold is
        recomputed. `forEach` still visits the same pairs. */
    method Resize()
      requires Valid()
      modifies this
      ensures Valid() && fresh(sts)
      ensures m == 2 * old(m) && sts[..] == Resized(old(sts[..]))
      ensures Contents() == old(Contents()) && ThresholdOk()
      ensures n == old(n) && filledNum == old(filledNum)
    {
      var newM := m * 2;
      var tmp := Grown(sts, newM);
      FilledResized(sts[..]);
      FlattenResized(sts[..]);
      m := newM;
      sts := tmp;
      threshold := Threshold(loadFactor, m);
    }

    /** `delete`: the key's bucket deletes it, and `N` goes down by one
        whether or not a pair left. A table whose keys were reachable stays
        so and answers `delete(k)` as a symbol table. */
    method Delete(k: Key)
      requires Valid()
      modifies this`n, sts
      ensures Valid() && filledNum == old(filledNum)
      ensures DeleteDone(old(sts[..]), sts[..], Hash(Some(k)), k)
      ensures DeletePlaced(old(sts[..]), sts[..], hashCode, k)
      ensures n == old(n) - 1
    {
      var h := Hash(Some(k));
      DeleteAt(h, k);
      n := n - 1;
    }

    /** The bucket part of `delete`: the bucket's own delete. */
    method DeleteAt(h: int, k: Key)
      requires Valid() && h == Hash(Some(k))
      modifies sts
      ensures Valid()
      ensures DeleteDone(old(sts[..]), sts[..], h, k)
      ensures DeletePlaced(old(sts[..]), sts[..], hashCode, k)
    {
      var b := sts[h];
      ghost var s0 := sts[..];
      var r := DeletePair(b, k);
      SetBucket(h, r);
      ChainsDelete(s0, filledNum, h, r);
      DeleteStep(s0, hashCode, h, k, r);
    }

    /** `get`: the answer of the key's bucket, which in a table whose keys
        are reachable is the table's answer. */
    method Get(k: Key) returns (r: Option<V>)
      requires Valid()
      ensures r == Common.Get(Pairs(sts[Hash(Some(k))]), k)
      ensures Reachable() ==> r == Common.Get(Contents(), k)
    {
      var h := Hash(Some(k));
      r := BucketGet(sts[h], k);
      if Placed(sts[..], hashCode) {
        PlacedGet(sts[..], hashCode, k);
      }
    }

    /** The inherited `contains`: the key's bucket answers non-null. */
    method Contains(k: Key) returns (b: bool)
      requires Valid()
      ensures b <==> Common.Get(Pairs(sts[Hash(Some(k))]), k).Some?
      ensures Reachable() ==> (b <==> Common.Get(Contents(), k).Some?)
    {
      var v := Get(k);
      return v.Some?;
    }

    /** `size`: the counter `N`. */
    method Size() returns (r: int)
      requires Valid()
      ensures r == n
    {
      return n;
    }

    /** The inherited `isEmpty`: whether `N` is 0. */
    method IsEmpty() returns (b: bool)
      requires Valid()
      ensures b <==> n == 0
    {
      var r := Size();
      return r == 0;
    }

    /** `forEach` (without its printing): a null action throws; otherwise
        the buckets in index order each visit their pairs, each key once
        while the keys are reachable. */
    method ForEach(actionGiven: bool) returns (r: Result<seq<Entry<V>>>)
      requires Valid()
      ensures !actionGiven ==> r == Err(NullPointer)
      ensures actionGiven ==> r == Ok(Contents())
      ensures actionGiven ==> forall e :: e in r.value <==> exists i :: 0 <= i < m && e in Pairs(sts[i])
      ensures actionGiven && Reachable() ==> DistinctKeys(r.value)
    {
      if !actionGiven {
        return Err(NullPointer);
      }
      var seen: seq<Entry<V>> := [];
      var i := 0;
      while i < m
        invariant 0 <= i <= m
        invariant seen == Flatten(sts[..i])
      {
        assert sts[..i + 1][..i] == sts[..i];
        seen := seen + Pairs(sts[i]);
        i := i + 1;
      }
      assert sts[..m] == sts[..];
      forall e ensures e in seen <==> exists i :: 0 <= i < m && e in Pairs(sts[i]) {
        FlattenMembers(sts[..], e);
      }
      if Placed(sts[..], hashCode) {
        PlacedDistinct(sts[..], hashCode);
      }
      return Ok(seen);
    }

    /** `keys`: the keys `forEach` visits, in its order. */
    method Keys() returns (ks: seq<Key>)
      requires Valid()
      ensures ks == KeysOf(Contents())
      ensures Reachable() ==> forall i, j :: 0 <= i < j < |ks| ==> ks[i] != ks[j]
    {
      var all := ForEach(true);
      return KeysOf(all.value);
    }

    /** `sizeOfEachButton`: the size of every bucket, in index order; they
        add up to the number of pairs `forEach` visits. */
    method SizeOfEachButton() returns (res: seq<int>)
      requires Valid()
      ensures |res| == m && forall i :: 0 <= i < m ==> res[i] == |Pairs(sts[i])|
      ensures Sum(res) == |Contents()|
    {
      res := [];
      var i := 0;
      while i < m
        invariant 0 <= i <= m
        invariant |res| == i && forall j :: 0 <= j < i ==> res[j] == |Pairs(sts[j])|
      {
        res := res + [BucketSize(sts[i])];
        i := i + 1;
      }
      FlattenCount(sts[..], res);
    }

    /** `treeNum`: the number of tree buckets. */
    method TreeNum() returns (num: int)
      requires Valid()
      ensures num == TreeCount(sts[..]) && 0 <= num <= m
    {
      num := 0;
      var i := 0;
      while i < m
        invariant 0 <= i <= m
        invariant num == TreeCount(sts[..i])
      {
        assert sts[..i + 1][..i] == sts[..i];
        if sts[i].Tree? {
          num := num + 1;
        }
        i := i + 1;
      }
      assert sts[..m] == sts[..];
    }
  }

  /** The bucket array of a new table: `count` empty chains. */
  method EmptyChains<V>(count: int, hc: Key -> Int32) returns (a: array<Bucket<V>>)
    requires count >= 1
    ensures fresh(a) && a.Length == count
    ensures forall i :: 0 <= i < count ==> a[i] == List([])
    ensures ChainsOk(a[..], 0) && Flatten(a[..]) == [] && Placed(a[..], hc)
  {
    a := new Bucket<V>[count](_ => List([]));
    EmptyTable(a[..], hc);
  }

  /** Buckets that are all empty chains are valid with none filled, hold
      no pair, and are placed. */
  lemma EmptyTable<V>(s: seq<Bucket<V>>, hc: Key -> Int32)
    requires |s| >= 1 && forall i :: 0 <= i < |s| ==> s[i] == List([])
    ensures ChainsOk(s, 0) && Flatten(s) == [] && Placed(s, hc)
  {
    assert [] + s == s;
    FilledAppendEmpty([], s);
    FlattenAppendEmpty([], s);
  }

  /** The array `resize` builds: the old buckets copied to the same
      indices, then new empty chains up to the new size. */
  method Grown<V>(src: array<Bucket<V>>, newM: int) returns (tmp: array<Bucket<V>>)
    requires newM == 2 * src.Length
    ensures fresh(tmp) && tmp[..] == Resized(src[..])
  {
    tmp := new Bucket<V>[newM](_ => List([]));
    var i := 0;
    while i < src.Length
      invariant 0 <= i <= src.Length
      invariant forall j :: 0 <= j < i ==> tmp[j] == src[j]
      invariant forall j :: src.Length <= j < newM ==> tmp[j] == List([])
    {
      tmp[i] := src[i];
      i := i + 1;
    }
    while i < newM
      invariant src.Length <= i <= newM
      invariant forall j :: 0 <= j < src.Length ==> tmp[j] == src[j]
      invariant forall j :: src.Length <= j < newM ==> tmp[j] == List([])
    {
      tmp[i] := List([]);
      i := i + 1;
    }
    assert tmp[..] == Resized(src[..]);
  }

  /** Two sequences of pairs holding the same pairs, as many of them. */
  ghost predicate SameTable<V>(s: seq<Entry<V>>, t: seq<Entry<V>>) {
    |s| == |t| &&
    (forall i :: 0 <= i < |s| ==> s[i] in t) &&
    (forall i :: 0 <= i < |t| ==> t[i] in s)
  }

  /** Two buckets holding the same pairs, as many of them. */
  ghost predicate SameBucket<V>(b: Bucket<V>, c: Bucket<V>) {
    SameTable(Pairs(b), Pairs(c))
  }

  /** Buckets holding the same pairs hold the same keys and answer every
      `get` alike. */
  lemma SameBucketGet<V>(b: Bucket<V>, c: Bucket<V>, j: Key)
    requires BucketOk(b) && BucketOk(c) && SameBucket(b, c)
    ensures j in KeysOf(Pairs(b)) <==> j in KeysOf(Pairs(c))
    ensures Common.Get(Pairs(b), j) == Common.Get(Pairs(c), j)
  {
    BucketDistinct(b);
    BucketDistinct(c);
    forall e ensures e in Pairs(b) <==> e in Pairs(c) {
      if e in Pairs(b) {
        var i :| 0 <= i < |Pairs(b)| && Pairs(b)[i] == e;
      }
      if e in Pairs(c) {
        var i :| 0 <= i < |Pairs(c)| && Pairs(c)[i] == e;
      }
    }
    SameMembersGet(Pairs(b), Pairs(c), j);
  }

  /** `treeify`: a new red-black tree receives the bucket's pairs one by
      one, as its `forEach` visits them, and ends up holding exactly them;
      it takes the bucket's place. */
  method TreeOf<V>(b: Bucket<V>) returns (r: Bucket<V>)
    requires BucketOk(b)
    ensures r.Tree? && BucketOk(r)
    ensures SameBucket(r, b)
  {
    var pairs := Pairs(b);
    BucketDistinct(b);
    var t: RedBlack.Tree<V> := RedBlack.Leaf;
    var i := 0;
    while i < |pairs|
      invariant 0 <= i <= |pairs|
      invariant RedBlack.IsLLRB(t)
      invariant SameTable(RedBlack.Elements(t), pairs[..i])
    {
      RedBlack.PutRootValid(t, pairs[i].key, pairs[i].value);
      TreeifyStep(RedBlack.Elements(t), pairs, i);
      t := RedBlack.PutRoot(t, pairs[i].key, pairs[i].value);
      i := i + 1;
    }
    assert pairs[..i] == pairs;
    r := Tree(t);
  }

  /** One step of `treeify`: putting the next pair of a bucket with distinct
      keys into the tree built from the pairs before it adds that pair. */
  lemma TreeifyStep<V>(s: seq<Entry<V>>, pairs: seq<Entry<V>>, i: int)
    requires Sorted(s) && DistinctKeys(pairs) && 0 <= i < |pairs|
    requires SameTable(s, pairs[..i])
    ensures SameTable(Insert(s, pairs[i]), pairs[..i + 1])
  {
    var x := pairs[i];
    forall q | 0 <= q < |s| ensures s[q].key != x.key {
      var p :| 0 <= p < i && pairs[..i][p] == s[q];
      assert pairs[p] == s[q];
    }
    assert x.key !in KeysOf(s);
    InsertMembers(s, x);
    InsertCount(s, x);
    forall e | e in s ensures e.key != x.key {
      var q :| 0 <= q < |s| && s[q] == e;
    }
    AddMember(s, Insert(s, x), pairs, i);
  }

  /** A sequence holding the pairs before `i` becomes one holding the pairs
      up to `i` once exactly `pairs[i]` is added. */
  lemma AddMember<V>(s: seq<Entry<V>>, u: seq<Entry<V>>, pairs: seq<Entry<V>>, i: int)
    requires 0 <= i < |pairs| && SameTable(s, pairs[..i]) && |u| == |s| + 1
    requires forall e :: e in u <==> e == pairs[i] || e in s
    ensures SameTable(u, pairs[..i + 1])
  {
    assert pairs[..i + 1] == pairs[..i] + [pairs[i]];
    forall q | 0 <= q < i ensures pairs[q] in u {
      assert pairs[..i][q] == pairs[q];
    }
    forall q | 0 <= q < |u| ensures u[q] in pairs[..i + 1] {
      assert u[q] in u;
    }
  }

  /** `new SeparateChainingHashST(M, loadFactor)`: fewer than one bucket, or
      a load factor outside (0, 1], is an initialisation error. */
  method NewSeparateChainingHashST<V>(buckets: int, lf: real, hash: Key -> Int32)
    returns (r: Result<SeparateChainingHashST<V>>)
    ensures buckets < 1 || !(0.0 < lf <= 1.0) ==> r == Err(InitialState)
    ensures buckets >= 1 && 0.0 < lf <= 1.0 ==>
      r.Ok? && fresh(r.value) && r.value.Valid() &&
      r.value.m == buckets && r.value.loadFactor == lf && r.value.hashCode == hash &&
      r.value.n == 0 && r.value.filledNum == 0 && r.value.ThresholdOk() &&
      r.value.Reachable() && r.value.Contents() == [] &&
      forall i :: 0 <= i < buckets ==> r.value.sts[i] == List([])
  {
    if buckets < 1 || !(0.0 < lf <= 1.0) {
      return Err(InitialState);
    }
    var st := new SeparateChainingHashST<V>(buckets, lf, hash);
    return Ok(st);
  }

  /** `new SeparateChainingHashST(M)`: the default load factor. */
  method NewWithBuckets<V>(buckets: int, hash: Key -> Int32) returns (r: Result<SeparateChainingHashST<V>>)
    ensures buckets < 1 ==> r == Err(InitialState)
    ensures buckets >= 1 ==>
      r.Ok? && fresh(r.value) && r.value.Valid() && r.value.m == buckets && r.value.loadFactor == DefaultLoadFactor
  {
    r := NewSeparateChainingHashST(buckets, DefaultLoadFactor, hash);
  }

  /** `new SeparateChainingHashST()`: the default bucket count and load factor. */
  method NewDefault<V>(hash: Key -> Int32) returns (st: SeparateChainingHashST<V>)
    ensures fresh(st) && st.Valid() && st.m == DefaultSize && st.loadFactor == DefaultLoadFactor
    ensures st.n == 0 && st.filledNum == 0 && st.threshold == 747
  {
    st := new SeparateChainingHashST<V>(DefaultSize, DefaultLoadFactor, hash);
  }
}
