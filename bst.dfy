/** The unbalanced binary search tree of `BST`: nodes, the private
    recursive helpers (as functions that return the new subtree), and the
    table object around the root. */
module Bst {
  import opened Common

  /** A node owns its subtrees; `n` is the node's stored subtree size `N`. */
  datatype Tree<V> =
    | Leaf
    | Node(key: Key, value: Option<V>, left: Tree<V>, right: Tree<V>, n: int)

  /** `size(Node)`: the stored count, 0 for null. */
  function SizeOf<V>(t: Tree<V>): int {
    if t.Leaf? then 0 else t.n
  }

  /** The pairs of a tree in key order: the in-order walk. */
  function Elements<V>(t: Tree<V>): seq<Entry<V>> {
    match t
    case Leaf => []
    case Node(k, v, l, r, _) => Elements(l) + [Entry(k, v)] + Elements(r)
  }

  /** The key of a node, or null for null: how the public methods unwrap a node. */
  function KeyOf<V>(t: Tree<V>): Option<Key> {
    if t.Leaf? then None else Some(t.key)
  }

  /** Search-tree order: the in-order walk has strictly ascending keys. */
  ghost predicate Ordered<V>(t: Tree<V>) {
    Sorted(Elements(t))
  }

  /** Every stored count is the size of its subtree. */
  ghost predicate SizesOk<V>(t: Tree<V>) {
    match t
    case Leaf => true
    case Node(_, _, l, r, n) => SizesOk(l) && SizesOk(r) && n == SizeOf(l) + SizeOf(r) + 1
  }

  lemma {:induction false} SizesOkCount<V>(t: Tree<V>)
    requires SizesOk(t)
    ensures SizeOf(t) == |Elements(t)|
  {
    if t.Node? {
      SizesOkCount(t.left);
      SizesOkCount(t.right);
    }
  }

  /** `resize`: recompute a node's count from its children's. */
  function Resize<V>(h: Tree<V>): (r: Tree<V>)
    requires h.Node?
    ensures r.Node? && Elements(r) == Elements(h)
    ensures SizesOk(h.left) && SizesOk(h.right) ==> SizesOk(r)
  {
    h.(n := SizeOf(h.left) + SizeOf(h.right) + 1)
  }

  /** A node's pairs split around its own: all of the left below it, all of the right above it. */
  lemma NodeSplit<V>(t: Tree<V>)
    requires t.Node? && Ordered(t)
    ensures Ordered(t.left) && Ordered(t.right)
    ensures KeysBelow(Elements(t.left), t.key) && KeysAbove(Elements(t.right), t.key)
  {
    var l, x, r := Elements(t.left), Entry(t.key, t.value), Elements(t.right);
    assert Elements(t) == l + ([x] + r);
    SortedSplit(l, [x] + r);
    assert ([x] + r)[0] == x;
    SortedSplit([x], r);
  }

  /** Search in an ordered tree answers from the part the key belongs to. */
  lemma GetNode<V>(t: Tree<V>, k: Key)
    requires t.Node? && Ordered(t)
    ensures Ordered(t.left) && Ordered(t.right)
    ensures Get(Elements(t), k) ==
      if k == t.key then t.value
      else if k < t.key then Get(Elements(t.left), k)
      else Get(Elements(t.right), k)
  {
    NodeSplit(t);
    var l, x, r := Elements(t.left), Entry(t.key, t.value), Elements(t.right);
    GetAppend(l + [x], r, k);
    GetAppend(l, [x], k);
    KeysOfAppend(l, [x]);
    assert KeysOf([x]) == [x.key];
    KeysBelowIn(l, t.key, k);
    KeysAboveIn(r, t.key, k);
  }

  // ---------------------------------------------------------------------
  // Extremes

  /** `min(Node)`: the leftmost node, null for null; it holds the first pair. */
  function MinTree<V>(t: Tree<V>): (r: Tree<V>)
    ensures t.Leaf? <==> r.Leaf?
    ensures t.Node? ==> r.left.Leaf? && Elements(t) != [] && Entry(r.key, r.value) == Elements(t)[0]
  {
    if t.Leaf? || t.left.Leaf? then t else MinTree(t.left)
  }

  /** `max(Node)`: the rightmost node, null for null; it holds the last pair. */
  function MaxTree<V>(t: Tree<V>): (r: Tree<V>)
    ensures t.Leaf? <==> r.Leaf?
    ensures t.Node? ==>
      r.right.Leaf? && Elements(t) != [] && Entry(r.key, r.value) == Elements(t)[|Elements(t)| - 1]
  {
    if t.Leaf? || t.right.Leaf? then t else MaxTree(t.right)
  }

  /** `deleteMin(Node)`: the tree without its first pair. */
  function DeleteMinTree<V>(t: Tree<V>): (r: Tree<V>)
    requires t.Node?
    ensures Elements(r) == Elements(t)[1..]
    ensures SizesOk(t) ==> SizesOk(r)
  {
    if t.left.Leaf? then t.right else Resize(t.(left := DeleteMinTree(t.left)))
  }

  /** `deleteMax(Node)`: the tree without its last pair. */
  function DeleteMaxTree<V>(t: Tree<V>): (r: Tree<V>)
    requires t.Node?
    ensures Elements(r) == Elements(t)[..|Elements(t)| - 1]
    ensures SizesOk(t) ==> SizesOk(r)
  {
    if t.right.Leaf? then t.left else Resize(t.(right := DeleteMaxTree(t.right)))
  }

  // ---------------------------------------------------------------------
  // put and delete

  /** `put(Node, K, V)`: a new leaf node, or the value overwritten in place. */
  function PutTree<V>(t: Tree<V>, k: Key, v: Option<V>): (r: Tree<V>)
    ensures r.Node?
  {
    if t.Leaf? then Node(k, v, Leaf, Leaf, 1)
    else if t.key < k then Resize(t.(right := PutTree(t.right, k, v)))
    else if t.key > k then Resize(t.(left := PutTree(t.left, k, v)))
    else Resize(t.(value := v))
  }

  lemma {:induction false} PutSizes<V>(t: Tree<V>, k: Key, v: Option<V>)
    requires SizesOk(t)
    ensures SizesOk(PutTree(t, k, v))
  {
    if t.Node? {
      if t.key < k {
        PutSizes(t.right, k, v);
      } else if t.key > k {
        PutSizes(t.left, k, v);
      }
    }
  }

  /** `put` places the pair where `Insert` puts it in the in-order walk. */
  lemma {:induction false} PutElements<V>(t: Tree<V>, k: Key, v: Option<V>)
    requires Ordered(t)
    ensures Elements(PutTree(t, k, v)) == Insert(Elements(t), Entry(k, v))
    ensures Ordered(PutTree(t, k, v))
  {
    if t.Leaf? {
      assert Elements(PutTree(t, k, v)) == [Entry(k, v)];
    } else {
      NodeSplit(t);
      var l, x, r := Elements(t.left), Entry(t.key, t.value), Elements(t.right);
      if k < t.key {
        PutElements(t.left, k, v);
      } else if k > t.key {
        PutElements(t.right, k, v);
      }
      InsertAround(l, x, r, Entry(k, v));
    }
    InsertSpec(Elements(t), Entry(k, v), k);
  }

  /** `delete(Node, K)`: a node with two children takes the pair of its
      successor, the least node on its right, which is cut out of the right. */
  function DeleteTree<V>(t: Tree<V>, k: Key): Tree<V>
  {
    if t.Leaf? then Leaf
    else if k < t.key then Resize(t.(left := DeleteTree(t.left, k)))
    else if k > t.key then Resize(t.(right := DeleteTree(t.right, k)))
    else if t.right.Leaf? then t.left
    else if t.left.Leaf? then t.right
    else
      var m := MinTree(t.right);
      Resize(m.(right := DeleteMinTree(t.right), left := t.left))
  }

  /** `delete` removes exactly the pairs with key `k` from the in-order walk. */
  lemma {:induction false} DeleteElements<V>(t: Tree<V>, k: Key)
    requires Ordered(t)
    ensures Elements(DeleteTree(t, k)) == Remove(Elements(t), k)
    ensures Ordered(DeleteTree(t, k))
  {
    if t.Node? {
      NodeSplit(t);
      var l, x, r := Elements(t.left), Entry(t.key, t.value), Elements(t.right);
      assert Elements(t) == l + [x] + r;
      RemoveAround(l, x, r, k);
      if k < t.key {
        DeleteElements(t.left, k);
      } else if k > t.key {
        DeleteElements(t.right, k);
      } else if t.right.Leaf? {
      } else if t.left.Leaf? {
      } else {
        var m := MinTree(t.right);
        ShiftFirst(l, Entry(m.key, m.value), r);
      }
      SortedRemove(Elements(t), k);
    }
  }

  lemma {:induction false} DeleteSizes<V>(t: Tree<V>, k: Key)
    requires SizesOk(t)
    ensures SizesOk(DeleteTree(t, k))
  {
    if t.Node? {
      if k < t.key {
        DeleteSizes(t.left, k);
      } else if k > t.key {
        DeleteSizes(t.right, k);
      }
    }
  }

  /** Deleting an absent key gives back the very same tree. */
  lemma {:induction false} DeleteAbsent<V>(t: Tree<V>, k: Key)
    requires Ordered(t) && SizesOk(t) && k !in KeysOf(Elements(t))
    ensures DeleteTree(t, k) == t
  {
    if t.Node? {
      var l, x, r := Elements(t.left), Entry(t.key, t.value), Elements(t.right);
      assert Elements(t) == l + [x] + r;
      NodeOrder(l, x, r);
      assert k != t.key && k !in KeysOf(l) && k !in KeysOf(r);
      NodeSplit(t);
      if k < t.key {
        DeleteAbsent(t.left, k);
        assert DeleteTree(t, k) == Resize(t.(left := t.left));
      } else {
        DeleteAbsent(t.right, k);
        assert DeleteTree(t, k) == Resize(t.(right := t.right));
      }
    }
  }

  // ---------------------------------------------------------------------
  // floor, ceiling and rank

  /** `floor(K, Node)`: the node with the greatest key at most `k`, or null. */
  function FloorTree<V>(k: Key, t: Tree<V>): Tree<V>
  {
    if t.Leaf? then Leaf
    else if t.key == k then t
    else if t.key > k then FloorTree(k, t.left)
    else
      var right := FloorTree(k, t.right);
      if right.Leaf? then t else right
  }

  lemma {:induction false} FloorSpec<V>(k: Key, t: Tree<V>)
    requires Ordered(t)
    ensures IsFloor(Elements(t), k, KeyOf(FloorTree(k, t)))
  {
    if t.Node? {
      NodeSplit(t);
      var l, x, r := Elements(t.left), Entry(t.key, t.value), Elements(t.right);
      if t.key == k {
        AroundHere(l, x, r);
      } else if t.key > k {
        FloorSpec(k, t.left);
        FloorLeft(l, x, r, k, KeyOf(FloorTree(k, t.left)));
      } else {
        FloorSpec(k, t.right);
        FloorRight(l, x, r, k, KeyOf(FloorTree(k, t.right)));
      }
    }
  }

  /** `ceiling(K, Node)` as written: both descents call `floor`. */
  function CeilingTreeAsWritten<V>(k: Key, t: Tree<V>): Tree<V>
  {
    if t.Leaf? then Leaf
    else if t.key == k then t
    else if t.key < k then FloorTree(k, t.right)
    else
      var left := FloorTree(k, t.left);
      if left.Leaf? then t else left
  }

  /** The tree with root 3 and left child 1. */
  function OneThree(): Tree<int> {
    Node(3, Some(3), Node(1, Some(1), Leaf, Leaf, 1), Leaf, 2)
  }

  lemma OneThreeElements()
    ensures Elements(OneThree()) == [Entry(1, Some(1)), Entry(3, Some(3))]
    ensures KeysOf(Elements(OneThree())) == [1, 3]
    ensures Ordered(OneThree()) && SizesOk(OneThree())
  {
    var s := Elements(OneThree());
    assert Elements(Node(1, Some(1), Leaf, Leaf, 1)) == [Entry(1, Some(1))];
    assert s == [Entry(1, Some(1))] + [Entry(3, Some(3))];
    assert KeysOf(s) == [1, 3];
  }

  /** As written, `ceiling(2)` of the keys {1, 3} answers 1, a key below 2,
      where the least key at least 2 is 3. */
  lemma CeilingAsWrittenBelow()
    ensures Ordered(OneThree()) && SizesOk(OneThree())
    ensures KeyOf(CeilingTreeAsWritten(2, OneThree())) == Some(1)
    ensures IsCeiling(Elements(OneThree()), 2, Some(3))
    ensures !IsCeiling(Elements(OneThree()), 2, Some(1))
  {
    OneThreeElements();
    CeilingAsWrittenOneThree();
    OneThreeCeiling();
    PairNotCeiling(Elements(OneThree()));
  }

  lemma CeilingAsWrittenOneThree()
    ensures CeilingTreeAsWritten(2, OneThree()) == Node(1, Some(1), Leaf, Leaf, 1)
  {
    var one := Node(1, Some(1), Leaf, Leaf, 1);
    assert FloorTree(2, one.right) == Leaf;
    assert FloorTree(2, one) == one;
  }

  lemma OneThreeCeiling()
    ensures IsCeiling(Elements(OneThree()), 2, Some(3))
  {
    OneThreeElements();
    PairCeiling(Elements(OneThree()));
  }

  lemma PairNotCeiling(s: seq<Entry<int>>)
    requires s == [Entry(1, Some(1)), Entry(3, Some(3))]
    ensures !IsCeiling(s, 2, Some(1))
  {
  }

  lemma PairCeiling(s: seq<Entry<int>>)
    requires s == [Entry(1, Some(1)), Entry(3, Some(3))]
    ensures IsCeiling(s, 2, Some(3))
  {
    assert KeysOf(s) == [1, 3];
    assert forall e :: e in s ==> e == s[0] || e == s[1];
    assert s[1] in s;
  }

  /** `ceiling(K, Node)` with the descents calling `ceiling`: the node with
      the least key at least `k`, or null. */
  function CeilingTree<V>(k: Key, t: Tree<V>): Tree<V>
  {
    if t.Leaf? then Leaf
    else if t.key == k then t
    else if t.key < k then CeilingTree(k, t.right)
    else
      var left := CeilingTree(k, t.left);
      if left.Leaf? then t else left
  }

  lemma {:induction false} CeilingSpec<V>(k: Key, t: Tree<V>)
    requires Ordered(t)
    ensures IsCeiling(Elements(t), k, KeyOf(CeilingTree(k, t)))
  {
    if t.Node? {
      NodeSplit(t);
      var l, x, r := Elements(t.left), Entry(t.key, t.value), Elements(t.right);
      if t.key == k {
        AroundHere(l, x, r);
      } else if t.key < k {
        CeilingSpec(k, t.right);
        CeilingRight(l, x, r, k, KeyOf(CeilingTree(k, t.right)));
      } else {
        CeilingSpec(k, t.left);
        CeilingLeft(l, x, r, k, KeyOf(CeilingTree(k, t.left)));
      }
    }
  }

  /** `rank(Node, K)`: going right it counts the left subtree by descending
      into it again, which in an ordered tree is its whole size. */
  function RankTree<V>(t: Tree<V>, k: Key): int
  {
    if t.Leaf? then 0
    else if k == t.key then SizeOf(t.left)
    else if k > t.key then RankTree(t.right, k) + RankTree(t.left, k) + 1
    else RankTree(t.left, k)
  }

  /** In an ordered tree with correct counts, `rank(k)` is the number of keys below `k`. */
  lemma {:induction false} RankSpec<V>(t: Tree<V>, k: Key)
    requires Ordered(t) && SizesOk(t)
    ensures RankTree(t, k) == CountBelow(Elements(t), k)
  {
    if t.Node? {
      NodeSplit(t);
      var l, x, r := Elements(t.left), Entry(t.key, t.value), Elements(t.right);
      BelowAppend(l + [x], r, k);
      BelowAppend(l, [x], k);
      RankSpec(t.left, k);
      RankSpec(t.right, k);
      if k == t.key {
        BelowAll(l, k);
        BelowNone(r, k);
        SizesOkCount(t.left);
      } else if k > t.key {
        BelowAll(l, k);
      } else {
        BelowNone(r, k);
      }
    }
  }

  // ---------------------------------------------------------------------
  // In-order walks

  /** `inorder(Node, List)`: appends the keys of `t` in ascending order. */
  method InorderKeys<V>(t: Tree<V>, acc: seq<Key>) returns (out: seq<Key>)
    ensures out == acc + KeysOf(Elements(t))
    decreases t
  {
    if t.Leaf? {
      return acc;
    }
    out := InorderKeys(t.left, acc);
    out := out + [t.key];
    out := InorderKeys(t.right, out);
    KeysOfAppend(Elements(t.left) + [Entry(t.key, t.value)], Elements(t.right));
    KeysOfAppend(Elements(t.left), [Entry(t.key, t.value)]);
  }

  /** The keys in [lo, hi] of a node: those of its left, its own when in range, those of its right. */
  lemma BetweenNode<V>(t: Tree<V>, lo: Key, hi: Key)
    requires t.Node?
    ensures KeysOf(Between(Elements(t), lo, hi)) ==
      KeysOf(Between(Elements(t.left), lo, hi)) + (if lo <= t.key <= hi then [t.key] else []) +
      KeysOf(Between(Elements(t.right), lo, hi))
  {
    var x := Entry(t.key, t.value);
    BetweenAppend(Elements(t.left) + [x], Elements(t.right), lo, hi);
    BetweenAppend(Elements(t.left), [x], lo, hi);
    var bl, bx, br := Between(Elements(t.left), lo, hi), Between([x], lo, hi), Between(Elements(t.right), lo, hi);
    assert bx == if lo <= t.key <= hi then [x] else [];
    KeysOfAppend(bl + bx, br);
    KeysOfAppend(bl, bx);
  }

  lemma Regroup<T>(a: seq<T>, b: seq<T>, c: seq<T>, d: seq<T>)
    ensures a + b + c + d == a + (b + c + d)
  {
  }

  /** `inorder(Node, List, K, K)`: appends, in ascending order, the keys of
      `t` that lie in [lo, hi]. */
  method InorderRange<V>(t: Tree<V>, acc: seq<Key>, lo: Key, hi: Key) returns (out: seq<Key>)
    ensures out == acc + KeysOf(Between(Elements(t), lo, hi))
    decreases t
  {
    if t.Leaf? {
      return acc;
    }
    var left := InorderRange(t.left, acc, lo, hi);
    var here := if lo <= t.key && t.key <= hi then [t.key] else [];
    out := InorderRange(t.right, left + here, lo, hi);
    BetweenNode(t, lo, hi);
    ghost var kl, kr := KeysOf(Between(Elements(t.left), lo, hi)), KeysOf(Between(Elements(t.right), lo, hi));
    assert out == acc + kl + here + kr;
    Regroup(acc, kl, here, kr);
  }

  /** `inorder(Node, BiConsumer)`: hands the action every pair of `t` in
      ascending order; the visits are appended to `acc`. */
  method InorderVisit<V>(t: Tree<V>, acc: seq<Entry<V>>) returns (out: seq<Entry<V>>)
    ensures out == acc + Elements(t)
    decreases t
  {
    if t.Leaf? {
      return acc;
    }
    out := InorderVisit(t.left, acc);
    out := out + [Entry(t.key, t.value)];
    out := InorderVisit(t.right, out);
  }

  // ---------------------------------------------------------------------
  // The table object

  /** `BST`: an ordered symbol table over an unbalanced search tree. Its
      `ceiling` is the corrected one above. */
  class BST<V> {
    var root: Tree<V>

    ghost predicate Valid()
      reads this
    {
      Ordered(root) && SizesOk(root)
    }

    /** The pairs of the table in ascending key order. */
    ghost function Contents(): seq<Entry<V>>
      reads this
    {
      Elements(root)
    }

    constructor ()
      ensures Valid() && Contents() == []
    {
      root := Leaf;
    }

    /** `min`: the least key, or null when the table is empty. */
    method Min() returns (r: Option<Key>)
      requires Valid()
      ensures Contents() == [] ==> r == None
      ensures Contents() != [] ==> r == Some(Contents()[0].key)
      ensures r.Some? ==> forall i :: 0 <= i < |Contents()| ==> r.value <= Contents()[i].key
    {
      var m := MinTree(root);
      return KeyOf(m);
    }

    /** `max`: the greatest key, or null when the table is empty. */
    method Max() returns (r: Option<Key>)
      requires Valid()
      ensures Contents() == [] ==> r == None
      ensures Contents() != [] ==> r == Some(Contents()[|Contents()| - 1].key)
      ensures r.Some? ==> forall i :: 0 <= i < |Contents()| ==> Contents()[i].key <= r.value
    {
      var m := MaxTree(root);
      return KeyOf(m);
    }

    /** `floor`: the greatest key at most `k`, or null. */
    method Floor(k: Key) returns (r: Option<Key>)
      requires Valid()
      ensures IsFloor(Contents(), k, r)
    {
      FloorSpec(k, root);
      return KeyOf(FloorTree(k, root));
    }

    /** `ceiling`: the least key at least `k`, or null. */
    method Ceiling(k: Key) returns (r: Option<Key>)
      requires Valid()
      ensures IsCeiling(Contents(), k, r)
    {
      CeilingSpec(k, root);
      return KeyOf(CeilingTree(k, root));
    }

    /** `rank`: the number of keys below `k`. */
    method Rank(k: Key) returns (r: int)
      requires Valid()
      ensures r == CountBelow(Contents(), k)
      ensures 0 <= r <= |Contents()|
    {
      RankSpec(root, k);
      CountBelowBound(Contents(), k);
      return RankTree(root, k);
    }

    /** `size`: the root's stored count. */
    method Size() returns (n: int)
      requires Valid()
      ensures n == |Contents()|
    {
      SizesOkCount(root);
      return SizeOf(root);
    }

    /** `select`: the key of rank `i`; an index outside [0, size) throws. */
    method Select(i: int) returns (r: Result<Key>)
      requires Valid()
      ensures (i < 0 || i >= |Contents()|) ==> r == Err(IndexOutOfBounds)
      ensures 0 <= i < |Contents()| ==> r == Ok(Contents()[i].key)
      ensures r.Ok? ==> CountBelow(Contents(), r.value) == i
    {
      var n := Size();
      if i >= n || i < 0 {
        return Err(IndexOutOfBounds);
      }
      var list := InorderKeys(root, []);
      SortedRank(Contents(), i);
      return Ok(list[i]);
    }

    /** `keys(lo, hi)`: the keys in [lo, hi] in ascending order. */
    method KeysBetween(lo: Key, hi: Key) returns (ks: seq<Key>)
      requires Valid()
      ensures ks == KeysOf(Between(Contents(), lo, hi))
      ensures hi < lo ==> ks == []
    {
      if hi < lo {
        BetweenEmpty(Contents(), lo, hi);
      }
      ks := InorderRange(root, [], lo, hi);
    }

    /** The inherited `keys()`, that is `keys(min(), max())`: every key in
        ascending order. On an empty tree the walk visits no node, so the null
        bounds are never compared. */
    method Keys() returns (ks: seq<Key>)
      requires Valid()
      ensures ks == KeysOf(Contents())
    {
      var lo := Min();
      var hi := Max();
      if lo.None? || hi.None? {
        return [];
      }
      BetweenBounds(Contents());
      ks := KeysBetween(lo.value, hi.value);
    }

    /** The inherited `size(lo, hi)`: from `contains(hi)` and two ranks. It
        counts the keys in [lo, hi], except a key `hi` stored with a null value. */
    method SizeBetween(lo: Key, hi: Key) returns (n: int)
      requires Valid()
      ensures hi < lo ==> n == 0
      ensures lo <= hi ==>
        n == |Between(Contents(), lo, hi)| - if hi in KeysOf(Contents()) && Common.Get(Contents(), hi).None? then 1 else 0
    {
      if hi < lo {
        return 0;
      }
      BetweenCount(Contents(), lo, hi);
      var present := Contains(hi);
      var rh := Rank(hi);
      var rl := Rank(lo);
      if present {
        return rh - rl + 1;
      }
      return rh - rl;
    }

    /** `put`: the pair replaces the old pair with its key or joins in key order. */
    method Put(k: Key, v: Option<V>)
      requires Valid()
      modifies this
      ensures Valid()
      ensures Contents() == Insert(old(Contents()), Entry(k, v))
      ensures Common.Get(Contents(), k) == v
      ensures forall j :: j != k ==> Common.Get(Contents(), j) == Common.Get(old(Contents()), j)
      ensures |Contents()| == if k in KeysOf(old(Contents())) then |old(Contents())| else |old(Contents())| + 1
    {
      PutElements(root, k, v);
      PutSizes(root, k, v);
      InsertCount(Elements(root), Entry(k, v));
      forall j ensures Common.Get(Insert(Elements(root), Entry(k, v)), j) == if j == k then v else Common.Get(Elements(root), j) {
        InsertSpec(Elements(root), Entry(k, v), j);
      }
      root := PutTree(root, k, v);
    }

    /** `get`: walk down from the root comparing keys. */
    method Get(k: Key) returns (r: Option<V>)
      requires Valid()
      ensures r == Common.Get(Contents(), k)
    {
      var node := root;
      while node.Node?
        invariant Ordered(node)
        invariant Common.Get(Elements(node), k) == Common.Get(Contents(), k)
        decreases node
      {
        GetNode(node, k);
        if node.key == k {
          break;
        } else if node.key < k {
          node := node.right;
        } else {
          node := node.left;
        }
      }
      if node.Leaf? {
        return None;
      }
      return node.value;
    }

    /** The inherited `contains`: `get` answers a non-null value. */
    method Contains(k: Key) returns (b: bool)
      requires Valid()
      ensures b <==> Common.Get(Contents(), k).Some?
    {
      var v := Get(k);
      return v.Some?;
    }

    /** The inherited `isEmpty`. */
    method IsEmpty() returns (b: bool)
      requires Valid()
      ensures b <==> Contents() == []
    {
      var n := Size();
      return n == 0;
    }

    /** `forEach`: a null action throws; otherwise the action sees every pair
        once, in ascending key order (the visits are returned). */
    method ForEach(actionGiven: bool) returns (r: Result<seq<Entry<V>>>)
      requires Valid()
      ensures !actionGiven ==> r == Err(NullPointer)
      ensures actionGiven ==> r == Ok(Contents()) && Sorted(r.value)
    {
      if !actionGiven {
        return Err(NullPointer);
      }
      var visits := InorderVisit(root, []);
      assert [] + Elements(root) == Elements(root);
      return Ok(visits);
    }

    /** `deleteMin`: nothing on an empty table; otherwise the least pair goes. */
    method DeleteMin()
      requires Valid()
      modifies this
      ensures Valid()
      ensures old(Contents()) == [] ==> Contents() == old(Contents())
      ensures old(Contents()) != [] ==> Contents() == old(Contents())[1..]
    {
      if root.Leaf? {
        return;
      }
      root := DeleteMinTree(root);
    }

    /** `deleteMax`: nothing on an empty table; otherwise the greatest pair goes. */
    method DeleteMax()
      requires Valid()
      modifies this
      ensures Valid()
      ensures old(Contents()) == [] ==> Contents() == old(Contents())
      ensures old(Contents()) != [] ==> Contents() == old(Contents())[..|old(Contents())| - 1]
    {
      if root.Leaf? {
        return;
      }
      root := DeleteMaxTree(root);
    }

    /** `delete`: exactly the pair with key `k` goes; an absent key leaves
        the tree as it was. */
    method Delete(k: Key)
      requires Valid()
      modifies this
      ensures Valid()
      ensures Contents() == Remove(old(Contents()), k)
      ensures k !in KeysOf(old(Contents())) ==> root == old(root)
      ensures |Contents()| == if k in KeysOf(old(Contents())) then |old(Contents())| - 1 else |old(Contents())|
    {
      DeleteElements(root, k);
      DeleteSizes(root, k);
      SortedDistinct(Elements(root));
      RemoveCount(Elements(root), k);
      if k !in KeysOf(Elements(root)) {
        DeleteAbsent(root, k);
      }
      root := DeleteTree(root, k);
    }
  }
}
