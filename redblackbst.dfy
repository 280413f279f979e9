/** The left-leaning red-black tree of `RedBlackBST`: nodes, the private
    recursive helpers (as functions that return the new subtree), the
    2-3 tree invariants they keep, and the table object around the root. */
module RedBlack {
  import opened Common

  datatype Color = Red | Black

  /** A node owns its subtrees; `n` is the node's stored subtree size `N`. */
  datatype Tree<V> =
    | Leaf
    | Node(color: Color, key: Key, value: Option<V>, left: Tree<V>, right: Tree<V>, n: int)

  /** How `flipColors` changes colours: `Overwrite` is the source's
      (node red, children black); `Invert` flips each of the three. */
  datatype Flip = Overwrite | Invert

  function Opposite(c: Color): Color {
    if c == Red then Black else Red
  }

  /** The number of black links a node adds to every path through it. */
  function Blackness(c: Color): int {
    if c == Black then 1 else 0
  }

  /** `isRed`: null links are black. */
  predicate IsRed<V>(t: Tree<V>) {
    t.Node? && t.color == Red
  }

  /** `size(Node)`: the stored count, 0 for null. */
  function SizeOf<V>(t: Tree<V>): int {
    if t.Leaf? then 0 else t.n
  }

  /** The pairs of a tree in key order: the in-order walk `inorder`. */
  function Elements<V>(t: Tree<V>): seq<Entry<V>> {
    match t
    case Leaf => []
    case Node(_, k, v, l, r, _) => Elements(l) + [Entry(k, v)] + Elements(r)
  }

  /** `resize`: recompute a node's count from its children's. */
  function Resize<V>(h: Tree<V>): (r: Tree<V>)
    requires h.Node?
    ensures r.Node? && Elements(r) == Elements(h)
    ensures r.n == SizeOf(h.left) + SizeOf(h.right) + 1
  {
    h.(n := SizeOf(h.left) + SizeOf(h.right) + 1)
  }

  /** `rotateLeft`: the right child becomes the root of the subtree. */
  function RotateLeft<V>(h: Tree<V>): (x: Tree<V>)
    requires h.Node? && h.right.Node?
    ensures x.Node? && x.left.Node? && Elements(x) == Elements(h)
  {
    var r := h.right;
    r.(left := Resize(h.(right := r.left, color := Red)), color := h.color, n := h.n)
  }

  /** `rotateRight`: the left child becomes the root of the subtree. */
  function RotateRight<V>(h: Tree<V>): (x: Tree<V>)
    requires h.Node? && h.left.Node?
    ensures x.Node? && x.right.Node? && Elements(x) == Elements(h)
  {
    var l := h.left;
    l.(right := Resize(h.(left := l.right, color := Red)), color := h.color, n := h.n)
  }

  /** `flipColors` as written: the node red, both children black. */
  function FlipColors<V>(h: Tree<V>): (r: Tree<V>)
    requires h.Node? && h.left.Node? && h.right.Node?
    ensures r.Node? && r.left.Node? && r.right.Node? && Elements(r) == Elements(h)
    ensures IsRed(r) && !IsRed(r.left) && !IsRed(r.right)
  {
    h.(color := Red, left := h.left.(color := Black), right := h.right.(color := Black))
  }

  /** The colour flip the delete helpers need: each of the three colours inverted. */
  function InvertColors<V>(h: Tree<V>): (r: Tree<V>)
    requires h.Node? && h.left.Node? && h.right.Node?
    ensures r.Node? && r.left.Node? && r.right.Node? && Elements(r) == Elements(h)
    ensures r.color != h.color && r.left.color != h.left.color && r.right.color != h.right.color
  {
    h.(color := Opposite(h.color),
       left := h.left.(color := Opposite(h.left.color)),
       right := h.right.(color := Opposite(h.right.color)))
  }

  /** `flipColors` under a flip mode, null children dereferenced as in Java. */
  function FlipWith<V>(mode: Flip, h: Tree<V>): (r: Result<Tree<V>>)
    ensures r.Ok? <==> h.Node? && h.left.Node? && h.right.Node?
    ensures r.Err? ==> r.error == NullPointer
    ensures r.Ok? ==> r.value.Node? && r.value.left.Node? && r.value.right.Node?
    ensures r.Ok? ==> Elements(r.value) == Elements(h)
  {
    if h.Leaf? || h.left.Leaf? || h.right.Leaf? then Err(NullPointer)
    else if mode == Overwrite then Ok(FlipColors(h))
    else Ok(InvertColors(h))
  }

  // ---------------------------------------------------------------------
  // Insertion

  /** The three rebalancing steps at the end of the recursive `put`. */
  function PutFixup<V>(h: Tree<V>): (r: Tree<V>)
    requires h.Node?
    ensures r.Node? && Elements(r) == Elements(h)
  {
    var h1 := if IsRed(h.right) && !IsRed(h.left) then RotateLeft(h) else h;
    var h2 := if IsRed(h1.left) && IsRed(h1.left.left) then RotateRight(h1) else h1;
    var h3 := if IsRed(h2.left) && IsRed(h2.right) then FlipColors(h2) else h2;
    Resize(h3)
  }

  /** The recursive `put(Node, Key, Value)`. */
  function Put<V>(t: Tree<V>, k: Key, v: Option<V>): (r: Tree<V>)
    ensures r.Node?
  {
    if t.Leaf? then Node(Red, k, v, Leaf, Leaf, 1)
    else if k < t.key then PutFixup(t.(left := Put(t.left, k, v)))
    else if k > t.key then PutFixup(t.(right := Put(t.right, k, v)))
    else PutFixup(t.(value := v))
  }

  /** The public `put`: insert, then colour the root black. */
  function PutRoot<V>(t: Tree<V>, k: Key, v: Option<V>): Tree<V> {
    var r := Put(t, k, v);
    r.(color := Black)
  }

  // ---------------------------------------------------------------------
  // Invariants

  /** Search-tree order: the in-order walk has strictly ascending keys. */
  ghost predicate Ordered<V>(t: Tree<V>) {
    Sorted(Elements(t))
  }

  /** Every stored count is the size of its subtree. */
  ghost predicate SizesOk<V>(t: Tree<V>) {
    match t
    case Leaf => true
    case Node(_, _, _, l, r, n) => SizesOk(l) && SizesOk(r) && n == SizeOf(l) + SizeOf(r) + 1
  }

  /** A left-leaning red-black tree with `n` black links on every path from
      the root to a null link: no red right link, no two red links in a
      row; the root itself may be red. */
  ghost predicate RB<V>(t: Tree<V>, n: int) {
    match t
    case Leaf => n == 0
    case Node(c, _, _, l, r, _) =>
      !IsRed(r) && (c == Red ==> !IsRed(l)) &&
      RB(l, n - Blackness(c)) && RB(r, n - Blackness(c))
  }

  /** A red node whose only flaw is a red left child: what `put` returns from a red node. */
  ghost predicate AlmostRB<V>(t: Tree<V>, n: int) {
    t.Node? && t.color == Red && !IsRed(t.right) && RB(t.left, n) && RB(t.right, n)
  }

  /** The number of black links on the leftmost path. */
  function BlackHeight<V>(t: Tree<V>): nat {
    match t
    case Leaf => 0
    case Node(c, _, _, l, _, _) => BlackHeight(l) + (if c == Black then 1 else 0)
  }

  /** The invariant of `RedBlackBST.root`. */
  ghost predicate IsLLRB<V>(t: Tree<V>) {
    Ordered(t) && SizesOk(t) && !IsRed(t) && RB(t, BlackHeight(t))
  }

  lemma {:induction false} RBHeight<V>(t: Tree<V>, n: int)
    requires RB(t, n)
    ensures n == BlackHeight(t)
  {
    if t.Node? { RBHeight(t.left, n - Blackness(t.color)); }
  }

  lemma {:induction false} SizesOkCount<V>(t: Tree<V>)
    requires SizesOk(t)
    ensures SizeOf(t) == |Elements(t)|
  {
    if t.Node? {
      SizesOkCount(t.left);
      SizesOkCount(t.right);
    }
  }

  /** Colouring a red-black tree's root black keeps it one, one level higher. */
  lemma BlackenRB<V>(t: Tree<V>, n: int)
    requires t.Node? && RB(t, n)
    ensures RB(t.(color := Black), if IsRed(t) then n + 1 else n)
  {
  }

  // ---------------------------------------------------------------------
  // Rotations, flips and fix-ups keep the counts right

  lemma RotateLeftSizes<V>(h: Tree<V>)
    requires h.Node? && h.right.Node?
    requires SizesOk(h.left) && SizesOk(h.right.left) && SizesOk(h.right.right)
    ensures SizesOk(RotateLeft(h).left) && SizesOk(RotateLeft(h).right)
    ensures RotateLeft(h).n == h.n
  {
  }

  lemma RotateRightSizes<V>(h: Tree<V>)
    requires h.Node? && h.left.Node?
    requires SizesOk(h.right) && SizesOk(h.left.left) && SizesOk(h.left.right)
    ensures SizesOk(RotateRight(h).left) && SizesOk(RotateRight(h).right)
    ensures RotateRight(h).n == h.n
  {
  }

  /** Fix-up after a recursive call: whatever the root's stale count, the
      result's counts are all right when the children's were. */
  lemma PutFixupSizes<V>(h: Tree<V>)
    requires h.Node? && SizesOk(h.left) && SizesOk(h.right)
    ensures SizesOk(PutFixup(h))
  {
  }

  lemma {:induction false} PutSizes<V>(t: Tree<V>, k: Key, v: Option<V>)
    requires SizesOk(t)
    ensures SizesOk(Put(t, k, v))
  {
    if t.Node? {
      if k < t.key {
        PutSizes(t.left, k, v);
        PutFixupSizes(t.(left := Put(t.left, k, v)));
      } else if k > t.key {
        PutSizes(t.right, k, v);
        PutFixupSizes(t.(right := Put(t.right, k, v)));
      } else {
        PutFixupSizes(t.(value := v));
      }
    }
  }

  // ---------------------------------------------------------------------
  // Contents after put

  /** A node's pairs split around its own: all of the left below it, all of the right above it. */
  lemma NodeSplit<V>(t: Tree<V>)
    requires t.Node? && Ordered(t)
    ensures Ordered(t.left) && Ordered(t.right)
    ensures KeysBelow(Elements(t.left), t.key) && KeysAbove(Elements(t.right), t.key)
  {
    var l, x, r := Elements(t.left), Entry(t.key, t.value), Elements(t.right);
    assert Elements(t) == l + ([x] + r);
    SortedSplit(l, [x] + r);
    assert ([x] + r)[0] == x;
    SortedSplit([x], r);
  }

  lemma {:induction false} PutElements<V>(t: Tree<V>, k: Key, v: Option<V>)
    requires Ordered(t)
    ensures Elements(Put(t, k, v)) == Insert(Elements(t), Entry(k, v))
  {
    if t.Leaf? {
      assert Elements(Put(t, k, v)) == [Entry(k, v)];
    } else {
      NodeSplit(t);
      var l, x, r := Elements(t.left), Entry(t.key, t.value), Elements(t.right);
      if k < t.key {
        PutElements(t.left, k, v);
      } else if k > t.key {
        PutElements(t.right, k, v);
      }
      InsertAround(l, x, r, Entry(k, v));
    }
  }

  // ---------------------------------------------------------------------
  // Balance after put

  /** Below a black node, `put`'s fix-up restores a red-black tree. */
  lemma PutFixupBlack<V>(h: Tree<V>, n: int)
    requires h.Node? && h.color == Black && RB(h.right, n - 1)
    requires RB(h.left, n - 1) || (AlmostRB(h.left, n - 1) && !IsRed(h.right))
    ensures RB(PutFixup(h), n)
  {
    if IsRed(h.right) && !IsRed(h.left) {
      var x := RotateLeft(h);
      assert RB(x, n);
    } else if IsRed(h.left) && IsRed(h.left.left) {
      var x := RotateRight(h);
      assert IsRed(x.left) && IsRed(x.right);
    }
  }

  /** Below a red node, `put`'s fix-up leaves at most a red left child. */
  lemma PutFixupRed<V>(h: Tree<V>, n: int)
    requires h.Node? && h.color == Red && RB(h.left, n) && RB(h.right, n)
    requires !(IsRed(h.left) && IsRed(h.right))
    ensures AlmostRB(PutFixup(h), n)
  {
  }

  /** `put` below a black link gives a red-black tree of the same black
      height; below a red link, one whose root may have a red left child. */
  lemma {:induction false} PutShape<V>(t: Tree<V>, k: Key, v: Option<V>, n: int)
    requires RB(t, n)
    ensures !IsRed(t) ==> RB(Put(t, k, v), n)
    ensures IsRed(t) ==> AlmostRB(Put(t, k, v), n)
  {
    if t.Node? {
      var m := n - Blackness(t.color);
      if k < t.key {
        PutShape(t.left, k, v, m);
      } else if k > t.key {
        PutShape(t.right, k, v, m);
      }
      if t.color == Black {
        var h := if k < t.key then t.(left := Put(t.left, k, v))
                 else if k > t.key then t.(right := Put(t.right, k, v))
                 else t.(value := v);
        PutFixupBlack(h, n);
      } else {
        var h := if k < t.key then t.(left := Put(t.left, k, v))
                 else if k > t.key then t.(right := Put(t.right, k, v))
                 else t.(value := v);
        PutFixupRed(h, n);
      }
    }
  }

  /** The public `put` keeps the root's invariants and stores the pair. */
  lemma PutRootValid<V>(t: Tree<V>, k: Key, v: Option<V>)
    requires IsLLRB(t)
    ensures IsLLRB(PutRoot(t, k, v))
    ensures Elements(PutRoot(t, k, v)) == Insert(Elements(t), Entry(k, v))
  {
    var n := BlackHeight(t);
    PutShape(t, k, v, n);
    PutElements(t, k, v);
    PutSizes(t, k, v);
    InsertSpec(Elements(t), Entry(k, v), k);
    var r := Put(t, k, v);
    BlackenRB(r, n);
    RBHeight(PutRoot(t, k, v), if IsRed(r) then n + 1 else n);
  }

  // ---------------------------------------------------------------------
  // Deletion: the private helpers, null dereferences reported as NullPointer

  /** `moveRedLeft`: make `h.left` or one of its children red. */
  function MoveRedLeft<V>(mode: Flip, h: Tree<V>): (r: Result<Tree<V>>)
    ensures r.Ok? ==> r.value.Node? && Elements(r.value) == Elements(h)
  {
    var h1 :- FlipWith(mode, h);
    if IsRed(h1.right.left) then FlipWith(mode, RotateLeft(h1.(right := RotateRight(h1.right))))
    else Ok(h1)
  }

  /** `moveRedRight`: make `h.right` or one of its children red. */
  function MoveRedRight<V>(mode: Flip, h: Tree<V>): (r: Result<Tree<V>>)
    ensures r.Ok? ==> r.value.Node? && Elements(r.value) == Elements(h)
  {
    var h1 :- FlipWith(mode, h);
    if IsRed(h1.left.left) then FlipWith(mode, RotateRight(h1)) else Ok(h1)
  }

  /** `balance`: the fix-up on the way back up from a deletion. */
  function Balance<V>(h: Tree<V>): (r: Tree<V>)
    requires h.Node?
    ensures r.Node? && Elements(r) == Elements(h)
  {
    var h1 := if IsRed(h.right) then RotateLeft(h) else h;
    var h2 := if IsRed(h1.left) && IsRed(h1.left.left) then RotateRight(h1) else h1;
    var h3 := if IsRed(h2.left) && IsRed(h2.right) then FlipColors(h2) else h2;
    Resize(h3)
  }

  /** `min(Node)`: the leftmost node's pair; null dereferenced on an empty tree. */
  function MinNode<V>(t: Tree<V>): (r: Result<Entry<V>>)
    ensures r.Ok? <==> t.Node?
    ensures r.Ok? ==> Elements(t) != [] && r.value == Elements(t)[0]
  {
    if t.Leaf? then Err(NullPointer)
    else if t.left.Leaf? then Ok(Entry(t.key, t.value))
    else MinNode(t.left)
  }

  /** `max(Node)`: the rightmost node's pair; null dereferenced on an empty tree. */
  function MaxNode<V>(t: Tree<V>): (r: Result<Entry<V>>)
    ensures r.Ok? <==> t.Node?
    ensures r.Ok? ==> Elements(t) != [] && r.value == Elements(t)[|Elements(t)| - 1]
  {
    if t.Leaf? then Err(NullPointer)
    else if t.right.Leaf? then Ok(Entry(t.key, t.value))
    else MaxNode(t.right)
  }

  /** `deleteMin(Node)`. */
  function DeleteMin<V>(mode: Flip, h: Tree<V>): Result<Tree<V>>
    decreases |Elements(h)|
  {
    if h.Leaf? then Err(NullPointer)
    else if h.left.Leaf? then Ok(Leaf)
    else
      var h1 :- if !IsRed(h.left) && !IsRed(h.left.left) then MoveRedLeft(mode, h) else Ok(h);
      var l :- DeleteMin(mode, h1.left);
      Ok(Balance(h1.(left := l)))
  }

  /** `deleteMax(Node)`. */
  function DeleteMax<V>(mode: Flip, h: Tree<V>): Result<Tree<V>>
    decreases |Elements(h)|
  {
    if h.Leaf? then Err(NullPointer)
    else
      var h1 := if IsRed(h.left) then RotateRight(h) else h;
      if h1.right.Leaf? then Ok(Leaf)
      else
        var h2 :- if !IsRed(h1.right) && !IsRed(h1.right.left) then MoveRedRight(mode, h1) else Ok(h1);
        var r :- DeleteMax(mode, h2.right);
        Ok(Balance(h2.(right := r)))
  }

  /** `delete(Node, Key)`; the public `delete` calls it only for a key it holds. */
  function Delete<V>(mode: Flip, h: Tree<V>, k: Key): Result<Tree<V>>
    decreases |Elements(h)|
  {
    if h.Leaf? then Err(NullPointer)
    else if k < h.key then
      var h1 :- if IsRed(h.left) then Ok(h)
                else if h.left.Leaf? then Err(NullPointer)
                else if !IsRed(h.left.left) then MoveRedLeft(mode, h)
                else Ok(h);
      var l :- Delete(mode, h1.left, k);
      Ok(Balance(h1.(left := l)))
    else
      var h1 := if IsRed(h.left) then RotateRight(h) else h;
      if k == h1.key && h1.right.Leaf? then Ok(Leaf)
      else
        var h2 :- if IsRed(h1.right) then Ok(h1)
                  else if h1.right.Leaf? then Err(NullPointer)
                  else if !IsRed(h1.right.left) then MoveRedRight(mode, h1)
                  else Ok(h1);
        if k == h2.key then
          var x :- MinNode(h2.right);
          var r :- DeleteMin(mode, h2.right);
          Ok(Balance(h2.(key := x.key, value := x.value, right := r)))
        else
          var r :- Delete(mode, h2.right, k);
          Ok(Balance(h2.(right := r)))
  }

  /** The root colour-change both public deletions start with. */
  function RedRoot<V>(root: Tree<V>): Tree<V>
    requires root.Node?
  {
    if !IsRed(root.left) && !IsRed(root.right) then root.(color := Red) else root
  }

  /** The closing step of the public deletions: a non-empty result gets a black root. */
  function BlackRoot<V>(t: Tree<V>): Tree<V> {
    if SizeOf(t) == 0 then t else t.(color := Black)
  }

  /** The public `deleteMin` under a flip mode. */
  function DeleteMinRoot<V>(mode: Flip, root: Tree<V>): Result<Tree<V>> {
    if SizeOf(root) == 0 then Err(NoSuchElement)
    else
      var r :- DeleteMin(mode, RedRoot(root));
      Ok(BlackRoot(r))
  }

  /** The public `deleteMax` under a flip mode. */
  function DeleteMaxRoot<V>(mode: Flip, root: Tree<V>): Result<Tree<V>> {
    if SizeOf(root) == 0 then Err(NoSuchElement)
    else
      var r :- DeleteMax(mode, RedRoot(root));
      Ok(BlackRoot(r))
  }

  /** The public `delete` under a flip mode, for a key `contains` reported present. */
  function DeleteRoot<V>(mode: Flip, root: Tree<V>, k: Key): Result<Tree<V>> {
    if root.Leaf? then Err(NullPointer)
    else
      var r :- Delete(mode, RedRoot(root), k);
      Ok(BlackRoot(r))
  }

  // ---------------------------------------------------------------------
  // Deletion keeps the counts, the order and the balance (with `Invert`)

  lemma BalanceSizes<V>(h: Tree<V>)
    requires h.Node? && SizesOk(h.left) && SizesOk(h.right)
    ensures SizesOk(Balance(h))
  {
  }

  /** `balance` turns a node over two red-black subtrees of equal height
      (not red over a red child) into a red-black tree; the result is red
      only when the node was, or both of its children were. */
  lemma BalanceShape<V>(h: Tree<V>, n: int)
    requires h.Node? && RB(h.left, n - Blackness(h.color)) && RB(h.right, n - Blackness(h.color))
    requires IsRed(h) ==> !IsRed(h.left) && !IsRed(h.right)
    ensures RB(Balance(h), n)
    ensures IsRed(Balance(h)) ==> IsRed(h) || (IsRed(h.left) && IsRed(h.right))
  {
    if IsRed(h.right) {
      var x := RotateLeft(h);
      if IsRed(h.left) {
        var z := RotateRight(x);
        assert IsRed(z.left) && IsRed(z.right);
        BlackenRB(h.left, n - 1);
      } else {
        assert RB(x, n);
      }
    }
  }

  /** A red-black tree of positive black height is not empty. */
  lemma RBNode<V>(t: Tree<V>, n: int)
    requires RB(t, n) && n > 0
    ensures t.Node?
  {
  }

  /** A rotation keeps the counts of a tree whose counts were right. */
  lemma RotateLeftKeepsSizes<V>(h: Tree<V>)
    requires h.Node? && h.right.Node? && SizesOk(h)
    ensures SizesOk(RotateLeft(h))
  {
    var x := RotateLeft(h);
    RotateLeftSizes(h);
    SizesOkCount(h);
    SizesOkCount(x.left);
    SizesOkCount(x.right);
  }

  lemma RotateRightKeepsSizes<V>(h: Tree<V>)
    requires h.Node? && h.left.Node? && SizesOk(h)
    ensures SizesOk(RotateRight(h))
  {
    var x := RotateRight(h);
    RotateRightSizes(h);
    SizesOkCount(h);
    SizesOkCount(x.left);
    SizesOkCount(x.right);
  }

  /** `moveRedLeft` (with `Invert`) on a red node whose left child and its
      left child are black: the left subtree gains a red link at its top,
      the result is a red-black arrangement of the same height, and every
      pair of the old left subtree stays on the left. */
  lemma MoveRedLeftValid<V>(h: Tree<V>, n: int)
    requires h.Node? && IsRed(h) && RB(h, n) && SizesOk(h)
    requires h.left.Node? && !IsRed(h.left) && !IsRed(h.left.left)
    ensures MoveRedLeft(Invert, h).Ok?
    ensures var g := MoveRedLeft(Invert, h).value;
      SizesOk(g) && Elements(h.left) <= Elements(g.left) &&
      RB(g.left, n - Blackness(g.color)) && RB(g.right, n - Blackness(g.color)) &&
      (IsRed(g.left) || (g.left.Node? && IsRed(g.left.left))) &&
      (IsRed(g) ==> !IsRed(g.left) && !IsRed(g.right))
  {
    RBHeight(h.left.left, n - 1);
    RBNode(h.right, n);
    if IsRed(h.right.left) {
      MoveRedLeftRotated(h, n);
    } else {
      MoveRedLeftFlipped(h, n);
    }
  }

  /** The case of `moveRedLeft` that only flips the colours. */
  lemma MoveRedLeftFlipped<V>(h: Tree<V>, n: int)
    requires h.Node? && IsRed(h) && RB(h, n) && SizesOk(h)
    requires h.left.Node? && !IsRed(h.left) && !IsRed(h.left.left)
    requires h.right.Node? && !IsRed(h.right.left)
    ensures MoveRedLeft(Invert, h) == Ok(InvertColors(h))
    ensures var g := InvertColors(h);
      SizesOk(g) && g.color == Black && RB(g.left, n - 1) && RB(g.right, n - 1) && IsRed(g.left)
  {
    assert RB(h.left, n) && RB(h.right, n) && !IsRed(h.right);
    assert RB(h.left.(color := Red), n - 1);
    assert RB(h.right.(color := Red), n - 1);
  }

  /** The case of `moveRedLeft` that borrows the right child's red link. */
  lemma MoveRedLeftRotated<V>(h: Tree<V>, n: int)
    requires h.Node? && IsRed(h) && RB(h, n) && SizesOk(h)
    requires h.left.Node? && !IsRed(h.left) && !IsRed(h.left.left)
    requires h.right.Node? && IsRed(h.right.left)
    ensures MoveRedLeft(Invert, h).Ok?
    ensures var g := MoveRedLeft(Invert, h).value;
      SizesOk(g) && Elements(h.left) <= Elements(g.left) &&
      g.color == Red && RB(g.left, n) && RB(g.right, n) &&
      !IsRed(g.left) && IsRed(g.left.left) && !IsRed(g.right)
  {
    MoveRedLeftRotatedSizes(h);
    MoveRedLeftRotatedShape(h, n);
  }

  /** The counts `MoveRedLeftRotated` promises. */
  lemma MoveRedLeftRotatedSizes<V>(h: Tree<V>)
    requires h.Node? && SizesOk(h) && h.left.Node? && h.right.Node? && IsRed(h.right.left)
    ensures MoveRedLeft(Invert, h).Ok? && SizesOk(MoveRedLeft(Invert, h).value)
  {
    var h1 := InvertColors(h);
    var y := RotateRight(h1.right);
    RotateRightKeepsSizes(h1.right);
    SizesOkCount(y);
    SizesOkCount(h1.right);
    var g0 := h1.(right := y);
    RotateLeftKeepsSizes(g0);
    assert MoveRedLeft(Invert, h) == Ok(InvertColors(RotateLeft(g0)));
  }

  /** The colours and the left part `MoveRedLeftRotated` promises. */
  lemma MoveRedLeftRotatedShape<V>(h: Tree<V>, n: int)
    requires h.Node? && IsRed(h) && RB(h, n)
    requires h.left.Node? && !IsRed(h.left) && !IsRed(h.left.left)
    requires h.right.Node? && IsRed(h.right.left)
    ensures MoveRedLeft(Invert, h).Ok?
    ensures var g := MoveRedLeft(Invert, h).value;
      Elements(h.left) <= Elements(g.left) &&
      g.color == Red && RB(g.left, n) && RB(g.right, n) &&
      !IsRed(g.left) && IsRed(g.left.left) && !IsRed(g.right)
  {
    var L, R := h.left, h.right;
    assert RB(L, n) && RB(R, n) && !IsRed(R);
    assert RB(R.left, n - 1) && RB(R.right, n - 1);
    var A, B := R.left.left, R.left.right;
    assert RB(A, n - 1) && RB(B, n - 1) && !IsRed(A) && !IsRed(B);
    assert RB(L.(color := Red), n - 1);
    var h1 := InvertColors(h);
    var g0 := h1.(right := RotateRight(h1.right));
    var g := InvertColors(RotateLeft(g0));
    assert MoveRedLeft(Invert, h) == Ok(g);
    assert g.color == Red;
    assert g.left == Node(Black, h.key, h.value, L.(color := Red), A, g.left.n);
    assert g.right == Node(Black, R.key, R.value, B, R.right, g.right.n);
    assert Elements(g.left) == Elements(h.left) + [Entry(h.key, h.value)] + Elements(A);
  }

  /** A black node leaning right: a black left child and a red right child,
      both red-black of height `n - 1`. `moveRedRight` leaves one of these on
      the right when it rotates, and `delete` descends into it. */
  ghost predicate RightLeaning<V>(t: Tree<V>, n: int) {
    t.Node? && t.color == Black && !IsRed(t.left) && IsRed(t.right) &&
    RB(t.left, n - 1) && RB(t.right, n - 1)
  }

  /** `moveRedRight` (with `Invert`) on a red node whose right child and its
      left child are black: either the node turns black over two red
      children, or the left child's red link is rotated up and a
      right-leaning copy of the node goes to the right. */
  lemma MoveRedRightValid<V>(h: Tree<V>, n: int)
    requires h.Node? && IsRed(h) && RB(h, n) && SizesOk(h)
    requires h.right.Node? && !IsRed(h.right) && !IsRed(h.right.left)
    ensures MoveRedRight(Invert, h).Ok?
    ensures var g := MoveRedRight(Invert, h).value;
      SizesOk(g) &&
      ((g.color == Black && g.key == h.key && g.value == h.value &&
        IsRed(g.left) && IsRed(g.right) && RB(g.left, n - 1) && RB(g.right, n - 1) &&
        Elements(g.left) == Elements(h.left) && Elements(g.right) == Elements(h.right)) ||
       (g.color == Red && !IsRed(g.left) && RB(g.left, n) && RightLeaning(g.right, n) &&
        g.right.key == h.key && g.right.value == h.value &&
        Elements(g.right.right) == Elements(h.right) &&
        Elements(g.left) + [Entry(g.key, g.value)] + Elements(g.right.left) == Elements(h.left)))
  {
    RBHeight(h.right.left, n - 1);
    RBNode(h.left, n);
    var h1 := InvertColors(h);
    var L, R := h.left, h.right;
    assert RB(R.(color := Red), n - 1);
    if IsRed(h1.left.left) {
      var x := RotateRight(h1);
      RotateRightKeepsSizes(h1);
      var g := InvertColors(x);
      assert MoveRedRight(Invert, h) == Ok(g);
      assert g.right == Node(Black, h.key, h.value, L.right, R.(color := Red), g.right.n);
      BlackenRB(L.left, n - 1);
      assert g.left == L.left.(color := Black);
    } else {
      assert MoveRedRight(Invert, h) == Ok(h1);
      assert RB(L.(color := Red), n - 1);
    }
  }

  /** The step that `deleteMin` and `delete` take before descending left:
      `moveRedLeft` when the left child and its left child are black. */
  ghost function PrepLeft<V>(h: Tree<V>): Result<Tree<V>>
    requires h.Node? && h.left.Node?
  {
    if !IsRed(h.left) && !IsRed(h.left.left) then MoveRedLeft(Invert, h) else Ok(h)
  }

  /** After that step the left child can lose a black link: it is red or
      has a red left child, and the node and its children balance again
      afterwards. */
  lemma PrepLeftValid<V>(h: Tree<V>, n: int)
    requires h.Node? && h.left.Node? && RB(h, n) && (IsRed(h) || IsRed(h.left)) && SizesOk(h)
    ensures PrepLeft(h).Ok?
    ensures var g := PrepLeft(h).value;
      g.Node? && SizesOk(g) && Elements(g) == Elements(h) && Elements(h.left) <= Elements(g.left) &&
      RB(g.left, n - Blackness(g.color)) && RB(g.right, n - Blackness(g.color)) &&
      (IsRed(g.left) || (g.left.Node? && IsRed(g.left.left))) &&
      (IsRed(g) ==> !IsRed(g.left) && !IsRed(g.right)) &&
      (!IsRed(h) ==> !IsRed(g) && !IsRed(g.right))
  {
    if !IsRed(h.left) && !IsRed(h.left.left) {
      MoveRedLeftValid(h, n);
    }
  }

  /** One recursive step of `deleteMin` (with `Invert`), in terms of the
      preparation step. */
  lemma DeleteMinStep<V>(h: Tree<V>)
    requires h.Node? && h.left.Node? && PrepLeft(h).Ok?
    requires DeleteMin(Invert, PrepLeft(h).value.left).Ok?
    ensures var g := PrepLeft(h).value;
      DeleteMin(Invert, h) == Ok(Balance(g.(left := DeleteMin(Invert, g.left).value)))
  {
  }

  /** A node ready for `deleteMin` without a left child holds one pair. */
  lemma DeleteMinLast<V>(h: Tree<V>, n: int)
    requires MinReady(h, n) && h.left.Leaf?
    ensures n == 0 && h.right.Leaf?
  {
    assert IsRed(h) && RB(h.left, n) && RB(h.right, n);
    if h.right.Node? { RBHeight(h.right.left, n - 1); }
  }

  /** `deleteMin` (with `Invert`) on a red-black tree whose root or left
      child is red removes the first pair and returns a red-black tree of
      the same height, with right counts, red only if the input was. */
  lemma {:induction false} DeleteMinValid<V>(h: Tree<V>, n: int)
    requires MinReady(h, n) && SizesOk(h)
    ensures DeleteMin(Invert, h).Ok?
    ensures var r := DeleteMin(Invert, h).value;
      RB(r, n) && (IsRed(r) ==> IsRed(h)) && SizesOk(r) && Elements(r) == Elements(h)[1..]
    decreases |Elements(h)|, 1
  {
    if h.left.Leaf? {
      DeleteMinLast(h, n);
    } else {
      PrepLeftValid(h, n);
      var g := PrepLeft(h).value;
      DeleteMinBelow(g, n);
      DeleteMinStep(h);
    }
  }

  /** After the preparation step, deleting the minimum below the left child
      and rebalancing gives a red-black tree. */
  lemma {:induction false} DeleteMinBelow<V>(g: Tree<V>, n: int)
    requires g.Node? && SizesOk(g) && MinReady(g.left, n - Blackness(g.color)) && RB(g.right, n - Blackness(g.color))
    requires IsRed(g) ==> !IsRed(g.left) && !IsRed(g.right)
    ensures DeleteMin(Invert, g.left).Ok?
    ensures var b := Balance(g.(left := DeleteMin(Invert, g.left).value));
      RB(b, n) && (IsRed(b) ==> IsRed(g) || IsRed(g.right)) && SizesOk(b) &&
      Elements(b) == Elements(g)[1..]
    decreases |Elements(g)|, 0
  {
    var m := n - Blackness(g.color);
    assert |Elements(g.left)| < |Elements(g)| by {
      assert Elements(g) == Elements(g.left) + [Entry(g.key, g.value)] + Elements(g.right);
    }
    DeleteMinValid(g.left, m);
    DeleteMinJoin(g, DeleteMin(Invert, g.left).value, n);
  }

  /** Rebalancing after the left child has been replaced by `l1`, a
      red-black tree of the same height that is red only if the old left
      child was. */
  lemma BalanceLeftJoin<V>(g: Tree<V>, l1: Tree<V>, n: int)
    requires g.Node? && SizesOk(g.right) && RB(l1, n - Blackness(g.color)) && RB(g.right, n - Blackness(g.color)) && SizesOk(l1)
    requires IsRed(g) ==> !IsRed(g.left) && !IsRed(g.right)
    requires IsRed(l1) ==> IsRed(g.left)
    ensures var b := Balance(g.(left := l1));
      RB(b, n) && (IsRed(b) ==> IsRed(g) || IsRed(g.right)) && SizesOk(b)
  {
    var h2 := g.(left := l1);
    var b := Balance(h2);
    assert RB(b, n) && (IsRed(b) ==> IsRed(g) || IsRed(g.right)) by {
      BalanceShape(h2, n);
    }
    assert SizesOk(b) by {
      BalanceSizes(h2);
    }
  }

  /** Rebalancing after the right child has been replaced by `r1`. */
  lemma BalanceRightJoin<V>(g: Tree<V>, r1: Tree<V>, n: int)
    requires g.Node? && SizesOk(g.left) && RB(g.left, n - Blackness(g.color)) && RB(r1, n - Blackness(g.color)) && SizesOk(r1)
    requires IsRed(g) ==> !IsRed(g.left) && !IsRed(g.right)
    requires IsRed(r1) ==> IsRed(g.right)
    ensures var b := Balance(g.(right := r1));
      RB(b, n) && (IsRed(b) ==> IsRed(g) || IsRed(g.left)) && SizesOk(b)
  {
    var h2 := g.(right := r1);
    var b := Balance(h2);
    assert RB(b, n) && (IsRed(b) ==> IsRed(g) || IsRed(g.left)) by {
      BalanceShape(h2, n);
    }
    assert SizesOk(b) by {
      BalanceSizes(h2);
    }
  }

  /** Rebalancing after the left child `g.left` has been replaced by the
      result `l1` of deleting its minimum. */
  lemma DeleteMinJoin<V>(g: Tree<V>, l1: Tree<V>, n: int)
    requires g.Node? && SizesOk(g) && RB(l1, n - Blackness(g.color)) && RB(g.right, n - Blackness(g.color)) && SizesOk(l1)
    requires IsRed(g) ==> !IsRed(g.left) && !IsRed(g.right)
    requires IsRed(l1) ==> IsRed(g.left)
    requires g.left.Node? && Elements(l1) == Elements(g.left)[1..]
    ensures var b := Balance(g.(left := l1));
      RB(b, n) && (IsRed(b) ==> IsRed(g) || IsRed(g.right)) && SizesOk(b) &&
      Elements(b) == Elements(g)[1..]
  {
    BalanceLeftJoin(g, l1, n);
    var x := Entry(g.key, g.value);
    assert Elements(Balance(g.(left := l1))) == Elements(l1) + [x] + Elements(g.right);
    DropFirst(Elements(g.left), x, Elements(g.right));
  }

  /** The first step of `deleteMax` and of `delete` at or right of a node:
      rotate a red left link to the right. */
  ghost function LeanRight<V>(h: Tree<V>): Tree<V>
    requires h.Node?
  {
    if IsRed(h.left) then RotateRight(h) else h
  }

  /** The step that `deleteMax` and `delete` take before descending right:
      `moveRedRight` when the right child and its left child are black. */
  ghost function PrepRight<V>(h: Tree<V>): Result<Tree<V>>
    requires h.Node? && h.right.Node?
  {
    if !IsRed(h.right) && !IsRed(h.right.left) then MoveRedRight(Invert, h) else Ok(h)
  }

  /** The states in which `deleteMin` may be entered: a red-black tree
      whose root or left child is red. */
  ghost predicate MinReady<V>(h: Tree<V>, n: int) {
    h.Node? && RB(h, n) && (IsRed(h) || IsRed(h.left))
  }

  /** The states in which `deleteMax` may be entered. */
  ghost predicate MaxReady<V>(h: Tree<V>, n: int) {
    MinReady(h, n) || RightLeaning(h, n)
  }

  /** The states in which `delete` may be entered for key `k`. */
  ghost predicate DeleteReady<V>(h: Tree<V>, n: int, k: Key) {
    MinReady(h, n) || (RightLeaning(h, n) && k >= h.key)
  }

  /** Rotating a red left link of a black node to the right leans it right. */
  lemma LeanRightValid<V>(h: Tree<V>, n: int)
    requires MaxReady(h, n) && SizesOk(h)
    ensures var h1 := LeanRight(h);
      h1.Node? && SizesOk(h1) && Elements(h1) == Elements(h) &&
      (IsRed(h1) ==> RB(h1, n) && !IsRed(h1.left)) &&
      (!IsRed(h1) ==> RightLeaning(h1, n)) &&
      (!IsRed(h) ==> !IsRed(h1)) &&
      (IsRed(h.left) ==> h1.right.key == h.key && h1.right.value == h.value &&
                         Elements(h1.right.right) == Elements(h.right) &&
                         Elements(h1.left) + [Entry(h1.key, h1.value)] + Elements(h1.right.left) == Elements(h.left)) &&
      (!IsRed(h.left) ==> h1 == h)
  {
    if IsRed(h.left) {
      RotateRightKeepsSizes(h);
      var L := h.left;
      assert RB(L, n - 1) && RB(h.right, n - 1);
      assert RB(L.left, n - 1) && RB(L.right, n - 1);
      var h1 := LeanRight(h);
      assert h1.right == Node(Red, h.key, h.value, L.right, h.right, h1.right.n);
      assert RB(h1.right, n - 1) && RB(h1.left, n - 1);
      assert RightLeaning(h1, n);
    }
  }

  /** Before descending right, the right child can lose a black link. */
  lemma PrepRightValid<V>(h1: Tree<V>, n: int)
    requires h1.Node? && h1.right.Node? && SizesOk(h1)
    requires (IsRed(h1) && RB(h1, n) && !IsRed(h1.left)) || RightLeaning(h1, n)
    ensures PrepRight(h1).Ok?
    ensures var g := PrepRight(h1).value;
      var m := n - Blackness(g.color);
      g.Node? && SizesOk(g) && Elements(g) == Elements(h1) &&
      ((RB(g.right, m) && (IsRed(g.right) || (g.right.Node? && IsRed(g.right.left)))) || RightLeaning(g.right, m)) &&
      RB(g.left, m) &&
      (IsRed(g) ==> !IsRed(g.left) && !IsRed(g.right)) &&
      (!IsRed(h1) ==> !IsRed(g) && !IsRed(g.left))
  {
    if !IsRed(h1.right) && !IsRed(h1.right.left) {
      MoveRedRightValid(h1, n);
    }
  }

  /** `moveRedRight` is not needed: the node itself is the prepared node. */
  lemma PrepRightKept<V>(h1: Tree<V>, n: int)
    requires h1.Node? && h1.right.Node? && (IsRed(h1.right) || IsRed(h1.right.left))
    requires (IsRed(h1) && RB(h1, n)) || RightLeaning(h1, n)
    ensures PrepRight(h1) == Ok(h1) && RightPrepared(h1, h1, n - Blackness(h1.color))
  {
    assert MinReady(h1.right, n - Blackness(h1.color));
  }

  /** `moveRedRight` runs, on a red node. */
  lemma PrepRightMoved<V>(h1: Tree<V>, n: int)
    requires h1.Node? && h1.right.Node? && SizesOk(h1) && IsRed(h1) && RB(h1, n)
    requires !IsRed(h1.right) && !IsRed(h1.right.left)
    ensures PrepRight(h1).Ok?
    ensures var g := PrepRight(h1).value;
      g.Node? && RightPrepared(h1, g, n - Blackness(g.color))
  {
    MoveRedRightValid(h1, n);
    var g := MoveRedRight(Invert, h1).value;
    if g.color == Black {
      assert MinReady(g.right, n - 1);
    } else {
      assert RightLeaning(g.right, n);
    }
  }

  /** One step of `deleteMax` on a node. */
  lemma DeleteMaxUnfold<V>(mode: Flip, h: Tree<V>)
    requires h.Node?
    ensures var h1 := if IsRed(h.left) then RotateRight(h) else h;
      (h1.right.Leaf? ==> DeleteMax(mode, h) == Ok(Leaf)) &&
      (h1.right.Node? ==>
        var pre := if !IsRed(h1.right) && !IsRed(h1.right.left) then MoveRedRight(mode, h1) else Ok(h1);
        pre.Ok? && DeleteMax(mode, pre.value.right).Ok? ==>
        DeleteMax(mode, h) == Ok(Balance(pre.value.(right := DeleteMax(mode, pre.value.right).value))))
  {
  }

  /** `r` is a red-black tree of black height `n` holding the pairs of `h`
      but the last. */
  ghost predicate MaxDropped<V>(h: Tree<V>, r: Tree<V>, n: int) {
    RB(r, n) && SizesOk(r) && |Elements(h)| > 0 && Elements(r) == Elements(h)[..|Elements(h)| - 1]
  }

  /** Rebalancing after the right child `g.right` has been replaced by the
      result `r1` of deleting its maximum. */
  lemma DeleteMaxJoin<V>(g: Tree<V>, r1: Tree<V>, n: int)
    requires g.Node? && SizesOk(g) && RB(g.left, n - Blackness(g.color))
    requires IsRed(g) ==> !IsRed(g.left) && !IsRed(g.right)
    requires IsRed(r1) ==> IsRed(g.right)
    requires MaxDropped(g.right, r1, n - Blackness(g.color))
    ensures var b := Balance(g.(right := r1));
      MaxDropped(g, b, n) && (IsRed(b) ==> IsRed(g) || IsRed(g.left))
  {
    BalanceRightJoin(g, r1, n);
    var x := Entry(g.key, g.value);
    assert Elements(Balance(g.(right := r1))) == Elements(g.left) + [x] + Elements(r1);
    DropLast(Elements(g.left), x, Elements(g.right));
  }

  /** When the leaned node has no right child it holds the only pair. */
  lemma DeleteMaxLast<V>(h: Tree<V>, n: int)
    requires MaxReady(h, n) && SizesOk(h)
    requires LeanRight(h).right.Leaf?
    ensures n == 0 && |Elements(h)| == 1
  {
    LeanRightValid(h, n);
    var h1 := LeanRight(h);
    if h1.left.Node? { RBHeight(h1.left.right, n - 1); }
    assert Elements(h1) == [Entry(h1.key, h1.value)];
  }

  /** `deleteMax` (with `Invert`) removes the last pair and returns a
      red-black tree of the same height, red only if the input was. */
  lemma {:induction false} DeleteMaxValid<V>(h: Tree<V>, n: int)
    requires MaxReady(h, n) && SizesOk(h)
    ensures DeleteMax(Invert, h).Ok?
    ensures var r := DeleteMax(Invert, h).value;
      MaxDropped(h, r, n) && (IsRed(r) ==> IsRed(h))
    decreases |Elements(h)|, 2
  {
    DeleteMaxUnfold(Invert, h);
    if LeanRight(h).right.Leaf? {
      DeleteMaxLast(h, n);
    } else {
      DeleteMaxDescend(h, n);
    }
  }

  /** The recursive case of `DeleteMaxValid`: the pair is deleted below
      the right child. */
  lemma {:induction false} DeleteMaxDescend<V>(h: Tree<V>, n: int)
    requires MaxReady(h, n) && SizesOk(h) && LeanRight(h).right.Node?
    ensures DeleteMax(Invert, h).Ok?
    ensures var r := DeleteMax(Invert, h).value;
      MaxDropped(h, r, n) && (IsRed(r) ==> IsRed(h))
    decreases |Elements(h)|, 1
  {
    LeanRightValid(h, n);
    var h1 := LeanRight(h);
    PrepRightValid(h1, n);
    var g := PrepRight(h1).value;
    DeleteMaxBelow(g, n);
    DeleteMaxStep(h);
  }

  /** After the preparation steps, deleting the maximum below the right
      child and rebalancing gives a red-black tree. */
  lemma {:induction false} DeleteMaxBelow<V>(g: Tree<V>, n: int)
    requires g.Node? && SizesOk(g) && MaxReady(g.right, n - Blackness(g.color)) && RB(g.left, n - Blackness(g.color))
    requires IsRed(g) ==> !IsRed(g.left) && !IsRed(g.right)
    ensures DeleteMax(Invert, g.right).Ok?
    ensures var b := Balance(g.(right := DeleteMax(Invert, g.right).value));
      MaxDropped(g, b, n) && (IsRed(b) ==> IsRed(g) || IsRed(g.left))
    decreases |Elements(g)|, 0
  {
    var m := n - Blackness(g.color);
    SizesOkCount(g);
    SizesOkCount(g.right);
    DeleteMaxValid(g.right, m);
    DeleteMaxJoin(g, DeleteMax(Invert, g.right).value, n);
  }

  /** One recursive step of `deleteMax` (with `Invert`), in terms of the
      two preparation steps. */
  lemma DeleteMaxStep<V>(h: Tree<V>)
    requires h.Node? && LeanRight(h).right.Node? && PrepRight(LeanRight(h)).Ok?
    requires DeleteMax(Invert, PrepRight(LeanRight(h)).value.right).Ok?
    ensures var g := PrepRight(LeanRight(h)).value;
      DeleteMax(Invert, h) == Ok(Balance(g.(right := DeleteMax(Invert, g.right).value)))
  {
  }

  /** The two outcomes of preparing node `h1` for a descent to the right
      into node `g` with black height `m` below it: the pair stays at the
      top over a right child ready for `deleteMin`, or it moves down into
      a right-leaning right child. */
  ghost predicate RightPrepared<V>(h1: Tree<V>, g: Tree<V>, m: int)
    requires h1.Node? && g.Node?
  {
    (g.key == h1.key && g.value == h1.value && Elements(g.left) == Elements(h1.left) &&
     Elements(g.right) == Elements(h1.right) && MinReady(g.right, m)) ||
    (RightLeaning(g.right, m) && g.right.key == h1.key &&
     Elements(g.right.right) == Elements(h1.right) &&
     Elements(g.left) + [Entry(g.key, g.value)] + Elements(g.right.left) == Elements(h1.left))
  }

  /** Before descending right, `moveRedRight` either keeps the node's pair
      at the top with a right child ready for `deleteMin`, or rotates the
      pair down into a right-leaning right child. */
  lemma PrepRightCases<V>(h1: Tree<V>, n: int)
    requires h1.Node? && h1.right.Node? && SizesOk(h1)
    requires (IsRed(h1) && RB(h1, n) && !IsRed(h1.left)) || RightLeaning(h1, n)
    ensures PrepRight(h1).Ok?
    ensures var g := PrepRight(h1).value;
      var m := n - Blackness(g.color);
      g.Node? &&
      RightPrepared(h1, g, m)
  {
    if !IsRed(h1.right) && !IsRed(h1.right.left) {
      PrepRightMoved(h1, n);
    } else {
      PrepRightKept(h1, n);
    }
  }

  /** One recursive step of `delete` (with `Invert`) to the left. */
  lemma DeleteLeftStep<V>(h: Tree<V>, k: Key)
    requires h.Node? && h.left.Node? && k < h.key && PrepLeft(h).Ok?
    requires Delete(Invert, PrepLeft(h).value.left, k).Ok?
    ensures var g := PrepLeft(h).value;
      Delete(Invert, h, k) == Ok(Balance(g.(left := Delete(Invert, g.left, k).value)))
  {
  }

  /** `delete` of the key of a leaned node without a right child. */
  lemma DeleteHereLeaf<V>(h: Tree<V>, k: Key)
    requires h.Node? && k >= h.key && LeanRight(h).right.Leaf? && k == LeanRight(h).key
    ensures Delete(Invert, h, k) == Ok(Leaf)
  {
  }

  /** One recursive step of `delete` (with `Invert`) at or right of a node:
      replace the node's pair by its successor, or delete on the right. */
  lemma DeleteRightStep<V>(h: Tree<V>, k: Key)
    requires h.Node? && k >= h.key && LeanRight(h).right.Node? && PrepRight(LeanRight(h)).Ok?
    ensures var g := PrepRight(LeanRight(h)).value;
      (k == g.key && MinNode(g.right).Ok? && DeleteMin(Invert, g.right).Ok? ==>
        Delete(Invert, h, k) ==
          Ok(Balance(g.(key := MinNode(g.right).value.key, value := MinNode(g.right).value.value,
                        right := DeleteMin(Invert, g.right).value)))) &&
      (k != g.key && Delete(Invert, g.right, k).Ok? ==>
        Delete(Invert, h, k) == Ok(Balance(g.(right := Delete(Invert, g.right, k).value))))
  {
  }

  /** `delete` (with `Invert`) of a key the tree holds removes exactly that
      key's pair and returns a red-black tree of the same height, with right
      counts, red only if the input was. */
  lemma {:induction false} DeleteValid<V>(h: Tree<V>, n: int, k: Key)
    requires DeleteReady(h, n, k) && SizesOk(h) && Ordered(h) && k in KeysOf(Elements(h))
    ensures Delete(Invert, h, k).Ok?
    ensures var r := Delete(Invert, h, k).value;
      RB(r, n) && (IsRed(r) ==> IsRed(h)) && SizesOk(r) && Elements(r) == Remove(Elements(h), k)
    decreases |Elements(h)|, 3
  {
    if k < h.key {
      DeleteLeft(h, n, k);
    } else {
      DeleteRight(h, n, k);
    }
  }

  /** The case of `DeleteValid` for a key below the node's. */
  lemma {:induction false} DeleteLeft<V>(h: Tree<V>, n: int, k: Key)
    requires DeleteReady(h, n, k) && SizesOk(h) && Ordered(h) && k in KeysOf(Elements(h))
    requires k < h.key
    ensures Delete(Invert, h, k).Ok?
    ensures var r := Delete(Invert, h, k).value;
      RB(r, n) && (IsRed(r) ==> IsRed(h)) && SizesOk(r) && Elements(r) == Remove(Elements(h), k)
    decreases |Elements(h)|, 1
  {
    NodeSplit(h);
    KeysAround(Elements(h.left), Entry(h.key, h.value), Elements(h.right), k);
    PrepLeftValid(h, n);
    var g := PrepLeft(h).value;
    KeysOfPrefix(Elements(h.left), Elements(g.left), k);
    DeleteLeftBelow(g, n, k);
    DeleteLeftStep(h, k);
  }

  /** After the preparation step, deleting below the left child and
      rebalancing removes the key. */
  lemma {:induction false} DeleteLeftBelow<V>(g: Tree<V>, n: int, k: Key)
    requires g.Node? && SizesOk(g) && Ordered(g) && MinReady(g.left, n - Blackness(g.color)) && RB(g.right, n - Blackness(g.color))
    requires IsRed(g) ==> !IsRed(g.left) && !IsRed(g.right)
    requires k in KeysOf(Elements(g.left))
    ensures Delete(Invert, g.left, k).Ok?
    ensures var b := Balance(g.(left := Delete(Invert, g.left, k).value));
      RB(b, n) && (IsRed(b) ==> IsRed(g) || IsRed(g.right)) && SizesOk(b) &&
      Elements(b) == Remove(Elements(g), k)
    decreases |Elements(g)|, 0
  {
    var m := n - Blackness(g.color);
    var x := Entry(g.key, g.value);
    assert Elements(g) == Elements(g.left) + [x] + Elements(g.right);
    NodeSplit(g);
    KeysBelowIn(Elements(g.left), g.key, k);
    DeleteValid(g.left, m, k);
    var l1 := Delete(Invert, g.left, k).value;
    BalanceLeftJoin(g, l1, n);
    RemoveAround(Elements(g.left), x, Elements(g.right), k);
    assert Elements(Balance(g.(left := l1))) == Elements(l1) + [x] + Elements(g.right);
  }

  /** The case of `DeleteValid` for a key at or above the node's. */
  lemma {:induction false} DeleteRight<V>(h: Tree<V>, n: int, k: Key)
    requires DeleteReady(h, n, k) && SizesOk(h) && Ordered(h) && k in KeysOf(Elements(h))
    requires k >= h.key
    ensures Delete(Invert, h, k).Ok?
    ensures var r := Delete(Invert, h, k).value;
      RB(r, n) && (IsRed(r) ==> IsRed(h)) && SizesOk(r) && Elements(r) == Remove(Elements(h), k)
    decreases |Elements(h)|, 2
  {
    LeanRightValid(h, n);
    var h1 := LeanRight(h);
    LeanRightKey(h, k);
    NodeSplit(h1);
    var x1 := Entry(h1.key, h1.value);
    KeysAround(Elements(h1.left), x1, Elements(h1.right), k);
    if h1.right.Leaf? {
      DeleteMaxLast(h, n);
      DeleteHereLeaf(h, k);
      assert Elements(h1) == Elements(h1.left) + [x1];
      assert Elements(h1) == [x1];
      assert Remove([x1], k) == [];
    } else {
      DeleteRightNode(h, n, k);
    }
  }

  /** `LeanRight` leaves a key at or above the node's at or above the new node's. */
  lemma LeanRightKey<V>(h: Tree<V>, k: Key)
    requires h.Node? && Ordered(h) && k >= h.key
    ensures k >= LeanRight(h).key
  {
    if IsRed(h.left) {
      NodeSplit(h);
      var L := h.left;
      assert Elements(L) == Elements(L.left) + [Entry(L.key, L.value)] + Elements(L.right);
      assert Elements(L)[|Elements(L.left)|].key == L.key;
    }
  }

  /** `DeleteRight` when the leaned node has a right child. */
  lemma {:induction false} DeleteRightNode<V>(h: Tree<V>, n: int, k: Key)
    requires DeleteReady(h, n, k) && SizesOk(h) && Ordered(h) && k in KeysOf(Elements(h))
    requires k >= h.key && LeanRight(h).right.Node?
    ensures Delete(Invert, h, k).Ok?
    ensures var r := Delete(Invert, h, k).value;
      RB(r, n) && (IsRed(r) ==> IsRed(h)) && SizesOk(r) && Elements(r) == Remove(Elements(h), k)
    decreases |Elements(h)|, 1
  {
    RightPrep(h, n, k);
    var g := PrepRight(LeanRight(h)).value;
    if k == g.key {
      DeleteSuccessor(g, n);
    } else {
      DeleteRightBelow(g, n, k);
    }
    DeleteRightStep(h, k);
  }

  /** What the two preparation steps of `delete` at or right of a node
      leave for the rest of it. */
  lemma RightPrep<V>(h: Tree<V>, n: int, k: Key)
    requires DeleteReady(h, n, k) && SizesOk(h) && Ordered(h) && k in KeysOf(Elements(h))
    requires k >= h.key && LeanRight(h).right.Node?
    ensures PrepRight(LeanRight(h)).Ok?
    ensures var g := PrepRight(LeanRight(h)).value;
      var m := n - Blackness(g.color);
      g.Node? && SizesOk(g) && Ordered(g) && Elements(g) == Elements(h) && RB(g.left, m) &&
      (IsRed(g) ==> !IsRed(g.left) && !IsRed(g.right)) &&
      (!IsRed(h) ==> !IsRed(g) && !IsRed(g.left)) &&
      (k == g.key ==> MinReady(g.right, m)) &&
      (k != g.key ==> DeleteReady(g.right, m, k) && k in KeysOf(Elements(g.right)))
  {
    RightPrepShape(h, n);
    RightPrepKey(h, n, k);
  }

  /** The shape `RightPrep` promises. */
  lemma RightPrepShape<V>(h: Tree<V>, n: int)
    requires MaxReady(h, n) && SizesOk(h) && LeanRight(h).right.Node?
    ensures PrepRight(LeanRight(h)).Ok?
    ensures var g := PrepRight(LeanRight(h)).value;
      var m := n - Blackness(g.color);
      g.Node? && SizesOk(g) && Elements(g) == Elements(h) && RB(g.left, m) &&
      (IsRed(g) ==> !IsRed(g.left) && !IsRed(g.right)) &&
      (!IsRed(h) ==> !IsRed(g) && !IsRed(g.left))
  {
    LeanRightValid(h, n);
    PrepRightValid(LeanRight(h), n);
  }

  /** Where `RightPrep` leaves the key. */
  lemma RightPrepKey<V>(h: Tree<V>, n: int, k: Key)
    requires DeleteReady(h, n, k) && SizesOk(h) && Ordered(h) && k in KeysOf(Elements(h))
    requires k >= h.key && LeanRight(h).right.Node?
    ensures PrepRight(LeanRight(h)).Ok?
    ensures var g := PrepRight(LeanRight(h)).value;
      var m := n - Blackness(g.color);
      g.Node? &&
      (k == g.key ==> MinReady(g.right, m)) &&
      (k != g.key ==> DeleteReady(g.right, m, k) && k in KeysOf(Elements(g.right)))
  {
    LeanRightValid(h, n);
    LeanRightKey(h, k);
    PrepRightKey(LeanRight(h), n, k);
  }

  /** `RightPrepKey` after the rotation. */
  lemma PrepRightKey<V>(h1: Tree<V>, n: int, k: Key)
    requires h1.Node? && h1.right.Node? && SizesOk(h1) && Ordered(h1)
    requires (IsRed(h1) && RB(h1, n) && !IsRed(h1.left)) || RightLeaning(h1, n)
    requires k >= h1.key && k in KeysOf(Elements(h1))
    ensures PrepRight(h1).Ok?
    ensures var g := PrepRight(h1).value;
      var m := n - Blackness(g.color);
      g.Node? &&
      (k == g.key ==> MinReady(g.right, m)) &&
      (k != g.key ==> DeleteReady(g.right, m, k) && k in KeysOf(Elements(g.right)))
  {
    PrepRightElements(h1, n);
    PrepRightCases(h1, n);
    var g := PrepRight(h1).value;
    DeleteRightReady(h1, g, n - Blackness(g.color), k);
  }

  /** The pairs `PrepRightValid` promises, on their own. */
  lemma PrepRightElements<V>(h1: Tree<V>, n: int)
    requires h1.Node? && h1.right.Node? && SizesOk(h1)
    requires (IsRed(h1) && RB(h1, n) && !IsRed(h1.left)) || RightLeaning(h1, n)
    ensures PrepRight(h1).Ok? && Elements(PrepRight(h1).value) == Elements(h1)
  {
    PrepRightValid(h1, n);
  }


  /** In the rotated case of `PrepRightCases`, the new node's key comes
      from the old left subtree and is below the old node's key. */
  lemma GKeyBelow<V>(g: Tree<V>, h1: Tree<V>)
    requires g.Node? && h1.Node? && g.right.Node? && Ordered(h1)
    requires Elements(g.left) + [Entry(g.key, g.value)] + Elements(g.right.left) == Elements(h1.left)
    ensures g.key < h1.key
  {
    NodeSplit(h1);
    assert Elements(h1.left)[|Elements(g.left)|].key == g.key;
  }

  /** Below the prepared node `g`, the right child is ready for deleting
      the node's own key (the least one there) or any key above it, which
      it then holds. */
  lemma DeleteRightReady<V>(h1: Tree<V>, g: Tree<V>, m: int, k: Key)
    requires h1.Node? && g.Node? && Ordered(h1) && Elements(g) == Elements(h1) && k >= h1.key
    requires k in KeysOf(Elements(h1))
    requires RightPrepared(h1, g, m)
    ensures k == g.key ==> MinReady(g.right, m)
    ensures k != g.key ==> DeleteReady(g.right, m, k) && k in KeysOf(Elements(g.right))
  {
    if !(g.key == h1.key && MinReady(g.right, m)) {
      GKeyBelow(g, h1);
    }
    if k != g.key {
      assert Ordered(g);
      NodeSplit(g);
      KeysAround(Elements(g.left), Entry(g.key, g.value), Elements(g.right), k);
    }
  }

  /** Replacing the node's pair by the least pair on its right, and deleting
      that pair there, removes the node's key. */
  lemma DeleteSuccessor<V>(g: Tree<V>, n: int)
    requires g.Node? && SizesOk(g) && Ordered(g) && RB(g.left, n - Blackness(g.color)) && MinReady(g.right, n - Blackness(g.color))
    requires IsRed(g) ==> !IsRed(g.left) && !IsRed(g.right)
    ensures MinNode(g.right).Ok? && DeleteMin(Invert, g.right).Ok?
    ensures var x := MinNode(g.right).value;
      var b := Balance(g.(key := x.key, value := x.value, right := DeleteMin(Invert, g.right).value));
      RB(b, n) && (IsRed(b) ==> IsRed(g) || IsRed(g.left)) && SizesOk(b) &&
      Elements(b) == Remove(Elements(g), g.key)
  {
    assert SizesOk(g.right);
    DeleteMinValid(g.right, n - Blackness(g.color));
    SuccessorJoin(g, MinNode(g.right).value, DeleteMin(Invert, g.right).value, n);
  }

  /** Rebalancing after the node's pair has been replaced by `x`, the least
      pair on its right, and the right child by `r1`, the rest of it. */
  lemma SuccessorJoin<V>(g: Tree<V>, x: Entry<V>, r1: Tree<V>, n: int)
    requires g.Node? && SizesOk(g) && Ordered(g) && RB(g.left, n - Blackness(g.color))
    requires RB(r1, n - Blackness(g.color)) && SizesOk(r1)
    requires IsRed(g) ==> !IsRed(g.left) && !IsRed(g.right)
    requires IsRed(r1) ==> IsRed(g.right)
    requires Elements(g.right) != [] && x == Elements(g.right)[0] && Elements(r1) == Elements(g.right)[1..]
    ensures var b := Balance(g.(key := x.key, value := x.value, right := r1));
      RB(b, n) && (IsRed(b) ==> IsRed(g) || IsRed(g.left)) && SizesOk(b) &&
      Elements(b) == Remove(Elements(g), g.key)
  {
    BalanceRightJoin(g.(key := x.key, value := x.value), r1, n);
    SuccessorElements(g, x, r1);
  }

  lemma SuccessorElements<V>(g: Tree<V>, x: Entry<V>, r1: Tree<V>)
    requires g.Node? && Ordered(g)
    requires Elements(g.right) != [] && x == Elements(g.right)[0] && Elements(r1) == Elements(g.right)[1..]
    ensures Elements(Balance(g.(key := x.key, value := x.value, right := r1))) == Remove(Elements(g), g.key)
  {
    assert Elements(Balance(g.(key := x.key, value := x.value, right := r1))) == Elements(g.left) + [x] + Elements(r1);
    ShiftFirst(Elements(g.left), x, Elements(g.right));
    NodeSplit(g);
    RemoveAround(Elements(g.left), Entry(g.key, g.value), Elements(g.right), g.key);
  }



  /** After the preparation steps, deleting below the right child and
      rebalancing removes the key. */
  lemma {:induction false} DeleteRightBelow<V>(g: Tree<V>, n: int, k: Key)
    requires g.Node? && SizesOk(g) && Ordered(g) && RB(g.left, n - Blackness(g.color)) && DeleteReady(g.right, n - Blackness(g.color), k)
    requires IsRed(g) ==> !IsRed(g.left) && !IsRed(g.right)
    requires k in KeysOf(Elements(g.right))
    ensures Delete(Invert, g.right, k).Ok?
    ensures var b := Balance(g.(right := Delete(Invert, g.right, k).value));
      RB(b, n) && (IsRed(b) ==> IsRed(g) || IsRed(g.left)) && SizesOk(b) &&
      Elements(b) == Remove(Elements(g), k)
    decreases |Elements(g)|, 0
  {
    var m := n - Blackness(g.color);
    var x := Entry(g.key, g.value);
    NodeSplit(g);
    DeleteValid(g.right, m, k);
    var r1 := Delete(Invert, g.right, k).value;
    BalanceRightJoin(g, r1, n);
    assert Elements(Balance(g.(right := r1))) == Remove(Elements(g), k) by {
      assert Elements(g) == Elements(g.left) + [x] + Elements(g.right);
      KeysAboveIn(Elements(g.right), g.key, k);
      RemoveAround(Elements(g.left), x, Elements(g.right), k);
      assert Elements(Balance(g.(right := r1))) == Elements(g.left) + [x] + Elements(r1);
    }
  }

  // ---------------------------------------------------------------------
  // The public deletions keep the root's invariants

  /** Before a deletion, the root (made red when both children are black) is
      ready for every descent. */
  lemma RedRootValid<V>(root: Tree<V>)
    requires IsLLRB(root) && root.Node?
    ensures var t := RedRoot(root);
      MinReady(t, BlackHeight(t)) && SizesOk(t) && Ordered(t) && Elements(t) == Elements(root)
  {
    var n := BlackHeight(root);
    var t := RedRoot(root);
    if !IsRed(root.left) {
      assert RB(root.left, n - 1);
      RBHeight(root.left, n - 1);
      assert RB(t, n - 1);
    }
  }

  /** After a deletion, the root is black again and the tree is the table's. */
  lemma BlackRootValid<V>(r: Tree<V>, n: int)
    requires RB(r, n) && SizesOk(r) && Ordered(r)
    ensures IsLLRB(BlackRoot(r)) && Elements(BlackRoot(r)) == Elements(r)
    ensures SizeOf(r) == 0 <==> r.Leaf?
  {
    SizesOkCount(r);
    if r.Node? {
      BlackenRB(r, n);
      RBHeight(BlackRoot(r), if IsRed(r) then n + 1 else n);
    }
  }

  /** The public `deleteMin` with the flip the helpers need: an empty table
      throws `NoSuchElementException`; otherwise the least pair is gone and
      the tree is a left-leaning red-black tree again. */
  lemma DeleteMinRootValid<V>(root: Tree<V>)
    requires IsLLRB(root)
    ensures Elements(root) == [] ==> DeleteMinRoot(Invert, root) == Err(NoSuchElement)
    ensures Elements(root) != [] ==>
      DeleteMinRoot(Invert, root).Ok? &&
      IsLLRB(DeleteMinRoot(Invert, root).value) &&
      Elements(DeleteMinRoot(Invert, root).value) == Elements(root)[1..]
  {
    SizesOkCount(root);
    if root.Node? {
      RedRootValid(root);
      var t := RedRoot(root);
      DeleteMinValid(t, BlackHeight(t));
      var r := DeleteMin(Invert, t).value;
      assert Sorted(Elements(r)) by {
        assert Elements(r) == Elements(t)[1..];
      }
      BlackRootValid(r, BlackHeight(t));
    }
  }

  /** The public `deleteMax`, likewise for the greatest pair. */
  lemma DeleteMaxRootValid<V>(root: Tree<V>)
    requires IsLLRB(root)
    ensures Elements(root) == [] ==> DeleteMaxRoot(Invert, root) == Err(NoSuchElement)
    ensures Elements(root) != [] ==>
      DeleteMaxRoot(Invert, root).Ok? &&
      IsLLRB(DeleteMaxRoot(Invert, root).value) &&
      Elements(DeleteMaxRoot(Invert, root).value) == Elements(root)[..|Elements(root)| - 1]
  {
    SizesOkCount(root);
    if root.Node? {
      RedRootValid(root);
      var t := RedRoot(root);
      DeleteMaxValid(t, BlackHeight(t));
      var r := DeleteMax(Invert, t).value;
      assert Sorted(Elements(r)) by {
        assert Elements(r) == Elements(t)[..|Elements(t)| - 1];
      }
      BlackRootValid(r, BlackHeight(t));
    }
  }

  /** The public `delete` of a key the table holds: exactly that pair is gone
      and the tree is a left-leaning red-black tree again. */
  lemma DeleteRootValid<V>(root: Tree<V>, k: Key)
    requires IsLLRB(root) && k in KeysOf(Elements(root))
    ensures DeleteRoot(Invert, root, k).Ok?
    ensures IsLLRB(DeleteRoot(Invert, root, k).value)
    ensures Elements(DeleteRoot(Invert, root, k).value) == Remove(Elements(root), k)
  {
    RedRootValid(root);
    var t := RedRoot(root);
    DeleteValid(t, BlackHeight(t), k);
    var r := Delete(Invert, t, k).value;
    SortedRemove(Elements(t), k);
    BlackRootValid(r, BlackHeight(t));
  }

  // ---------------------------------------------------------------------
  // The source's `flipColors` in the deletions

  /** A black one-node tree holding `k` with value `k`. */
  function BlackLeaf(k: Key): Tree<int> {
    Node(Black, k, Some(k), Leaf, Leaf, 1)
  }

  /** The table after `put(0, 0)`, `put(1, 1)`, `put(2, 2)`. */
  function ThreeKeys(): Tree<int> {
    Node(Black, 1, Some(1), BlackLeaf(0), BlackLeaf(2), 3)
  }

  /** The table after `put(0, 0)`, ..., `put(3, 3)`. */
  function FourKeys(): Tree<int> {
    Node(Black, 1, Some(1), BlackLeaf(0), Node(Black, 3, Some(3), Node(Red, 2, Some(2), Leaf, Leaf, 1), Leaf, 2), 4)
  }

  /** `put(0, 0)`, `put(1, 1)`, `put(2, 2)` on an empty table build `ThreeKeys`. */
  lemma PutThreeKeys()
    ensures PutRoot(PutRoot(PutRoot(Leaf, 0, Some(0)), 1, Some(1)), 2, Some(2)) == ThreeKeys()
  {
    var t2 := Node(Black, 1, Some(1), Node(Red, 0, Some(0), Leaf, Leaf, 1), Leaf, 2);
    assert PutRoot(Leaf, 0, Some(0)) == BlackLeaf(0);
    assert PutRoot(BlackLeaf(0), 1, Some(1)) == t2;
  }

  lemma ThreeKeysValid()
    ensures IsLLRB(ThreeKeys())
  {
    ThreeKeysShape();
    var s: seq<Entry<int>> := [Entry(0, Some(0)), Entry(1, Some(1)), Entry(2, Some(2))];
    assert Elements(ThreeKeys()) == s;
    assert Sorted(s);
    assert SizesOk(BlackLeaf(0)) && SizesOk(BlackLeaf(2));
    assert Ordered(ThreeKeys()) && SizesOk(ThreeKeys()) && !IsRed(ThreeKeys()) && RB(ThreeKeys(), BlackHeight(ThreeKeys()));
  }

  lemma ThreeKeysShape()
    ensures RB(ThreeKeys(), 2) && BlackHeight(ThreeKeys()) == 2
  {
  }

  /** With `flipColors` as written, `deleteMin` on three keys leaves a tree
      whose two paths have different black heights. */
  lemma OverwriteDeleteMinUnbalanced()
    ensures DeleteMinRoot(Overwrite, ThreeKeys()) == Ok(Node(Black, 1, Some(1), Leaf, BlackLeaf(2), 2))
    ensures forall n :: !RB(Node(Black, 1, Some(1), Leaf, BlackLeaf(2), 2), n)
  {
    var red := Node(Red, 1, Some(1), BlackLeaf(0), BlackLeaf(2), 3);
    assert RedRoot(ThreeKeys()) == red;
    DeleteMinOverwrite();
  }

  lemma DeleteMinOverwrite()
    ensures DeleteMin(Overwrite, Node(Red, 1, Some(1), BlackLeaf(0), BlackLeaf(2), 3)) == Ok(Node(Red, 1, Some(1), Leaf, BlackLeaf(2), 2))
  {
  }

  /** With `flipColors` as written, `deleteMax` on three keys does the same on the other side. */
  lemma OverwriteDeleteMaxUnbalanced()
    ensures DeleteMaxRoot(Overwrite, ThreeKeys()) == Ok(Node(Black, 1, Some(1), BlackLeaf(0), Leaf, 2))
    ensures forall n :: !RB(Node(Black, 1, Some(1), BlackLeaf(0), Leaf, 2), n)
  {
  }

  /** `put(3, 3)` on `ThreeKeys` builds `FourKeys`. */
  lemma PutFourKeys()
    ensures PutRoot(ThreeKeys(), 3, Some(3)) == FourKeys()
  {
  }

  lemma FourKeysElements()
    ensures Ordered(FourKeys()) && Get(Elements(FourKeys()), 0) == Some(0)
  {
    var s: seq<Entry<int>> := [Entry(0, Some(0)), Entry(1, Some(1)), Entry(2, Some(2)), Entry(3, Some(3))];
    assert Elements(FourKeys()) == s;
    assert Sorted(s);
  }

  lemma FourKeysSizes()
    ensures SizesOk(FourKeys())
  {
    var r2 := Node(Red, 2, Some(2), Leaf, Leaf, 1);
    assert SizesOk(r2);
    var b3 := Node(Black, 3, Some(3), r2, Leaf, 2);
    assert SizesOk(b3);
    assert SizesOk(BlackLeaf(0));
    assert FourKeys() == Node(Black, 1, Some(1), BlackLeaf(0), b3, 4);
  }

  lemma FourKeysValid()
    ensures IsLLRB(FourKeys()) && Get(Elements(FourKeys()), 0) == Some(0)
  {
    FourKeysShape();
    FourKeysElements();
    FourKeysSizes();
    assert Ordered(FourKeys()) && SizesOk(FourKeys()) && !IsRed(FourKeys()) && RB(FourKeys(), BlackHeight(FourKeys()));
  }

  lemma FourKeysShape()
    ensures RB(FourKeys(), 2) && BlackHeight(FourKeys()) == 2 && !IsRed(FourKeys())
  {
  }

  /** With `flipColors` as written, `delete(0)` on four keys dereferences a
      null right link inside `moveRedLeft`. */
  lemma OverwriteDeleteNullPointer()
    ensures DeleteRoot(Overwrite, FourKeys(), 0) == Err(NullPointer)
  {
    var red := Node(Red, 1, Some(1), BlackLeaf(0), Node(Black, 3, Some(3), Node(Red, 2, Some(2), Leaf, Leaf, 1), Leaf, 2), 4);
    assert RedRoot(FourKeys()) == red;
    DeleteOverwrite(red);
  }

  lemma DeleteOverwrite(red: Tree<int>)
    requires red == Node(Red, 1, Some(1), BlackLeaf(0), Node(Black, 3, Some(3), Node(Red, 2, Some(2), Leaf, Leaf, 1), Leaf, 2), 4)
    ensures Delete(Overwrite, red, 0) == Err(NullPointer)
  {
    var left := Node(Black, 1, Some(1), BlackLeaf(0), Leaf, 2);
    assert MoveRedLeft(Overwrite, red) == Ok(Node(Red, 2, Some(2), left, BlackLeaf(3), 4));
    assert Delete(Overwrite, left, 0) == Err(NullPointer);
  }

  // ---------------------------------------------------------------------
  // The table object

  /** Search in an ordered tree answers from the part the key belongs to. */
  lemma GetNode<V>(t: Tree<V>, k: Key)
    requires t.Node? && Ordered(t)
    ensures Ordered(t.left) && Ordered(t.right)
    ensures Get(Elements(t), k) ==
      if k == t.key then t.value
      else if k < t.key then Get(Elements(t.left), k)
      else Get(Elements(t.right), k)
  {
    NodeSplit(t);
    var l, x, r := Elements(t.left), Entry(t.key, t.value), Elements(t.right);
    GetAppend(l + [x], r, k);
    GetAppend(l, [x], k);
    KeysOfAppend(l, [x]);
    assert KeysOf([x]) == [x.key];
    KeysBelowIn(l, t.key, k);
    KeysAboveIn(r, t.key, k);
  }

  /** The loop of `get`: descend from `t` by comparing `k` with each node's
      key, answering the value where they are equal, or null at a null link. */
  method GetTree<V>(t: Tree<V>, k: Key) returns (r: Option<V>)
    requires Ordered(t)
    ensures r == Common.Get(Elements(t), k)
  {
    var node := t;
    while node.Node?
      invariant Ordered(node)
      invariant Common.Get(Elements(node), k) == Common.Get(Elements(t), k)
      decreases node
    {
      GetNode(node, k);
      if k == node.key {
        return node.value;
      } else if k > node.key {
        node := node.right;
      } else {
        node := node.left;
      }
    }
    return None;
  }

  /** The in-order walk of `forEach`: left subtree, the node, right subtree,
      appending each visited pair to `acc`. */
  method InorderVisit<V>(t: Tree<V>, acc: seq<Entry<V>>) returns (out: seq<Entry<V>>)
    ensures out == acc + Elements(t)
    decreases t
  {
    if t.Leaf? {
      return acc;
    }
    out := InorderVisit(t.left, acc);
    out := out + [Entry(t.key, t.value)];
    out := InorderVisit(t.right, out);
  }

  /** `RedBlackBST`: a symbol table over a left-leaning red-black tree. The
      deletions use the colour flip that inverts the three colours; the
      flip as written is the one `Overwrite` selects above. */
  class RedBlackBST<V> {
    var root: Tree<V>

    ghost predicate Valid()
      reads this
    {
      IsLLRB(root)
    }

    /** The pairs of the table in ascending key order. */
    ghost function Contents(): seq<Entry<V>>
      reads this
    {
      Elements(root)
    }

    constructor ()
      ensures Valid() && Contents() == []
    {
      root := Leaf;
    }

    /** `put`: the pair replaces the old pair with its key or joins in key order. */
    method Put(k: Key, v: Option<V>)
      requires Valid()
      modifies this
      ensures Valid()
      ensures Contents() == Insert(old(Contents()), Entry(k, v))
      ensures Common.Get(Contents(), k) == v
      ensures forall j :: j != k ==> Common.Get(Contents(), j) == Common.Get(old(Contents()), j)
      ensures |Contents()| == if k in KeysOf(old(Contents())) then |old(Contents())| else |old(Contents())| + 1
    {
      PutRootValid(root, k, v);
      InsertCount(Elements(root), Entry(k, v));
      forall j ensures Common.Get(Insert(Elements(root), Entry(k, v)), j) == if j == k then v else Common.Get(Elements(root), j) {
        InsertSpec(Elements(root), Entry(k, v), j);
      }
      root := PutRoot(root, k, v);
    }

    /** `get`: walk down from the root comparing keys. */
    method Get(k: Key) returns (r: Option<V>)
      requires Valid()
      ensures r == Common.Get(Contents(), k)
    {
      r := GetTree(root, k);
    }

    /** The inherited `contains`: `get` answers a non-null value. */
    method Contains(k: Key) returns (b: bool)
      requires Valid()
      ensures b <==> Common.Get(Contents(), k).Some?
    {
      var v := Get(k);
      b := v.Some?;
    }

    /** `size`: the root's stored count. */
    method Size() returns (n: int)
      requires Valid()
      ensures n == |Contents()|
    {
      SizesOkCount(root);
      n := SizeOf(root);
    }

    /** The inherited `isEmpty`. */
    method IsEmpty() returns (b: bool)
      requires Valid()
      ensures b <==> Contents() == []
    {
      var n := Size();
      return n == 0;
    }

    /** `forEach`: a null action throws; otherwise the action sees every pair
        once, in ascending key order (the visits are returned). */
    method ForEach(actionGiven: bool) returns (r: Result<seq<Entry<V>>>)
      requires Valid()
      ensures !actionGiven ==> r == Err(NullPointer)
      ensures actionGiven ==> r.Ok? && r.value == Contents() && Sorted(r.value)
      ensures actionGiven ==> |r.value| == SizeOf(root)
    {
      if !actionGiven {
        return Err(NullPointer);
      }
      SizesOkCount(root);
      var visits := InorderVisit(root, []);
      return Ok(visits);
    }

    /** `delete`: a null key throws; a key whose `get` is null changes
        nothing; otherwise exactly that pair is removed. */
    method Delete(key: Option<Key>) returns (o: Outcome)
      requires Valid()
      modifies this
      ensures Valid()
      ensures key.None? ==> o == Fail(IllegalArgument) && Contents() == old(Contents())
      ensures key.Some? && Common.Get(old(Contents()), key.value).None? ==> o == Pass && Contents() == old(Contents())
      ensures key.Some? && Common.Get(old(Contents()), key.value).Some? ==>
        o == Pass && Contents() == Remove(old(Contents()), key.value) &&
        |Contents()| == |old(Contents())| - 1
    {
      if key.None? {
        return Fail(IllegalArgument);
      }
      var k := key.value;
      var present := Contains(k);
      if !present {
        return Pass;
      }
      DeleteRootValid(root, k);
      RemoveCount(Elements(root), k);
      root := DeleteRoot(Invert, root, k).value;
      return Pass;
    }

    /** `min`: the least key; an empty table throws. */
    method Min() returns (r: Result<Key>)
      requires Valid()
      ensures Contents() == [] ==> r == Err(NoSuchElement)
      ensures Contents() != [] ==> r == Ok(Contents()[0].key)
      ensures r.Ok? ==> forall i :: 0 <= i < |Contents()| ==> r.value <= Contents()[i].key
    {
      SizesOkCount(root);
      if SizeOf(root) == 0 {
        return Err(NoSuchElement);
      }
      var e := MinNode(root).value;
      return Ok(e.key);
    }

    /** `max`: the greatest key; an empty table throws. */
    method Max() returns (r: Result<Key>)
      requires Valid()
      ensures Contents() == [] ==> r == Err(NoSuchElement)
      ensures Contents() != [] ==> r == Ok(Contents()[|Contents()| - 1].key)
      ensures r.Ok? ==> forall i :: 0 <= i < |Contents()| ==> Contents()[i].key <= r.value
    {
      SizesOkCount(root);
      if SizeOf(root) == 0 {
        return Err(NoSuchElement);
      }
      var e := MaxNode(root).value;
      return Ok(e.key);
    }

    /** `deleteMin`: an empty table throws; otherwise the least pair goes. */
    method DeleteMin() returns (o: Outcome)
      requires Valid()
      modifies this
      ensures Valid()
      ensures old(Contents()) == [] ==> o == Fail(NoSuchElement) && Contents() == old(Contents())
      ensures old(Contents()) != [] ==> o == Pass && Contents() == old(Contents())[1..]
    {
      DeleteMinRootValid(root);
      var r := DeleteMinRoot(Invert, root);
      if r.Err? {
        return Fail(r.error);
      }
      root := r.value;
      return Pass;
    }

    /** `deleteMax`: an empty table throws; otherwise the greatest pair goes. */
    method DeleteMax() returns (o: Outcome)
      requires Valid()
      modifies this
      ensures Valid()
      ensures old(Contents()) == [] ==> o == Fail(NoSuchElement) && Contents() == old(Contents())
      ensures old(Contents()) != [] ==> o == Pass && Contents() == old(Contents())[..|old(Contents())| - 1]
    {
      DeleteMaxRootValid(root);
      var r := DeleteMaxRoot(Invert, root);
      if r.Err? {
        return Fail(r.error);
      }
      root := r.value;
      return Pass;
    }
  }
}
