/** The persistent treap of treap.js: an immutable binary search tree over
    keys whose nodes also carry a priority kept in max-heap order.

    No operation changes a node. `Split` and `Join` build new nodes around
    subtrees they reuse, which is why a datatype models the structure exactly:
    `Empty` is the shared `TreapEmpty` sentinel and `Node` a `TreapNode`.
    `mkNode(n, l, r)` of the source, a node with `n`'s key, value and
    priority and the children `l` and `r`, is `Node(n.key, n.value,
    n.priority, l, r)` here. */
module Treap {
  import opened Base
  import opened KeyOrder

  datatype Treap<V> =
    | Empty
    | Node(key: Key, value: V, priority: int, left: Treap<V>, right: Treap<V>)

  /** The triple `[left, X, right]` that `split` returns; `found` is `None`
      where the source returns null for X. */
  datatype SplitResult<V> = SplitResult(left: Treap<V>, found: Option<Treap<V>>, right: Treap<V>)

  // ------------------------------------------------------------ the abstract view

  ghost function Keys<V>(t: Treap<V>): set<Key> {
    match t
    case Empty => {}
    case Node(k, _, _, l, r) => Keys(l) + Keys(r) + {k}
  }

  ghost function Priorities<V>(t: Treap<V>): set<int> {
    match t
    case Empty => {}
    case Node(_, _, p, l, r) => Priorities(l) + Priorities(r) + {p}
  }

  /** The key-value map that a treap stands for. */
  ghost function Bindings<V>(t: Treap<V>): (m: map<Key, V>)
    ensures m.Keys == Keys(t)
  {
    match t
    case Empty => map[]
    case Node(k, v, _, l, r) => Bindings(l) + Bindings(r) + map[k := v]
  }

  ghost predicate AllBelow<V>(t: Treap<V>, s: Key) {
    forall k :: k in Keys(t) ==> Less(k, s)
  }

  ghost predicate AllAbove<V>(t: Treap<V>, s: Key) {
    forall k :: k in Keys(t) ==> Less(s, k)
  }

  /** Every key of `a` sorts before every key of `b`: what `join` demands. */
  ghost predicate AllLess<V>(a: Treap<V>, b: Treap<V>) {
    forall x, y :: x in Keys(a) && y in Keys(b) ==> Less(x, y)
  }

  /** The BST invariant: left keys below the node's key, right keys above. */
  ghost predicate IsBst<V>(t: Treap<V>) {
    match t
    case Empty => true
    case Node(k, _, _, l, r) => IsBst(l) && IsBst(r) && AllBelow(l, k) && AllAbove(r, k)
  }

  /** The heap invariant: a node's priority is at least each child's. */
  ghost predicate IsHeap<V>(t: Treap<V>) {
    match t
    case Empty => true
    case Node(_, _, p, l, r) =>
      && IsHeap(l) && IsHeap(r)
      && (l.Node? ==> l.priority <= p)
      && (r.Node? ==> r.priority <= p)
  }

  ghost predicate IsTreap<V>(t: Treap<V>) {
    IsBst(t) && IsHeap(t)
  }

  // ------------------------------------------------------------ operations

  /** `count()`: 1 + left count + right count; 0 for the sentinel. */
  function Count<V>(t: Treap<V>): (n: nat)
    ensures n == 0 <==> t.Empty?
  {
    match t
    case Empty => 0
    case Node(_, _, _, l, r) => 1 + Count(l) + Count(r)
  }

  /** `isEmpty()`: true only for the sentinel, the treap without keys. */
  function IsEmpty<V>(t: Treap<V>): (b: bool)
    ensures b <==> Keys(t) == {}
  {
    assert t.Node? ==> t.key in Keys(t);
    t.Empty?
  }

  /** `isLeaf()`: the sentinel throws; a node is a leaf when both children are
      the sentinel, which under the BST invariant means it holds one key. */
  function IsLeaf<V>(t: Treap<V>): (r: Result<bool>)
    ensures r.Err? <==> t.Empty?
    ensures r.Ok? && IsBst(t) ==> (r.value <==> Keys(t) == {t.key})
  {
    match t
    case Empty => Err("empty treap isLeaf")
    case Node(k, _, _, l, r) =>
      assert IsBst(t) && l.Node? ==> l.key in Keys(t) && l.key != k by {
        if IsBst(t) && l.Node? { LessIrreflexive(k); }
      }
      assert IsBst(t) && r.Node? ==> r.key in Keys(t) && r.key != k by {
        if IsBst(t) && r.Node? { LessIrreflexive(k); }
      }
      Ok(l.Empty? && r.Empty?)
  }

  /** `firstKey()`: descend leftmost; the sentinel throws. */
  function FirstKey<V>(t: Treap<V>): (r: Result<Key>)
    ensures r.Err? <==> t.Empty?
    ensures r.Ok? ==> r.value in Keys(t)
  {
    match t
    case Empty => Err("empty treap firstKey")
    case Node(k, _, _, l, _) => if l.Empty? then Ok(k) else FirstKey(l)
  }

  /** `lastKey()`: descend rightmost; the sentinel throws. */
  function LastKey<V>(t: Treap<V>): (r: Result<Key>)
    ensures r.Err? <==> t.Empty?
    ensures r.Ok? ==> r.value in Keys(t)
  {
    match t
    case Empty => Err("empty treap lastKey")
    case Node(k, _, _, _, r) => if r.Empty? then Ok(k) else LastKey(r)
  }

  /** `lookup(s, compare)`: binary-search descent; the sentinel when `s` is
      absent, else the node holding `s`. */
  function Lookup<V>(t: Treap<V>, s: Key): (r: Treap<V>)
    ensures r.Node? ==> r.key == s && s in Keys(t)
  {
    match t
    case Empty => t
    case Node(k, _, _, l, rt) =>
      var c := Compare(s, k);
      if c == 0 then t
      else if c < 0 then Lookup(l, s)
      else Lookup(rt, s)
  }

  /** `split(s)`: the keys below `s`, the node holding `s` if any, and the keys
      above `s`, with the two leaf shortcuts of the source. Whatever the shape
      of `t`, no key and no priority is invented or lost. */
  function Split<V>(t: Treap<V>, s: Key): (x: SplitResult<V>)
    ensures Keys(x.left) + Keys(x.right) + (if x.found.Some? then {s} else {}) == Keys(t)
    ensures x.found.Some? ==> x.found.value.Node? && x.found.value.key == s
    ensures Priorities(x.left) <= Priorities(t) && Priorities(x.right) <= Priorities(t)
    ensures Count(x.left) + Count(x.right) + (if x.found.Some? then 1 else 0) == Count(t)
  {
    match t
    case Empty => SplitResult(t, None, t)
    case Node(k, v, p, l, r) =>
      var c := Compare(s, k);
      if c == 0 then SplitResult(l, Some(t), r)
      else if c < 0 then
        if l.Empty? && r.Empty? then SplitResult(l, None, t)  // isLeaf shortcut
        else
          var y := Split(l, s);
          SplitResult(y.left, y.found, Node(k, v, p, y.right, r))
      else
        if l.Empty? && r.Empty? then SplitResult(t, None, r)  // isLeaf shortcut
        else
          var y := Split(r, s);
          SplitResult(Node(k, v, p, l, y.left), y.found, y.right)
  }

  /** `join(that)`: the root with the higher priority stays on top (ties go to
      `that`), and the other tree is joined into the facing subtree. */
  function Join<V>(a: Treap<V>, b: Treap<V>): (r: Treap<V>)
    ensures Keys(r) == Keys(a) + Keys(b)
    ensures Priorities(r) == Priorities(a) + Priorities(b)
    ensures a.Empty? ==> r == b
    ensures b.Empty? ==> r == a
    ensures a.Node? && b.Node? ==>
      r.Node? && if a.priority > b.priority
                 then r.key == a.key && r.priority == a.priority
                 else r.key == b.key && r.priority == b.priority
    decreases a, b
  {
    match a
    case Empty => b
    case Node(k, v, p, l, rt) =>
      if b.Empty? then a
      else if p > b.priority then Node(k, v, p, l, Join(rt, b))
      else Node(b.key, b.value, b.priority, Join(a, b.left), b.right)
  }

  /** `union(that)`: a stub in the source that returns `that`. */
  function Union<V>(a: Treap<V>, b: Treap<V>): Treap<V> {
    b
  }

  /** `intersect(that)`: a stub in the source that returns `this`. */
  function Intersect<V>(a: Treap<V>, b: Treap<V>): Treap<V> {
    a
  }

  /** `diff(that)`: a stub in the source that returns `this`. */
  function Diff<V>(a: Treap<V>, b: Treap<V>): Treap<V> {
    a
  }

  /** `del(s)`: a stub in the source that returns `this`. */
  function Del<V>(a: Treap<V>, s: Key): Treap<V> {
    a
  }

  // ------------------------------------------------------------ properties

  /** What the sentinel's methods answer. */
  lemma EmptyTreapOperations<V>(that: Treap<V>, s: Key)
    ensures Count<V>(Empty) == 0 && IsEmpty<V>(Empty)
    ensures IsLeaf<V>(Empty).Err? && FirstKey<V>(Empty).Err? && LastKey<V>(Empty).Err?
    ensures Lookup<V>(Empty, s) == Empty
    ensures Split<V>(Empty, s) == SplitResult(Empty, None, Empty)
    ensures Join(Empty, that) == that && Union(Empty, that) == that
    ensures Intersect(Empty, that) == Empty && Diff(Empty, that) == Empty && Del<V>(Empty, s) == Empty
  {
  }

  /** The stubs keep one operand whole: `union` loses every key found only in
      `this`, `intersect` and `diff` keep every key of `this`, `del` deletes nothing. */
  lemma StubSetOperations<V>(a: Treap<V>, b: Treap<V>, s: Key)
    ensures Keys(Union(a, b)) == Keys(b)
    ensures Keys(Intersect(a, b)) == Keys(Diff(a, b)) == Keys(a)
    ensures Keys(Del(a, s)) == Keys(a)
  {
  }

  /** Under the BST invariant every key is counted once: `count()` is the number of keys. */
  lemma {:induction false} CountIsNumberOfKeys<V>(t: Treap<V>)
    requires IsBst(t)
    ensures Count(t) == |Keys(t)|
  {
    match t
    case Empty =>
    case Node(k, _, _, l, r) =>
      CountIsNumberOfKeys(l);
      CountIsNumberOfKeys(r);
      LessIrreflexive(k);
      forall x | x in Keys(l) && x in Keys(r)
        ensures false
      {
        LessTransitive(x, k, x);
        LessIrreflexive(x);
      }
      assert Keys(l) !! Keys(r);
      assert k !in Keys(l) + Keys(r);
      assert |Keys(l) + Keys(r)| == |Keys(l)| + |Keys(r)|;
  }

  /** Under the BST invariant `lookup` finds `s` exactly when `s` is a key, and
      the node it returns carries the value bound to `s`. */
  lemma {:induction false} LookupFinds<V>(t: Treap<V>, s: Key)
    requires IsBst(t)
    ensures Lookup(t, s).Node? <==> s in Keys(t)
    ensures Lookup(t, s).Node? ==> Lookup(t, s).value == Bindings(t)[s]
  {
    match t
    case Empty =>
    case Node(k, _, _, l, r) =>
      var c := Compare(s, k);
      if c < 0 {
        LookupFinds(l, s);
        if s in Keys(r) { LessAsymmetric(s, k); }
        LessIrreflexive(k);
      } else if c > 0 {
        LookupFinds(r, s);
        if s in Keys(l) { LessAsymmetric(s, k); }
        LessIrreflexive(k);
      }
  }

  /** Under the BST invariant `firstKey` is the least key. */
  lemma {:induction false} FirstKeyIsLeast<V>(t: Treap<V>)
    requires IsBst(t) && t.Node?
    ensures forall k :: k in Keys(t) ==> k == FirstKey(t).value || Less(FirstKey(t).value, k)
  {
    var Node(key, _, _, l, r) := t;
    if l.Node? {
      FirstKeyIsLeast(l);
      var m := FirstKey(l).value;
      forall k | k in Keys(r)
        ensures Less(m, k)
      {
        LessTransitive(m, key, k);
      }
    }
  }

  /** Under the BST invariant `lastKey` is the greatest key. */
  lemma {:induction false} LastKeyIsGreatest<V>(t: Treap<V>)
    requires IsBst(t) && t.Node?
    ensures forall k :: k in Keys(t) ==> k == LastKey(t).value || Less(k, LastKey(t).value)
  {
    var Node(key, _, _, l, r) := t;
    if r.Node? {
      LastKeyIsGreatest(r);
      var m := LastKey(r).value;
      forall k | k in Keys(l)
        ensures Less(k, m)
      {
        LessTransitive(k, key, m);
      }
    }
  }

  /** Under the BST invariant `split(s)` partitions the keys around `s`: the
      left treap holds exactly the keys below `s`, the right treap exactly the
      keys above, X is present exactly when `s` is a key, and both sides are
      again binary search trees. */
  lemma {:induction false} SplitPartitions<V>(t: Treap<V>, s: Key)
    requires IsBst(t)
    ensures var x := Split(t, s);
      && AllBelow(x.left, s) && AllAbove(x.right, s)
      && (x.found.Some? <==> s in Keys(t))
      && IsBst(x.left) && IsBst(x.right)
    decreases t, 1
  {
    match t
    case Empty =>
    case Node(k, v, p, l, r) =>
      var c := Compare(s, k);
      if c < 0 {
        SplitPartitionsBelow(t, s);
      } else if c > 0 {
        SplitPartitionsAbove(t, s);
      }
  }

  /** `split` at a key below the root: the left subtree is split. */
  lemma {:induction false} SplitPartitionsBelow<V>(t: Treap<V>, s: Key)
    requires IsBst(t) && t.Node? && Compare(s, t.key) < 0
    ensures var x := Split(t, s);
      && AllBelow(x.left, s) && AllAbove(x.right, s)
      && (x.found.Some? <==> s in Keys(t))
      && IsBst(x.left) && IsBst(x.right)
    decreases t, 0
  {
    var k, l, r := t.key, t.left, t.right;
    forall y | y in Keys(r) ensures Less(s, y) { LessTransitive(s, k, y); }
    LessIrreflexive(s);
    if s in Keys(r) {
      LessAsymmetric(s, k);
    }
    if l.Node? || r.Node? {
      SplitPartitions(l, s);
      SplitLeftKeepsBst(t, s);
    }
  }

  /** Splitting the left subtree: what stays right of the cut is a BST. */
  lemma SplitLeftKeepsBst<V>(t: Treap<V>, s: Key)
    requires IsBst(t) && t.Node? && IsBst(Split(t.left, s).right)
    ensures IsBst(Node(t.key, t.value, t.priority, Split(t.left, s).right, t.right))
  {
    assert Keys(Split(t.left, s).right) <= Keys(t.left);
  }

  /** `split` at a key above the root: the right subtree is split. */
  lemma {:induction false} SplitPartitionsAbove<V>(t: Treap<V>, s: Key)
    requires IsBst(t) && t.Node? && Compare(s, t.key) > 0
    ensures var x := Split(t, s);
      && AllBelow(x.left, s) && AllAbove(x.right, s)
      && (x.found.Some? <==> s in Keys(t))
      && IsBst(x.left) && IsBst(x.right)
    decreases t, 0
  {
    var k, v, p, l, r := t.key, t.value, t.priority, t.left, t.right;
    forall y | y in Keys(l) ensures Less(y, s) { LessTransitive(y, k, s); }
    LessIrreflexive(s);
    if s in Keys(l) {
      LessAsymmetric(s, k);
    }
    if l.Node? || r.Node? {
      SplitPartitions(r, s);
      SplitRightKeepsBst(t, s);
    }
  }

  /** Splitting the right subtree: what stays left of the cut is a BST. */
  lemma SplitRightKeepsBst<V>(t: Treap<V>, s: Key)
    requires IsBst(t) && t.Node? && IsBst(Split(t.right, s).left)
    ensures IsBst(Node(t.key, t.value, t.priority, t.left, Split(t.right, s).left))
  {
    assert Keys(Split(t.right, s).left) <= Keys(t.right);
  }

  /** The node the heap invariant puts on top carries the highest priority. */
  lemma {:induction false} RootHasTopPriority<V>(t: Treap<V>)
    requires IsHeap(t) && t.Node?
    ensures forall q :: q in Priorities(t) ==> q <= t.priority
  {
    if t.left.Node? { RootHasTopPriority(t.left); }
    if t.right.Node? { RootHasTopPriority(t.right); }
  }

  /** `split` keeps the heap invariant on both sides. */
  lemma {:induction false} SplitKeepsHeap<V>(t: Treap<V>, s: Key)
    requires IsHeap(t)
    ensures IsHeap(Split(t, s).left) && IsHeap(Split(t, s).right)
  {
    match t
    case Empty =>
    case Node(k, v, p, l, r) =>
      var c := Compare(s, k);
      if c < 0 && (l.Node? || r.Node?) {
        SplitKeepsHeap(l, s);
        var y := Split(l, s);
        if y.right.Node? {
          RootHasTopPriority(l);
          assert y.right.priority in Priorities(y.right);
        }
      } else if c > 0 && (l.Node? || r.Node?) {
        SplitKeepsHeap(r, s);
        var y := Split(r, s);
        if y.left.Node? {
          RootHasTopPriority(r);
          assert y.left.priority in Priorities(y.left);
        }
      }
  }

  /** `join` of two binary search trees whose keys are ordered one before the
      other is a binary search tree. */
  lemma {:induction false} JoinKeepsBst<V>(a: Treap<V>, b: Treap<V>)
    requires IsBst(a) && IsBst(b) && AllLess(a, b)
    ensures IsBst(Join(a, b))
    decreases a, b
  {
    if a.Node? && b.Node? {
      if a.priority > b.priority {
        JoinKeepsBst(a.right, b);
        assert a.key in Keys(a);
      } else {
        JoinKeepsBst(a, b.left);
        assert b.key in Keys(b);
      }
    }
  }

  /** `join` keeps the heap invariant. */
  lemma {:induction false} JoinKeepsHeap<V>(a: Treap<V>, b: Treap<V>)
    requires IsHeap(a) && IsHeap(b)
    ensures IsHeap(Join(a, b))
    decreases a, b
  {
    if a.Node? && b.Node? {
      if a.priority > b.priority {
        JoinKeepsHeap(a.right, b);
      } else {
        JoinKeepsHeap(a, b.left);
      }
    }
  }

  /** When the keys of `a` all sort before those of `b`, `join` keeps every
      binding of both: the joined map is the union of the two. */
  lemma {:induction false} JoinBindings<V>(a: Treap<V>, b: Treap<V>)
    requires AllLess(a, b)
    ensures Bindings(Join(a, b)) == Bindings(a) + Bindings(b)
    decreases a, b
  {
    if a.Node? && b.Node? {
      if a.priority > b.priority {
        var x := a.key;
        assert x in Keys(a);
        JoinBindings(a.right, b);
        LessIrreflexive(x);
        assert x !in Keys(b);
        UnionMovesDisjointLast(Bindings(a.left), Bindings(a.right), Bindings(b), map[x := a.value]);
      } else {
        JoinBindings(a, b.left);
        UnionRegroups(Bindings(a), Bindings(b.left), Bindings(b.right), map[b.key := b.value]);
      }
    }
  }

  lemma UnionMovesDisjointLast<V>(m1: map<Key, V>, m2: map<Key, V>, m3: map<Key, V>, m4: map<Key, V>)
    requires m3.Keys !! m4.Keys
    ensures m1 + (m2 + m3) + m4 == m1 + m2 + m4 + m3
  {
  }

  lemma UnionRegroups<V>(m1: map<Key, V>, m2: map<Key, V>, m3: map<Key, V>, m4: map<Key, V>)
    ensures (m1 + m2) + m3 + m4 == m1 + (m2 + m3 + m4)
  {
  }

  /** The binding `split` hands back in X: the found node's key and value,
      or nothing. */
  ghost function FoundBinding<V>(x: SplitResult<V>): map<Key, V> {
    if x.found.Some? && x.found.value.Node? then map[x.found.value.key := x.found.value.value] else map[]
  }

  /** Under the BST invariant `split` moves every binding unchanged: the two
      sides and X together carry exactly the map of `t`, and X is the node
      holding the value bound to `s`. */
  lemma {:induction false} SplitBindings<V>(t: Treap<V>, s: Key)
    requires IsBst(t)
    ensures var x := Split(t, s);
      && Bindings(x.left) + Bindings(x.right) + FoundBinding(x) == Bindings(t)
      && (x.found.Some? ==> x.found.value.value == Bindings(t)[s])
    decreases t, 1
  {
    var x := Split(t, s);
    if t.Node? {
      var c := Compare(s, t.key);
      if c == 0 || (t.left.Empty? && t.right.Empty?) {
        SplitBindingsAtRoot(t, s);
      } else if c < 0 {
        SplitBindingsBelow(t, s);
      } else {
        SplitBindingsAbove(t, s);
      }
    }
    if x.found.Some? {
      FoundLast(Bindings(x.left) + Bindings(x.right), x.found.value.value, s);
    }
  }

  /** `split` answered at the root: X is the root itself, or a leaf is
      returned whole on one side. */
  lemma SplitBindingsAtRoot<V>(t: Treap<V>, s: Key)
    requires t.Node? && (Compare(s, t.key) == 0 || (t.left.Empty? && t.right.Empty?))
    ensures var x := Split(t, s);
      Bindings(x.left) + Bindings(x.right) + FoundBinding(x) == Bindings(t)
  {
    var e: map<Key, V> := map[];
    var x := Split(t, s);
    if Compare(s, t.key) == 0 {
      assert FoundBinding(x) == map[t.key := t.value];
    } else if Compare(s, t.key) < 0 {
      assert Bindings(x.left) + Bindings(x.right) + FoundBinding(x) == e + Bindings(t) + e;
    } else {
      assert Bindings(x.left) + Bindings(x.right) + FoundBinding(x) == Bindings(t) + e + e;
    }
  }

  lemma FoundLast<V>(m: map<Key, V>, v: V, s: Key)
    ensures (m + map[s := v])[s] == v
  {
  }

  /** `split` at a key below the root moves the bindings of the left subtree. */
  lemma {:induction false} SplitBindingsBelow<V>(t: Treap<V>, s: Key)
    requires IsBst(t) && t.Node? && (t.left.Node? || t.right.Node?) && Compare(s, t.key) < 0
    ensures var x := Split(t, s);
      Bindings(x.left) + Bindings(x.right) + FoundBinding(x) == Bindings(t)
    decreases t, 0
  {
    var Node(k, v, _, l, r) := t;
    SplitBindings(l, s);
    var y := Split(l, s);
    LessIrreflexive(s);
    forall z | z in Keys(r) ensures z != s { LessAsymmetric(s, k); LessTransitive(s, k, z); }
    MoveLastPast(Bindings(y.left), Bindings(y.right), Bindings(r), map[k := v], FoundBinding(y));
  }

  /** `split` at a key above the root moves the bindings of the right subtree. */
  lemma {:induction false} SplitBindingsAbove<V>(t: Treap<V>, s: Key)
    requires IsBst(t) && t.Node? && (t.left.Node? || t.right.Node?) && Compare(s, t.key) > 0
    ensures var x := Split(t, s);
      Bindings(x.left) + Bindings(x.right) + FoundBinding(x) == Bindings(t)
    decreases t, 0
  {
    var Node(k, v, _, l, r) := t;
    SplitBindings(r, s);
    var y := Split(r, s);
    LessIrreflexive(k);
    assert Keys(y.right) <= Keys(r);
    MoveRootLast(Bindings(l), Bindings(y.left), Bindings(y.right), FoundBinding(y), map[k := v]);
  }

  lemma MoveLastPast<V>(m1: map<Key, V>, m2: map<Key, V>, m3: map<Key, V>, m4: map<Key, V>, f: map<Key, V>)
    requires f.Keys !! m3.Keys && f.Keys !! m4.Keys
    ensures m1 + (m2 + m3 + m4) + f == (m1 + m2 + f) + m3 + m4
  {
  }

  lemma MoveRootLast<V>(m1: map<Key, V>, m2: map<Key, V>, m3: map<Key, V>, f: map<Key, V>, m4: map<Key, V>)
    requires m4.Keys !! m3.Keys && m4.Keys !! f.Keys
    ensures (m1 + m2 + m4) + m3 + f == m1 + (m2 + m3 + f) + m4
  {
  }

  /** Splitting a treap around `s` and joining the two sides again gives a
      treap whose map is the original one without `s`; re-inserting the found
      node restores the original map. */
  lemma SplitThenJoin<V>(t: Treap<V>, s: Key)
    requires IsTreap(t)
    ensures var x := Split(t, s); var j := Join(x.left, x.right);
      && IsTreap(j)
      && Bindings(j) == Bindings(t) - {s}
      && (x.found.Some? ==> Bindings(j)[s := x.found.value.value] == Bindings(t))
  {
    var x := Split(t, s);
    SplitPartitions(t, s);
    SplitKeepsHeap(t, s);
    SplitBindings(t, s);
    forall a, b | a in Keys(x.left) && b in Keys(x.right)
      ensures Less(a, b)
    {
      LessTransitive(a, s, b);
    }
    JoinKeepsBst(x.left, x.right);
    JoinKeepsHeap(x.left, x.right);
    JoinBindings(x.left, x.right);
    LessIrreflexive(s);
    RemoveFound(Bindings(x.left), Bindings(x.right), FoundBinding(x), Bindings(t), s);
    if x.found.Some? {
      assert FoundBinding(x) == map[s := x.found.value.value];
    }
  }

  /** The map algebra of `SplitThenJoin`: dropping the found binding `f` of
      key `s` from `m1 + m2 + f` leaves `m1 + m2`. */
  lemma RemoveFound<V>(m1: map<Key, V>, m2: map<Key, V>, f: map<Key, V>, m: map<Key, V>, s: Key)
    requires m1 + m2 + f == m && s !in m1 && s !in m2 && f.Keys <= {s}
    ensures m1 + m2 == m - {s}
    ensures forall v :: f == map[s := v] ==> (m1 + m2)[s := v] == m
  {
  }

  /** After splitting at `s` and joining again, `lookup` answers for every
      other key exactly as it did on the original treap: found on the same
      keys, with the same values. */
  lemma SplitThenJoinLookups<V>(t: Treap<V>, s: Key, k: Key)
    requires IsTreap(t) && k != s
    ensures var x := Split(t, s); var j := Join(x.left, x.right);
      && (Lookup(j, k).Node? <==> Lookup(t, k).Node?)
      && (Lookup(j, k).Node? ==> Lookup(j, k).value == Lookup(t, k).value)
  {
    var x := Split(t, s);
    var j := Join(x.left, x.right);
    SplitThenJoin(t, s);
    LookupFinds(t, k);
    LookupFinds(j, k);
  }
}
