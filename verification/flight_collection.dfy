/** The flight index of flight_collection.py: an AVL tree keyed by a sortable
    flight attribute. The Python nodes are mutated in place and every
    operation returns the new subtree root; here a subtree is a value and
    every operation returns the new subtree, which is the same thing seen
    from the caller (`root.left = self.insert(root.left, ...)`). */
module FlightCollection {

  /** A subtree: `Nil` is Python's `None`, a `Node` is an `AVLNode` with its
      sort key, its flight record, its two children and its stored height. */
  datatype Tree<V> = Nil | Node(key: int, flight: V, left: Tree<V>, right: Tree<V>, height: int)

  function Max(a: int, b: int): int {
    if a >= b then a else b
  }

  /** `get_height`: 0 for an absent node, the stored height otherwise. */
  function Height<V>(t: Tree<V>): int {
    if t.Nil? then 0 else t.height
  }

  /** `get_balance`: 0 for an absent node, height(left) - height(right) otherwise. */
  function Balance<V>(t: Tree<V>): int {
    if t.Nil? then 0 else Height(t.left) - Height(t.right)
  }

  /** The height of a subtree computed from its shape, ignoring stored heights. */
  function Depth<V>(t: Tree<V>): nat {
    if t.Nil? then 0 else 1 + Max(Depth(t.left), Depth(t.right))
  }

  /** Every stored height equals 1 + the larger child height. */
  predicate HeightsOk<V>(t: Tree<V>) {
    t.Nil? || (HeightsOk(t.left) && HeightsOk(t.right) && t.height == 1 + Max(Height(t.left), Height(t.right)))
  }

  /** Every node's balance factor lies in [-1, 1]. */
  predicate Balanced<V>(t: Tree<V>) {
    t.Nil? || (Balanced(t.left) && Balanced(t.right) && -1 <= Balance(t) <= 1)
  }

  /** `in_order_traversal`, as the sequence of keys it visits; it visits
      nothing exactly when the subtree is empty. */
  function Keys<V>(t: Tree<V>): (r: seq<int>)
    ensures r == [] <==> t.Nil?
  {
    if t.Nil? then [] else Keys(t.left) + [t.key] + Keys(t.right)
  }

  /** `in_order_traversal`, as the (key, flight) pairs it visits, one per
      key visited (`EntryKeys` shows they are the keys in the same order). */
  function Entries<V>(t: Tree<V>): (r: seq<(int, V)>)
    ensures |r| == |Keys(t)|
  {
    if t.Nil? then [] else Entries(t.left) + [(t.key, t.flight)] + Entries(t.right)
  }

  /** Search-tree order: smaller keys on the left, equal or greater keys
      may sit on either side (insert sends ties right, a rotation can move
      a tie to the left). */
  predicate Ordered<V>(t: Tree<V>) {
    t.Nil? ||
    (Ordered(t.left) && Ordered(t.right) &&
     (forall x :: x in Keys(t.left) ==> x <= t.key) &&
     (forall x :: x in Keys(t.right) ==> t.key <= x))
  }

  predicate Sorted(s: seq<int>) {
    forall i, j :: 0 <= i < j < |s| ==> s[i] <= s[j]
  }

  /** The two renderings of the traversal agree: the i-th entry carries the
      i-th key. */
  lemma {:induction false} EntryKeys<V>(t: Tree<V>)
    ensures forall i :: 0 <= i < |Entries(t)| ==> Entries(t)[i].0 == Keys(t)[i]
  {
    if t.Node? {
      EntryKeys(t.left);
      EntryKeys(t.right);
      var el, er := Entries(t.left), Entries(t.right);
      var kl, kr := Keys(t.left), Keys(t.right);
      forall i | 0 <= i < |Entries(t)| ensures Entries(t)[i].0 == Keys(t)[i] {
        if i < |el| {
          assert Entries(t)[i] == el[i] && Keys(t)[i] == kl[i];
        } else if i > |el| {
          assert Entries(t)[i] == er[i - |el| - 1] && Keys(t)[i] == kr[i - |kl| - 1];
        }
      }
    }
  }

  /** The stored heights agree with the shape: `get_height` and
      `get_balance` return the real height and the real balance factor. */
  lemma {:induction false} HeightIsDepth<V>(t: Tree<V>)
    requires HeightsOk(t)
    ensures Height(t) == Depth(t)
    ensures t.Node? ==> Balance(t) == Depth(t.left) - Depth(t.right)
  {
    if t.Node? {
      HeightIsDepth(t.left);
      HeightIsDepth(t.right);
    }
  }

  lemma {:induction false} HeightNonNegative<V>(t: Tree<V>)
    requires HeightsOk(t)
    ensures Height(t) >= 0
    ensures t.Node? ==> Height(t) >= 1
  {
    if t.Node? {
      HeightNonNegative(t.left);
      HeightNonNegative(t.right);
    }
  }

  lemma SortedConcat(a: seq<int>, k: int, b: seq<int>)
    ensures Sorted(a + [k] + b) <==>
      Sorted(a) && Sorted(b) && (forall x :: x in a ==> x <= k) && (forall x :: x in b ==> k <= x)
  {
    if Sorted(a) && Sorted(b) && (forall x :: x in a ==> x <= k) && (forall x :: x in b ==> k <= x) {
      SortedJoin(a, k, b);
    }
    if Sorted(a + [k] + b) {
      SortedSplit(a, k, b);
    }
  }

  lemma SortedJoin(a: seq<int>, k: int, b: seq<int>)
    requires Sorted(a) && Sorted(b) && (forall x :: x in a ==> x <= k) && (forall x :: x in b ==> k <= x)
    ensures Sorted(a + [k] + b)
  {
    var s := a + [k] + b;
    forall i, j | 0 <= i < j < |s| ensures s[i] <= s[j] {
      if j < |a| {
        assert s[i] == a[i] && s[j] == a[j];
      } else if j == |a| {
        assert s[i] in a;
      } else if i < |a| {
        assert s[i] in a && s[j] in b;
      } else if i == |a| {
        assert s[j] in b;
      } else {
        assert s[i] == b[i - |a| - 1] && s[j] == b[j - |a| - 1];
      }
    }
  }

  lemma SortedSplit(a: seq<int>, k: int, b: seq<int>)
    requires Sorted(a + [k] + b)
    ensures Sorted(a) && Sorted(b) && (forall x :: x in a ==> x <= k) && (forall x :: x in b ==> k <= x)
  {
    var s := a + [k] + b;
    assert a == s[..|a|] && b == s[|a| + 1..];
    forall x | x in a ensures x <= k {
      var i :| 0 <= i < |a| && a[i] == x;
      assert s[i] == x && s[|a|] == k;
    }
    forall x | x in b ensures k <= x {
      var i :| 0 <= i < |b| && b[i] == x;
      assert s[|a| + 1 + i] == x && s[|a|] == k;
    }
  }

  /** The search-tree order is exactly "the in-order key sequence is sorted". */
  lemma {:induction false} OrderedIffSorted<V>(t: Tree<V>)
    ensures Ordered(t) <==> Sorted(Keys(t))
  {
    if t.Node? {
      OrderedIffSorted(t.left);
      OrderedIffSorted(t.right);
      SortedConcat(Keys(t.left), t.key, Keys(t.right));
    }
  }

  /** `right_rotate`: the left child x of y is promoted; x's right subtree
      becomes y's left subtree; y's height is recomputed before x's. */
  function RightRotate<V>(y: Tree<V>): (r: Tree<V>)
    requires y.Node? && y.left.Node?
    ensures r.Node? && r.right.Node?
    ensures Keys(r) == Keys(y) && Entries(r) == Entries(y)
    ensures HeightsOk(y.left) && HeightsOk(y.right) ==> HeightsOk(r)
    ensures Ordered(y) ==> Ordered(r)
  {
    var x := y.left;
    var y' := Make(y.key, y.flight, x.right, y.right);
    RotationKeeps(x.left, x.key, x.flight, x.right, y.key, y.flight, y.right, x.height, y.height, y'.height, Max(Height(x.left), Height(y')) + 1);
    assert HeightsOk(x) ==> HeightsOk(x.left) && HeightsOk(x.right);
    Make(x.key, x.flight, x.left, y')
  }

  /** `left_rotate`: the mirror image of `right_rotate`. */
  function LeftRotate<V>(x: Tree<V>): (r: Tree<V>)
    requires x.Node? && x.right.Node?
    ensures r.Node? && r.left.Node?
    ensures Keys(r) == Keys(x) && Entries(r) == Entries(x)
    ensures HeightsOk(x.left) && HeightsOk(x.right) ==> HeightsOk(r)
    ensures Ordered(x) ==> Ordered(r)
  {
    var y := x.right;
    var x' := Make(x.key, x.flight, x.left, y.left);
    RotationKeeps(x.left, x.key, x.flight, y.left, y.key, y.flight, y.right, x'.height, Max(Height(x'), Height(y.right)) + 1, y.height, x.height);
    assert HeightsOk(y) ==> HeightsOk(y.left) && HeightsOk(y.right);
    Make(y.key, y.flight, x', y.right)
  }

  /** The two shapes a rotation converts between, `(a x b) y c` and
      `a x (b y c)`, have the same keys in the same order, and either one
      is ordered exactly when the other is, whatever heights they store. */
  lemma RotationKeeps<V>(a: Tree<V>, xk: int, xv: V, b: Tree<V>, yk: int, yv: V, c: Tree<V>,
                         h1: int, h2: int, h3: int, h4: int)
    ensures Keys(Node(yk, yv, Node(xk, xv, a, b, h1), c, h2)) == Keys(Node(xk, xv, a, Node(yk, yv, b, c, h3), h4))
    ensures Entries(Node(yk, yv, Node(xk, xv, a, b, h1), c, h2)) == Entries(Node(xk, xv, a, Node(yk, yv, b, c, h3), h4))
    ensures Ordered(Node(yk, yv, Node(xk, xv, a, b, h1), c, h2)) <==> Ordered(Node(xk, xv, a, Node(yk, yv, b, c, h3), h4))
  {
    RotationEntries(a, xk, xv, b, yk, yv, c, h1, h2, h3, h4);
    RotationKeys(a, xk, xv, b, yk, yv, c, h1, h2, h3, h4);
    RotationOrder(a, xk, xv, b, yk, yv, c, h1, h2, h3, h4);
  }

  lemma RotationEntries<V>(a: Tree<V>, xk: int, xv: V, b: Tree<V>, yk: int, yv: V, c: Tree<V>,
                           h1: int, h2: int, h3: int, h4: int)
    ensures Entries(Node(yk, yv, Node(xk, xv, a, b, h1), c, h2)) == Entries(Node(xk, xv, a, Node(yk, yv, b, c, h3), h4))
  {
    var leftHeavy := Node(yk, yv, Node(xk, xv, a, b, h1), c, h2);
    var rightHeavy := Node(xk, xv, a, Node(yk, yv, b, c, h3), h4);
    var ea, eb, ec := Entries(a), Entries(b), Entries(c);
    assert Entries(leftHeavy) == (ea + [(xk, xv)] + eb) + [(yk, yv)] + ec;
    assert Entries(rightHeavy) == ea + [(xk, xv)] + (eb + [(yk, yv)] + ec);
    assert (ea + [(xk, xv)] + eb) + [(yk, yv)] + ec == ea + [(xk, xv)] + (eb + [(yk, yv)] + ec);
  }

  lemma RotationKeys<V>(a: Tree<V>, xk: int, xv: V, b: Tree<V>, yk: int, yv: V, c: Tree<V>,
                        h1: int, h2: int, h3: int, h4: int)
    ensures Keys(Node(yk, yv, Node(xk, xv, a, b, h1), c, h2)) == Keys(Node(xk, xv, a, Node(yk, yv, b, c, h3), h4))
  {
    var leftHeavy := Node(yk, yv, Node(xk, xv, a, b, h1), c, h2);
    var rightHeavy := Node(xk, xv, a, Node(yk, yv, b, c, h3), h4);
    var ka, kb, kc := Keys(a), Keys(b), Keys(c);
    assert Keys(leftHeavy) == (ka + [xk] + kb) + [yk] + kc;
    assert Keys(rightHeavy) == ka + [xk] + (kb + [yk] + kc);
    assert (ka + [xk] + kb) + [yk] + kc == ka + [xk] + (kb + [yk] + kc);
  }

  lemma RotationOrder<V>(a: Tree<V>, xk: int, xv: V, b: Tree<V>, yk: int, yv: V, c: Tree<V>,
                         h1: int, h2: int, h3: int, h4: int)
    ensures Ordered(Node(yk, yv, Node(xk, xv, a, b, h1), c, h2)) <==> Ordered(Node(xk, xv, a, Node(yk, yv, b, c, h3), h4))
  {
    var leftHeavy := Node(yk, yv, Node(xk, xv, a, b, h1), c, h2);
    var rightHeavy := Node(xk, xv, a, Node(yk, yv, b, c, h3), h4);
    var ab := Node(xk, xv, a, b, h1);
    var bc := Node(yk, yv, b, c, h3);
    assert forall z :: z in Keys(ab) <==> z in Keys(a) || z == xk || z in Keys(b);
    assert forall z :: z in Keys(bc) <==> z in Keys(b) || z == yk || z in Keys(c);
    if Ordered(leftHeavy) {
      assert Ordered(ab) && Ordered(a) && Ordered(b);
      assert xk in Keys(ab);
      forall z | z in Keys(b) ensures z <= yk {
        assert z in Keys(ab);
      }
      assert Ordered(bc);
      forall z | z in Keys(bc) ensures xk <= z {
        if z in Keys(c) {
          assert yk <= z;
        }
      }
    }
    if Ordered(rightHeavy) {
      assert Ordered(bc) && Ordered(b) && Ordered(c);
      assert yk in Keys(bc);
      forall z | z in Keys(b) ensures xk <= z {
        assert z in Keys(bc);
      }
      assert Ordered(ab);
      forall z | z in Keys(ab) ensures z <= yk {
        if z in Keys(a) {
          assert z <= xk;
        }
      }
    }
  }

  /** A node whose height field is set from its children, as every
      mutating operation does before it looks at the balance factor. */
  function Make<V>(key: int, flight: V, left: Tree<V>, right: Tree<V>): Tree<V> {
    Node(key, flight, left, right, Max(Height(left), Height(right)) + 1)
  }

  /** What `insert`'s rebalancing dereferences: a heavy child, and in the
      two double-rotation cases that child's inner grandchild. */
  predicate FixupReady<V>(root: Tree<V>, k: int) {
    && root.Node? && HeightsOk(root)
    && (Balance(root) > 1 && root.left.Node? && k > root.left.key ==> root.left.right.Node?)
    && (Balance(root) < -1 && root.right.Node? && k < root.right.key ==> root.right.left.Node?)
  }

  /** The rebalancing at the end of `insert`; `root` already holds the
      updated child and the updated height. The four cases are chosen by
      comparing the inserted key with the key of the heavy child. */
  function InsertFixup<V>(root: Tree<V>, k: int): (r: Tree<V>)
    requires FixupReady(root, k)
    ensures r.Node? && HeightsOk(r) && Keys(r) == Keys(root) && Entries(r) == Entries(root)
    ensures Ordered(root) ==> Ordered(r)
  {
    HeightNonNegative(root.left);
    HeightNonNegative(root.right);
    var balance := Balance(root);
    if balance > 1 && k < root.left.key then
      RightRotate(root)
    else if balance < -1 && k > root.right.key then
      LeftRotate(root)
    else if balance > 1 && k > root.left.key then
      RightRotate(root.(left := LeftRotate(root.left)))
    else if balance < -1 && k < root.right.key then
      LeftRotate(root.(right := RightRotate(root.right)))
    else
      root
  }

  /** `insert`: standard search-tree insertion (smaller keys left, equal
      or greater keys right), then the height update and rebalancing on
      the way back up. Defined on the trees the index builds, whose stored
      heights are right and whose balance factors are in [-1, 1]. */
  function Insert<V>(t: Tree<V>, k: int, v: V): (r: Tree<V>)
    requires HeightsOk(t) && Balanced(t)
    ensures r.Node? && HeightsOk(r)
    ensures Height(t) <= Height(r) <= Height(t) + 1
    ensures multiset(Keys(r)) == multiset(Keys(t)) + multiset{k}
    ensures multiset(Entries(r)) == multiset(Entries(t)) + multiset{(k, v)}
    ensures k < r.key ==> r.left.Node?
    ensures k > r.key ==> r.right.Node?
    decreases t
  {
    if t.Nil? then
      Node(k, v, Nil, Nil, 1)
    else if k < t.key then
      var l' := Insert(t.left, k, v);
      InsertStepLeft(t, k, l');
      ContentsStep(t.left, t.key, t.flight, t.right, l', t.right, k, v);
      InsertFixup(Make(t.key, t.flight, l', t.right), k)
    else
      var r' := Insert(t.right, k, v);
      InsertStepRight(t, k, r');
      ContentsStep(t.left, t.key, t.flight, t.right, t.left, r', k, v);
      InsertFixup(Make(t.key, t.flight, t.left, r'), k)
  }

  /** One level of `insert`: when one child gains the entry (k, v) and the
      other is unchanged, the node gains it. */
  lemma ContentsStep<V>(l: Tree<V>, key: int, flight: V, r: Tree<V>, l': Tree<V>, r': Tree<V>, k: int, v: V)
    requires (l' == l && multiset(Keys(r')) == multiset(Keys(r)) + multiset{k} &&
              multiset(Entries(r')) == multiset(Entries(r)) + multiset{(k, v)}) ||
             (r' == r && multiset(Keys(l')) == multiset(Keys(l)) + multiset{k} &&
              multiset(Entries(l')) == multiset(Entries(l)) + multiset{(k, v)})
    ensures multiset(Keys(Make(key, flight, l', r'))) == multiset(Keys(Make(key, flight, l, r))) + multiset{k}
    ensures multiset(Entries(Make(key, flight, l', r'))) == multiset(Entries(Make(key, flight, l, r))) + multiset{(k, v)}
  {
    var t, t' := Make(key, flight, l, r), Make(key, flight, l', r');
    assert Keys(t) == Keys(l) + [key] + Keys(r) && Keys(t') == Keys(l') + [key] + Keys(r');
    assert Entries(t) == Entries(l) + [(key, flight)] + Entries(r);
    assert Entries(t') == Entries(l') + [(key, flight)] + Entries(r');
    GainOne(Keys(l), key, Keys(r), Keys(l'), Keys(r'), k);
    GainOne(Entries(l), (key, flight), Entries(r), Entries(l'), Entries(r'), (k, v));
  }

  lemma GainOne<T>(a: seq<T>, x: T, b: seq<T>, a': seq<T>, b': seq<T>, y: T)
    requires (a' == a && multiset(b') == multiset(b) + multiset{y}) ||
             (b' == b && multiset(a') == multiset(a) + multiset{y})
    ensures multiset(a' + [x] + b') == multiset(a + [x] + b) + multiset{y}
  {
    assert multiset(a' + [x] + b') == multiset(a') + multiset{x} + multiset(b');
    assert multiset(a + [x] + b) == multiset(a) + multiset{x} + multiset(b);
  }

  /** One level of `insert` after the recursive call on the left child has
      returned `l'`: the rebalancing is well defined and keeps the height
      within one of the old height. */
  lemma InsertStepLeft<V>(t: Tree<V>, k: int, l': Tree<V>)
    requires t.Node? && HeightsOk(t) && Balanced(t) && k < t.key
    requires l'.Node? && HeightsOk(l') && Height(t.left) <= Height(l') <= Height(t.left) + 1
    requires k < l'.key ==> l'.left.Node?
    requires k > l'.key ==> l'.right.Node?
    ensures FixupReady(Make(t.key, t.flight, l', t.right), k)
    ensures var r := InsertFixup(Make(t.key, t.flight, l', t.right), k);
      && Height(t) <= Height(r) <= Height(t) + 1
      && (k < r.key ==> r.left.Node?)
      && (k > r.key ==> r.right.Node?)
  {
    var root := Make(t.key, t.flight, l', t.right);
    HeightNonNegative(t.left);
    HeightNonNegative(t.right);
    assert Height(root) == 1 + Max(Height(l'), Height(t.right));
    assert Height(t) == 1 + Max(Height(t.left), Height(t.right));
    assert -1 <= Height(t.left) - Height(t.right) <= 1;
    assert FixupReady(root, k);
    InsertFixupHeight(root, k, Height(t));
    if Balance(root) > 1 && k < l'.key {
      RightRotateShape(root);
    } else if Balance(root) > 1 && k > l'.key {
      LeftRotateShape(l');
      RightRotateShape(root.(left := LeftRotate(l')));
    }
  }

  /** The mirror image of `InsertStepLeft`, for a key sent right. */
  lemma InsertStepRight<V>(t: Tree<V>, k: int, r': Tree<V>)
    requires t.Node? && HeightsOk(t) && Balanced(t) && k >= t.key
    requires r'.Node? && HeightsOk(r') && Height(t.right) <= Height(r') <= Height(t.right) + 1
    requires k < r'.key ==> r'.left.Node?
    requires k > r'.key ==> r'.right.Node?
    ensures FixupReady(Make(t.key, t.flight, t.left, r'), k)
    ensures var r := InsertFixup(Make(t.key, t.flight, t.left, r'), k);
      && Height(t) <= Height(r) <= Height(t) + 1
      && (k < r.key ==> r.left.Node?)
      && (k > r.key ==> r.right.Node?)
  {
    var root := Make(t.key, t.flight, t.left, r');
    HeightNonNegative(t.left);
    HeightNonNegative(t.right);
    assert Height(root) == 1 + Max(Height(t.left), Height(r'));
    assert Height(t) == 1 + Max(Height(t.left), Height(t.right));
    assert -1 <= Height(t.left) - Height(t.right) <= 1;
    assert FixupReady(root, k);
    InsertFixupHeight(root, k, Height(t));
    if Balance(root) < -1 && k > r'.key {
      LeftRotateShape(root);
    } else if Balance(root) < -1 && k < r'.key {
      RightRotateShape(r');
      LeftRotateShape(root.(right := RightRotate(r')));
    }
  }

  lemma RightRotateShape<V>(y: Tree<V>)
    requires y.Node? && y.left.Node?
    ensures var r := RightRotate(y);
      && r.left == y.left.left
      && r.right == Make(y.key, y.flight, y.left.right, y.right)
      && r.key == y.left.key
      && Height(r) == 1 + Max(Height(y.left.left), 1 + Max(Height(y.left.right), Height(y.right)))
  {
  }

  lemma LeftRotateShape<V>(x: Tree<V>)
    requires x.Node? && x.right.Node?
    ensures var r := LeftRotate(x);
      && r.right == x.right.right
      && r.left == Make(x.key, x.flight, x.left, x.right.left)
      && r.key == x.right.key
      && Height(r) == 1 + Max(1 + Max(Height(x.left), Height(x.right.left)), Height(x.right.right))
  {
  }

  /** Heights after the single rotation of the left-left case. */
  lemma SingleRightHeight<V>(root: Tree<V>, h: int)
    requires root.Node? && root.left.Node? && HeightsOk(root)
    requires Height(root.left) == h && Height(root.right) <= h - 2
    ensures h <= Height(RightRotate(root)) <= h + 1
  {
    var l := root.left;
    assert HeightsOk(l);
    HeightNonNegative(l.left);
    HeightNonNegative(l.right);
    HeightNonNegative(root.right);
    RightRotateShape(root);
  }

  lemma SingleLeftHeight<V>(root: Tree<V>, h: int)
    requires root.Node? && root.right.Node? && HeightsOk(root)
    requires Height(root.right) == h && Height(root.left) <= h - 2
    ensures h <= Height(LeftRotate(root)) <= h + 1
  {
    var r := root.right;
    assert HeightsOk(r);
    HeightNonNegative(r.left);
    HeightNonNegative(r.right);
    HeightNonNegative(root.left);
    LeftRotateShape(root);
  }

  /** Heights after the double rotation of the left-right case. */
  lemma DoubleRightHeight<V>(root: Tree<V>, h: int)
    requires root.Node? && root.left.Node? && root.left.right.Node? && HeightsOk(root)
    requires Height(root.left) == h && Height(root.right) <= h - 2
    ensures h <= Height(RightRotate(root.(left := LeftRotate(root.left)))) <= h + 1
  {
    var l := root.left;
    var m := l.right;
    assert HeightsOk(l) && HeightsOk(m);
    HeightNonNegative(l.left);
    HeightNonNegative(m.left);
    HeightNonNegative(m.right);
    HeightNonNegative(root.right);
    LeftRotateShape(l);
    RightRotateShape(root.(left := LeftRotate(l)));
  }

  lemma DoubleLeftHeight<V>(root: Tree<V>, h: int)
    requires root.Node? && root.right.Node? && root.right.left.Node? && HeightsOk(root)
    requires Height(root.right) == h && Height(root.left) <= h - 2
    ensures h <= Height(LeftRotate(root.(right := RightRotate(root.right)))) <= h + 1
  {
    var r := root.right;
    var m := r.left;
    assert HeightsOk(r) && HeightsOk(m);
    HeightNonNegative(r.right);
    HeightNonNegative(m.left);
    HeightNonNegative(m.right);
    HeightNonNegative(root.left);
    RightRotateShape(r);
    LeftRotateShape(root.(right := RightRotate(r)));
  }

  lemma InsertFixupHeight<V>(root: Tree<V>, k: int, h: int)
    requires FixupReady(root, k)
    requires h <= Height(root) <= h + 1
    requires Balance(root) > 1 ==> Height(root.left) == h
    requires Balance(root) < -1 ==> Height(root.right) == h
    ensures h <= Height(InsertFixup(root, k)) <= h + 1
  {
    HeightNonNegative(root.left);
    HeightNonNegative(root.right);
    var balance := Balance(root);
    if balance > 1 && k < root.left.key {
      SingleRightHeight(root, h);
    } else if balance < -1 && k > root.right.key {
      SingleLeftHeight(root, h);
    } else if balance > 1 && k > root.left.key {
      DoubleRightHeight(root, h);
    } else if balance < -1 && k < root.right.key {
      DoubleLeftHeight(root, h);
    }
  }

  /** The single right rotation restores balance when the left child is
      two higher than the right child and leans left or not at all. */
  lemma SingleRightBalanced<V>(y: Tree<V>)
    requires y.Node? && y.left.Node? && HeightsOk(y)
    requires Balanced(y.left) && Balanced(y.right)
    requires Height(y.left) == Height(y.right) + 2 && 0 <= Balance(y.left) <= 1
    ensures Balanced(RightRotate(y))
    ensures Height(RightRotate(y)) == Height(y.left) + (if Balance(y.left) == 0 then 1 else 0)
  {
    var x := y.left;
    assert HeightsOk(x) && Balanced(x.left) && Balanced(x.right);
    RightRotateShape(y);
    HeightNonNegative(x.left);
    HeightNonNegative(x.right);
    assert Balanced(Make(y.key, y.flight, x.right, y.right));
  }

  lemma SingleLeftBalanced<V>(x: Tree<V>)
    requires x.Node? && x.right.Node? && HeightsOk(x)
    requires Balanced(x.left) && Balanced(x.right)
    requires Height(x.right) == Height(x.left) + 2 && -1 <= Balance(x.right) <= 0
    ensures Balanced(LeftRotate(x))
    ensures Height(LeftRotate(x)) == Height(x.right) + (if Balance(x.right) == 0 then 1 else 0)
  {
    var y := x.right;
    assert HeightsOk(y) && Balanced(y.left) && Balanced(y.right);
    LeftRotateShape(x);
    HeightNonNegative(y.left);
    HeightNonNegative(y.right);
    assert Balanced(Make(x.key, x.flight, x.left, y.left));
  }

  /** The left-right double rotation restores balance when the left child
      is two higher than the right child and leans right. */
  lemma DoubleRightBalanced<V>(y: Tree<V>)
    requires y.Node? && y.left.Node? && HeightsOk(y)
    requires Balanced(y.left) && Balanced(y.right)
    requires Height(y.left) == Height(y.right) + 2 && Balance(y.left) == -1
    ensures y.left.right.Node?
    ensures Balanced(RightRotate(y.(left := LeftRotate(y.left))))
    ensures Height(RightRotate(y.(left := LeftRotate(y.left)))) == Height(y.left)
  {
    var x := y.left;
    assert HeightsOk(x);
    HeightNonNegative(x.left);
    var m := x.right;
    assert HeightsOk(m);
    HeightNonNegative(m.left);
    HeightNonNegative(m.right);
    HeightNonNegative(y.right);
    assert Balanced(x.left) && Balanced(m.left) && Balanced(m.right);
    LeftRotateShape(x);
    RightRotateShape(y.(left := LeftRotate(x)));
    assert Balanced(Make(x.key, x.flight, x.left, m.left));
    assert Balanced(Make(y.key, y.flight, m.right, y.right));
  }

  lemma DoubleLeftBalanced<V>(x: Tree<V>)
    requires x.Node? && x.right.Node? && HeightsOk(x)
    requires Balanced(x.left) && Balanced(x.right)
    requires Height(x.right) == Height(x.left) + 2 && Balance(x.right) == 1
    ensures x.right.left.Node?
    ensures Balanced(LeftRotate(x.(right := RightRotate(x.right))))
    ensures Height(LeftRotate(x.(right := RightRotate(x.right)))) == Height(x.right)
  {
    var y := x.right;
    assert HeightsOk(y);
    HeightNonNegative(y.right);
    var m := y.left;
    assert HeightsOk(m);
    HeightNonNegative(m.left);
    HeightNonNegative(m.right);
    HeightNonNegative(x.left);
    assert Balanced(y.right) && Balanced(m.left) && Balanced(m.right);
    RightRotateShape(y);
    LeftRotateShape(x.(right := RightRotate(y)));
    assert Balanced(Make(x.key, x.flight, x.left, m.left));
    assert Balanced(Make(y.key, y.flight, m.right, y.right));
  }

  /** With a key not yet in the tree, `insert` keeps every balance factor
      in [-1, 1]. When the subtree grows, no rotation happened at its root
      and it now leans towards the side the key went to, which is what
      lets the parent pick the right one of the four cases from a key
      comparison. */
  lemma {:induction false} InsertKeepsBalance<V>(t: Tree<V>, k: int, v: V)
    requires HeightsOk(t) && Balanced(t) && k !in Keys(t)
    ensures Balanced(Insert(t, k, v))
    ensures t.Node? && Height(Insert(t, k, v)) == Height(t) + 1 ==>
      Insert(t, k, v).key == t.key && Balance(Insert(t, k, v)) == (if k < t.key then 1 else -1)
    decreases t, 1
  {
    if t.Node? {
      assert t.key in Keys(t);
      if k < t.key {
        InsertLeftKeepsBalance(t, k, v);
      } else {
        InsertRightKeepsBalance(t, k, v);
      }
    }
  }

  /** A key absent from a tree is absent from both subtrees and is
      neither child's key. */
  lemma AbsentBelow<V>(t: Tree<V>, k: int)
    requires t.Node? && k !in Keys(t)
    ensures k !in Keys(t.left) && (t.left.Node? ==> k != t.left.key)
    ensures k !in Keys(t.right) && (t.right.Node? ==> k != t.right.key)
  {
    assert Keys(t) == Keys(t.left) + [t.key] + Keys(t.right);
    assert t.left.Node? ==> t.left.key in Keys(t.left);
    assert t.right.Node? ==> t.right.key in Keys(t.right);
  }

  lemma {:induction false} InsertLeftKeepsBalance<V>(t: Tree<V>, k: int, v: V)
    requires t.Node? && HeightsOk(t) && Balanced(t) && k !in Keys(t) && k < t.key
    ensures Balanced(Insert(t, k, v))
    ensures Height(Insert(t, k, v)) == Height(t) + 1 ==> Insert(t, k, v).key == t.key && Balance(Insert(t, k, v)) == 1
    decreases t, 0
  {
    AbsentBelow(t, k);
    var l' := Insert(t.left, k, v);
    InsertKeepsBalance(t.left, k, v);
    BalanceStepLeft(t, k, l');
    assert Insert(t, k, v) == InsertFixup(Make(t.key, t.flight, l', t.right), k);
  }

  lemma {:induction false} InsertRightKeepsBalance<V>(t: Tree<V>, k: int, v: V)
    requires t.Node? && HeightsOk(t) && Balanced(t) && k !in Keys(t) && k > t.key
    ensures Balanced(Insert(t, k, v))
    ensures Height(Insert(t, k, v)) == Height(t) + 1 ==> Insert(t, k, v).key == t.key && Balance(Insert(t, k, v)) == -1
    decreases t, 0
  {
    AbsentBelow(t, k);
    var r' := Insert(t.right, k, v);
    InsertKeepsBalance(t.right, k, v);
    BalanceStepRight(t, k, r');
    assert Insert(t, k, v) == InsertFixup(Make(t.key, t.flight, t.left, r'), k);
  }

  /** One level of `InsertKeepsBalance`, for a key sent left. */
  lemma BalanceStepLeft<V>(t: Tree<V>, k: int, l': Tree<V>)
    requires t.Node? && HeightsOk(t) && Balanced(t) && k < t.key
    requires t.left.Node? ==> k != t.left.key
    requires l'.Node? && HeightsOk(l') && Balanced(l')
    requires Height(t.left) <= Height(l') <= Height(t.left) + 1
    requires k < l'.key ==> l'.left.Node?
    requires k > l'.key ==> l'.right.Node?
    requires t.left.Node? && Height(l') == Height(t.left) + 1 ==>
      l'.key == t.left.key && Balance(l') == (if k < t.left.key then 1 else -1)
    ensures FixupReady(Make(t.key, t.flight, l', t.right), k)
    ensures var r := InsertFixup(Make(t.key, t.flight, l', t.right), k);
      && Balanced(r)
      && (Height(r) == Height(t) + 1 ==> r.key == t.key && Balance(r) == 1)
  {
    var root := Make(t.key, t.flight, l', t.right);
    HeightNonNegative(t.left);
    HeightNonNegative(t.right);
    assert Height(root) == 1 + Max(Height(l'), Height(t.right));
    assert Height(t) == 1 + Max(Height(t.left), Height(t.right));
    assert -1 <= Height(t.left) - Height(t.right) <= 1;
    assert FixupReady(root, k);
    if Balance(root) > 1 {
      assert t.left.Node?;
      if k < t.left.key {
        SingleRightBalanced(root);
      } else {
        DoubleRightBalanced(root);
      }
    }
  }

  /** One level of `InsertKeepsBalance`, for a key sent right. */
  lemma BalanceStepRight<V>(t: Tree<V>, k: int, r': Tree<V>)
    requires t.Node? && HeightsOk(t) && Balanced(t) && k > t.key
    requires t.right.Node? ==> k != t.right.key
    requires r'.Node? && HeightsOk(r') && Balanced(r')
    requires Height(t.right) <= Height(r') <= Height(t.right) + 1
    requires k < r'.key ==> r'.left.Node?
    requires k > r'.key ==> r'.right.Node?
    requires t.right.Node? && Height(r') == Height(t.right) + 1 ==>
      r'.key == t.right.key && Balance(r') == (if k < t.right.key then 1 else -1)
    ensures FixupReady(Make(t.key, t.flight, t.left, r'), k)
    ensures var r := InsertFixup(Make(t.key, t.flight, t.left, r'), k);
      && Balanced(r)
      && (Height(r) == Height(t) + 1 ==> r.key == t.key && Balance(r) == -1)
  {
    var root := Make(t.key, t.flight, t.left, r');
    HeightNonNegative(t.left);
    HeightNonNegative(t.right);
    assert Height(root) == 1 + Max(Height(t.left), Height(r'));
    assert Height(t) == 1 + Max(Height(t.left), Height(t.right));
    assert -1 <= Height(t.left) - Height(t.right) <= 1;
    assert FixupReady(root, k);
    if Balance(root) < -1 {
      assert t.right.Node?;
      if k > t.right.key {
        SingleLeftBalanced(root);
      } else {
        DoubleLeftBalanced(root);
      }
    }
  }

  /** `insert` keeps the search-tree order: the in-order key sequence
      stays sorted. */
  lemma {:induction false} InsertKeepsOrder<V>(t: Tree<V>, k: int, v: V)
    requires HeightsOk(t) && Balanced(t) && Ordered(t)
    ensures Ordered(Insert(t, k, v))
    decreases t, 1
  {
    if t.Node? {
      if k < t.key {
        InsertLeftKeepsOrder(t, k, v);
      } else {
        InsertRightKeepsOrder(t, k, v);
      }
    }
  }

  lemma {:induction false} InsertLeftKeepsOrder<V>(t: Tree<V>, k: int, v: V)
    requires t.Node? && HeightsOk(t) && Balanced(t) && Ordered(t) && k < t.key
    ensures Ordered(Insert(t, k, v))
    decreases t, 0
  {
    var l' := Insert(t.left, k, v);
    assert Insert(t, k, v) == InsertFixup(Make(t.key, t.flight, l', t.right), k);
    InsertKeepsOrder(t.left, k, v);
    InsertStepLeft(t, k, l');
    OrderStepLeft(t, k, l');
  }

  lemma {:induction false} InsertRightKeepsOrder<V>(t: Tree<V>, k: int, v: V)
    requires t.Node? && HeightsOk(t) && Balanced(t) && Ordered(t) && k >= t.key
    ensures Ordered(Insert(t, k, v))
    decreases t, 0
  {
    var r' := Insert(t.right, k, v);
    assert Insert(t, k, v) == InsertFixup(Make(t.key, t.flight, t.left, r'), k);
    InsertKeepsOrder(t.right, k, v);
    InsertStepRight(t, k, r');
    OrderStepRight(t, k, r');
  }

  /** One level of `InsertKeepsOrder`, for a key sent left. */
  lemma OrderStepLeft<V>(t: Tree<V>, k: int, l': Tree<V>)
    requires t.Node? && Ordered(t) && k < t.key && Ordered(l')
    requires multiset(Keys(l')) == multiset(Keys(t.left)) + multiset{k}
    requires FixupReady(Make(t.key, t.flight, l', t.right), k)
    ensures Ordered(InsertFixup(Make(t.key, t.flight, l', t.right), k))
  {
    SameMembers(Keys(l'), Keys(t.left), k);
    assert Ordered(Make(t.key, t.flight, l', t.right));
  }

  /** One level of `InsertKeepsOrder`, for a key sent right. */
  lemma OrderStepRight<V>(t: Tree<V>, k: int, r': Tree<V>)
    requires t.Node? && Ordered(t) && k >= t.key && Ordered(r')
    requires multiset(Keys(r')) == multiset(Keys(t.right)) + multiset{k}
    requires FixupReady(Make(t.key, t.flight, t.left, r'), k)
    ensures Ordered(InsertFixup(Make(t.key, t.flight, t.left, r'), k))
  {
    SameMembers(Keys(r'), Keys(t.right), k);
    assert Ordered(Make(t.key, t.flight, t.left, r'));
  }

  lemma SameMembers(s: seq<int>, s0: seq<int>, k: int)
    requires multiset(s) == multiset(s0) + multiset{k}
    ensures forall x :: x in s <==> x in s0 || x == k
  {
    forall x ensures x in s <==> x in s0 || x == k {
      assert x in s <==> x in multiset(s);
      assert x in s0 <==> x in multiset(s0);
    }
  }

  /** A key equal to the heavy child's key selects none of the four
      rebalancing cases: inserting 2, 1 and 1 into an empty index leaves
      the root with balance factor 2. */
  lemma DuplicateKeyUnbalances<V>(v: V)
    ensures var t1 := Insert(Nil, 2, v);
      Balanced(t1) &&
      var t2 := Insert(t1, 1, v);
      Balanced(t2) &&
      var t3 := Insert(t2, 1, v);
      Balance(t3) == 2 && !Balanced(t3)
  {
    var leaf := Node(1, v, Nil, Nil, 1);
    InsertIntoEmpty(2, v);
    SecondInsert(v);
    ThirdInsert(v);
    var t3 := Node(2, v, Node(1, v, Nil, leaf, 2), Nil, 3);
    assert Balance(t3) == 2;
  }

  /** The second 1 goes below the first, and the root, now of balance
      factor 2, is left as it is. */
  lemma ThirdInsert<V>(v: V)
    ensures var leaf := Node(1, v, Nil, Nil, 1);
      var t2 := Node(2, v, leaf, Nil, 2);
      && HeightsOk(t2) && Balanced(t2)
      && Insert(t2, 1, v) == Node(2, v, Node(1, v, Nil, leaf, 2), Nil, 3)
  {
    var leaf := Node(1, v, Nil, Nil, 1);
    var t2 := Node(2, v, leaf, Nil, 2);
    assert Balance(t2) == 1;
    InsertTie(v);
    var l' := Node(1, v, Nil, leaf, 2);
    var t3 := Node(2, v, l', Nil, 3);
    assert Make(2, v, l', Nil) == t3;
    assert Balance(t3) == 2;
    assert InsertFixup(t3, 1) == t3;
    assert Insert(t2, 1, v) == InsertFixup(Make(2, v, Insert(leaf, 1, v), Nil), 1);
  }

  /** Inserting 1 into the leaf 2 gives it a left child, with no
      rotation. */
  lemma SecondInsert<V>(v: V)
    ensures var leaf := Node(1, v, Nil, Nil, 1);
      var t1 := Node(2, v, Nil, Nil, 1);
      && HeightsOk(t1) && Balanced(t1)
      && Insert(t1, 1, v) == Node(2, v, leaf, Nil, 2)
  {
    var leaf := Node(1, v, Nil, Nil, 1);
    var t1 := Node(2, v, Nil, Nil, 1);
    var t2 := Node(2, v, leaf, Nil, 2);
    var nil: Tree<V> := Nil;
    assert HeightsOk(nil) && Balanced(nil) && Height(nil) == 0;
    assert Balance(leaf) == 0 && Balance(t1) == 0;
    assert HeightsOk(t1) && Balanced(t1);
    InsertIntoEmpty(1, v);
    assert Make(2, v, leaf, Nil) == t2;
    assert Balance(t2) == 1;
    assert InsertFixup(t2, 1) == t2;
    assert Insert(t1, 1, v) == InsertFixup(Make(2, v, Insert(Nil, 1, v), Nil), 1);
  }

  /** Inserting into an empty index gives a single leaf. */
  lemma InsertIntoEmpty<V>(k: int, v: V)
    ensures Insert(Nil, k, v) == Node(k, v, Nil, Nil, 1)
  {
  }

  /** A tie goes right: inserting 1 into the leaf 1 gives it a right
      child, with no rotation. */
  lemma InsertTie<V>(v: V)
    ensures var leaf := Node(1, v, Nil, Nil, 1);
      && HeightsOk(leaf) && Balanced(leaf)
      && Insert(leaf, 1, v) == Node(1, v, Nil, leaf, 2)
  {
    var leaf := Node(1, v, Nil, Nil, 1);
    var l' := Node(1, v, Nil, leaf, 2);
    var nil: Tree<V> := Nil;
    assert HeightsOk(nil) && Balanced(nil) && Height(nil) == 0;
    assert Balance(leaf) == 0;
    assert HeightsOk(leaf) && Balanced(leaf);
    InsertIntoEmpty(1, v);
    assert Make(1, v, Nil, leaf) == l';
    assert Balance(l') == -1;
    assert InsertFixup(l', 1) == l';
    assert Insert(leaf, 1, v) == InsertFixup(Make(1, v, Nil, Insert(Nil, 1, v)), 1);
  }

  /** `find_min`: follows left children down to the node without one,
      which holds the first entry of the in-order traversal. */
  function FindMin<V>(t: Tree<V>): (r: Tree<V>)
    ensures t.Nil? <==> r.Nil?
    ensures r.Node? ==> r.left.Nil? && Keys(t)[0] == r.key && Entries(t)[0] == (r.key, r.flight)
  {
    if t.Nil? || t.left.Nil? then t else FindMin(t.left)
  }

  /** In an ordered subtree the node `find_min` returns holds the least key. */
  lemma FindMinIsLeast<V>(t: Tree<V>)
    requires t.Node? && Ordered(t)
    ensures FindMin(t).key in Keys(t)
    ensures forall x :: x in Keys(t) ==> FindMin(t).key <= x
  {
    OrderedIffSorted(t);
    forall x | x in Keys(t) ensures FindMin(t).key <= x {
      var i :| 0 <= i < |Keys(t)| && Keys(t)[i] == x;
      assert i == 0 || Keys(t)[0] <= Keys(t)[i];
    }
  }

  /** The rebalancing at the end of `delete`: the case is chosen by the
      balance factor of the heavy child, not by a key. */
  function DeleteFixup<V>(root: Tree<V>): (r: Tree<V>)
    requires root.Node? && HeightsOk(root)
    ensures r.Node? && HeightsOk(r) && Keys(r) == Keys(root) && Entries(r) == Entries(root)
    ensures Ordered(root) ==> Ordered(r)
  {
    HeightNonNegative(root.left);
    HeightNonNegative(root.right);
    var balance := Balance(root);
    if balance > 1 && Balance(root.left) >= 0 then
      RightRotate(root)
    else if balance > 1 && Balance(root.left) < 0 then
      HeightNonNegative(root.left.left);
      RightRotate(root.(left := LeftRotate(root.left)))
    else if balance < -1 && Balance(root.right) <= 0 then
      LeftRotate(root)
    else if balance < -1 && Balance(root.right) > 0 then
      HeightNonNegative(root.right.right);
      LeftRotate(root.(right := RightRotate(root.right)))
    else
      root
  }

  /** `delete`: search-tree deletion of the first node met with the given
      key; a node with two children takes over the key and flight of its
      in-order successor, which is then deleted from the right subtree by
      key. The height update and rebalancing follow on the way back up,
      except where a node with at most one child is replaced by that child. */
  function Delete<V>(t: Tree<V>, k: int): (r: Tree<V>)
    requires HeightsOk(t)
    ensures HeightsOk(r)
    decreases t
  {
    if t.Nil? then
      t
    else if k < t.key then
      DeleteFixup(Make(t.key, t.flight, Delete(t.left, k), t.right))
    else if k > t.key then
      DeleteFixup(Make(t.key, t.flight, t.left, Delete(t.right, k)))
    else if t.left.Nil? then
      t.right
    else if t.right.Nil? then
      t.left
    else
      var s := FindMin(t.right);
      DeleteFixup(Make(s.key, s.flight, t.left, Delete(t.right, s.key)))
  }

  /** On an ordered subtree `delete` removes exactly one occurrence of the
      key, if there is one, and keeps the search-tree order. */
  lemma {:induction false} DeleteContents<V>(t: Tree<V>, k: int)
    requires HeightsOk(t) && Ordered(t)
    ensures Ordered(Delete(t, k))
    ensures multiset(Keys(Delete(t, k))) == multiset(Keys(t)) - multiset{k}
    decreases t, 1
  {
    if t.Node? {
      if k < t.key {
        DeleteLeftContents(t, k);
      } else if k > t.key {
        DeleteRightContents(t, k);
      } else if t.left.Node? && t.right.Node? {
        DeleteRootContents(t);
      } else {
        assert Keys(t) == Keys(t.left) + [t.key] + Keys(t.right);
      }
    }
  }

  lemma {:induction false} DeleteLeftContents<V>(t: Tree<V>, k: int)
    requires t.Node? && HeightsOk(t) && Ordered(t) && k < t.key
    ensures Ordered(Delete(t, k))
    ensures multiset(Keys(Delete(t, k))) == multiset(Keys(t)) - multiset{k}
    decreases t, 0
  {
    var l' := Delete(t.left, k);
    var m := Make(t.key, t.flight, l', t.right);
    assert Delete(t, k) == DeleteFixup(m);
    DeleteContents(t.left, k);
    assert k !in Keys(t.right);
    LoseOne(Keys(t.left), t.key, Keys(t.right), Keys(l'), Keys(t.right), k);
    assert Keys(m) == Keys(l') + [t.key] + Keys(t.right);
    SubMembers(Keys(l'), Keys(t.left), k);
    assert Ordered(m);
  }

  lemma {:induction false} DeleteRightContents<V>(t: Tree<V>, k: int)
    requires t.Node? && HeightsOk(t) && Ordered(t) && k > t.key
    ensures Ordered(Delete(t, k))
    ensures multiset(Keys(Delete(t, k))) == multiset(Keys(t)) - multiset{k}
    decreases t, 0
  {
    var r' := Delete(t.right, k);
    var m := Make(t.key, t.flight, t.left, r');
    assert Delete(t, k) == DeleteFixup(m);
    DeleteContents(t.right, k);
    assert k !in Keys(t.left);
    LoseOne(Keys(t.left), t.key, Keys(t.right), Keys(t.left), Keys(r'), k);
    assert Keys(m) == Keys(t.left) + [t.key] + Keys(r');
    SubMembers(Keys(r'), Keys(t.right), k);
    assert Ordered(m);
  }

  /** The two-children case: the successor's key moves up and one
      occurrence of it leaves the right subtree. */
  lemma {:induction false} DeleteRootContents<V>(t: Tree<V>)
    requires t.Node? && t.left.Node? && t.right.Node? && HeightsOk(t) && Ordered(t)
    ensures Ordered(Delete(t, t.key))
    ensures multiset(Keys(Delete(t, t.key))) == multiset(Keys(t)) - multiset{t.key}
    decreases t, 0
  {
    var s := FindMin(t.right);
    var r' := Delete(t.right, s.key);
    assert Delete(t, t.key) == DeleteFixup(Make(s.key, s.flight, t.left, r'));
    DeleteContents(t.right, s.key);
    FindMinIsLeast(t.right);
    assert Keys(t) == Keys(t.left) + [t.key] + Keys(t.right);
    SwapRoot(Keys(t.left), t.key, Keys(t.right), Keys(r'), s.key);
    assert Ordered(Make(s.key, s.flight, t.left, r')) by {
      assert forall x :: x in Keys(t.left) ==> x <= s.key by {
        assert t.key <= s.key;
      }
      SubMembers(Keys(r'), Keys(t.right), s.key);
    }
  }

  lemma SwapRoot(a: seq<int>, x: int, b: seq<int>, b': seq<int>, m: int)
    requires m in b && multiset(b') == multiset(b) - multiset{m}
    ensures multiset(a + [m] + b') == multiset(a + [x] + b) - multiset{x}
  {
    assert m in multiset(b);
    assert multiset(a + [m] + b') == multiset(a) + multiset{m} + multiset(b');
    assert multiset(a + [x] + b) == multiset(a) + multiset{x} + multiset(b);
  }

  lemma LoseOne(a: seq<int>, x: int, b: seq<int>, a': seq<int>, b': seq<int>, k: int)
    requires x != k
    requires (a' == a && k !in a && multiset(b') == multiset(b) - multiset{k}) ||
             (b' == b && k !in b && multiset(a') == multiset(a) - multiset{k})
    ensures multiset(a' + [x] + b') == multiset(a + [x] + b) - multiset{k}
  {
    assert multiset(a' + [x] + b') == multiset(a') + multiset{x} + multiset(b');
    assert multiset(a + [x] + b) == multiset(a) + multiset{x} + multiset(b);
  }

  lemma SubMembers(s: seq<int>, s0: seq<int>, k: int)
    requires multiset(s) == multiset(s0) - multiset{k}
    ensures forall x :: x in s ==> x in s0
  {
    forall x | x in s ensures x in s0 {
      assert x in multiset(s);
    }
  }

  /** `delete` keeps every balance factor in [-1, 1] and lowers the
      height by at most one. */
  lemma {:induction false} DeleteKeepsBalance<V>(t: Tree<V>, k: int)
    requires HeightsOk(t) && Balanced(t)
    ensures Balanced(Delete(t, k))
    ensures Height(t) - 1 <= Height(Delete(t, k)) <= Height(t)
  {
    if t.Node? {
      HeightNonNegative(t.left);
      HeightNonNegative(t.right);
      if k < t.key {
        DeleteKeepsBalance(t.left, k);
        ShrinkLeftStep(t, t.key, t.flight, Delete(t.left, k));
      } else if k > t.key {
        DeleteKeepsBalance(t.right, k);
        ShrinkRightStep(t, t.key, t.flight, Delete(t.right, k));
      } else if t.left.Node? && t.right.Node? {
        var s := FindMin(t.right);
        assert Delete(t, k) == DeleteFixup(Make(s.key, s.flight, t.left, Delete(t.right, s.key)));
        DeleteKeepsBalance(t.right, s.key);
        ShrinkRightStep(t, s.key, s.flight, Delete(t.right, s.key));
      }
    }
  }

  /** One level of `delete` after the left subtree lost at most one level
      of height: the rebalancing leaves a balanced subtree at most one
      lower than before. */
  lemma ShrinkLeftStep<V>(t: Tree<V>, key: int, flight: V, l': Tree<V>)
    requires t.Node? && HeightsOk(t) && Balanced(t)
    requires HeightsOk(l') && Balanced(l') && Height(t.left) - 1 <= Height(l') <= Height(t.left)
    ensures var r := DeleteFixup(Make(key, flight, l', t.right));
      Balanced(r) && Height(t) - 1 <= Height(r) <= Height(t)
  {
    var root := Make(key, flight, l', t.right);
    HeightNonNegative(l');
    HeightNonNegative(t.right);
    assert Height(root) == 1 + Max(Height(l'), Height(t.right));
    assert Height(t) == 1 + Max(Height(t.left), Height(t.right));
    assert -1 <= Height(t.left) - Height(t.right) <= 1;
    if Balance(root) < -1 {
      assert t.right.Node? && Balanced(t.right);
      if Balance(t.right) <= 0 {
        SingleLeftBalanced(root);
        assert DeleteFixup(root) == LeftRotate(root);
      } else {
        DoubleLeftBalanced(root);
        assert DeleteFixup(root) == LeftRotate(root.(right := RightRotate(root.right)));
      }
    } else {
      assert -1 <= Balance(root) <= 1;
      assert DeleteFixup(root) == root;
    }
  }

  /** The mirror image of `ShrinkLeftStep`. */
  lemma ShrinkRightStep<V>(t: Tree<V>, key: int, flight: V, r': Tree<V>)
    requires t.Node? && HeightsOk(t) && Balanced(t)
    requires HeightsOk(r') && Balanced(r') && Height(t.right) - 1 <= Height(r') <= Height(t.right)
    ensures var r := DeleteFixup(Make(key, flight, t.left, r'));
      Balanced(r) && Height(t) - 1 <= Height(r) <= Height(t)
  {
    var root := Make(key, flight, t.left, r');
    HeightNonNegative(r');
    HeightNonNegative(t.left);
    assert Height(root) == 1 + Max(Height(t.left), Height(r'));
    assert Height(t) == 1 + Max(Height(t.left), Height(t.right));
    assert -1 <= Height(t.left) - Height(t.right) <= 1;
    if Balance(root) > 1 {
      assert t.left.Node? && Balanced(t.left);
      if Balance(t.left) >= 0 {
        SingleRightBalanced(root);
        assert DeleteFixup(root) == RightRotate(root);
      } else {
        DoubleRightBalanced(root);
        assert DeleteFixup(root) == RightRotate(root.(left := LeftRotate(root.left)));
      }
    } else {
      assert -1 <= Balance(root) <= 1;
      assert DeleteFixup(root) == root;
    }
  }

  /** Deleting a key that is not in an index leaves it as it was. */
  lemma {:induction false} DeleteAbsent<V>(t: Tree<V>, k: int)
    requires HeightsOk(t) && Balanced(t) && k !in Keys(t)
    ensures Delete(t, k) == t
  {
    if t.Node? {
      assert Keys(t) == Keys(t.left) + [t.key] + Keys(t.right);
      HeightNonNegative(t.left);
      HeightNonNegative(t.right);
      if k < t.key {
        DeleteAbsent(t.left, k);
        assert Make(t.key, t.flight, t.left, t.right) == t;
      } else {
        DeleteAbsent(t.right, k);
        assert Make(t.key, t.flight, t.left, t.right) == t;
      }
    }
  }
}
