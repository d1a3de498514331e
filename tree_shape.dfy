/**
 * The shape of a Huffman (sub)tree built from HTNode objects, as a ghost
 * datatype of node references (each leaf also records its byte), together
 * with the heap predicates that tie the nodes' fields to that shape. Each
 * predicate reads only the fields it is about, so updating `path` or
 * `parent` leaves the others untouched.
 */
module TreeShapes {
  import opened Wrappers
  import opened Bits
  import opened HTNodes

  datatype Tree = Leaf(node: HTNode, symbol: Option<JByte>) | Internal(node: HTNode, left: Tree, right: Tree)

  function Nodes(t: Tree): set<HTNode> {
    match t
    case Leaf(n, _) => {n}
    case Internal(n, l, r) => {n} + Nodes(l) + Nodes(r)
  }

  /** The nodes strictly below the top of `t`. */
  function Below(t: Tree): (r: set<HTNode>)
    ensures r <= Nodes(t)
  {
    Nodes(t) - {t.node}
  }

  /** No node occurs twice in `t`, every leaf stands for a byte, and no byte for two leaves. */
  predicate Distinct(t: Tree) {
    match t
    case Leaf(_, v) => v.Some?
    case Internal(n, l, r) =>
      && n !in Nodes(l) && n !in Nodes(r) && Nodes(l) !! Nodes(r)
      && LeafValues(l) !! LeafValues(r)
      && Distinct(l) && Distinct(r)
  }

  /** The leaves of `t` in pre-order (node, then left subtree, then right subtree). */
  function LeafNodes(t: Tree): (s: seq<HTNode>)
  {
    match t
    case Leaf(n, _) => [n]
    case Internal(_, l, r) => LeafNodes(l) + LeafNodes(r)
  }

  /** The bytes the leaves of `t` stand for. */
  function LeafValues(t: Tree): set<Option<JByte>> {
    match t
    case Leaf(_, v) => {v}
    case Internal(_, l, r) => LeafValues(l) + LeafValues(r)
  }

  /**
   * The structural fields agree with `t`: children links, parent links below
   * the top, leaves carry their byte and internal nodes none, and an internal
   * node weighs what its two children weigh.
   */
  ghost predicate Shaped(t: Tree)
    requires Distinct(t)
    reads Nodes(t)`left, Nodes(t)`right, Nodes(t)`value, Nodes(t)`weight, Below(t)`parent
  {
    match t
    case Leaf(n, v) => n.left == null && n.right == null && n.value == v
    case Internal(n, l, r) =>
      && n.left == l.node && n.right == r.node
      && l.node.parent == n && r.node.parent == n
      && n.value == None && n.weight == l.node.weight + r.node.weight
      && Shaped(l) && Shaped(r)
  }

  /** Before path composition: every left child carries "0" and every right child "1". */
  ghost predicate Labeled(t: Tree)
    requires Distinct(t)
    reads Below(t)`path
  {
    match t
    case Leaf(_, _) => true
    case Internal(_, l, r) => l.node.path == "0" && r.node.path == "1" && Labeled(l) && Labeled(r)
  }

  /** After path composition: a child's path is its parent's path followed by its own bit. */
  ghost predicate Composed(t: Tree)
    reads Nodes(t)`path
  {
    match t
    case Leaf(_, _) => true
    case Internal(n, l, r) =>
      l.node.path == n.path + "0" && r.node.path == n.path + "1" && Composed(l) && Composed(r)
  }

  /**
   * A subtree as the builder grows it: well formed, with its fields tied to
   * the shape and its children labelled "0" and "1".
   */
  ghost predicate Grown(t: Tree)
    reads Nodes(t)`left, Nodes(t)`right, Nodes(t)`value, Nodes(t)`weight, Below(t)`parent, Below(t)`path
  {
    Distinct(t) && Shaped(t) && Labeled(t)
  }

  /** No field of `o` changed between the two states. */
  twostate predicate Kept(new o: HTNode)
    reads o`left, o`right, o`value, o`weight, o`parent, o`path
  {
    && old(allocated(o))
    && o.left == old(o.left) && o.right == old(o.right)
    && o.value == old(o.value) && o.weight == old(o.weight)
    && o.parent == old(o.parent) && o.path == old(o.path)
  }

  /** Shaped depends only on the nodes of the tree. */
  twostate lemma ShapedUnchanged(t: Tree)
    requires Distinct(t) && old(Shaped(t))
    requires forall o :: o in Nodes(t) ==> Kept(o)
    ensures Shaped(t)
  {
    match t
    case Leaf(n, _) =>
      assert n in Nodes(t);
    case Internal(n, l, r) =>
      assert Nodes(t) == {n} + Nodes(l) + Nodes(r);
      assert old(Shaped(l)) && old(Shaped(r));
      ShapedUnchanged(l);
      ShapedUnchanged(r);
      assert n in Nodes(t) && l.node in Nodes(t) && r.node in Nodes(t);
  }

  /** Labeled depends only on the nodes of the tree. */
  twostate lemma LabeledUnchanged(t: Tree)
    requires Distinct(t) && old(Labeled(t))
    requires forall o :: o in Nodes(t) ==> Kept(o)
    ensures Labeled(t)
  {
    match t
    case Leaf(_, _) =>
    case Internal(n, l, r) =>
      assert Nodes(t) == {n} + Nodes(l) + Nodes(r);
      assert old(Labeled(l)) && old(Labeled(r));
      LabeledUnchanged(l);
      LabeledUnchanged(r);
      assert n in Nodes(t) && l.node in Nodes(t) && r.node in Nodes(t);
  }

  /** A grown tree none of whose nodes changed is still grown. */
  twostate lemma GrownUnchanged(t: Tree)
    requires old(Grown(t))
    requires forall o :: o in Nodes(t) ==> Kept(o)
    ensures Grown(t)
  {
    ShapedUnchanged(t);
    LabeledUnchanged(t);
  }

  /** A grown tree stays grown when only the path and parent of its top change. */
  twostate lemma GrownTopRelabelled(t: Tree)
    requires old(Grown(t))
    requires forall o :: o in Below(t) ==> Kept(o)
    requires t.node.left == old(t.node.left) && t.node.right == old(t.node.right)
    requires t.node.value == old(t.node.value) && t.node.weight == old(t.node.weight)
    ensures Grown(t)
  {
    match t
    case Leaf(_, _) =>
    case Internal(n, l, r) =>
      assert Nodes(l) <= Below(t) && Nodes(r) <= Below(t);
      ShapedUnchanged(l);
      ShapedUnchanged(r);
      LabeledUnchanged(l);
      LabeledUnchanged(r);
  }

  /** Hanging two grown, disjoint subtrees under a fresh parent labelled as the builder does gives a grown tree. */
  lemma Join(p: HTNode, l: Tree, r: Tree)
    requires Grown(l) && Grown(r)
    requires Nodes(l) !! Nodes(r) && LeafValues(l) !! LeafValues(r)
    requires p !in Nodes(l) && p !in Nodes(r)
    requires p.left == l.node && p.right == r.node && l.node.parent == p && r.node.parent == p
    requires p.value == None && p.weight == l.node.weight + r.node.weight
    requires l.node.path == "0" && r.node.path == "1"
    ensures Grown(Internal(p, l, r))
  {
  }

  /**
   * In a composed tree every leaf's path extends the top's path by bits, and by
   * at least one bit when the top is an internal node.
   */
  lemma {:induction false} LeafPathsExtendTop(t: Tree)
    requires Composed(t)
    ensures forall m :: m in LeafNodes(t) ==>
      t.node.path <= m.path && IsBinary(m.path[|t.node.path|..]) && (t.Internal? ==> |m.path| > |t.node.path|)
  {
    match t
    case Leaf(n, _) =>
      assert LeafNodes(t) == [n];
    case Internal(n, l, r) =>
      LeafPathsExtendTop(l);
      LeafPathsExtendTop(r);
      forall m | m in LeafNodes(t)
        ensures n.path <= m.path && IsBinary(m.path[|n.path|..]) && |m.path| > |n.path|
      {
        var c := if m in LeafNodes(l) then l else r;
        var bit := if m in LeafNodes(l) then "0" else "1";
        assert c.node.path == n.path + bit;
        assert c.node.path <= m.path;
        var tail := m.path[|c.node.path|..];
        assert IsBinary(tail);
        assert m.path[|n.path|..] == bit + tail;
      }
  }

  lemma {:induction false} LeafValuesNonEmpty(t: Tree)
    ensures LeafValues(t) != {}
  {
    match t
    case Leaf(_, v) =>
      assert v in LeafValues(t);
    case Internal(_, l, _) =>
      LeafValuesNonEmpty(l);
  }

  /** A well formed internal tree stands for at least two bytes. */
  lemma TwoLeafValues(t: Tree)
    requires Distinct(t) && t.Internal?
    ensures |LeafValues(t)| >= 2
  {
    LeafValuesNonEmpty(t.left);
    LeafValuesNonEmpty(t.right);
    assert LeafValues(t.left) * LeafValues(t.right) == {};
  }

  /** Strings that branch apart after a common prefix are not prefixes of each other. */
  lemma BranchesDiverge(p: string, a: string, b: string)
    requires p + "0" <= a && p + "1" <= b
    ensures !(a <= b) && !(b <= a)
  {
    assert a[|p|] == '0' && b[|p|] == '1';
  }

  /** Two different leaves of a composed tree: neither path is a prefix of the other. */
  lemma {:induction false} LeafPathsPrefixFree(t: Tree)
    requires Distinct(t) && Composed(t)
    ensures forall i, j :: 0 <= i < |LeafNodes(t)| && 0 <= j < |LeafNodes(t)| && i != j ==>
      !(LeafNodes(t)[i].path <= LeafNodes(t)[j].path)
  {
    match t
    case Leaf(_, _) =>
    case Internal(n, l, r) =>
      LeafPathsPrefixFree(l);
      LeafPathsPrefixFree(r);
      LeafPathsExtendTop(l);
      LeafPathsExtendTop(r);
      var ls, rs := LeafNodes(l), LeafNodes(r);
      var s := LeafNodes(t);
      assert s == ls + rs;
      forall i, j | 0 <= i < |s| && 0 <= j < |s| && i != j
        ensures !(s[i].path <= s[j].path)
      {
        if i < |ls| && j >= |ls| {
          assert s[i] in ls && s[j] in rs;
          BranchesDiverge(n.path, s[i].path, s[j].path);
        } else if i >= |ls| && j < |ls| {
          assert s[i] in rs && s[j] in ls;
          BranchesDiverge(n.path, s[j].path, s[i].path);
        } else if i < |ls| {
          assert s[i] == ls[i] && s[j] == ls[j];
        } else {
          assert s[i] == rs[i - |ls|] && s[j] == rs[j - |ls|];
        }
      }
  }

  /** The leaves of a shaped tree carry pairwise different bytes, and exactly the bytes of LeafValues. */
  lemma {:induction false} LeafValuesDistinct(t: Tree)
    requires Distinct(t) && Shaped(t)
    ensures forall i, j :: 0 <= i < |LeafNodes(t)| && 0 <= j < |LeafNodes(t)| && i != j ==>
      LeafNodes(t)[i].value != LeafNodes(t)[j].value
    ensures forall m :: m in LeafNodes(t) ==> m.value in LeafValues(t) && m.value.Some?
    ensures forall v :: v in LeafValues(t) ==> exists i :: 0 <= i < |LeafNodes(t)| && LeafNodes(t)[i].value == v
  {
    match t
    case Leaf(n, _) =>
      assert LeafNodes(t)[0].value == n.value;
    case Internal(n, l, r) =>
      LeafValuesDistinct(l);
      LeafValuesDistinct(r);
      var ls, rs := LeafNodes(l), LeafNodes(r);
      var s := LeafNodes(t);
      assert s == ls + rs;
      forall i, j | 0 <= i < |s| && 0 <= j < |s| && i != j
        ensures s[i].value != s[j].value
      {
        if i < |ls| && j >= |ls| {
          assert s[i] in ls && s[j] in rs;
        } else if i >= |ls| && j < |ls| {
          assert s[i] in rs && s[j] in ls;
        } else if i < |ls| {
          assert s[i] == ls[i] && s[j] == ls[j];
        } else {
          assert s[i] == rs[i - |ls|] && s[j] == rs[j - |ls|];
        }
      }
      forall v | v in LeafValues(t)
        ensures exists i :: 0 <= i < |s| && s[i].value == v
      {
        if v in LeafValues(l) {
          var i :| 0 <= i < |ls| && ls[i].value == v;
          assert s[i] == ls[i];
        } else {
          var i :| 0 <= i < |rs| && rs[i].value == v;
          assert s[|ls| + i] == rs[i];
        }
      }
  }
}
