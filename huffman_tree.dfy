/**
 * The Huffman tree builder: a working list of nodes that is sorted by weight
 * and whose two lightest nodes are merged under a new parent until one node,
 * the root, is left; then a pre-order walk composes every node's path with its
 * parent's and collects the leaves.
 */
module HuffmanTrees {
  import opened Wrappers
  import opened Bits
  import opened HTNodes
  import opened TreeShapes

  /** Every element of `s` occurs exactly once. */
  ghost predicate NoDuplicates<T>(s: seq<T>) {
    forall x :: x in multiset(s) ==> multiset(s)[x] == 1
  }

  /** The sum of the weights of the nodes in `s`. */
  function TotalWeight(s: seq<HTNode>): nat
    reads s`weight
  {
    if s == [] then 0 else s[0].weight + TotalWeight(s[1..])
  }

  lemma {:induction false} TotalWeightAppend(a: seq<HTNode>, b: seq<HTNode>)
    ensures TotalWeight(a + b) == TotalWeight(a) + TotalWeight(b)
  {
    if a == [] {
      assert a + b == b;
    } else {
      assert (a + b)[1..] == a[1..] + b;
      TotalWeightAppend(a[1..], b);
    }
  }

  /** The total weight depends only on the weights of the listed nodes. */
  twostate lemma {:induction false} TotalWeightUnchanged(s: seq<HTNode>)
    requires forall n :: n in s ==> old(allocated(n)) && n.weight == old(n.weight)
    ensures TotalWeight(s) == old(TotalWeight(s))
  {
    if s != [] {
      assert s[0] in s;
      TotalWeightUnchanged(s[1..]);
    }
  }

  /** Replacing the first two nodes by one that weighs what they weigh keeps the total. */
  twostate lemma TotalWeightMerge(list: seq<HTNode>, new p: HTNode, new list': seq<HTNode>)
    requires |list| >= 2 && p.weight == list[0].weight + list[1].weight
    requires forall n :: n in list ==> old(allocated(n)) && n.weight == old(n.weight)
    requires list' == list[2..] + [p]
    ensures TotalWeight(list') == old(TotalWeight(list))
  {
    assert list == [list[0], list[1]] + list[2..];
    TotalWeightUnchanged(list);
    TotalWeightAppend(list[2..], [p]);
    TotalWeightAppend([list[0], list[1]], list[2..]);
  }

  /** Reordering a list does not change its total weight. */
  lemma {:induction false} TotalWeightPermutation(a: seq<HTNode>, b: seq<HTNode>)
    requires multiset(a) == multiset(b)
    ensures TotalWeight(a) == TotalWeight(b)
    decreases |a|
  {
    if a == [] {
      assert |b| == |multiset(b)| == 0;
    } else {
      var x := a[0];
      assert x in multiset(b);
      var i :| 0 <= i < |b| && b[i] == x;
      var rest := b[..i] + b[i + 1..];
      assert b == b[..i] + ([x] + b[i + 1..]);
      TotalWeightAppend(b[..i], [x] + b[i + 1..]);
      TotalWeightAppend(b[..i], b[i + 1..]);
      assert a == [x] + a[1..];
      assert multiset(b) == multiset(b[..i]) + multiset{x} + multiset(b[i + 1..]);
      assert multiset(rest) == multiset(b[..i]) + multiset(b[i + 1..]);
      assert multiset(a) == multiset{x} + multiset(a[1..]);
      assert multiset(a[1..]) == multiset(a) - multiset{x};
      assert multiset(rest) == multiset(b) - multiset{x};
      TotalWeightPermutation(a[1..], rest);
    }
  }

  ghost predicate SortedByWeight(s: seq<HTNode>)
    reads s`weight
  {
    forall i, j :: 0 <= i < j < |s| ==> s[i].weight <= s[j].weight
  }

  /** In a list sorted by weight the first two nodes, the ones `createTree` merges, are the two lightest. */
  lemma SortedLightestFirst(s: seq<HTNode>)
    requires SortedByWeight(s) && |s| >= 2
    ensures s[0].weight <= s[1].weight
    ensures forall n :: n in s[2..] ==> s[1].weight <= n.weight
  {
    forall n | n in s[2..]
      ensures s[1].weight <= n.weight
    {
      var k :| 0 <= k < |s[2..]| && s[2..][k] == n;
      assert s[k + 2] == n;
    }
  }

  /** Inserting `x` where the lighter-or-equal prefix ends keeps a list sorted by weight. */
  lemma InsertKeepsSorted(s: seq<HTNode>, j: nat, x: HTNode)
    requires SortedByWeight(s) && j <= |s|
    requires forall k :: 0 <= k < j ==> s[k].weight <= x.weight
    requires forall k :: j <= k < |s| ==> x.weight < s[k].weight
    ensures SortedByWeight(s[..j] + [x] + s[j..])
  {
    var r := s[..j] + [x] + s[j..];
    forall a, b | 0 <= a < b < |r|
      ensures r[a].weight <= r[b].weight
    {
      if b < j {
        assert r[a] == s[a] && r[b] == s[b];
      } else if b == j {
        assert r[a] == s[a] && r[b] == x;
      } else if a < j {
        assert r[a] == s[a] && r[b] == s[b - 1];
      } else if a == j {
        assert r[a] == x && r[b] == s[b - 1];
      } else {
        assert r[a] == s[a - 1] && r[b] == s[b - 1];
      }
    }
  }

  lemma InsertMultiset<T>(s: seq<T>, j: nat, x: T)
    requires j <= |s|
    ensures multiset(s[..j] + [x] + s[j..]) == multiset(s) + multiset{x}
  {
    assert s == s[..j] + s[j..];
  }

  lemma PrefixMultiset<T>(s: seq<T>, i: nat)
    requires i < |s|
    ensures multiset(s[..i + 1]) == multiset(s[..i]) + multiset{s[i]}
  {
    assert s[..i + 1] == s[..i] + [s[i]];
  }

  /** Where a stable insertion puts `x`: after every node that is not heavier. */
  method InsertionPoint(sorted: seq<HTNode>, x: HTNode) returns (j: nat)
    requires SortedByWeight(sorted)
    ensures j <= |sorted|
    ensures forall k :: 0 <= k < j ==> sorted[k].weight <= x.weight
    ensures forall k :: j <= k < |sorted| ==> x.weight < sorted[k].weight
  {
    j := 0;
    while j < |sorted| && sorted[j].CompareTo(x) <= 0
      invariant 0 <= j <= |sorted|
      invariant forall k :: 0 <= k < j ==> sorted[k].weight <= x.weight
    {
      j := j + 1;
    }
    if j < |sorted| {
      forall k | j <= k < |sorted| ensures x.weight < sorted[k].weight {
        assert sorted[j].weight <= sorted[k].weight || j == k;
      }
    }
  }

  /**
   * `Collections.sort(nodeList)` under `HTNode.compareTo`: a stable insertion
   * sort, so the result is a permutation ordered by weight.
   */
  method SortByWeight(list: seq<HTNode>) returns (sorted: seq<HTNode>)
    ensures multiset(sorted) == multiset(list)
    ensures SortedByWeight(sorted)
  {
    sorted := [];
    for i := 0 to |list|
      invariant multiset(sorted) == multiset(list[..i])
      invariant SortedByWeight(sorted)
    {
      var x := list[i];
      var j := InsertionPoint(sorted, x);
      InsertKeepsSorted(sorted, j, x);
      InsertMultiset(sorted, j, x);
      PrefixMultiset(list, i);
      sorted := sorted[..j] + [x] + sorted[j..];
    }
    assert list[..|list|] == list;
  }

  /**
   * What the coder takes from a finished tree: one leaf per symbol, each
   * symbol once, binary paths none of which is a prefix of another's; a
   * single symbol sits at the root with the empty path, and with two or
   * more every path is non-empty.
   */
  ghost predicate LeafTable(leaves: seq<HTNode>, symbols: set<Option<JByte>>)
    reads leaves
  {
    && (forall i, j :: 0 <= i < |leaves| && 0 <= j < |leaves| && i != j ==>
          leaves[i].value != leaves[j].value && !(leaves[i].path <= leaves[j].path))
    && (forall m :: m in leaves ==> m.value in symbols && m.value.Some? && IsBinary(m.path))
    && (forall v :: v in symbols ==> exists i :: 0 <= i < |leaves| && leaves[i].value == v)
    && (|symbols| >= 2 ==> forall m :: m in leaves ==> |m.path| > 0)
    && (|symbols| == 1 ==> |leaves| == 1 && leaves[0].path == "")
  }

  /**
   * The bookkeeping of a forest, apart from the heap: the elements of `list`
   * are distinct, their trees (in `trees`) share no node and no byte, and
   * together carry exactly `symbols`.
   */
  ghost predicate Partition(list: seq<HTNode>, trees: map<HTNode, Tree>, symbols: set<Option<JByte>>)
  {
    && NoDuplicates(list)
    && (forall n :: n in list ==> n in trees && trees[n].node == n)
    && (forall n, m :: n in list && m in list && n != m ==>
          Nodes(trees[n]) !! Nodes(trees[m]) && LeafValues(trees[n]) !! LeafValues(trees[m]))
    && Carried(list, trees) == symbols
  }

  /** The bytes carried by the leaves of the trees of the elements of `list`. */
  ghost function Carried(list: seq<HTNode>, trees: map<HTNode, Tree>): set<Option<JByte>> {
    if list == [] then {}
    else (if list[0] in trees then LeafValues(trees[list[0]]) else {}) + Carried(list[1..], trees)
  }

  /** A byte is carried exactly when the tree of some element has a leaf for it. */
  lemma {:induction false} CarriedMembers(list: seq<HTNode>, trees: map<HTNode, Tree>)
    ensures forall v :: v in Carried(list, trees) <==> exists n :: n in list && n in trees && v in LeafValues(trees[n])
  {
    if list != [] {
      CarriedMembers(list[1..], trees);
      assert forall n :: n in list <==> n == list[0] || n in list[1..];
    }
  }

  lemma {:induction false} CarriedAppend(a: seq<HTNode>, b: seq<HTNode>, trees: map<HTNode, Tree>)
    ensures Carried(a + b, trees) == Carried(a, trees) + Carried(b, trees)
  {
    if a == [] {
      assert a + b == b;
    } else {
      assert (a + b)[1..] == a[1..] + b;
      CarriedAppend(a[1..], b, trees);
    }
  }

  /** Giving a tree to a node outside the list changes nothing carried. */
  lemma {:induction false} CarriedUpdate(list: seq<HTNode>, trees: map<HTNode, Tree>, p: HTNode, t: Tree)
    requires p !in list
    ensures Carried(list, trees[p := t]) == Carried(list, trees)
  {
    if list != [] {
      assert list[0] != p;
      CarriedUpdate(list[1..], trees, p, t);
    }
  }

  /**
   * The heap side of a forest: every tree lies in `repr` and is grown, and
   * its top has no parent and an empty path.
   */
  ghost predicate Planted(list: seq<HTNode>, trees: map<HTNode, Tree>, repr: set<HTNode>)
    reads repr`left, repr`right, repr`value, repr`weight, repr`parent, repr`path
  {
    forall n :: n in list && n in trees ==>
      trees[n].node == n && Nodes(trees[n]) <= repr && Grown(trees[n]) && n.parent == null && n.path == ""
  }

  /** `r` is `s` with its element at `i` taken out, and `i` is the first position holding `x`. */
  ghost predicate RemovedAt(s: seq<HTNode>, x: HTNode, r: seq<HTNode>, i: int)
  {
    0 <= i < |s| && s[i] == x && x !in s[..i] && r == s[..i] + s[i + 1..]
  }

  /** Removing the first occurrence from the tail is removing it from the whole list, one place later. */
  lemma RemovedAtCons(s: seq<HTNode>, x: HTNode, rest: seq<HTNode>, k: int)
    requires |s| > 0 && s[0] != x && RemovedAt(s[1..], x, rest, k)
    ensures RemovedAt(s, x, [s[0]] + rest, k + 1)
  {
    assert s[..k + 1] == [s[0]] + s[1..][..k];
    assert s[k + 2..] == s[1..][k + 1..];
  }

  /** `List.remove(x)`: the list without the first occurrence of `x` (nodes compare by identity). */
  function Without(s: seq<HTNode>, x: HTNode): (r: seq<HTNode>)
    ensures x !in s ==> r == s
    ensures |s| > 0 && s[0] == x ==> r == s[1..]
  {
    if s == [] then []
    else if s[0] == x then s[1..]
    else
      assert s == [s[0]] + s[1..];
      [s[0]] + Without(s[1..], x)
  }

  /** Wherever `x` first occurs, `Without` takes out exactly that element. */
  lemma {:induction false} WithoutRemovesFirst(s: seq<HTNode>, x: HTNode)
    requires x in s
    ensures exists i :: RemovedAt(s, x, Without(s, x), i)
  {
    if s[0] == x {
      assert Without(s, x) == s[1..];
      assert s[..0] == [] && RemovedAt(s, x, s[1..], 0);
    } else {
      assert s == [s[0]] + s[1..];
      assert x in s[1..];
      WithoutRemovesFirst(s[1..], x);
      var k :| RemovedAt(s[1..], x, Without(s[1..], x), k);
      RemovedAtCons(s, x, Without(s[1..], x), k);
      assert Without(s, x) == [s[0]] + Without(s[1..], x);
      assert RemovedAt(s, x, Without(s, x), k + 1);
    }
  }

  /** Reordering the list keeps the bookkeeping of the forest. */
  lemma PartitionPermutation(a: seq<HTNode>, b: seq<HTNode>, trees: map<HTNode, Tree>,
                             symbols: set<Option<JByte>>)
    requires multiset(a) == multiset(b)
    requires Partition(a, trees, symbols)
    ensures Partition(b, trees, symbols)
  {
    forall n ensures n in a <==> n in b {
      assert n in a <==> n in multiset(a);
      assert n in b <==> n in multiset(b);
    }
    CarriedMembers(a, trees);
    CarriedMembers(b, trees);
  }

  /** Reordering the list keeps the heap side of the forest. */
  lemma PlantedPermutation(a: seq<HTNode>, b: seq<HTNode>, trees: map<HTNode, Tree>, repr: set<HTNode>)
    requires multiset(a) == multiset(b)
    requires Planted(a, trees, repr)
    ensures Planted(b, trees, repr)
  {
    forall n ensures n in a <==> n in b {
      assert n in a <==> n in multiset(a);
      assert n in b <==> n in multiset(b);
    }
  }

  /**
   * Replacing the first two elements of the list by a new parent whose tree
   * joins theirs keeps the bookkeeping of the forest.
   */
  lemma PartitionMerge(list: seq<HTNode>, trees: map<HTNode, Tree>, symbols: set<Option<JByte>>,
                       p: HTNode, list': seq<HTNode>, trees': map<HTNode, Tree>)
    requires Partition(list, trees, symbols) && |list| >= 2
    requires p !in list && forall n :: n in list ==> p !in Nodes(trees[n])
    requires list' == list[2..] + [p]
    requires trees' == trees[p := Internal(p, trees[list[0]], trees[list[1]])]
    ensures Partition(list', trees', symbols)
  {
    var l, r, rest := list[0], list[1], list[2..];
    assert list == [l, r] + rest;
    assert multiset(list) == multiset{l, r} + multiset(rest);
    assert l != r by {
      assert multiset(list)[l] == 1;
    }
    assert l !in rest && r !in rest by {
      assert multiset(list)[l] == 1 && multiset(list)[r] == 1;
    }
    assert multiset(list') == multiset(rest) + multiset{p};
    assert NoDuplicates(list') by {
      forall x | x in multiset(list') ensures multiset(list')[x] == 1 {
        if x == p {
          assert p !in rest;
        } else {
          assert x in rest;
          assert multiset(list)[x] == 1;
        }
      }
    }
    forall n | n in list'
      ensures n in trees' && trees'[n].node == n
    {
      if n != p {
        assert n in list;
      }
    }
    forall n, m | n in list' && m in list' && n != m
      ensures Nodes(trees'[n]) !! Nodes(trees'[m]) && LeafValues(trees'[n]) !! LeafValues(trees'[m])
    {
      if n == p {
        assert m in rest && m in list;
      } else if m == p {
        assert n in rest && n in list;
      } else {
        assert n in list && m in list;
      }
    }
    assert Carried(list', trees') == symbols by {
      CarriedAppend([l, r], rest, trees);
      CarriedAppend(rest, [p], trees');
      CarriedUpdate(rest, trees, p, trees'[p]);
      assert [l, r][1..] == [r];
      assert [p][1..] == [];
    }
  }

  /** The trees of the first two elements share nothing with each other or with those of the rest. */
  lemma PartitionMergeDisjoint(list: seq<HTNode>, trees: map<HTNode, Tree>, symbols: set<Option<JByte>>)
    requires Partition(list, trees, symbols) && |list| >= 2
    ensures list[0] != list[1] && list[0] !in list[2..] && list[1] !in list[2..]
    ensures Nodes(trees[list[0]]) !! Nodes(trees[list[1]])
    ensures LeafValues(trees[list[0]]) !! LeafValues(trees[list[1]])
    ensures forall n :: n in list[2..] ==>
      && Nodes(trees[n]) !! Nodes(trees[list[0]]) && Nodes(trees[n]) !! Nodes(trees[list[1]])
  {
    assert list == [list[0], list[1]] + list[2..];
    assert multiset(list) == multiset{list[0], list[1]} + multiset(list[2..]);
    assert multiset(list)[list[0]] == 1 && multiset(list)[list[1]] == 1;
  }

  /**
   * Across the field updates of one merge (paths and parents of the first two
   * elements, and a fresh parent), the remaining trees stay planted and the
   * parent's tree is grown.
   */
  twostate lemma PlantedMerge(new list: seq<HTNode>, new trees: map<HTNode, Tree>, new symbols: set<Option<JByte>>,
                              new repr: set<HTNode>, new p: HTNode,
                              new list': seq<HTNode>, new trees': map<HTNode, Tree>, new repr': set<HTNode>)
    requires |list| >= 2
    requires old(allocated(list)) && old(allocated(trees)) && old(allocated(repr))
    requires old(Planted(list, trees, repr)) && Partition(list, trees, symbols)
    requires fresh(p)
    requires forall o :: o in repr && o != list[0] && o != list[1] ==> Kept(o)
    requires list[0].left == old(list[0].left) && list[0].right == old(list[0].right)
    requires list[0].value == old(list[0].value) && list[0].weight == old(list[0].weight)
    requires list[1].left == old(list[1].left) && list[1].right == old(list[1].right)
    requires list[1].value == old(list[1].value) && list[1].weight == old(list[1].weight)
    requires p.left == list[0] && p.right == list[1] && list[0].parent == p && list[1].parent == p
    requires p.value == None && p.weight == list[0].weight + list[1].weight && p.parent == null && p.path == ""
    requires list[0].path == "0" && list[1].path == "1"
    requires list' == list[2..] + [p]
    requires trees' == trees[p := Internal(p, trees[list[0]], trees[list[1]])]
    requires repr' == repr + {p}
    ensures Planted(list', trees', repr')
  {
    var l, r, rest := list[0], list[1], list[2..];
    PartitionMergeDisjoint(list, trees, symbols);
    var tl, tr := trees[l], trees[r];
    assert l in list && r in list;
    GrownTopRelabelled(tl);
    GrownTopRelabelled(tr);
    Join(p, tl, tr);
    forall n | n in rest + [p] && n in trees'
      ensures trees'[n].node == n && Nodes(trees'[n]) <= repr + {p} && Grown(trees'[n])
      ensures n.parent == null && n.path == ""
    {
      if n != p {
        assert n in list;
        assert forall o :: o in Nodes(trees[n]) ==> o in repr && o != l && o != r;
        GrownUnchanged(trees[n]);
      }
    }
  }

  /** A list of distinct parentless leaves, each its own tree, is a forest of single leaves. */
  lemma LeafForest(list: seq<HTNode>, trees: map<HTNode, Tree>, symbols: set<Option<JByte>>, repr: set<HTNode>)
    requires NoDuplicates(list)
    requires forall n :: n in list ==>
      && n.IsLeaf() && n.path == "" && n.parent == null && n.value.Some?
      && n in trees && trees[n] == Leaf(n, n.value) && n in repr && n.value in symbols
    requires forall n, m :: n in list && m in list && n != m ==> n.value != m.value
    requires forall v :: v in symbols ==> exists n :: n in list && n.value == v
    ensures Partition(list, trees, symbols) && Planted(list, trees, repr)
  {
    CarriedMembers(list, trees);
    forall n | n in list
      ensures LeafValues(trees[n]) == {n.value}
      ensures Nodes(trees[n]) <= repr && Grown(trees[n])
    {
      assert trees[n] == Leaf(n, n.value);
    }
  }

  /**
   * The field updates of one merge in `createTree`: the lighter node gets
   * path "0", the other "1", and both hang under a new parent that carries
   * no byte and weighs what they weigh together.
   */
  method Link(leftNode: HTNode, rightNode: HTNode) returns (parentNode: HTNode)
    requires leftNode != rightNode
    modifies leftNode`path, leftNode`parent, rightNode`path, rightNode`parent
    ensures fresh(parentNode)
    ensures parentNode.value == None && parentNode.weight == leftNode.weight + rightNode.weight
    ensures parentNode.left == leftNode && parentNode.right == rightNode
    ensures parentNode.parent == null && parentNode.path == ""
    ensures leftNode.path == "0" && rightNode.path == "1"
    ensures leftNode.parent == parentNode && rightNode.parent == parentNode
    ensures leftNode.left == old(leftNode.left) && leftNode.right == old(leftNode.right)
    ensures leftNode.value == old(leftNode.value) && leftNode.weight == old(leftNode.weight)
    ensures rightNode.left == old(rightNode.left) && rightNode.right == old(rightNode.right)
    ensures rightNode.value == old(rightNode.value) && rightNode.weight == old(rightNode.weight)
    ensures forall o: HTNode :: o != leftNode && o != rightNode && old(allocated(o)) ==> Kept(o)
  {
    leftNode.SetPath("0");
    rightNode.SetPath("1");
    parentNode := new HTNode(None, leftNode.weight + rightNode.weight);
    parentNode.SetLeftChild(leftNode);
    parentNode.SetRightChild(rightNode);
    leftNode.SetParent(parentNode);
    rightNode.SetParent(parentNode);
  }

  /**
   * One fresh leaf per entry of the weight map, in an unspecified order,
   * together with the bookkeeping for a forest of single leaves: each leaf
   * is its own tree and `values` holds the keys.
   */
  method NewLeaves(weightMap: map<JByte, nat>)
    returns (list: seq<HTNode>, ghost leaves: map<HTNode, Tree>, ghost values: set<Option<JByte>>,
             ghost repr: set<HTNode>)
    ensures fresh(repr)
    ensures NoDuplicates(list)
    ensures |list| == |weightMap.Keys|
    ensures forall v :: v in values <==> v.Some? && v.value in weightMap
    ensures forall n :: n in list ==>
      && n.IsLeaf() && n.path == "" && n.parent == null
      && n in leaves && leaves[n] == Leaf(n, n.value) && n in repr && n.value in values
      && n.value.Some? && n.value.value in weightMap && n.weight == weightMap[n.value.value]
    ensures forall n, m :: n in list && m in list && n != m ==> n.value != m.value
    ensures forall v :: v in values ==> exists n :: n in list && n.value == v
  {
    list := [];
    leaves := map[];
    values := {};
    repr := {};
    var keys := weightMap.Keys;
    while keys != {}
      invariant keys <= weightMap.Keys
      invariant NoDuplicates(list)
      invariant |list| + |keys| == |weightMap.Keys|
      invariant fresh(repr)
      invariant forall n :: n in list ==>
        && n.IsLeaf() && n.path == "" && n.parent == null
        && n in leaves && leaves[n] == Leaf(n, n.value) && n in repr && n.value in values
        && n.value.Some? && n.value.value in weightMap.Keys - keys && n.weight == weightMap[n.value.value]
      invariant forall n, m :: n in list && m in list && n != m ==> n.value != m.value
      invariant forall v :: v in values <==> v.Some? && v.value in weightMap.Keys - keys
      invariant forall v :: v in values ==> exists n :: n in list && n.value == v
      decreases |keys|
    {
      var k :| k in keys;
      var node := new HTNode(Some(k), weightMap[k]);
      list := list + [node];
      leaves := leaves[node := Leaf(node, Some(k))];
      values := values + {Some(k)};
      repr := repr + {node};
      keys := keys - {k};
    }
  }

  class HuffmanTree {
    var root: HTNode?
    var nodeList: seq<HTNode>
    var leafList: seq<HTNode>
    ghost var trees: map<HTNode, Tree>     // the subtree hanging from each node of nodeList
    ghost var symbols: set<Option<JByte>>  // the byte values of the leaves, fixed at construction
    ghost var Repr: set<HTNode>            // every node allocated for this tree

    /**
     * The working state before building: nodeList is a forest of disjoint,
     * labelled subtrees whose roots have no parent and an empty path, and
     * whose leaves carry exactly the symbols, each once.
     */
    ghost predicate Valid()
      reads this, Repr`left, Repr`right, Repr`value, Repr`weight, Repr`parent, Repr`path
    {
      && Partition(nodeList, trees, symbols)
      && Planted(nodeList, trees, Repr)
    }

    /**
     * `HuffmanTree(weightMap)`: one fresh leaf per entry of the weight map, in
     * the map's (unspecified) iteration order; no leaves collected yet.
     */
    constructor (weightMap: map<JByte, nat>)
      ensures Valid() && fresh(Repr)
      ensures root == null && leafList == []
      ensures |nodeList| == |weightMap|
      ensures forall v :: v in symbols <==> v.Some? && v.value in weightMap
      ensures forall n :: n in nodeList ==>
        && n.IsLeaf() && n in trees && trees[n] == Leaf(n, n.value)
        && n.value.Some? && n.value.value in weightMap && n.weight == weightMap[n.value.value]
    {
      var list, leaves, values, repr := NewLeaves(weightMap);
      LeafForest(list, leaves, values, repr);
      root := null;
      nodeList := list;
      leafList := [];
      trees := leaves;
      symbols := values;
      Repr := repr;
      new;
      assert |weightMap| == |weightMap.Keys|;
    }

    /** `Collections.sort(nodeList)`: reorder the working list by weight. */
    method SortNodes()
      requires Valid()
      modifies this`nodeList
      ensures Valid()
      ensures multiset(nodeList) == multiset(old(nodeList)) && |nodeList| == |old(nodeList)|
      ensures forall n :: n in nodeList <==> n in old(nodeList)
      ensures SortedByWeight(nodeList)
      ensures TotalWeight(nodeList) == old(TotalWeight(nodeList))
    {
      var sorted := SortByWeight(nodeList);
      assert |sorted| == |multiset(sorted)| == |multiset(nodeList)| == |nodeList|;
      PartitionPermutation(nodeList, sorted, trees, symbols);
      PlantedPermutation(nodeList, sorted, trees, Repr);
      TotalWeightPermutation(nodeList, sorted);
      forall n ensures n in sorted <==> n in nodeList {
        assert n in sorted <==> n in multiset(sorted);
      }
      nodeList := sorted;
    }

    /**
     * The merge in the loop body of `createTree` once the list is sorted:
     * label the first two nodes "0" and "1", hang them under a new parent
     * that weighs what they weigh, and replace them in the list by that parent.
     */
    method MergeFirstTwo() returns (ghost l: HTNode, ghost r: HTNode, ghost p: HTNode)
      requires Valid() && |nodeList| > 1 && SortedByWeight(nodeList)
      modifies this`nodeList, this`trees, this`Repr
      modifies Repr`path, Repr`parent
      ensures Valid()
      ensures l == old(nodeList[0]) && r == old(nodeList[1]) && l != r
      ensures l.weight <= r.weight && forall n :: n in old(nodeList[2..]) ==> r.weight <= n.weight
      ensures fresh(p) && p.value == None && p.weight == l.weight + r.weight
      ensures p.left == l && p.right == r && l.parent == p && r.parent == p
      ensures l.path == "0" && r.path == "1"
      ensures nodeList == old(nodeList[2..]) + [p]
      ensures trees == old(trees)[p := Internal(p, old(trees[l]), old(trees[r]))]
      ensures Repr == old(Repr) + {p}
      ensures TotalWeight(nodeList) == old(TotalWeight(nodeList))
    {
      ghost var list := nodeList;
      SortedLightestFirst(list);
      PartitionMergeDisjoint(list, trees, symbols);
      var leftNode := nodeList[0];
      var rightNode := nodeList[1];
      var parentNode := Link(leftNode, rightNode);
      var rest := Without(Without(nodeList, leftNode), rightNode);
      l, r, p := leftNode, rightNode, parentNode;
      nodeList, trees, Repr := rest + [parentNode], trees[p := Internal(p, trees[l], trees[r])], Repr + {p};
      Merged(p);
    }

    /**
     * The bookkeeping of one merge: when the first two roots have been
     * labelled and hung under a fresh parent, and the ghost state records the
     * new tree, the state is valid again and the total weight is unchanged.
     */
    twostate lemma Merged(new p: HTNode)
      requires old(Valid()) && old(|nodeList|) > 1
      requires fresh(p)
      requires forall o :: o in old(Repr) && o != old(nodeList[0]) && o != old(nodeList[1]) ==> Kept(o)
      requires old(nodeList[0]).left == old(nodeList[0].left) && old(nodeList[0]).right == old(nodeList[0].right)
      requires old(nodeList[0]).value == old(nodeList[0].value) && old(nodeList[0]).weight == old(nodeList[0].weight)
      requires old(nodeList[1]).left == old(nodeList[1].left) && old(nodeList[1]).right == old(nodeList[1].right)
      requires old(nodeList[1]).value == old(nodeList[1].value) && old(nodeList[1]).weight == old(nodeList[1].weight)
      requires p.left == old(nodeList[0]) && p.right == old(nodeList[1])
      requires old(nodeList[0]).parent == p && old(nodeList[1]).parent == p
      requires p.value == None && p.weight == old(nodeList[0].weight + nodeList[1].weight)
      requires p.parent == null && p.path == ""
      requires old(nodeList[0]).path == "0" && old(nodeList[1]).path == "1"
      requires nodeList == old(nodeList[2..]) + [p] && symbols == old(symbols)
      requires trees == old(trees)[p := Internal(p, old(trees[nodeList[0]]), old(trees[nodeList[1]]))]
      requires Repr == old(Repr) + {p}
      ensures Valid()
      ensures TotalWeight(nodeList) == old(TotalWeight(nodeList))
    {
      ghost var list, forest, reprBefore := old(nodeList), old(trees), old(Repr);
      assert forall n :: n in list ==> n in reprBefore && Nodes(forest[n]) <= reprBefore;
      assert p !in reprBefore;
      PartitionMerge(list, forest, symbols, p, nodeList, trees);
      PlantedMerge(list, forest, symbols, reprBefore, p, nodeList, trees, Repr);
      TotalWeightMerge(list, p, nodeList);
    }

    /**
     * The finished tree: `root` is the only element left, its tree is well
     * formed with every child's path its parent's path followed by its bit,
     * `leafList` holds its leaves in pre-order, and they carry exactly the symbols.
     */
    ghost predicate Built()
      reads this, Repr`left, Repr`right, Repr`value, Repr`weight, Repr`parent, Repr`path
    {
      && root != null && nodeList == [root] && root in trees
      && trees[root].node == root && Nodes(trees[root]) <= Repr
      && Distinct(trees[root]) && Shaped(trees[root]) && Composed(trees[root])
      && root.parent == null && root.path == ""
      && leafList == LeafNodes(trees[root])
      && LeafValues(trees[root]) == symbols
    }

    /**
     * What the finished tree gives the coder: one leaf per symbol, each byte
     * once, every path a bit string and no path a prefix of another's; with
     * two or more symbols every path is non-empty, and with one symbol the
     * root is the only leaf and keeps the empty path.
     */
    lemma LeafCode()
      requires Built()
      ensures LeafTable(leafList, symbols)
      ensures |symbols| == 1 ==> leafList == [root]
    {
      var t := trees[root];
      LeafPathsPrefixFree(t);
      LeafValuesDistinct(t);
      LeafPathsExtendTop(t);
      forall m | m in leafList
        ensures IsBinary(m.path)
      {
        assert m.path[|t.node.path|..] == m.path;
      }
      if t.Internal? {
        TwoLeafValues(t);
      }
    }

    /**
     * The action `calcPath` hands to the pre-order walk: a node with a parent
     * gets its parent's path in front of its own, and a leaf is collected.
     */
    method VisitCalcPath(node: HTNode)
      requires node.parent != node
      modifies node`path, this`leafList
      ensures node.path == if node.parent == null then old(node.path) else node.parent.path + old(node.path)
      ensures leafList == old(leafList) + if node.IsLeaf() then [node] else []
    {
      if node.parent != null {
        node.SetPath(node.parent.path + node.path);
      }
      if node.IsLeaf() {
        leafList := leafList + [node];
      }
    }

    /**
     * `preorderTraverse(node, consumer)` with the action of `calcPath`, on the
     * subtree `t` hanging from `node`: visit the node, then walk its left and
     * its right child. Parents are visited first, so each child sees its
     * parent's final path.
     */
    method PreorderCalcPath(node: HTNode, ghost t: Tree)
      requires t.node == node && Distinct(t) && Shaped(t) && Labeled(t)
      requires node.parent == null || node.parent !in Nodes(t)
      requires Nodes(t) <= Repr
      modifies this`leafList, Nodes(t)`path
      ensures leafList == old(leafList) + LeafNodes(t)
      ensures node.path == if node.parent == null then old(node.path) else node.parent.path + old(node.path)
      ensures Composed(t)
      decreases t
    {
      ghost var before := leafList;
      if t.Internal? {
        assert Shaped(t.left) && Labeled(t.left) && Shaped(t.right) && Labeled(t.right);
        assert Nodes(t.left) !! Nodes(t.right) && node !in Nodes(t.left) && node !in Nodes(t.right);
        assert Nodes(t.left) <= Repr && Nodes(t.right) <= Repr;
        assert Below(t.left) <= Nodes(t.left) && Below(t.right) <= Nodes(t.right) && Below(t.right) !! Nodes(t.left);
      }
      VisitCalcPath(node);
      if t.Internal? {
        assert t.left.node.path == "0" && t.right.node.path == "1";
        assert leafList == before;
      } else {
        assert leafList == before + LeafNodes(t);
      }
      if node.HasLeftChild() {
        PreorderCalcPath(node.left, t.left);
      }
      ghost var middle := leafList;
      if node.HasRightChild() {
        PreorderCalcPath(node.right, t.right);
      }
      if t.Internal? {
        assert middle == before + LeafNodes(t.left);
        assert leafList == middle + LeafNodes(t.right);
        assert (before + LeafNodes(t.left)) + LeafNodes(t.right) == before + (LeafNodes(t.left) + LeafNodes(t.right));
        assert Composed(t.left) && t.left.node.path == node.path + "0";
      }
    }

    /** `calcPath`: compose the paths of the whole tree and collect its leaves. */
    method CalcPath()
      requires Valid() && nodeList == [root] && leafList == []
      modifies this`leafList, Repr`path
      ensures Built()
    {
      var t := trees[root];
      assert root in nodeList && [root][1..] == [];
      assert Carried(nodeList, trees) == LeafValues(t);
      assert Nodes(t) <= Repr && Grown(t) && root.parent == null && root.path == "";
      assert Shaped(t) && Below(t) <= Nodes(t);
      PreorderCalcPath(root, t);
      assert leafList == [] + LeafNodes(t) == LeafNodes(t);
      assert Shaped(t);
    }

    /**
     * The loop of `createTree`: while more than one node is left, sort the
     * list and merge its first two nodes. The forest stays valid, its total
     * weight is kept, and an empty list stays empty.
     */
    method MergeAll()
      requires Valid()
      modifies this`nodeList, this`trees, this`Repr, Repr`path, Repr`parent
      ensures Valid() && |nodeList| <= 1
      ensures nodeList == [] <==> old(nodeList) == []
      ensures TotalWeight(nodeList) == old(TotalWeight(nodeList))
      ensures fresh(Repr - old(Repr))
    {
      while |nodeList| > 1
        invariant Valid() && fresh(Repr - old(Repr))
        invariant TotalWeight(nodeList) == old(TotalWeight(nodeList))
        invariant nodeList == [] <==> old(nodeList) == []
        decreases |nodeList|
      {
        SortNodes();
        ghost var l, r, p := MergeFirstTwo();
      }
    }

    /**
     * `createTree`: merge the forest into one tree, take the last node left
     * as the root and compose the paths. On an empty list `nodeList.get(0)`
     * throws.
     */
    method CreateTree() returns (outcome: Outcome<()>)
      requires Valid() && leafList == []
      modifies this`root, this`nodeList, this`trees, this`Repr, this`leafList, Repr`path, Repr`parent
      ensures old(nodeList) == [] <==> outcome == Thrown(IndexOutOfBounds)
      ensures old(nodeList) == [] ==> nodeList == [] && leafList == [] && root == old(root)
      ensures old(nodeList) != [] ==> outcome == Ok(()) && Built() && root.weight == old(TotalWeight(nodeList))
      ensures fresh(Repr - old(Repr))
    {
      MergeAll();
      if nodeList == [] {
        return Thrown(IndexOutOfBounds);
      }
      root := nodeList[0];
      assert nodeList == [root];
      CalcPath();
      outcome := Ok(());
    }
  }
}
