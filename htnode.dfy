/**
 * A node of the Huffman tree. The fields `value`, `left` and `right` and the
 * child queries belong to the generic binary-tree node the Java class extends;
 * `parent`, `weight` and `path` are the Huffman node's own.
 */
module HTNodes {
  import opened Wrappers
  import opened Bits

  class HTNode {
    var value: Option<JByte>   // the byte a leaf stands for; None (null) on internal nodes
    var left: HTNode?
    var right: HTNode?
    var parent: HTNode?
    var weight: nat
    var path: string

    /** `HTNode(value, weight)`: a childless, parentless node with an empty path. */
    constructor (value: Option<JByte>, weight: nat)
      ensures this.value == value && this.weight == weight && path == ""
      ensures parent == null && left == null && right == null
      ensures IsLeaf()
    {
      this.value := value;
      this.weight := weight;
      this.path := "";
      this.left := null;
      this.right := null;
      this.parent := null;
    }

    predicate HasLeftChild()
      reads this
    {
      left != null
    }

    predicate HasRightChild()
      reads this
    {
      right != null
    }

    /** A leaf is a node with neither child. */
    predicate IsLeaf()
      reads this
      ensures IsLeaf() <==> !HasLeftChild() && !HasRightChild()
    {
      left == null && right == null
    }

    /** `compareTo`: the sign of the result orders nodes by weight alone. */
    function CompareTo(o: HTNode): (c: int)
      reads this, o
      ensures c < 0 <==> weight < o.weight
      ensures c == 0 <==> weight == o.weight
      ensures c > 0 <==> weight > o.weight
    {
      weight - o.weight
    }

    method SetValue(value: Option<JByte>)
      modifies this`value
      ensures this.value == value
    {
      this.value := value;
    }

    method SetLeftChild(left: HTNode?)
      modifies this`left
      ensures this.left == left
    {
      this.left := left;
    }

    method SetRightChild(right: HTNode?)
      modifies this`right
      ensures this.right == right
    {
      this.right := right;
    }

    method SetParent(parent: HTNode?)
      modifies this`parent
      ensures this.parent == parent
    {
      this.parent := parent;
    }

    method SetWeight(weight: nat)
      modifies this`weight
      ensures this.weight == weight
    {
      this.weight := weight;
    }

    method SetPath(path: string)
      modifies this`path
      ensures this.path == path
    {
      this.path := path;
    }
  }

  /** `compareTo` is antisymmetric (weights are unbounded, so the subtraction cannot overflow). */
  lemma CompareToAntisymmetric(a: HTNode, b: HTNode)
    ensures a.CompareTo(b) == -b.CompareTo(a)
  {
  }
}
