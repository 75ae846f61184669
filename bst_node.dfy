/** A position of the binary tree: a sentinel leaf or an internal node. */
module BSTNodes {
  import opened MultimediaItems
  import opened DataEntries
  import opened TreeModel

  class BSTNode {
    var parent: BSTNode?
    var leftChild: BSTNode?
    var rightChild: BSTNode?
    var data: Data?

    /** The nodes and item lists of this subtree */
    ghost var Repr: set<object>
    /** The subtree's abstract value */
    ghost var Model: Tree

    /** The shape the dictionary keeps: a leaf has no data; an internal node
        has data and two children whose footprints are disjoint from each
        other and from this node and its item list. The parent link is not
        constrained: nothing keeps it in step with the child links. */
    ghost predicate Valid()
      reads this, Repr
      decreases Repr
    {
      this in Repr &&
      if leftChild == null && rightChild == null then
        data == null && Model == Leaf
      else
        leftChild != null && rightChild != null && data != null &&
        leftChild in Repr && rightChild in Repr && data.media in Repr &&
        leftChild.Repr <= Repr && rightChild.Repr <= Repr &&
        this !in leftChild.Repr && this !in rightChild.Repr &&
        data.media !in leftChild.Repr && data.media !in rightChild.Repr &&
        leftChild.Repr !! rightChild.Repr &&
        leftChild.Valid() && rightChild.Valid() &&
        Model == Node(leftChild.Model, data.name, data.media.items, rightChild.Model)
    }

    /** Recomputes the footprint and value of an internal node from those of
        its children, after one of the subtrees below it has changed. */
    ghost method Absorb()
      requires leftChild != null && rightChild != null && data != null
      requires leftChild.Valid() && rightChild.Valid()
      requires leftChild.Repr !! rightChild.Repr
      requires this !in leftChild.Repr && this !in rightChild.Repr
      requires data.media !in leftChild.Repr && data.media !in rightChild.Repr
      modifies this`Repr, this`Model
      ensures Valid()
      ensures Repr == old(Repr) + {this, data.media} + leftChild.Repr + rightChild.Repr
      ensures Model == Node(leftChild.Model, data.name, data.media.items, rightChild.Model)
    {
      Repr := Repr + {this, data.media} + leftChild.Repr + rightChild.Repr;
      Model := Node(leftChild.Model, data.name, data.media.items, rightChild.Model);
    }

    /** A sentinel leaf: all four links null */
    constructor ()
      ensures parent == null && leftChild == null && rightChild == null && data == null
      ensures IsLeaf() && Valid() && Model == Leaf && Repr == {this}
    {
      parent, leftChild, rightChild, data := null, null, null, null;
      Repr, Model := {this}, Leaf;
    }

    /** A node with the four links given, stored unchanged. Nothing is
        checked, so the result need not satisfy Valid(). */
    constructor WithLinks(newParent: BSTNode?, newLeftChild: BSTNode?, newRightChild: BSTNode?, newData: Data?)
      ensures parent == newParent && leftChild == newLeftChild
      ensures rightChild == newRightChild && data == newData
    {
      parent, leftChild, rightChild, data := newParent, newLeftChild, newRightChild, newData;
      Repr, Model := {this}, Leaf;
    }

    function GetParent(): BSTNode?
      reads this
    {
      parent
    }

    function GetRightChild(): BSTNode?
      reads this
    {
      rightChild
    }

    function GetLeftChild(): BSTNode?
      reads this
    {
      leftChild
    }

    function GetData(): Data?
      reads this
    {
      data
    }

    /** Only `parent` changes */
    method SetParent(newParent: BSTNode?)
      modifies this`parent
      ensures GetParent() == newParent
    {
      parent := newParent;
    }

    /** Only `leftChild` changes; the child's own parent link is left as it was */
    method SetLeftChild(newLeftChild: BSTNode?)
      modifies this`leftChild
      ensures GetLeftChild() == newLeftChild
      ensures newLeftChild != null ==> newLeftChild.parent == old(newLeftChild.parent)
    {
      leftChild := newLeftChild;
    }

    /** Only `rightChild` changes; the child's own parent link is left as it was */
    method SetRightChild(newRightChild: BSTNode?)
      modifies this`rightChild
      ensures GetRightChild() == newRightChild
      ensures newRightChild != null ==> newRightChild.parent == old(newRightChild.parent)
    {
      rightChild := newRightChild;
    }

    /** Only `data` changes */
    method SetData(newData: Data?)
      modifies this`data
      ensures GetData() == newData
    {
      data := newData;
    }

    /** A leaf is a node without children; the data link plays no part. */
    predicate IsLeaf()
      reads this
    {
      leftChild == null && rightChild == null
    }

    /** In the shape the dictionary keeps, the leaves are exactly the nodes
        without data, and exactly the nodes whose value is the empty tree. */
    lemma LeafIffNoData()
      requires Valid()
      ensures IsLeaf() <==> data == null
      ensures IsLeaf() <==> Model == Leaf
    {
    }
  }
}
