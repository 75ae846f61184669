/** The unbalanced binary-search-tree ordered dictionary. */
module Dictionary {
  import opened MultimediaItems
  import opened DataEntries
  import opened JavaStrings
  import opened TreeModel
  import opened BSTNodes

  /** What a call of the `get` written in the source can lead to */
  datatype GetOutcome = Returned(list: MediaList?) | NullPointerException

  class BSTOrderedDictionary {
    var root: BSTNode
    var numInternalNodes: int

    /** The dictionary invariant: the root's subtree keeps the node shape and
        the strict search-tree order, and the counter equals the number of
        internal nodes. */
    ghost predicate Valid()
      reads this, root, root.Repr
    {
      root.Valid() && this !in root.Repr &&
      Ordered(root.Model) && numInternalNodes == Size(root.Model)
    }

    /** The key-to-items map the dictionary holds */
    ghost function Contents(): map<string, seq<MultimediaItem>>
      reads this, root, root.Repr
      requires Valid()
    {
      TreeModel.Contents(root.Model)
    }

    /** An empty dictionary: a single sentinel leaf and a zero counter */
    constructor ()
      ensures Valid() && fresh(root.Repr)
      ensures numInternalNodes == 0 && Contents() == map[]
      ensures root.IsLeaf() && root.data == null && root.parent == null
    {
      numInternalNodes := 0;
      root := new BSTNode();
    }

    /** The root node, a valid ordered subtree that `get` and `put` can start from */
    method GetRoot() returns (r: BSTNode)
      requires Valid()
      ensures r == root
      ensures r.Valid() && Ordered(r.Model) && this !in r.Repr
    {
      r := root;
    }

    /** The counter, which equals both the number of internal nodes and the
        number of distinct keys */
    method GetNumInternalNodes() returns (n: int)
      requires Valid()
      ensures n == Size(root.Model)
      ensures n == |Contents().Keys|
    {
      OrderedSizeIsKeyCount(root.Model);
      ContentsKeys(root.Model);
      n := numInternalNodes;
    }

    /** `get` as the source writes it: the key of r is read before the leaf
        test, so reaching a leaf (data null) throws instead of returning null. */
    function GetAsWritten(r: BSTNode, k: string): (res: GetOutcome)
      requires r.Valid()
      reads r.Repr
      decreases r.Repr
      ensures res.NullPointerException? <==> Lookup(r.Model, k).None?
      ensures res.Returned? ==> res.list != null && res.list.items == Lookup(r.Model, k).value
      ensures res.Returned? ==>
        exists n: BSTNode :: n in r.Repr && n.data != null && n.data.name == k && res.list == n.data.media
    {
      // line 22 dereferences the data before the leaf test of line 24
      if r.GetData() == null then NullPointerException
      else
        var nodeKey := r.GetData().GetName();
        // Lines 24-29: the leaf test returns null and the equal-key test
        // returns the node's list. Under Valid() a node with data always has
        // children, so the leaf test never fires once line 22 has passed; the
        // two tests are written as one condition with the leaf choice inside.
        if r.IsLeaf() || CompareTo(nodeKey, k) == 0 then
          CompareToZeroIffEqual(nodeKey, k);
          Returned(if r.IsLeaf() then null else r.GetData().GetMedia())
        else if CompareTo(nodeKey, k) > 0 then GetAsWritten(r.leftChild, k)
        else GetAsWritten(r.rightChild, k)
    }

    /** `get` with the leaf test first: null when the descent reaches a leaf,
        otherwise the live item list of the node holding k. */
    function Get(r: BSTNode, k: string): (m: MediaList?)
      requires r.Valid()
      reads r.Repr
      decreases r.Repr
      ensures m == null <==> Lookup(r.Model, k).None?
      ensures m != null ==> m in r.Repr && m.items == Lookup(r.Model, k).value
      ensures m != null ==>
        exists n: BSTNode :: n in r.Repr && n.data != null && n.data.name == k && m == n.data.media
    {
      if r.IsLeaf() then null
      else
        var nodeKey := r.GetData().GetName();
        if CompareTo(nodeKey, k) == 0 then
          CompareToZeroIffEqual(nodeKey, k);
          r.GetData().GetMedia()
        else if CompareTo(nodeKey, k) > 0 then Get(r.leftChild, k)
        else Get(r.rightChild, k)
    }

    /** The failing input of `get` as written: any valid leaf, such as the
        root of a new dictionary or the leaf a search for an absent key
        reaches, makes it throw, where the leaf-first Get returns null. */
    lemma GetAsWrittenThrowsOnLeaf(r: BSTNode, k: string)
      requires r.Valid() && r.IsLeaf()
      ensures GetAsWritten(r, k) == NullPointerException
      ensures Get(r, k) == null
    {
    }

    /** Away from that failure the two agree: `get` as written throws exactly
        when Get returns null, and otherwise returns the very list object
        Get returns. */
    lemma {:induction false} GetAsWrittenAgreesWithGet(r: BSTNode, k: string)
      requires r.Valid()
      decreases r.Repr
      ensures GetAsWritten(r, k).NullPointerException? <==> Get(r, k) == null
      ensures GetAsWritten(r, k).Returned? ==> GetAsWritten(r, k).list == Get(r, k)
    {
      if !r.IsLeaf() && CompareTo(r.data.name, k) != 0 {
        if CompareTo(r.data.name, k) > 0 {
          GetAsWrittenAgreesWithGet(r.leftChild, k);
        } else {
          GetAsWrittenAgreesWithGet(r.rightChild, k);
        }
      }
    }

    /** `put` from the subtree rooted at r: the subtree's value becomes
        Insert of the old one, and the counter moves with the number of
        internal nodes (so, by InsertSize, it grows by one exactly when the
        name was not found). Only the leaf where the descent ends, or the
        list of the node holding the name, changes: no internal node's
        links or entry object change, no parent link changes, the nodes it
        creates have null parents, and every list `get` found before is the
        very list it finds after. */
    method Put(r: BSTNode, name: string, content: string, mediaType: int)
      requires r.Valid() && this !in r.Repr
      modifies this`numInternalNodes, r.Repr
      decreases r.Repr, 1
      ensures r.Valid() && fresh(r.Repr - old(r.Repr))
      ensures r.Model == Insert(old(r.Model), name, MultimediaItem(content, mediaType))
      ensures numInternalNodes - Size(r.Model) == old(numInternalNodes - Size(r.Model))
      ensures forall n: BSTNode | n in old(r.Repr) && !old(n.IsLeaf()) ::
        n.leftChild == old(n.leftChild) && n.rightChild == old(n.rightChild) && n.data == old(n.data)
      ensures forall n: BSTNode | n in old(r.Repr) :: n.parent == old(n.parent)
      ensures forall n: BSTNode | n in r.Repr && n !in old(r.Repr) :: n.parent == null
      ensures forall k :: old(Get(r, k)) != null ==> Get(r, k) == old(Get(r, k))
      ensures r == root && old(Valid()) ==> Valid()
    {
      var item := MultimediaItem(content, mediaType);
      if r.IsLeaf() {
        // lines 41-50
        ConvertLeaf(r, name, item);
        numInternalNodes := numInternalNodes + 1;
      } else if r.GetData().GetName() == name {
        // lines 53-56
        AppendAt(r, item);
      } else {
        // lines 58-63
        PutBelow(r, name, content, mediaType);
      }
      GetStable(r);
      if r == root && old(Valid()) {
        InsertOrdered(old(r.Model), name, item);
      }
    }

    /** A list `get` finds before a step that keeps every internal node's
        links and entry (as Put does) is what `get` finds after it, for
        every key: the descent runs through the same nodes, whose keys are
        constants, and ends at the same entry, whose list is a constant. */
    twostate lemma {:induction false} GetStable(r: BSTNode)
      requires old(r.Valid()) && r.Valid()
      requires forall n: BSTNode | n in old(r.Repr) && !old(n.IsLeaf()) ::
        n.leftChild == old(n.leftChild) && n.rightChild == old(n.rightChild) && n.data == old(n.data)
      decreases old(r.Repr)
      ensures forall k :: old(Get(r, k)) != null ==> Get(r, k) == old(Get(r, k))
    {
      if !old(r.IsLeaf()) {
        var left, right := old(r.leftChild), old(r.rightChild);
        GetStable(left);
        GetStable(right);
      }
    }

    /** What `get` sees after `put`: once a subtree's value is Insert of an
        earlier value m (as Put ensures), looking the name up returns a list
        that is m's list for the name followed by the new item, so it is
        non-null and ends with that item; other keys see m's lists. */
    lemma GetAfterPut(r: BSTNode, m: Tree, name: string, x: MultimediaItem, k: string)
      requires r.Valid() && r.Model == Insert(m, name, x)
      ensures Get(r, name) != null && Get(r, name).items == ItemsOf(m, name) + [x]
      ensures k != name ==> (Get(r, k) == null <==> Lookup(m, k).None?)
      ensures k != name && Get(r, k) != null ==> Get(r, k).items == Lookup(m, k).value
    {
      LookupInsertSame(m, name, x);
      if k != name {
        LookupInsertOther(m, name, x, k);
      }
    }

    /** Lines 58-63 of `put`: r is internal with a key other than `name`;
        one recursive call, on the left child when `name` sorts before the
        key, otherwise on the right child. */
    method PutBelow(r: BSTNode, name: string, content: string, mediaType: int)
      requires r.Valid() && this !in r.Repr && !r.IsLeaf() && r.data.name != name
      modifies this`numInternalNodes, r.Repr
      decreases r.Repr, 0
      ensures r.Valid() && fresh(r.Repr - old(r.Repr))
      ensures r.Model == Insert(old(r.Model), name, MultimediaItem(content, mediaType))
      ensures numInternalNodes - Size(r.Model) == old(numInternalNodes - Size(r.Model))
      ensures forall n: BSTNode | n in old(r.Repr) && !old(n.IsLeaf()) ::
        n.leftChild == old(n.leftChild) && n.rightChild == old(n.rightChild) && n.data == old(n.data)
      ensures forall n: BSTNode | n in old(r.Repr) :: n.parent == old(n.parent)
      ensures forall n: BSTNode | n in r.Repr && n !in old(r.Repr) :: n.parent == null
    {
      var child := if CompareTo(name, r.GetData().GetName()) < 0 then r.leftChild else r.rightChild;
      ghost var other := if child == r.leftChild then r.rightChild else r.leftChild;
      assert child.Repr !! other.Repr;
      Put(child, name, content, mediaType);
      r.Absorb();
    }

    /** Lines 43-47 of `put`: the leaf r gets a new entry for `name` holding
        `item`, and two new sentinel leaves as children, whose parent links
        stay null. */
    method ConvertLeaf(r: BSTNode, name: string, item: MultimediaItem)
      requires r.Valid() && r.IsLeaf()
      modifies r
      ensures r.Valid() && fresh(r.Repr - old(r.Repr))
      ensures r.Model == Node(Leaf, name, [item], Leaf)
      ensures r.parent == old(r.parent)
      ensures r.data != null && fresh(r.data) && r.data.name == name
      ensures fresh(r.data.media) && r.data.media.items == [item]
      ensures r.leftChild != null && fresh(r.leftChild) && r.leftChild.IsLeaf()
      ensures r.leftChild.data == null && r.leftChild.parent == null
      ensures r.rightChild != null && fresh(r.rightChild) && r.rightChild.IsLeaf()
      ensures r.rightChild.data == null && r.rightChild.parent == null
      ensures r.Repr == old(r.Repr) + {r.data.media, r.leftChild, r.rightChild}
    {
      var d := new Data(name);
      r.SetData(d);
      r.GetData().Add(item);
      r.leftChild := new BSTNode();
      r.rightChild := new BSTNode();
      r.Repr := r.Repr + {d.media} + r.leftChild.Repr + r.rightChild.Repr;
      r.Model := Node(Leaf, name, [item], Leaf);
    }

    /** Line 54 of `put`: the item is appended through the live list of r's
        entry; the links of r and the entry object stay as they were. */
    method AppendAt(r: BSTNode, item: MultimediaItem)
      requires r.Valid() && !r.IsLeaf()
      modifies r`Model, r.data.media
      ensures r.Valid() && r.Repr == old(r.Repr)
      ensures r.data.media.items == old(r.data.media.items) + [item]
      ensures r.Model == old(r.Model).(items := old(r.Model.items) + [item])
    {
      r.GetData().GetMedia().Add(item);
      r.Model := r.Model.(items := r.data.media.items);
    }
  }
}
