/** The abstract value of a subtree: what the linked nodes hold, as a
    datatype. Lookup and Insert follow the comparison path of the
    dictionary's `get` and `put`; Contents is the map the tree denotes. */
module TreeModel {
  import opened MultimediaItems
  import opened JavaStrings

  datatype Option<T> = None | Some(value: T)

  /** A sentinel leaf, or an internal node with a key and its items */
  datatype Tree = Leaf | Node(left: Tree, key: string, items: seq<MultimediaItem>, right: Tree)

  /** Number of internal nodes */
  function Size(t: Tree): nat
  {
    match t
    case Leaf => 0
    case Node(l, _, _, r) => Size(l) + 1 + Size(r)
  }

  /** Keys of the internal nodes */
  function Keys(t: Tree): set<string>
  {
    match t
    case Leaf => {}
    case Node(l, k, _, r) => Keys(l) + {k} + Keys(r)
  }

  /** Strict search-tree order: every key on the left sorts before the
      node's key, every key on the right after it. */
  predicate Ordered(t: Tree)
  {
    match t
    case Leaf => true
    case Node(l, k, _, r) =>
      Ordered(l) && Ordered(r) &&
      (forall j :: j in Keys(l) ==> Less(j, k)) &&
      (forall j :: j in Keys(r) ==> Less(k, j))
  }

  /** The key-to-items map the tree denotes (for an ordered tree the three
      parts have disjoint keys). */
  function Contents(t: Tree): map<string, seq<MultimediaItem>>
  {
    match t
    case Leaf => map[]
    case Node(l, k, items, r) => (Contents(l) + Contents(r))[k := items]
  }

  /** The descent of `get`: equal key found, key greater than the search
      key goes left, otherwise right; a leaf means not found. */
  function Lookup(t: Tree, k: string): (found: Option<seq<MultimediaItem>>)
    ensures found.Some? ==> k in Keys(t)
  {
    match t
    case Leaf => None
    case Node(l, key, items, r) =>
      if CompareTo(key, k) == 0 then CompareToZeroIffEqual(key, k); Some(items)
      else if CompareTo(key, k) > 0 then Lookup(l, k)
      else Lookup(r, k)
  }

  /** The items stored under k, empty when k is absent */
  function ItemsOf(t: Tree, k: string): seq<MultimediaItem>
  {
    match Lookup(t, k)
    case None => []
    case Some(items) => items
  }

  /** The descent of `put`: a leaf becomes a node with one item; an equal
      key gets the item appended; a smaller name goes left, else right. */
  function Insert(t: Tree, name: string, x: MultimediaItem): (t': Tree)
    ensures t'.Node? && Size(t) <= Size(t') <= Size(t) + 1
  {
    match t
    case Leaf => Node(Leaf, name, [x], Leaf)
    case Node(l, key, items, r) =>
      if key == name then Node(l, key, items + [x], r)
      else if CompareTo(name, key) < 0 then Node(Insert(l, name, x), key, items, r)
      else Node(l, key, items, Insert(r, name, x))
  }

  lemma {:induction false} ContentsKeys(t: Tree)
    ensures Contents(t).Keys == Keys(t)
  {
    match t
    case Leaf =>
    case Node(l, _, _, r) =>
      ContentsKeys(l);
      ContentsKeys(r);
  }

  /** Insert adds the name to the key set and nothing else. */
  lemma {:induction false} InsertKeys(t: Tree, name: string, x: MultimediaItem)
    ensures Keys(Insert(t, name, x)) == Keys(t) + {name}
  {
    match t
    case Leaf =>
    case Node(l, key, _, r) =>
      if key != name {
        if CompareTo(name, key) < 0 {
          InsertKeys(l, name, x);
        } else {
          InsertKeys(r, name, x);
        }
      }
  }

  /** put keeps the strict search-tree order. */
  lemma {:induction false} InsertOrdered(t: Tree, name: string, x: MultimediaItem)
    requires Ordered(t)
    ensures Ordered(Insert(t, name, x))
  {
    match t
    case Leaf =>
    case Node(l, key, _, r) =>
      if key != name {
        LessTotal(name, key);
        if CompareTo(name, key) < 0 {
          InsertOrdered(l, name, x);
          InsertKeys(l, name, x);
        } else {
          InsertOrdered(r, name, x);
          InsertKeys(r, name, x);
        }
      }
  }

  /** A new node is made exactly when the descent ends at a leaf, i.e. when
      `get` would not find the name. */
  lemma {:induction false} InsertSize(t: Tree, name: string, x: MultimediaItem)
    ensures Size(Insert(t, name, x)) == Size(t) + (if Lookup(t, name).None? then 1 else 0)
  {
    match t
    case Leaf =>
    case Node(l, key, _, r) =>
      CompareToZeroIffEqual(key, name);
      CompareToAntisymmetric(key, name);
      if key != name {
        if CompareTo(name, key) < 0 {
          InsertSize(l, name, x);
        } else {
          InsertSize(r, name, x);
        }
      }
  }

  /** After put, get finds the name, with the new item last and the earlier
      items in their old order before it. */
  lemma {:induction false} LookupInsertSame(t: Tree, name: string, x: MultimediaItem)
    ensures Lookup(Insert(t, name, x), name) == Some(ItemsOf(t, name) + [x])
  {
    match t
    case Leaf =>
      CompareToZeroIffEqual(name, name);
      assert ItemsOf(t, name) + [x] == [x];
    case Node(l, key, _, r) =>
      CompareToZeroIffEqual(key, name);
      CompareToAntisymmetric(key, name);
      if key != name {
        if CompareTo(name, key) < 0 {
          LookupInsertSame(l, name, x);
        } else {
          LookupInsertSame(r, name, x);
        }
      }
  }

  /** put under one name changes no other name's lookup. */
  lemma {:induction false} LookupInsertOther(t: Tree, name: string, x: MultimediaItem, k: string)
    requires k != name
    ensures Lookup(Insert(t, name, x), k) == Lookup(t, k)
  {
    match t
    case Leaf =>
      CompareToZeroIffEqual(name, k);
      LessTotal(name, k);
    case Node(l, key, _, r) =>
      CompareToZeroIffEqual(key, k);
      if key != name {
        if CompareTo(name, key) < 0 {
          LookupInsertOther(l, name, x, k);
        } else {
          LookupInsertOther(r, name, x, k);
        }
      }
  }

  /** On an ordered tree the descent of `get` agrees with the denoted map:
      it finds k exactly when k is a key, and then finds k's items. */
  lemma {:induction false} LookupContents(t: Tree, k: string)
    requires Ordered(t)
    ensures Lookup(t, k).Some? <==> k in Contents(t)
    ensures k in Contents(t) ==> Lookup(t, k) == Some(Contents(t)[k])
  {
    match t
    case Leaf =>
    case Node(l, key, _, r) =>
      ContentsKeys(l);
      ContentsKeys(r);
      CompareToZeroIffEqual(key, k);
      CompareToAntisymmetric(key, k);
      LookupContents(l, k);
      LookupContents(r, k);
      if k != key {
        if k in Keys(l) { LessAsymmetric(k, key); }
        if k in Keys(r) { LessAsymmetric(key, k); }
      }
  }

  /** put on an ordered tree updates the denoted map at the name only. */
  lemma InsertContents(t: Tree, name: string, x: MultimediaItem)
    requires Ordered(t)
    ensures Contents(Insert(t, name, x)) == Contents(t)[name := ItemsOf(t, name) + [x]]
  {
    var t' := Insert(t, name, x);
    InsertOrdered(t, name, x);
    var m, m' := Contents(t), Contents(t');
    var expected := m[name := ItemsOf(t, name) + [x]];
    forall k | k in m' || k in expected
      ensures k in m' && k in expected && m'[k] == expected[k]
    {
      LookupContents(t, k);
      LookupContents(t', k);
      if k == name {
        LookupInsertSame(t, name, x);
      } else {
        LookupInsertOther(t, name, x, k);
      }
    }
  }

  /** An ordered tree never holds two nodes with the same key: it has as
      many internal nodes as distinct keys. */
  lemma {:induction false} OrderedSizeIsKeyCount(t: Tree)
    requires Ordered(t)
    ensures Size(t) == |Keys(t)|
  {
    match t
    case Leaf =>
    case Node(l, key, _, r) =>
      OrderedSizeIsKeyCount(l);
      OrderedSizeIsKeyCount(r);
      assert key !in Keys(l) by { if key in Keys(l) { LessIrreflexive(key); } }
      assert key !in Keys(r) by { if key in Keys(r) { LessIrreflexive(key); } }
      assert Keys(l) !! Keys(r) by {
        forall j | j in Keys(l) && j in Keys(r) ensures false {
          LessTransitive(j, key, j);
          LessIrreflexive(j);
        }
      }
      assert |Keys(l) + Keys(r)| == |Keys(l)| + |Keys(r)|;
  }
}
