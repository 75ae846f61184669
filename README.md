# Multimedia ordered dictionary, modelled in Dafny

This project models the core of a Java course assignment. The core is an ordered dictionary that maps a
string key to an insertion-ordered list of typed multimedia items (text, sound, image, HTML). The
dictionary is an unbalanced binary search tree. Its internal nodes hold an entry (`Data`: the key
and a live `ArrayList` of items). Sentinel leaves hold nothing.

The modules follow the Java classes:

- `MultimediaItems` (`multimedia_item.dfy`) holds `MultimediaItem`. It is an immutable datatype whose
  destructors `content` and `mediaType` are the getters. The constructor stores any integer type
  unchanged.
- `DataEntries` (`data.dfy`) holds two classes:
  - `MediaList` is the heap object behind the items `ArrayList`.
  - `Data` has a constant name and a constant reference to its `MediaList`. `GetMedia` returns that
    very object, so an append through it is seen by every later `GetMedia`.
- `BSTNodes` (`bst_node.dfy`) holds the class `BSTNode`. It has the four Java fields, a ghost
  footprint `Repr` and a ghost value `Model`. The value is a `TreeModel.Tree`, and `Valid()` ties the
  two to the heap.
- `TreeModel` (`tree_model.dfy`) holds the value-level dictionary:
  - `Tree` is the data structure.
  - `Lookup` mirrors the `get` descent and `Insert` mirrors the `put` descent.
  - `Contents` is an independent reference map. The lemmas connect it to `Lookup` and `Insert`.
- `Dictionary` (`bst_ordered_dictionary.dfy`) holds `BSTOrderedDictionary`:
  - its constructor and the two getters;
  - `get` in two versions: as written, and corrected (see Findings);
  - the in-place `put`, with `PutBelow`, `ConvertLeaf` and `AppendAt` modelling its three branches.
- `JavaStrings` (`java_strings.dfy`) models the parts of `java.lang.String` the code relies on:
  - `compareTo`, with its exact returned difference;
  - the strict order it induces;
  - `toLowerCase` and `endsWith`.
- `Query` (`query.dfy`) holds the loader's `determineType` classifier and its characterisation.

The behaviour of `java.lang.String` is taken from the Java API specification.

A sentinel-leaf search tree with parent links is usually written differently from this code in four
places. The model follows the code in each:

- A leaf is usually "a node without an entry". Here `isLeaf` tests that both children are null
  (BSTNode.java:54-59). `BSTNode.LeafIffNoData` proves that the two readings agree on every node
  satisfying the model's invariant.
- Converting a leaf usually links the two new children back to it. Here they keep the null parent
  of the no-argument constructor (BSTOrderedDictionary.java:46-47, BSTNode.java:9). `Put`,
  `PutBelow` and `ConvertLeaf` state that every existing parent link stays as it was and that every
  node they create has a null parent. No parent invariant is claimed.
- Child setters usually update the child's back-link. Here they do not, and the model's setters
  promise that the child's parent is untouched.
- A search usually reports "not found" at a leaf. The code throws there (see Findings).

## Model

| member | source | states |
|---|---|---|
| MultimediaItems.MultimediaItem | MultimediaItem.java:1-21 | (datatype) an immutable pair; `content` and `mediaType` return exactly what was constructed, and any integer type is accepted |
| DataEntries.MediaList.constructor | Data.java:11 | a new list is empty |
| DataEntries.MediaList.Add | Data.java:16 | the item is appended at the end and the earlier items are unchanged |
| DataEntries.Data.constructor | Data.java:9-12 | the name is the argument and the media list is a fresh, empty list |
| DataEntries.Data.Add | Data.java:15-17 | appends through the entry's own list object; the name is a constant that no operation can change |
| BSTNodes.BSTNode.constructor | BSTNode.java:8-13 | all four fields are null, the node is a leaf, it satisfies the node invariant, and its value is the empty tree |
| BSTNodes.BSTNode.WithLinks | BSTNode.java:15-20 | each of the four arguments is stored unchanged in its field |
| BSTNodes.BSTNode.SetParent | BSTNode.java:38-40 | only the parent field changes, to the argument |
| BSTNodes.BSTNode.SetLeftChild | BSTNode.java:42-44 | only the left link changes; the new child's parent link is not touched |
| BSTNodes.BSTNode.SetRightChild | BSTNode.java:46-48 | only the right link changes; the new child's parent link is not touched |
| BSTNodes.BSTNode.SetData | BSTNode.java:50-52 | only the data field changes, to the argument |
| BSTNodes.BSTNode.IsLeaf | BSTNode.java:54-59 | (predicate, no contract of its own) true exactly when both children are null, whatever the data; a node with one child is not a leaf |
| BSTNodes.BSTNode.LeafIffNoData | BSTNode.java:54-59 | on a node satisfying the invariant, being a leaf (no children) coincides with having no data and with having the empty tree as value |
| JavaStrings.CompareToZeroIffEqual | BSTOrderedDictionary.java:53-58 | `compareTo` is zero exactly on equal strings, so the `equals` test of `put` and the zero test of `get` pick the same node |
| JavaStrings.LessTransitive | BSTOrderedDictionary.java:58-63 | the order `put` descends by is transitive (it is also irreflexive, total and asymmetric), so it can keep a search tree ordered |
| JavaStrings.ToLower | Query.java:29 | lower-casing keeps the length and lower-cases each character in place |
| TreeModel.Lookup | BSTOrderedDictionary.java:28-36 | the descent of `get` on values; whatever it finds is under a key of the tree (its full meaning is in LookupContents) |
| TreeModel.Insert | BSTOrderedDictionary.java:41-63 | the descent of `put` on values; the result is an internal node, with at most one internal node more than before |
| TreeModel.InsertOrdered | BSTOrderedDictionary.java:58-63 | descending left exactly when the name sorts before the key keeps the strict search-tree order, so no two internal nodes share a key |
| TreeModel.InsertSize | BSTOrderedDictionary.java:41-56 | the number of internal nodes grows by one exactly when the name was absent, and is unchanged when the name is present |
| TreeModel.InsertKeys | BSTOrderedDictionary.java:40-64 | the key set after `put` is the old key set plus the name |
| TreeModel.LookupInsertSame | BSTOrderedDictionary.java:53-56 | after `put`, the name maps to its old list (empty if absent) followed by the new item |
| TreeModel.LookupInsertOther | BSTOrderedDictionary.java:40-64 | `put` leaves what every other key maps to unchanged |
| TreeModel.LookupContents | BSTOrderedDictionary.java:21-38 | in an ordered tree, the search finds a key exactly when the key is in the reference map, and it finds that key's list |
| TreeModel.InsertContents | BSTOrderedDictionary.java:40-64 | in an ordered tree, `put` updates the reference map at the name to the old list followed by the item, and changes nothing else |
| TreeModel.ContentsKeys | BSTOrderedDictionary.java:21-38 | the reference map's keys are the tree's keys |
| TreeModel.OrderedSizeIsKeyCount | BSTOrderedDictionary.java:17-19 | in an ordered tree, the number of internal nodes equals the number of distinct keys |
| Dictionary.BSTOrderedDictionary.constructor | BSTOrderedDictionary.java:8-11 | the counter is 0, the root is a fresh leaf with null data and null parent, the map is empty, and the dictionary invariant holds |
| Dictionary.BSTOrderedDictionary.GetRoot | BSTOrderedDictionary.java:13-15 | returns the root itself, which is a valid, ordered subtree |
| Dictionary.BSTOrderedDictionary.GetNumInternalNodes | BSTOrderedDictionary.java:17-19 | the counter equals the number of internal nodes reachable from the root and the number of keys held |
| Dictionary.BSTOrderedDictionary.GetAsWritten | BSTOrderedDictionary.java:21-38 | the code as written throws exactly when the key is absent; otherwise it returns the very list object of the entry keyed by k in the subtree, whose items are that key's items |
| Dictionary.BSTOrderedDictionary.Get | BSTOrderedDictionary.java:21-38 | returns null exactly when the key is absent; otherwise it returns the very list object of the entry keyed by k in the subtree (the alias `put` appends through), whose items are that key's items |
| Dictionary.BSTOrderedDictionary.GetStable | BSTOrderedDictionary.java:29 | a list `get` returned before a step that keeps every internal node's links and entry is the same object `get` returns after it |
| Dictionary.BSTOrderedDictionary.GetAsWrittenThrowsOnLeaf | BSTOrderedDictionary.java:22-25 | on any leaf, such as a new dictionary's root, the code as written throws while the leaf-first version returns null |
| Dictionary.BSTOrderedDictionary.GetAsWrittenAgreesWithGet | BSTOrderedDictionary.java:21-38 | apart from the throw, the two versions return the same list object |
| Dictionary.BSTOrderedDictionary.Put | BSTOrderedDictionary.java:40-64 | the subtree's value becomes Insert of the old one; the counter moves by exactly the change in internal nodes; no internal node's links or entry and no parent link change; new nodes have a null parent; a list `get` found before is the same object after; from the root it keeps the dictionary invariant (details below) |
| Dictionary.BSTOrderedDictionary.PutBelow | BSTOrderedDictionary.java:58-63 | the recursive step goes into the left subtree when the name sorts before the key and into the right one otherwise, with Put's value, counter and link guarantees |
| Dictionary.BSTOrderedDictionary.ConvertLeaf | BSTOrderedDictionary.java:43-47 | the leaf becomes an internal node keyed by the name, holding exactly the one item, with two fresh leaf children whose data and parent are null; its footprint grows by exactly the new list and the two children (details below) |
| Dictionary.BSTOrderedDictionary.AppendAt | BSTOrderedDictionary.java:53-56 | appends through the live list of the node's entry; the node's links, entry and footprint stay as they were |
| Dictionary.BSTOrderedDictionary.GetAfterPut | BSTOrderedDictionary.java:28-35 | after `put(k, c, t)`, `get(k)` is non-null and is the old list followed by `(c, t)`; other keys see their old lists |
| Query.DetermineType | Query.java:28-34 | the result is always one of 1, 2, 3, 4 |
| Query.EndsWithLowerIffIgnoringCase | Query.java:29-30 | `endsWith` on the lower-cased copy is the case-blind suffix test |
| Query.DetermineTypeCases | Query.java:30-33 | 2 iff `.wav`/`.mid`, 3 iff `.jpg`/`.gif`, 4 iff `.html`, and 1 iff none of them, all in any letter case; the cases are mutually exclusive |
| Query.DetermineTypeIgnoresCase | Query.java:29 | classifying the lower-cased content gives the same type |
| Query.DetermineTypeUpperCaseSound | Query.java:30 | any content ending in ".WAV" is sound |
| Query.DetermineTypeUpperCaseHtml | Query.java:32 | any content ending in ".HTML" is HTML |
| Query.DetermineTypeHtmIsText | Query.java:32-33 | any content ending in ".htm" falls through to text |

`Put` states the following when started on any valid subtree `r`:

- the subtree stays valid and its new footprint objects are fresh;
- its value becomes `Insert` of the old value;
- the counter moves by exactly as much as the number of internal nodes, that is, by one on a leaf
  and by zero on a key already present (see `InsertSize`);
- no internal node's links or entry object change;
- no parent link changes anywhere, and every node it creates has a null parent;
- for every key whose list `get` found before, `get` finds the same list object after (`GetStable`);
- called on the root of a valid dictionary, it keeps the dictionary invariant: the order, and the
  counter matching the number of internal nodes.

`ConvertLeaf` states that the leaf has become an internal node:

- its key is the name and it holds exactly the one new item;
- its entry and list are fresh;
- it has two fresh leaf children with null data and null parent;
- its own parent is unchanged.

## Left out

- The five unimplemented operations are not modelled. `remove` (both overloads), `successor`,
  `predecessor`, `smallest` and `largest` have empty bodies in BSTOrderedDictionary.java:66-88.
  Modelling them would invent behaviour.
- Parent-pointer invariants are not claimed, because `put` never sets them. Only "unchanged" and
  "null on new leaves" are stated.
- The file-reading `Query` constructor, `main`, `processCommand` and `handleGet`
  (Query.java:9-25, 37-169) are left out. They are I/O, command parsing and foreign viewers.
  `SoundPlayer`, `PictureViewer`, `ShowHTML`, `StringReader`, `DictionaryException` and
  `BSTOrderedDictionaryADT` are not part of this model.
- `BSTNodes.BSTNode` getters (`GetParent`, `GetLeftChild`, `GetRightChild`, `GetData`) and
  `DataEntries.Data` getters (`GetName`, `GetMedia`) are state-reading functions with no side
  effects. They carry no contract of their own because they return the field itself.
- Dictionary.BSTOrderedDictionary.Put: the counter is a Java `int`, and it would wrap after 2^31 - 1
  insertions of new keys. The model uses an unbounded integer.
- Dictionary.BSTOrderedDictionary.Put: it requires a valid subtree that does not contain the
  dictionary object. Every call in the code starts from the root of a dictionary built by this
  class.
- Dictionary.BSTOrderedDictionary.Put: the contents `get` sees after `put` are not part of its own
  contract. They follow from `Put`'s value equation together with `GetAfterPut`.
- JavaStrings.ToLower: only ASCII `A`-`Z` are lower-cased. `toLowerCase()` without an argument
  uses the default locale and also maps other letters. Under some locales the ASCII mapping itself
  differs. In a Turkish locale `I` becomes dotless `ı`, so "SONG.MID" and "PIC.GIF" classify as 1,
  where `DetermineType` gives 2 and 3. The model's classification is Java's only under a default
  locale that lower-cases `A`-`Z` to `a`-`z`, and only for content whose other characters do not
  change length when lower-cased.
- JavaStrings.CompareTo: it compares Dafny characters (Unicode scalar values), while Java compares
  UTF-16 code units. The two orders differ only between supplementary characters and the range
  U+E000-U+FFFF.
- Recursion depth and stack exhaustion on a degenerate tree are not modelled. Termination is by the
  ghost footprint.

## Findings

| source | as written | input that shows it | evidently intended | confidence | as-written member | corrected member |
|---|---|---|---|---|---|---|
| BSTOrderedDictionary.java:22-25 | `get` reads `r.getData().getName()` before testing `r.isLeaf()`, and a leaf's data is null | `get(root, k)` on a new, empty dictionary, or for any key that is not present | the leaf test comes first and a leaf returns null ("not found") | not executed | Dictionary.BSTOrderedDictionary.GetAsWritten, GetAsWrittenThrowsOnLeaf | Dictionary.BSTOrderedDictionary.Get |

`GetAsWritten` returns `NullPointerException` exactly when the key is absent.
`GetAsWrittenThrowsOnLeaf` exhibits the failing input: a leaf, such as the root the constructor
creates. `Get` is the corrected reading, and the rest of the model uses it (`GetAfterPut`).
