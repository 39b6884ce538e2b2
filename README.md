# ICS 46 Project 4 sets and word checker, modelled in Dafny

This project models three parts of a C++ spelling checker:

- **`HashSet<T>`** (HashSet.hpp): a set stored as separate chains in an array of `capacity` buckets. An element lives in bucket `hash(x) % capacity`. `add` resizes when its load test fires.
- **`AVLSet<T>`** (AVLSet.hpp): a binary search tree with an optional rebalancing step after each insertion.
- **`WordChecker::findSuggestions`** (WordChecker.cpp): the dictionary words reachable from a word by one of five edits. The edits are:
  - deleting one character;
  - replacing one character with a letter A-Z;
  - swapping two adjacent characters;
  - inserting a letter A-Z;
  - splitting the word into two words.

Modules:

- `Sequences` (sequences.dfy): repetition-free sequences and their members.
- `Buckets` (buckets.dfy): the hash table as a value, a sequence of chains.
  - `AppendToChain` is what `addNode` does to the chains.
  - `Distribute` is the table a resize builds from the old chains.
  - `Flatten` lays the chains end to end in the order a resize re-inserts them.
- `HashTable` (hash_set.dfy): class `HashSet`. Its fields are `buckets : array<seq<T>>` (the source's `arrPtr`; chain `i` front to back), `capacity` and `currSize`.
  - `Valid()` is the preserved invariant: every element in its home chain, no chain repeats an element, `currSize` is the total chain length, and `currSize <= capacity`.
  - `Contents()` is the represented set.
- `Trees` (trees.dfy): the node graph as a `Tree` datatype with a stored `depth` per node. Functions:
  - the rotations;
  - the four rebalancing checks;
  - `addElement`, which returns the new content of the `Node*&` slot it was given.
  - A `Slot` parameter says what a rotation does with the `Node*&` it receives. `Kept` is the source as written: the slot still points at the old root. `Reassigned` stores the promoted node there, which is the evident intent.
  - With `Kept`, `AddElement` is the source's insertion, including the keys it loses (see "## Findings"). With `Reassigned`, it is the corrected insertion, which `AVLSet` uses.
- `AVL` (avl_set.dfy): class `AVLSet`, whose fields are `root`, `treeSize`, `treeHeight` and `balance`.
- `WordChecker` (word_checker.dfy):
  - `FindSuggestions` runs the five loops, one method per phase.
  - Each phase is proved to equal a fold (`Fold`) over that phase's candidate list.
  - The lemmas describe the folded result `Suggestions`: every entry is a dictionary word, has one of the five shapes, and occurs once; and every candidate that is a word is included.

Where the code and its doc comments disagree, the model follows the code:

- **Resize test.** `add` tests the unsigned integer quotient `currSize/capacity` against 0.8. That test fires exactly when `currSize >= capacity`, not when the load would exceed 0.8. The new capacity is `capacity * 2`; the doc comment says `capacity * 2 + 1`.
- **Case guards.**
  - The source's "right-right" and "left-left" guards compare the *child's* key with the node's key. In a BST they therefore never fire.
  - The "right-left" and "left-right" guards always fire when their depth test does.
  - The model keeps the guards literally, and `CaseGuardsInBST` proves which way they go.
- **Depth refresh.** After inserting on the left with balancing on, the node's depth is refreshed. After inserting on the right, or with balancing off, it is not.
  - Ascending insertions therefore never trigger a rotation.
  - Descending insertion of 3, 2, 1 reaches `leftRotate` on a node without a right child: a null dereference.
- **Height.** A single node is stored with depth 1, so `height()` reports 1 for it.
- **Split pieces.** The split phase takes `word.substr(i, i + 1)`: i+1 characters starting at position `i`, not the first i+1 characters.

## Model

| member | source | states |
|---|---|---|
| HashTable.ShouldResizeIff | HashSet.hpp:247 | The resize test holds exactly when the size before insertion is at least the capacity. |
| HashTable.HashSet.constructor | HashSet.hpp:119-125 | A fresh table has capacity 10, size 0, only empty buckets, represents the empty set and satisfies the invariant. |
| HashTable.HashSet.FillEmpty | HashSet.hpp:288-295 | Every bucket of the current array becomes empty. |
| HashTable.HashSet.AddNode | HashSet.hpp:296-315 | The element is appended at the tail of its home chain, every other chain is unchanged, and the count goes up by one. |
| HashTable.HashSet.Add | HashSet.hpp:242-286 | Keeps the invariant and the set becomes old set + {x}. A present element changes nothing. Otherwise the size grows by one. Without a resize, the element is appended to its home chain in the same array. With a resize: a fresh array of twice the capacity, whose chains are the old chains plus the new element, re-bucketed in re-insertion order. |
| HashTable.HashSet.Rehash | HashSet.hpp:251-270 | The new array has twice the capacity and holds the old chains re-bucketed in flattened order; the count is the number of old nodes. |
| HashTable.HashSet.Contains | HashSet.hpp:317-336 | The answer is true exactly when the element is in the represented set, although only the home chain is searched. |
| HashTable.HashSet.Size | HashSet.hpp:339-343 | The stored count equals the total chain length and the number of distinct elements, and is at most the capacity. |
| HashTable.HashSet.ElementsAtIndex | HashSet.hpp:346-367 | The length of chain `index`, or 0 for an index outside the array. |
| HashTable.HashSet.IsElementAtIndex | HashSet.hpp:370-396 | True exactly when the index is inside the array and the element is in that chain; in that case the element is in the set and `index` is its home bucket. |
| Buckets.AppendToChain | HashSet.hpp:296-315 | The home chain of `x` gets `x` at its tail and every other chain is unchanged. |
| Buckets.AppendToChainKeepsInvariant | HashSet.hpp:283 | Appending an absent element keeps every element in its home chain and the chains repetition-free, adds exactly that element, and adds one to the total length. |
| Buckets.DistributeSnoc | HashSet.hpp:265-269 | Re-inserting one more node with `addNode` extends the re-bucketed table by appending that node to its home chain. |
| Buckets.DistributeKeepsInvariant | HashSet.hpp:254-270 | Re-bucketing a repetition-free sequence places every element in its home chain and keeps the chains repetition-free. The table holds exactly the sequence's elements, and its total length is the sequence's length. |
| Buckets.FlattenDistinct | HashSet.hpp:260-270 | The old chains of a valid table, laid end to end, repeat no element. |
| Buckets.HomeChainDecides | HashSet.hpp:320-335 | When every element is in its home chain, membership in the table is membership in the home chain of `x`. |
| Buckets.CardinalityIsSumLengths | HashSet.hpp:339-343 | In a valid table the number of distinct elements equals the total chain length. |
| Buckets.InFlatten | HashSet.hpp:260-270 | An element is in the flattened chains exactly when it is in some chain. |
| Trees.GetMax | AVLSet.hpp:356-360 | The result is at least both arguments and equals one of them. |
| Trees.GetDepth | AVLSet.hpp:362-367 | 0 for an absent subtree, the stored depth otherwise. |
| Trees.BSTIffSorted | AVLSet.hpp:166-273 | A tree is a BST exactly when its in-order key sequence is strictly increasing. |
| Trees.LeftRotate | AVLSet.hpp:325-337 | The promoted node is the old right child, and the in-order sequence is unchanged. The demoted node's depth is refreshed from its new children, then the promoted node's. Positive depths are kept. |
| Trees.RightRotate | AVLSet.hpp:339-354 | The promoted node is the old left child, and the in-order sequence is unchanged. The demoted node is refreshed, and the promoted node keeps its old depth. Positive depths are kept. |
| Trees.LeftRotateAsWritten | AVLSet.hpp:325-337 | As the source leaves the slot: the old root, whose right child is now the promoted node's former left subtree, with its depth refreshed. On a BST the result is a BST that has lost exactly the promoted key and the keys of its right subtree. Positive depths are kept. |
| Trees.RightRotateAsWritten | AVLSet.hpp:339-354 | As the source leaves the slot: the old root, whose left child is now the promoted node's former right subtree, with its depth refreshed. On a BST the result is a BST that has lost exactly the promoted key and the keys of its left subtree. Positive depths are kept. |
| Trees.RotateLeft | AVLSet.hpp:325-337 | A left rotation under either slot behaviour keeps BST order and positive depths and adds no key. With `Reassigned`, the in-order sequence is also kept. |
| Trees.RotateRight | AVLSet.hpp:339-354 | A right rotation under either slot behaviour keeps BST order and positive depths and adds no key. With `Reassigned`, the in-order sequence is also kept. |
| Trees.RightRightCase | AVLSet.hpp:180-187 | When the check does not fault, BST order and positive depths are kept and no key is added, under either slot behaviour. With `Reassigned`, the in-order sequence is also kept. |
| Trees.RightLeftCase | AVLSet.hpp:189-197 | When the check does not fault, BST order and positive depths are kept and no key is added, under either slot behaviour. With `Reassigned`, the in-order sequence is also kept. |
| Trees.LeftLeftCase | AVLSet.hpp:199-206 | When the check does not fault, BST order and positive depths are kept and no key is added, under either slot behaviour. With `Reassigned`, the in-order sequence is also kept. |
| Trees.LeftRightCase | AVLSet.hpp:208-216 | When the check does not fault, BST order and positive depths are kept and no key is added, under either slot behaviour. With `Reassigned`, the in-order sequence is also kept. |
| Trees.Rebalance | AVLSet.hpp:180-216 | The four checks in order. When none faults, BST order and positive depths are kept and no key is added. With `Reassigned`, the in-order sequence is also kept. |
| Trees.RebalanceKeepsKeys | AVLSet.hpp:180-216 | With `Reassigned`, rebalancing that does not fault keeps the key set and keeps BST order in both directions. |
| Trees.CaseGuardsInBST | AVLSet.hpp:183-211 | In a BST the right-right and left-left key guards are false and the right-left and left-right key guards are true. |
| Trees.RebalanceKeepsBalanced | AVLSet.hpp:180-216 | Under either slot behaviour, a node whose depth difference is within one is returned unchanged. |
| Trees.AddElement | AVLSet.hpp:166-273 | Without balancing, insertion never faults. When it does not fault on a BST, the result is a BST holding no key beyond the old keys plus the new one. With `Reassigned` it holds exactly those keys. Positive depths are kept. |
| Trees.LeftInsertionRefreshesDepth | AVLSet.hpp:174-179 | Under either slot behaviour, a balanced left insertion that passes the checks installs the new left subtree and sets the node's depth to one more than the larger child depth. |
| Trees.RightInsertionKeepsDepth | AVLSet.hpp:223-227 | Under either slot behaviour, a balanced right insertion that passes the checks installs the new right subtree and keeps the node's old depth. |
| Trees.AscendingInsertion | AVLSet.hpp:223-265 | Under either slot behaviour, inserting 1, 2, 3 with balancing on gives a right spine whose root keeps depth 1. |
| Trees.DescendingInsertionFaults | AVLSet.hpp:174-216 | Under either slot behaviour, inserting 3, 2, 1 with balancing on faults on the third insertion. |
| Trees.UnbalancedInsertion | AVLSet.hpp:166-273 | Without balancing, on a BST: a present key leaves the tree unchanged. For an absent key, the search for it falls off the old tree, and finds a depth-1 leaf holding it in the new tree. The (key, depth) pairs of the result are the old ones plus (key, 1), so no other node changes key or depth. |
| Trees.UnbalancedIgnoresSlot | AVLSet.hpp:218-221 | Without balancing no rotation runs, so insertion is the same under both slot behaviours. |
| Trees.FindInBST | AVLSet.hpp:279-286 | In a BST the search reaches a node exactly when the key is present, and that node holds the key. |
| Trees.RightLeftSetup | AVLSet.hpp:166-273 | Inserting 10 and then 20 gives a right spine, and inserting 15 reaches the rebalancing of 10 with 20 holding 15 as its left child. |
| Trees.RightLeftInsertionLosesKeys | AVLSet.hpp:239-245 | As written, inserting 10, 20, 15 adds three absent keys, but the right-left case leaves only 10 in the tree. |
| Trees.RightLeftInsertionReassigned | AVLSet.hpp:239-245 | With `Reassigned`, the same insertions give 15 over 10 and 20. |
| AVL.AVLSet.constructor | AVLSet.hpp:105-110 | Empty root, size 0, height field 0 and the given balancing flag. |
| AVL.AVLSet.Add | AVLSet.hpp:156-164 | A present element changes nothing. Otherwise the new root is the result of the insertion and the size grows by one, or nothing changes if the insertion faults. A successful insertion adds exactly the element. Without balancing it always succeeds. The invariant is kept. |
| AVL.AVLSet.Contains | AVLSet.hpp:276-289 | True exactly when the element is among the tree's keys. |
| AVL.AVLSet.Size | AVLSet.hpp:292-296 | The stored count equals the number of keys. |
| AVL.AVLSet.Height | AVLSet.hpp:299-304 | -1 exactly for the empty tree; otherwise the root's stored depth, which is at least 1. |
| WordChecker.WordExists | WordChecker.cpp:20-23 | True exactly when the word is in the dictionary. |
| WordChecker.FindSuggestions | WordChecker.cpp:26-125 | For the empty word, `std::out_of_range`. Otherwise the loops' result equals the fold over all candidates, and every entry is a dictionary word listed once. |
| WordChecker.DeletePhase | WordChecker.cpp:35-48 | The deletion loop's result is the fold over the deletion candidates. |
| WordChecker.ReplacePhase | WordChecker.cpp:50-67 | The replacement loops' result is the fold over the replacement candidates, position by position and letter by letter. |
| WordChecker.SwapPhase | WordChecker.cpp:69-84 | The swap loop's result is the fold over the in-range swap candidates. |
| WordChecker.InsertPhase | WordChecker.cpp:86-102 | The insertion loops' result is the fold over the insertion candidates. |
| WordChecker.SplitPhase | WordChecker.cpp:104-122 | The split loop's result is the fold over the split candidates; both pieces are added only when both are words. |
| WordChecker.PhasesCompose | WordChecker.cpp:33-124 | Running the five loops one after another equals folding over the concatenated candidate list. |
| WordChecker.FoldAppend | WordChecker.cpp:33-124 | Folding over two candidate lists in sequence equals folding over their concatenation. |
| WordChecker.FoldSound | WordChecker.cpp:41-46 | Anything the fold adds is a dictionary word drawn from some candidate. |
| WordChecker.FoldDistinct | WordChecker.cpp:43-45 | The `std::find` check keeps the list free of repetitions. |
| WordChecker.FoldKeeps | WordChecker.cpp:43-45 | The fold never removes an entry. |
| WordChecker.FoldComplete | WordChecker.cpp:41-46 | A candidate that is a word, or a split whose two pieces are both words, ends up in the result. |
| WordChecker.SuggestionsAreWords | WordChecker.cpp:26-125 | Every suggestion is in the dictionary. |
| WordChecker.SuggestionsAreDistinct | WordChecker.cpp:26-125 | No suggestion occurs twice. |
| WordChecker.SuggestionShape | WordChecker.cpp:26-125 | Every suggestion is a deletion, a replacement by A-Z, an in-range adjacent swap, an insertion of A-Z before an existing position, or a split piece of the word. |
| WordChecker.DeletionSuggested | WordChecker.cpp:36-48 | Every one-character deletion that is a word is suggested. |
| WordChecker.ReplacementSuggested | WordChecker.cpp:52-67 | Every replacement of one position by a letter A-Z that is a word is suggested. |
| WordChecker.SwapSuggested | WordChecker.cpp:70-84 | Every swap of characters i and i+1 that is a word is suggested. |
| WordChecker.InsertionSuggested | WordChecker.cpp:87-102 | Every insertion of a letter A-Z before position i that is a word is suggested. |
| WordChecker.SplitSuggested | WordChecker.cpp:105-121 | When both split pieces at i are words, both are suggested. |
| WordChecker.SplitPiecesOverlap | WordChecker.cpp:107 | For ABCD at i = 1 the pieces tested are BC and CD, not AB and CD. |
| WordChecker.SanityCheckSuggestions | WordChecker_SanityCheckTests.cpp:44-56 | With the words ABDC and ZZZZZ, the suggestions for ABCD are exactly [ABDC]. |

## Left out

- Element types: the tree stores `int` keys. The source is generic over any type with `<`, `>` and `==`.
- Copy and move constructors, assignment operators, destructors and `delete` (HashSet.hpp:128-232, 272-279; AVLSet.hpp:113-146): memory management and copying are not modelled. Resizing frees only the first node of each old chain, so the remaining nodes leak; this is not represented.
- `isImplemented`, `printValues`, and the empty `preorder`, `inorder` and `postorder` traversals: no behaviour to prove, or console output.
- The default hash `std::hash` (HashSet.hpp:110-115): the hash function is a parameter. Its 32-bit range is not imposed.
- HashTable.HashSet.Add: `capacity * 2` and `currSize` are unbounded. 32-bit unsigned wrap-around is out of scope.
- HashTable.HashSet.AddNode: a chain is a sequence, so the walk to the tail node is a sequence append, not a pointer loop.
- AVL.AVLSet.Add: inserts with `Slot` `Reassigned`, the rotations storing the promoted node. The source's rotations (`Kept`) can leave keys unreachable while `treeSize` still grows (see "## Findings", and `Trees.RightLeftInsertionLosesKeys`). That would break the invariant that `treeSize` counts the keys, so the class does not model it.
- AVL.AVLSet.Add: where the source dereferences null inside a rotation (undefined behaviour), the model reports `ok == false` and leaves the set unchanged.
- AVL.AVLSet: `treeHeight` is initialised and never used; balance and O(log n) depth are not claimed, since the source does not maintain them.
- WordChecker.Swaps: the source's swap loop also runs at the last position, where it reads and writes the character one past the end of the string (undefined behaviour). The model stops one position earlier.
- WordChecker: the dictionary is a `set<string>`, not the `Set<std::string>` class, and `words.isImplemented()` is dropped. Strings are sequences of characters with no encoding.
- The `VectorSet` and `Set` classes are not part of this model.

## Findings

| source | as written | input that shows it | evidently intended | confidence | as-written member | corrected member |
|---|---|---|---|---|---|---|
| AVLSet.hpp:325-337 | `leftRotate(Node*& root)` relinks the nodes but never stores the promoted node `a` back into `root`. The caller's slot still points at the old root, which is now the promoted node's left child. | left rotation of 1 with right child 3: the slot then holds only 1, and 3 is unreachable | set `root = a` so the slot holds the rotated subtree with the same keys | not executed | Trees.LeftRotateAsWritten (Trees.LeftRotateAsWrittenLosesKeys) | Trees.LeftRotate |
| AVLSet.hpp:339-354 | `rightRotate(Node*& root)` never stores `a` back into `root`. It also refreshes the demoted node's depth twice and never refreshes the promoted node's. | right rotation of 3 with left child 2: the slot then holds only 3, and 2 is unreachable | set `root = a` (and refresh `a->depth`) | not executed | Trees.RightRotateAsWritten (Trees.RightRotateAsWrittenLosesKeys) | Trees.RightRotate |
| AVLSet.hpp:239-245 | Because neither rotation reassigns its slot, the right-left case of an insertion loses keys: `rightRotate(root->right)` detaches the right child's left child, and `leftRotate(root)` then detaches the right child itself. `add` still adds one to `treeSize`. | `AVLSet(true)`, then add 10, 20, 15: only 10 stays reachable, `size()` is 3, and `contains(15)` and `contains(20)` are false | rotations that store the promoted node, giving 15 over 10 and 20 | not executed | Trees.AddElement with `Kept` (Trees.RightLeftInsertionLosesKeys) | Trees.AddElement with `Reassigned` (Trees.RightLeftInsertionReassigned) |
