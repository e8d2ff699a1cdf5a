# Partially persistent BST and stack

A model, in Dafny, of two partially persistent data structures. Each keeps a
growable array `versions` of roots, one per time step, and a counter
`currentTime`. Every successful mutation publishes a new root at
`currentTime + 1`. Every earlier root stays readable and unchanged.

- `PersistentBST` is an unbalanced binary search tree. It is ordered by a sort
  key that is extracted from each record and compared ignoring case.
  - `insert` copies the nodes on the search path and hangs a new leaf at the end.
    Keys that sort strictly before a node's key go left; equal or greater keys
    go right.
  - `delete` copies the path down to the first node whose key equals the
    record's key and replaces that node. With no child or one child, the child
    takes its place. With two children, the copy takes the record and key of the
    in-order predecessor, and the predecessor is spliced out of a copied left
    subtree.
  - `find`, `size` and `getAllElements` answer queries about any published
    version.
- `PersistentStack` keeps one immutable linked list per version. `push` allocates
  one node on top of the current list. `pop` republishes the top's `next` and
  copies nothing.
- Both classes grow `versions` the same way: a new array twice as long, with the
  old entries copied index by index.

Published nodes are never changed, so a version is an immutable datatype value
(`Tree`, `List`). Sharing between versions is plain reuse of a value. The nodes
that `insert` and `delete` create on their way down are modelled as a one-hole
context, `seq<Step>`: the copied ancestors, each holding the old child on the
side the descent did not take. Plugging the context reproduces the published
tree.

Files:

- `key_order.dfy` (module `KeyOrder`): `compareToIgnoreCase` and
  `equalsIgnoreCase`, as a per-character case fold followed by Java's
  lexicographic `compareTo`. Proves that the order they induce is a total
  preorder.
- `versions.dfy` (module `Versions`): the errors, the result types, and the
  doubling growth `increaseArray`.
- `bst_tree.dfy` (module `BstTree`): the tree, the pure specification of insert,
  delete, find and the in-order listing, and the lemmas about them. Also holds
  the delete as the source writes it.
- `bst.dfy` (module `Bst`): class `PersistentBST`, whose loops are proved against
  `BstTree`.
- `stack.dfy` (module `Stack`): class `PersistentStack`.

## Model

| member | source | states |
|---|---|---|
| KeyOrder.Folded | src/PersistentBST.java:48 | case folding keeps the length and folds each character in place |
| KeyOrder.LexAntisymmetric | src/PersistentBST.java:162 | swapping the operands of the lexicographic comparison negates it |
| KeyOrder.LexZero | src/PersistentBST.java:120 | the lexicographic comparison is zero exactly on equal strings |
| KeyOrder.LexTransitive | src/PersistentBST.java:162 | the lexicographic "before" relation is transitive |
| KeyOrder.CompareSign | src/PersistentBST.java:189-191 | `compareToIgnoreCase` is antisymmetric in sign and zero exactly when `equalsIgnoreCase` holds, so exactly one of before, equal and after holds |
| KeyOrder.LessTransitive | src/PersistentBST.java:48 | sorting strictly before is transitive |
| KeyOrder.LessEqTransitive | src/PersistentBST.java:48 | sorting before or together is transitive |
| KeyOrder.LessThenLessEq | src/PersistentBST.java:162 | strictly before, then before or together, gives strictly before |
| KeyOrder.LessEqThenLess | src/PersistentBST.java:191 | before or together, then strictly before, gives strictly before |
| Versions.Doubled | src/PersistentBST.java:77-83 | `increaseArray` returns a fresh array of twice the length, with the old entries at their old indices and null roots after them |
| Stack.Reverse | src/PersistentStack.java:92-98 | the reversed listing has the same length and puts entry `i` at position `n - 1 - i` |
| Stack.PersistentStack.constructor | src/PersistentStack.java:19-22 | a new stack has time 0 and the empty stack as its only version |
| Stack.PersistentStack.Push | src/PersistentStack.java:29-37 | time rises by one; the history gains exactly one version, a node holding `elem` over the previous top; earlier versions are unchanged, across growth too |
| Stack.PersistentStack.Pop | src/PersistentStack.java:44-55 | on an empty stack: failure, time, array and history unchanged; otherwise: the old top's value is returned, time rises by one, the old top's `next` is appended to the history, and the size drops by one |
| Stack.PersistentStack.CurrentTime | src/PersistentStack.java:69-71 | the time is one less than the number of published versions |
| Stack.PersistentStack.Size | src/PersistentStack.java:74-82 | the counting loop returns the length of the list at `time` |
| Stack.PersistentStack.SizeNow | src/PersistentStack.java:88-90 | the size of the current version |
| Stack.PersistentStack.GetAllElements | src/PersistentStack.java:99-110 | a fresh array holding the values of the version at `time`: top first, or exactly reversed with the top last |
| Stack.PushThenPop | src/PersistentStack.java:29-55 | `pop` right after `push(x)` returns `x`; the current version is then the one before the push, two steps later, with the earlier history intact |
| BstTree.SizeInOrder | src/PersistentBST.java:223-230 | `treeSize` counts the in-order items |
| BstTree.Elements | src/PersistentBST.java:252-273 | the in-order listing of records has `treeSize` entries |
| BstTree.ElementsData | src/PersistentBST.java:252-273 | the listing holds, position by position, the record of each in-order item |
| BstTree.SortedJoin | src/PersistentBST.java:240-243 | two sorted runs around a pivot that bounds both join into one sorted run |
| BstTree.BstSorted | src/PersistentBST.java:240-243 | the items of a search tree, in order, have non-decreasing keys |
| BstTree.ElementsSorted | src/PersistentBST.java:240-250 | the records of a search tree, in order, have non-decreasing extracted keys |
| BstTree.SearchCount | src/PersistentBST.java:185-198 | on a search tree, the search path meets an equal key exactly when some item has an equal key |
| BstTree.CountInsert | src/PersistentBST.java:36-73 | inserting an item raises the count of equal keys by one when its key is equal, and by zero otherwise |
| BstTree.CountRemove | src/PersistentBST.java:105-178 | removing an item lowers the count of equal keys by one when its key is equal, and by zero otherwise |
| BstTree.InsertInOrder | src/PersistentBST.java:36-73 | the new version's items are the old ones with the new item inserted at one position |
| BstTree.InsertIndexAfterEqual | src/PersistentBST.java:48 | on a search tree, every item before the insertion position sorts before or together with the new key, so the new item lands after all equal keys |
| BstTree.InsertIndexBeforeGreater | src/PersistentBST.java:48 | on a search tree, every item after the insertion position sorts strictly after the new key |
| BstTree.InsertMultiset | src/PersistentBST.java:36-73 | the new version holds the old items plus the new one |
| BstTree.InsertSize | src/PersistentBST.java:36-73 | `treeSize` grows by one |
| BstTree.InsertBst | src/PersistentBST.java:48-72 | insert keeps the search-tree invariant |
| BstTree.InsertKeyedBy | src/PersistentBST.java:36 | insert keeps every key equal to the key extracted from its record |
| BstTree.InsertThenSearch | src/PersistentBST.java:36-73 | after an insert, `find` succeeds for the new key and answers as before for every other key |
| BstTree.InsertPathCopies | src/PersistentBST.java:42-71 | old and new version are the same copied path, with an empty slot in the old and the new leaf in the new; every subtree off the path is shared |
| BstTree.RemoveMaxInOrder | src/PersistentBST.java:143-158 | a subtree's items are those without its rightmost item, followed by that item |
| BstTree.ReplacementInOrder | src/PersistentBST.java:120-161 | the replacement of the matched node holds the items of its two subtrees, in order, and not its own |
| BstTree.SearchStep | src/PersistentBST.java:162-176 | where `find` succeeds, delete's descent goes to the side where `find` still succeeds |
| BstTree.DeleteIndexMatches | src/PersistentBST.java:120 | the removed position is an item whose key equals the deleted key |
| BstTree.DeleteInOrder | src/PersistentBST.java:105-178 | the new version's items are the old ones, in order, less the one at the matched position |
| BstTree.DeleteSize | src/PersistentBST.java:105-178 | `treeSize` drops by one |
| BstTree.DeleteMultiset | src/PersistentBST.java:105-178 | the new version holds the old items less the matched node's item |
| BstTree.MaxItemIsMax | src/PersistentBST.java:143-160 | the promoted predecessor belongs to the left subtree and sorts after or together with all of its items |
| BstTree.RemoveMaxBst | src/PersistentBST.java:143-158 | splicing the rightmost node out keeps the search-tree invariant |
| BstTree.ReplacementBst | src/PersistentBST.java:120-161 | the replacement of the matched node is a search tree |
| BstTree.DeleteBst | src/PersistentBST.java:105-178 | delete keeps the search-tree invariant |
| BstTree.DeleteKeyedBy | src/PersistentBST.java:105-178 | delete keeps every key equal to the key extracted from its record |
| BstTree.DeleteCount | src/PersistentBST.java:105-178 | delete lowers the count of keys equal to the deleted key by one and leaves every other count alone |
| BstTree.DeleteThenSearch | src/PersistentBST.java:105-178 | after a delete, `find` of the deleted key succeeds exactly when another equal key remained; every other key is found as before |
| BstTree.DeletePathCopies | src/PersistentBST.java:113-176 | old and new version are the same copied path, ending at the matched node in the old and at its replacement in the new |
| BstTree.DeleteAsWrittenAgrees | src/PersistentBST.java:137-161 | outside the defective case, the delete as written equals the intended one |
| BstTree.DeleteAsWrittenLoses | src/PersistentBST.java:144-145 | in the defective case, the delete as written also loses the matched node's whole right subtree |
| BstTree.DeleteAsWrittenCounterexample | src/PersistentBST.java:145 | insert 5, 3, 8, then delete 5: as written only 3 is left; the intended delete keeps 3 and 8 |
| BstTree.DeleteAsWrittenUnordered | src/PersistentBST.java:140-160 | insert 5, 3, 8, 1, then delete 5: as written 1 ends up to the right of 3, so the version is not a search tree, its records list out of order and `find` misses the present key 1; the intended delete keeps the invariant and finds 1 |
| Bst.WalkToPredecessor | src/PersistentBST.java:141-158 | the walk ends at the rightmost node of the left subtree; the copies made on the way, plugged over its left subtree, are the left subtree without it |
| Bst.PromotePredecessor | src/PersistentBST.java:137-161 | the two-children replacement, with the predecessor's left subtree spliced into the left slot when the predecessor is the left child itself |
| Bst.PromotePredecessorAsWritten | src/PersistentBST.java:137-161 | the two-children replacement as written, which drops the right subtree when the predecessor is the left child itself |
| Bst.InsertCopy | src/PersistentBST.java:36-73 | the copying descent of `insert` builds exactly the specified inserted tree |
| Bst.DeleteCopy | src/PersistentBST.java:113-177 | where `find` succeeds, the copying descent of `delete`, with the corrected splice, builds exactly the intended deleted tree |
| Bst.DeleteCopyAsWritten | src/PersistentBST.java:113-177 | where `find` succeeds, the copying descent of `delete` as written, including the splice at line 145, builds exactly the as-written deleted tree |
| Bst.WrittenInOrder | src/PersistentBST.java:252-273 | what `treeToArray` writes is the tree's in-order records from index `i` on, with every other entry left as it was |
| Bst.TreeToArray | src/PersistentBST.java:252-273 | the array afterwards holds the left subtree's records, then the node's record, then the right subtree's records; the result is the index after the last one written, or 0 for an empty tree |
| Bst.PersistentBST.constructor | src/PersistentBST.java:25-29 | a new set has time 0 and the empty tree as its only version |
| Bst.PersistentBST.Publish | src/PersistentBST.java:33-45 | grows the array when full, then appends one version; time rises by one and earlier versions are unchanged |
| Bst.PersistentBST.Insert | src/PersistentBST.java:32-75 | time rises by one; the history gains exactly the inserted tree; every version stays a search tree |
| Bst.PersistentBST.Delete | src/PersistentBST.java:105-178 | a key absent from the current version fails and changes nothing; otherwise time rises by one and the history gains exactly the deleted tree |
| Bst.PersistentBST.Find | src/PersistentBST.java:185-198 | the loop answers the search of the version at `time`, which is whether that version holds an equal key; nothing changes |
| Bst.PersistentBST.FindNow | src/PersistentBST.java:205-207 | `find(elem)` is `find(elem, currentTime)` |
| Bst.PersistentBST.CurrentTime | src/PersistentBST.java:213-215 | the time is one less than the number of published versions |
| Bst.PersistentBST.Size | src/PersistentBST.java:218-221 | the size at `time` is the number of records that `getAllElements(time)` lists |
| Bst.PersistentBST.SizeNow | src/PersistentBST.java:236-238 | the size of the current version |
| Bst.PersistentBST.GetAllElements | src/PersistentBST.java:244-250 | a fresh array of length `size(time)` holding the records in in-order order, with non-decreasing keys |
| Bst.PersistentBST.GetAllElementsNow | src/PersistentBST.java:279-281 | the records of the current version in in-order order |

## Left out

- Key extraction (`getValue`, src/PersistentBST.java:85-100) parses a serialized record with regular-expression splits. Here it is a total function `keyOf`, fixed when the set is created.
- Case folding in `compareToIgnoreCase` and `equalsIgnoreCase` follows Unicode in Java. Here only ASCII letters are folded. The proofs use only that the fold is a function of one character.
- Object identity, node allocation and garbage collection are not modelled. Nodes are values, and a shared subtree is the same value.
- Arguments `time` outside `0..currentTime` are excluded by a precondition. The source either throws an index error or reads a null slot.
- The exceptions of `delete` and `pop` become the `Fail(NotFound)` and `Failure(EmptyStack)` results. State is left unchanged, as the source leaves it.
- `insert` and `delete` grow the array before building their copy; `Bst.PersistentBST.Publish` grows it after. Both orders publish the same versions.
- Integer overflow of `currentTime`, of sizes and of the doubled array length is not modelled. Dafny integers are unbounded.
- The initial capacity `MAX_SIZE = 1000` is kept. Nothing proved depends on its value.
- Bst.PersistentBST.Delete: follows the corrected two-children splice (`Bst.PromotePredecessor`), not line 145 as written. The code as written is `Bst.PromotePredecessorAsWritten`, `Bst.DeleteCopyAsWritten` and `BstTree.DeleteAsWritten`; see Findings. Three promises hold only because of this correction: `Valid()` (every version is a search tree), `Find`'s "exactly when an equal key is present", and the sorted output of `GetAllElements`. As written, `BstTree.DeleteAsWrittenUnordered` breaks all three.
- Bst.DeleteCopy: builds the corrected tree in the two-children case whose left child has no right child, not what lines 139-160 build. The descent as written is `Bst.DeleteCopyAsWritten`.
- The search-tree invariant proved is the weak one: left keys sort before or together with the node's key, right keys together or after. With duplicate keys, promoting the predecessor can move an equal key into a left subtree. The stricter "strictly less on the left" rule of `insert` is then not preserved, but `find` stays correct.

## Findings

| source | as written | input that shows it | evidently intended | confidence | as-written member | corrected member |
|---|---|---|---|---|---|---|
| src/PersistentBST.java:145 | in the two-children case, when the left child has no right child, the first iteration runs with `parent == toDelete`. It writes the predecessor's left subtree into the copy's right slot, over the right subtree set at line 140. The copy's left slot stays empty | insert 5, 3, 8, then delete 5: the new version holds only 3, and 8 is lost. Insert 5, 3, 8, 1, then delete 5: 1 hangs to the right of 3, so the version is no longer a search tree, `getAllElements` lists 3 before 1 and `find(1)` fails although 1 is present | the predecessor's left subtree goes into the copy's left slot. The size drops by exactly one, only the deleted item goes, and the version stays a search tree | high (not executed) | BstTree.DeleteAsWrittenCounterexample, BstTree.DeleteAsWrittenUnordered | BstTree.DeleteSize, BstTree.DeleteBst |
