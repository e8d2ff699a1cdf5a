/** One version of the persistent ordered set: an immutable, unbalanced binary
    search tree. Nodes of a published version are never changed, so a version is
    a value and the subtrees that two versions share are simply the same value.
    The functions here are the specification that the imperative operations of
    `Bst.PersistentBST` are proved against. */
module BstTree {
  import opened KeyOrder

  /** A record together with the sort key extracted from it. */
  datatype Item = Item(data: string, key: string)

  datatype Tree = Nil | Node(data: string, key: string, left: Tree, right: Tree)

  /** The items of a version, left subtree first. */
  function InOrder(t: Tree): seq<Item> {
    match t
    case Nil => []
    case Node(d, k, l, r) => InOrder(l) + [Item(d, k)] + InOrder(r)
  }

  /** `treeSize`: the number of nodes reachable from the root. */
  function TreeSize(t: Tree): nat {
    match t
    case Nil => 0
    case Node(_, _, l, r) => 1 + TreeSize(l) + TreeSize(r)
  }

  /** The size counts the in-order items. */
  lemma {:induction false} SizeInOrder(t: Tree)
    ensures TreeSize(t) == |InOrder(t)|
  {
    if t.Node? {
      SizeInOrder(t.left);
      SizeInOrder(t.right);
    }
  }

  /** The records of a version in in-order order. */
  function Elements(t: Tree): (r: seq<string>)
    ensures |r| == TreeSize(t)
  {
    match t
    case Nil => []
    case Node(d, _, l, r) => Elements(l) + [d] + Elements(r)
  }

  /** `Elements` lists exactly the records of the in-order items. */
  lemma {:induction false} ElementsData(t: Tree)
    ensures |Elements(t)| == |InOrder(t)|
    ensures forall i :: 0 <= i < |InOrder(t)| ==> Elements(t)[i] == InOrder(t)[i].data
  {
    SizeInOrder(t);
    if t.Node? {
      ElementsData(t.left);
      ElementsData(t.right);
      var L := InOrder(t.left);
      forall i | 0 <= i < |InOrder(t)| ensures Elements(t)[i] == InOrder(t)[i].data {
        if i > |L| {
          assert Elements(t)[i] == Elements(t.right)[i - |L| - 1];
        }
      }
    }
  }

  /** The search-tree invariant: no key of the left subtree sorts after the
      node's key, and no key of the right subtree sorts before it. */
  ghost predicate IsBst(t: Tree) {
    match t
    case Nil => true
    case Node(_, k, l, r) =>
      IsBst(l) && IsBst(r) &&
      (forall x | x in InOrder(l) :: LessEq(x.key, k)) &&
      (forall x | x in InOrder(r) :: LessEq(k, x.key))
  }

  ghost predicate Sorted(s: seq<Item>) {
    forall i, j :: 0 <= i < j < |s| ==> LessEq(s[i].key, s[j].key)
  }

  /** Every item's key is the one the key-extraction function gives for its
      record. */
  ghost predicate KeyedBy(t: Tree, keyOf: string -> string) {
    forall x | x in InOrder(t) :: x.key == keyOf(x.data)
  }

  /** How many items have a key equal to `k`, ignoring case. */
  function CountKey(s: seq<Item>, k: string): nat {
    if s == [] then 0
    else (if EqualsIgnoreCase(s[0].key, k) then 1 else 0) + CountKey(s[1..], k)
  }

  /** The descent of `find`: stop at an equal key, go right past a smaller key,
      otherwise go left. */
  function Search(t: Tree, k: string): bool {
    match t
    case Nil => false
    case Node(_, k', l, r) =>
      if EqualsIgnoreCase(k, k') then true
      else if CompareIgnoreCase(k, k') > 0 then Search(r, k)
      else Search(l, k)
  }

  /** The version `insert` publishes: keys strictly less go left, equal or
      greater keys go right, and the new leaf hangs where the descent ends. */
  function InsertTree(t: Tree, d: string, k: string): Tree {
    match t
    case Nil => Node(d, k, Nil, Nil)
    case Node(d', k', l, r) =>
      if Less(k, k') then Node(d', k', InsertTree(l, d, k), r)
      else Node(d', k', l, InsertTree(r, d, k))
  }

  /** The rightmost item of a subtree: the in-order predecessor that the
      two-children case of `delete` promotes. */
  function MaxItem(t: Tree): Item
    requires t.Node?
  {
    if t.right == Nil then Item(t.data, t.key) else MaxItem(t.right)
  }

  /** The subtree with its rightmost node spliced out by its left child. */
  function RemoveMax(t: Tree): Tree
    requires t.Node?
  {
    if t.right == Nil then t.left else Node(t.data, t.key, t.left, RemoveMax(t.right))
  }

  /** What `delete` is meant to put in place of the matched node: its only
      child (or nothing), or, with two children, a copy carrying the
      predecessor's record and key over the left subtree without the
      predecessor and the unchanged right subtree. The source departs from this
      in one case; see `ReplacementAsWritten`. */
  function Replacement(n: Tree): Tree
    requires n.Node?
  {
    if n.left == Nil || n.right == Nil then (if n.left != Nil then n.left else n.right)
    else Node(MaxItem(n.left).data, MaxItem(n.left).key, RemoveMax(n.left), n.right)
  }

  /** The version a successful `delete` is meant to publish: the path to the
      first node whose key equals `k` is copied and that node is replaced by
      its intended `Replacement`. The source's own version is `DeleteAsWritten`. */
  function DeleteTree(t: Tree, k: string): Tree {
    match t
    case Nil => Nil
    case Node(d', k', l, r) =>
      if EqualsIgnoreCase(k, k') then Replacement(t)
      else if Less(k, k') then Node(d', k', DeleteTree(l, k), r)
      else Node(d', k', l, DeleteTree(r, k))
  }

  /** The node `delete` stops at. */
  function Matched(t: Tree, k: string): Tree {
    match t
    case Nil => Nil
    case Node(d', k', l, r) =>
      if EqualsIgnoreCase(k, k') then t
      else if Less(k, k') then Matched(l, k)
      else Matched(r, k)
  }

  // ---------------------------------------------------------------------------
  // Path copying: a one-hole context made of copied ancestors.

  /** A copied ancestor on the mutation path: the old node's record and key and
      the old child on the side the descent did not take. */
  datatype Step =
    | GoLeft(data: string, key: string, right: Tree)
    | GoRight(data: string, key: string, left: Tree)

  function Fill(s: Step, t: Tree): Tree {
    match s
    case GoLeft(d, k, r) => Node(d, k, t, r)
    case GoRight(d, k, l) => Node(d, k, l, t)
  }

  /** The tree whose copied path is `path` (root first) and whose hole holds `t`. */
  function Plug(path: seq<Step>, t: Tree): Tree
    decreases |path|
  {
    if path == [] then t else Plug(path[..|path| - 1], Fill(path[|path| - 1], t))
  }

  /** The ancestors `insert` copies on its way down. */
  function InsertPath(t: Tree, k: string): seq<Step> {
    match t
    case Nil => []
    case Node(d', k', l, r) =>
      if Less(k, k') then [GoLeft(d', k', r)] + InsertPath(l, k)
      else [GoRight(d', k', l)] + InsertPath(r, k)
  }

  /** The ancestors `delete` copies on its way down to the matched node. */
  function DeletePath(t: Tree, k: string): seq<Step> {
    match t
    case Nil => []
    case Node(d', k', l, r) =>
      if EqualsIgnoreCase(k, k') then []
      else if Less(k, k') then [GoLeft(d', k', r)] + DeletePath(l, k)
      else [GoRight(d', k', l)] + DeletePath(r, k)
  }

  lemma {:induction false} PlugPrepend(s: Step, path: seq<Step>, t: Tree)
    ensures Plug([s] + path, t) == Fill(s, Plug(path, t))
    decreases |path|
  {
    if path != [] {
      var last := path[|path| - 1];
      assert ([s] + path)[..|path|] == [s] + path[..|path| - 1];
      PlugPrepend(s, path[..|path| - 1], Fill(last, t));
    }
  }

  // ---------------------------------------------------------------------------
  // Counting and ordering facts.

  lemma {:induction false} CountAppend(a: seq<Item>, b: seq<Item>, k: string)
    ensures CountKey(a + b, k) == CountKey(a, k) + CountKey(b, k)
  {
    if a == [] {
      assert a + b == b;
    } else {
      assert (a + b)[1..] == a[1..] + b;
      CountAppend(a[1..], b, k);
    }
  }

  lemma {:induction false} CountNone(s: seq<Item>, k: string)
    requires forall x | x in s :: !EqualsIgnoreCase(x.key, k)
    ensures CountKey(s, k) == 0
  {
    if s != [] {
      assert s[0] in s;
      CountNone(s[1..], k);
    }
  }

  /** Inserting an item at `i` raises the count of its key by one. */
  lemma CountInsert(s: seq<Item>, i: nat, y: Item, k: string)
    requires i <= |s|
    ensures CountKey(s[..i] + [y] + s[i..], k) ==
      CountKey(s, k) + (if EqualsIgnoreCase(y.key, k) then 1 else 0)
  {
    var a, b := s[..i], s[i..];
    assert s == a + b;
    CountAppend(a + [y], b, k);
    CountAppend(a, [y], k);
    CountAppend(a, b, k);
  }

  /** Removing the item at `i` lowers the count of its key by one. */
  lemma CountRemove(s: seq<Item>, i: nat, k: string)
    requires i < |s|
    ensures CountKey(s[..i] + s[i + 1..], k) ==
      CountKey(s, k) - (if EqualsIgnoreCase(s[i].key, k) then 1 else 0)
  {
    var a, b := s[..i], s[i + 1..];
    assert s == a + [s[i]] + b;
    CountAppend(a + [s[i]], b, k);
    CountAppend(a, [s[i]], k);
    CountAppend(a, b, k);
  }

  lemma LessNotEqual(a: string, b: string)
    requires Less(a, b)
    ensures !EqualsIgnoreCase(a, b) && !EqualsIgnoreCase(b, a) && LessEq(a, b)
  {
    CompareSign(a, b);
  }

  /** Sorted sequences around a pivot that sorts after everything to its left
      and before everything to its right join into a sorted sequence. */
  lemma SortedJoin(L: seq<Item>, x: Item, R: seq<Item>)
    requires Sorted(L) && Sorted(R)
    requires forall y | y in L :: LessEq(y.key, x.key)
    requires forall y | y in R :: LessEq(x.key, y.key)
    ensures Sorted(L + [x] + R)
  {
    var s := L + [x] + R;
    forall i, j | 0 <= i < j < |s|
      ensures LessEq(s[i].key, s[j].key)
    {
      if i < |L| && j == |L| {
        assert s[i] in L;
      } else if i < |L| && j > |L| {
        assert s[i] in L && s[j] in R;
        LessEqTransitive(s[i].key, x.key, s[j].key);
      } else if i == |L| && j > |L| {
        assert s[j] in R;
      } else if i > |L| {
        assert s[i] == R[i - |L| - 1] && s[j] == R[j - |L| - 1];
      } else {
        assert s[i] == L[i] && s[j] == L[j];
      }
    }
  }

  /** `getAllElements` of a search tree is non-decreasing by key. */
  lemma {:induction false} BstSorted(t: Tree)
    requires IsBst(t)
    ensures Sorted(InOrder(t))
  {
    if t.Node? {
      BstSorted(t.left);
      BstSorted(t.right);
      SortedJoin(InOrder(t.left), Item(t.data, t.key), InOrder(t.right));
    }
  }

  /** The records of a search tree, in in-order order, have non-decreasing
      keys under the key-extraction function. */
  lemma ElementsSorted(t: Tree, keyOf: string -> string)
    requires IsBst(t) && KeyedBy(t, keyOf)
    ensures forall i, j :: 0 <= i < j < |Elements(t)| ==>
      LessEq(keyOf(Elements(t)[i]), keyOf(Elements(t)[j]))
  {
    var s := InOrder(t);
    BstSorted(t);
    ElementsData(t);
    forall i, j | 0 <= i < j < |Elements(t)|
      ensures LessEq(keyOf(Elements(t)[i]), keyOf(Elements(t)[j]))
    {
      assert s[i] in s && s[j] in s;
    }
  }

  /** On a search tree, `find` succeeds exactly when some item's key equals the
      searched key. */
  lemma {:induction false} SearchCount(t: Tree, k: string)
    requires IsBst(t)
    ensures Search(t, k) <==> CountKey(InOrder(t), k) > 0
  {
    if t.Node? {
      var L, R := InOrder(t.left), InOrder(t.right);
      CountAppend(L + [Item(t.data, t.key)], R, k);
      CountAppend(L, [Item(t.data, t.key)], k);
      CompareSign(k, t.key);
      if EqualsIgnoreCase(k, t.key) {
      } else if CompareIgnoreCase(k, t.key) > 0 {
        SearchCount(t.right, k);
        forall x | x in L ensures !EqualsIgnoreCase(x.key, k) {
          LessEqThenLess(x.key, t.key, k);
          LessNotEqual(x.key, k);
        }
        CountNone(L, k);
      } else {
        SearchCount(t.left, k);
        forall x | x in R ensures !EqualsIgnoreCase(x.key, k) {
          LessThenLessEq(k, t.key, x.key);
          LessNotEqual(k, x.key);
        }
        CountNone(R, k);
      }
    }
  }

  // ---------------------------------------------------------------------------
  // Insert.

  /** How many items of the old version precede the inserted one. */
  function InsertIndex(t: Tree, k: string): nat {
    match t
    case Nil => 0
    case Node(_, k', l, r) =>
      if Less(k, k') then InsertIndex(l, k) else TreeSize(l) + 1 + InsertIndex(r, k)
  }

  lemma InsertAtLeft(L: seq<Item>, x: Item, R: seq<Item>, i: nat, y: Item)
    requires i <= |L|
    ensures (L[..i] + [y] + L[i..]) + [x] + R == (L + [x] + R)[..i] + [y] + (L + [x] + R)[i..]
  {
  }

  lemma InsertAtRight(L: seq<Item>, x: Item, R: seq<Item>, m: nat, y: Item)
    requires m <= |R|
    ensures L + [x] + (R[..m] + [y] + R[m..]) ==
      (L + [x] + R)[..|L| + 1 + m] + [y] + (L + [x] + R)[|L| + 1 + m..]
  {
  }

  /** The new version's items are the old ones with the new item inserted at
      one position. */
  lemma {:induction false} InsertInOrder(t: Tree, d: string, k: string)
    ensures InsertIndex(t, k) <= |InOrder(t)|
    ensures InOrder(InsertTree(t, d, k)) ==
      InOrder(t)[..InsertIndex(t, k)] + [Item(d, k)] + InOrder(t)[InsertIndex(t, k)..]
  {
    match t
    case Nil =>
    case Node(d', k', l, r) =>
      if Less(k, k') {
        InsertInOrder(l, d, k);
        InsertAtLeft(InOrder(l), Item(d', k'), InOrder(r), InsertIndex(l, k), Item(d, k));
      } else {
        SizeInOrder(l);
        InsertInOrder(r, d, k);
        InsertAtRight(InOrder(l), Item(d', k'), InOrder(r), InsertIndex(r, k), Item(d, k));
      }
  }

  /** On a search tree, every item before the insertion position sorts before
      or together with the new key, so the new item lands after all items with
      an equal key. */
  lemma {:induction false} InsertIndexAfterEqual(t: Tree, k: string)
    requires IsBst(t)
    ensures InsertIndex(t, k) <= |InOrder(t)|
    ensures forall j :: 0 <= j < InsertIndex(t, k) ==> LessEq(InOrder(t)[j].key, k)
  {
    match t
    case Nil =>
    case Node(d', k', l, r) =>
      var L, R, s := InOrder(l), InOrder(r), InOrder(t);
      var i := InsertIndex(t, k);
      assert s == L + [Item(d', k')] + R;
      if Less(k, k') {
        InsertIndexAfterEqual(l, k);
        forall j | 0 <= j < i ensures LessEq(s[j].key, k) {
          assert s[j] == L[j];
        }
      } else {
        SizeInOrder(l);
        InsertIndexAfterEqual(r, k);
        forall j | 0 <= j < i ensures LessEq(s[j].key, k) {
          if j < |L| {
            assert s[j] in L;
            LessEqTransitive(s[j].key, k', k);
          } else if j > |L| {
            assert s[j] == R[j - |L| - 1];
          }
        }
      }
  }

  /** On a search tree, every item after the insertion position sorts strictly
      after the new key. */
  lemma {:induction false} InsertIndexBeforeGreater(t: Tree, k: string)
    requires IsBst(t)
    ensures InsertIndex(t, k) <= |InOrder(t)|
    ensures forall j :: InsertIndex(t, k) <= j < |InOrder(t)| ==> Less(k, InOrder(t)[j].key)
  {
    match t
    case Nil =>
    case Node(d', k', l, r) =>
      var L, R, s := InOrder(l), InOrder(r), InOrder(t);
      var i := InsertIndex(t, k);
      assert s == L + [Item(d', k')] + R;
      if Less(k, k') {
        InsertIndexBeforeGreater(l, k);
        forall j | i <= j < |s| ensures Less(k, s[j].key) {
          if j == |L| {
          } else if j > |L| {
            assert s[j] in R;
            LessThenLessEq(k, k', s[j].key);
          } else {
            assert s[j] == L[j];
          }
        }
      } else {
        SizeInOrder(l);
        InsertIndexBeforeGreater(r, k);
        forall j | i <= j < |s| ensures Less(k, s[j].key) {
          assert s[j] == R[j - |L| - 1];
        }
      }
  }

  /** The new version holds exactly one more item, the inserted one. */
  lemma {:induction false} InsertMultiset(t: Tree, d: string, k: string)
    ensures multiset(InOrder(InsertTree(t, d, k))) == multiset(InOrder(t)) + multiset{Item(d, k)}
  {
    match t
    case Nil =>
    case Node(d', k', l, r) =>
      if Less(k, k') {
        InsertMultiset(l, d, k);
      } else {
        InsertMultiset(r, d, k);
      }
  }

  /** `treeSize` grows by one. */
  lemma {:induction false} InsertSize(t: Tree, d: string, k: string)
    ensures TreeSize(InsertTree(t, d, k)) == TreeSize(t) + 1
  {
    InsertInOrder(t, d, k);
    SizeInOrder(t);
    SizeInOrder(InsertTree(t, d, k));
  }

  /** Insert keeps the search-tree invariant. */
  lemma {:induction false} InsertBst(t: Tree, d: string, k: string)
    requires IsBst(t)
    ensures IsBst(InsertTree(t, d, k))
  {
    match t
    case Nil =>
    case Node(d', k', l, r) =>
      if Less(k, k') {
        InsertBst(l, d, k);
        InsertMultiset(l, d, k);
        LessNotEqual(k, k');
        forall x | x in InOrder(InsertTree(l, d, k)) ensures LessEq(x.key, k') {
          assert x in multiset(InOrder(InsertTree(l, d, k)));
        }
      } else {
        InsertBst(r, d, k);
        InsertMultiset(r, d, k);
        forall x | x in InOrder(InsertTree(r, d, k)) ensures LessEq(k', x.key) {
          assert x in multiset(InOrder(InsertTree(r, d, k)));
        }
      }
  }

  /** Insert keeps every item keyed by the key-extraction function. */
  lemma InsertKeyedBy(t: Tree, d: string, keyOf: string -> string)
    requires KeyedBy(t, keyOf)
    ensures KeyedBy(InsertTree(t, d, keyOf(d)), keyOf)
  {
  }

  /** After an insert, `find` succeeds for the inserted key and, for every other
      key, answers as it did on the old version. */
  lemma InsertThenSearch(t: Tree, d: string, k: string, k2: string)
    requires IsBst(t)
    ensures Search(InsertTree(t, d, k), k2) == (Search(t, k2) || EqualsIgnoreCase(k, k2))
  {
    InsertInOrder(t, d, k);
    InsertBst(t, d, k);
    SearchCount(t, k2);
    SearchCount(InsertTree(t, d, k), k2);
    CountInsert(InOrder(t), InsertIndex(t, k), Item(d, k), k2);
  }

  /** Path copying: the old and the new version are the same copied path; the
      old one has an empty slot at its end and the new one the new leaf. Every
      subtree off the path is shared as it was. */
  lemma {:induction false} InsertPathCopies(t: Tree, d: string, k: string)
    ensures Plug(InsertPath(t, k), Nil) == t
    ensures Plug(InsertPath(t, k), Node(d, k, Nil, Nil)) == InsertTree(t, d, k)
  {
    match t
    case Nil =>
    case Node(d', k', l, r) =>
      if Less(k, k') {
        InsertPathCopies(l, d, k);
        PlugPrepend(GoLeft(d', k', r), InsertPath(l, k), Nil);
        PlugPrepend(GoLeft(d', k', r), InsertPath(l, k), Node(d, k, Nil, Nil));
      } else {
        InsertPathCopies(r, d, k);
        PlugPrepend(GoRight(d', k', l), InsertPath(r, k), Nil);
        PlugPrepend(GoRight(d', k', l), InsertPath(r, k), Node(d, k, Nil, Nil));
      }
  }

  // ---------------------------------------------------------------------------
  // Delete.

  lemma {:induction false} RemoveMaxInOrder(t: Tree)
    requires t.Node?
    ensures InOrder(t) == InOrder(RemoveMax(t)) + [MaxItem(t)]
  {
    if t.right != Nil {
      RemoveMaxInOrder(t.right);
    }
  }

  /** The replacement holds the items of the matched node's two subtrees, in
      order, and not the node's own item. */
  lemma ReplacementInOrder(n: Tree)
    requires n.Node?
    ensures InOrder(Replacement(n)) == InOrder(n.left) + InOrder(n.right)
  {
    if n.left != Nil && n.right != Nil {
      RemoveMaxInOrder(n.left);
    }
  }

  /** Where a search succeeds, `delete` descends the same way as `find`. */
  lemma SearchStep(t: Tree, k: string)
    requires Search(t, k) && t.Node? && !EqualsIgnoreCase(k, t.key)
    ensures Less(k, t.key) ==> Search(t.left, k)
    ensures !Less(k, t.key) ==> Search(t.right, k)
  {
    CompareSign(k, t.key);
  }

  /** The in-order position of the item `delete` removes. */
  function DeleteIndex(t: Tree, k: string): nat {
    match t
    case Nil => 0
    case Node(_, k', l, r) =>
      if EqualsIgnoreCase(k, k') then TreeSize(l)
      else if Less(k, k') then DeleteIndex(l, k)
      else TreeSize(l) + 1 + DeleteIndex(r, k)
  }

  /** The removed position holds an item whose key equals the deleted key. */
  lemma {:induction false} DeleteIndexMatches(t: Tree, k: string)
    requires Search(t, k)
    ensures DeleteIndex(t, k) < |InOrder(t)|
    ensures EqualsIgnoreCase(InOrder(t)[DeleteIndex(t, k)].key, k)
  {
    var L, R, s := InOrder(t.left), InOrder(t.right), InOrder(t);
    assert s == L + [Item(t.data, t.key)] + R;
    SizeInOrder(t.left);
    if !EqualsIgnoreCase(k, t.key) {
      SearchStep(t, k);
      if Less(k, t.key) {
        DeleteIndexMatches(t.left, k);
        assert s[DeleteIndex(t, k)] == L[DeleteIndex(t, k)];
      } else {
        DeleteIndexMatches(t.right, k);
        assert s[DeleteIndex(t, k)] == R[DeleteIndex(t.right, k)];
      }
    }
  }

  /** Splicing out the item between `L` and `R` of `s == L + [x] + R`. */
  lemma RemoveAtNode(s: seq<Item>, L: seq<Item>, x: Item, R: seq<Item>)
    requires s == L + [x] + R
    ensures s[..|L|] + s[|L| + 1..] == L + R
  {
  }

  /** Splicing out an item of `L`, given `d` is `L` without it. */
  lemma RemoveAtLeft(s: seq<Item>, L: seq<Item>, x: Item, R: seq<Item>, i: nat, d: seq<Item>)
    requires s == L + [x] + R && i < |L| && d == L[..i] + L[i + 1..]
    ensures s[..i] + s[i + 1..] == d + [x] + R
  {
  }

  /** Splicing out an item of `R`, given `d` is `R` without it. */
  lemma RemoveAtRight(s: seq<Item>, L: seq<Item>, x: Item, R: seq<Item>, m: nat, d: seq<Item>)
    requires s == L + [x] + R && m < |R| && d == R[..m] + R[m + 1..]
    ensures s[..|L| + 1 + m] + s[|L| + 1 + m + 1..] == L + [x] + d
  {
  }

  /** The version `delete` publishes holds the items of `t`, in order, less
      the one at position `DeleteIndex(t, k)`. */
  ghost predicate RemovesOne(t: Tree, k: string) {
    DeleteIndex(t, k) < |InOrder(t)| &&
    InOrder(DeleteTree(t, k)) == InOrder(t)[..DeleteIndex(t, k)] + InOrder(t)[DeleteIndex(t, k) + 1..]
  }

  lemma RemovesOneHere(t: Tree, k: string)
    requires t.Node? && EqualsIgnoreCase(k, t.key)
    ensures RemovesOne(t, k)
  {
    ReplacementInOrder(t);
    SizeInOrder(t.left);
    RemoveAtNode(InOrder(t), InOrder(t.left), Item(t.data, t.key), InOrder(t.right));
  }

  lemma RemovesOneLeft(t: Tree, k: string)
    requires t.Node? && !EqualsIgnoreCase(k, t.key) && Less(k, t.key) && RemovesOne(t.left, k)
    ensures RemovesOne(t, k)
  {
  }

  lemma RemovesOneRight(t: Tree, k: string)
    requires t.Node? && !EqualsIgnoreCase(k, t.key) && !Less(k, t.key) && RemovesOne(t.right, k)
    ensures RemovesOne(t, k)
  {
    SizeInOrder(t.left);
    RemoveAtRight(InOrder(t), InOrder(t.left), Item(t.data, t.key), InOrder(t.right),
                  DeleteIndex(t.right, k), InOrder(DeleteTree(t.right, k)));
  }

  /** A successful delete removes exactly one item, one whose key equals the
      deleted key (`DeleteIndexMatches`), and keeps all others in their order. */
  lemma {:induction false} DeleteInOrder(t: Tree, k: string)
    requires Search(t, k)
    ensures RemovesOne(t, k)
  {
    if EqualsIgnoreCase(k, t.key) {
      RemovesOneHere(t, k);
    } else if Less(k, t.key) {
      SearchStep(t, k);
      DeleteInOrder(t.left, k);
      RemovesOneLeft(t, k);
    } else {
      SearchStep(t, k);
      DeleteInOrder(t.right, k);
      RemovesOneRight(t, k);
    }
  }

  /** `treeSize` drops by one. */
  lemma DeleteSize(t: Tree, k: string)
    requires Search(t, k)
    ensures TreeSize(DeleteTree(t, k)) == TreeSize(t) - 1
  {
    DeleteInOrder(t, k);
    SizeInOrder(t);
    SizeInOrder(DeleteTree(t, k));
  }

  /** The version `delete` publishes holds the items of `t` less the matched
      node's item, as a multiset. */
  ghost predicate DropsMatched(t: Tree, k: string) {
    Matched(t, k).Node? &&
    multiset(InOrder(DeleteTree(t, k))) + multiset{Item(Matched(t, k).data, Matched(t, k).key)}
      == multiset(InOrder(t))
  }

  lemma DropsMatchedHere(t: Tree, k: string)
    requires t.Node? && EqualsIgnoreCase(k, t.key)
    ensures DropsMatched(t, k)
  {
    ReplacementInOrder(t);
  }

  lemma DropsMatchedLeft(t: Tree, k: string)
    requires t.Node? && !EqualsIgnoreCase(k, t.key) && Less(k, t.key) && DropsMatched(t.left, k)
    ensures DropsMatched(t, k)
  {
  }

  lemma DropsMatchedRight(t: Tree, k: string)
    requires t.Node? && !EqualsIgnoreCase(k, t.key) && !Less(k, t.key) && DropsMatched(t.right, k)
    ensures DropsMatched(t, k)
  {
  }

  /** The items of the new version are those of the old one less the matched
      node's item. */
  lemma {:induction false} DeleteMultiset(t: Tree, k: string)
    requires Search(t, k)
    ensures DropsMatched(t, k)
  {
    if EqualsIgnoreCase(k, t.key) {
      DropsMatchedHere(t, k);
    } else if Less(k, t.key) {
      SearchStep(t, k);
      DeleteMultiset(t.left, k);
      DropsMatchedLeft(t, k);
    } else {
      SearchStep(t, k);
      DeleteMultiset(t.right, k);
      DropsMatchedRight(t, k);
    }
  }

  lemma LessEqReflexive(a: string)
    ensures LessEq(a, a)
  {
    CompareSign(a, a);
  }

  /** The promoted item is a largest item of a search tree. */
  lemma MaxItemIsMax(t: Tree)
    requires IsBst(t) && t.Node?
    ensures MaxItem(t) in InOrder(t)
    ensures forall x | x in InOrder(t) :: LessEq(x.key, MaxItem(t).key)
  {
    var s := InOrder(t);
    RemoveMaxInOrder(t);
    BstSorted(t);
    assert s[|s| - 1] == MaxItem(t);
    forall x | x in s ensures LessEq(x.key, MaxItem(t).key) {
      var i :| 0 <= i < |s| && s[i] == x;
      if i == |s| - 1 {
        LessEqReflexive(x.key);
      }
    }
  }

  lemma {:induction false} RemoveMaxBst(t: Tree)
    requires IsBst(t) && t.Node?
    ensures IsBst(RemoveMax(t))
  {
    if t.right != Nil {
      RemoveMaxBst(t.right);
      RemoveMaxInOrder(t.right);
      forall x | x in InOrder(RemoveMax(t.right)) ensures LessEq(t.key, x.key) {
        assert x in InOrder(t.right);
      }
    }
  }

  lemma ReplacementBst(n: Tree)
    requires IsBst(n) && n.Node?
    ensures IsBst(Replacement(n))
  {
    if n.left != Nil && n.right != Nil {
      var m := MaxItem(n.left);
      RemoveMaxBst(n.left);
      RemoveMaxInOrder(n.left);
      MaxItemIsMax(n.left);
      forall x | x in InOrder(RemoveMax(n.left)) ensures LessEq(x.key, m.key) {
        assert x in InOrder(n.left);
      }
      forall x | x in InOrder(n.right) ensures LessEq(m.key, x.key) {
        LessEqTransitive(m.key, n.key, x.key);
      }
    }
  }

  lemma DeleteBstLeft(t: Tree, k: string)
    requires t.Node? && IsBst(t) && !EqualsIgnoreCase(k, t.key) && Less(k, t.key)
    requires IsBst(DeleteTree(t.left, k)) && DropsMatched(t.left, k)
    ensures IsBst(DeleteTree(t, k))
  {
    forall x | x in InOrder(DeleteTree(t.left, k)) ensures LessEq(x.key, t.key) {
      assert x in multiset(InOrder(t.left));
    }
  }

  lemma DeleteBstRight(t: Tree, k: string)
    requires t.Node? && IsBst(t) && !EqualsIgnoreCase(k, t.key) && !Less(k, t.key)
    requires IsBst(DeleteTree(t.right, k)) && DropsMatched(t.right, k)
    ensures IsBst(DeleteTree(t, k))
  {
    forall x | x in InOrder(DeleteTree(t.right, k)) ensures LessEq(t.key, x.key) {
      assert x in multiset(InOrder(t.right));
    }
  }

  /** Delete keeps the search-tree invariant. */
  lemma {:induction false} DeleteBst(t: Tree, k: string)
    requires IsBst(t) && Search(t, k)
    ensures IsBst(DeleteTree(t, k))
  {
    if EqualsIgnoreCase(k, t.key) {
      ReplacementBst(t);
    } else if Less(k, t.key) {
      SearchStep(t, k);
      DeleteBst(t.left, k);
      DeleteMultiset(t.left, k);
      DeleteBstLeft(t, k);
    } else {
      SearchStep(t, k);
      DeleteBst(t.right, k);
      DeleteMultiset(t.right, k);
      DeleteBstRight(t, k);
    }
  }

  /** Delete keeps every item keyed by the key-extraction function. */
  lemma DeleteKeyedBy(t: Tree, k: string, keyOf: string -> string)
    requires KeyedBy(t, keyOf) && Search(t, k)
    ensures KeyedBy(DeleteTree(t, k), keyOf)
  {
    DeleteMultiset(t, k);
    forall x | x in InOrder(DeleteTree(t, k)) ensures x.key == keyOf(x.data) {
      assert x in multiset(InOrder(t));
    }
  }

  /** A delete lowers by one the number of items whose key equals the deleted
      key and leaves every other count as it was. */
  lemma DeleteCount(t: Tree, k: string, k2: string)
    requires Search(t, k)
    ensures CountKey(InOrder(DeleteTree(t, k)), k2) ==
      CountKey(InOrder(t), k2) - (if EqualsIgnoreCase(k, k2) then 1 else 0)
  {
    DeleteInOrder(t, k);
    DeleteIndexMatches(t, k);
    CountRemove(InOrder(t), DeleteIndex(t, k), k2);
  }

  /** After a delete, `find` of the deleted key succeeds exactly when the old
      version held another item with an equal key; every other key is found as
      before. */
  lemma DeleteThenSearch(t: Tree, k: string, k2: string)
    requires IsBst(t) && Search(t, k)
    ensures Search(DeleteTree(t, k), k2) <==>
      if EqualsIgnoreCase(k, k2) then CountKey(InOrder(t), k2) > 1 else Search(t, k2)
  {
    DeleteCount(t, k, k2);
    DeleteBst(t, k);
    SearchCount(t, k2);
    SearchCount(DeleteTree(t, k), k2);
  }

  /** Path copying: the old and the new version are the same copied path down
      to the matched node, which the new version replaces. */
  lemma {:induction false} DeletePathCopies(t: Tree, k: string)
    requires Search(t, k)
    ensures Matched(t, k).Node?
    ensures Plug(DeletePath(t, k), Matched(t, k)) == t
    ensures Plug(DeletePath(t, k), Replacement(Matched(t, k))) == DeleteTree(t, k)
  {
    if !EqualsIgnoreCase(k, t.key) {
      SearchStep(t, k);
      if Less(k, t.key) {
        var st := GoLeft(t.data, t.key, t.right);
        DeletePathCopies(t.left, k);
        PlugPrepend(st, DeletePath(t.left, k), Matched(t.left, k));
        PlugPrepend(st, DeletePath(t.left, k), Replacement(Matched(t.left, k)));
      } else {
        var st := GoRight(t.data, t.key, t.left);
        DeletePathCopies(t.right, k);
        PlugPrepend(st, DeletePath(t.right, k), Matched(t.right, k));
        PlugPrepend(st, DeletePath(t.right, k), Replacement(Matched(t.right, k)));
      }
    }
  }

  // ---------------------------------------------------------------------------
  // Delete as the source writes it.

  /** The two-children case whose left child has no right child: the case in
      which the source's splice writes into the wrong slot. */
  predicate Defective(n: Tree) {
    n.Node? && n.left.Node? && n.right.Node? && n.left.right == Nil
  }

  /** The replacement as the source computes it: when the predecessor is the
      left child itself, the copied node gets the predecessor's record and key,
      an empty left slot, and the predecessor's left subtree in its right slot,
      so the old right subtree is dropped. */
  function ReplacementAsWritten(n: Tree): Tree
    requires n.Node?
  {
    if n.left == Nil || n.right == Nil then (if n.left != Nil then n.left else n.right)
    else if n.left.right == Nil then Node(n.left.data, n.left.key, Nil, n.left.left)
    else Node(MaxItem(n.left).data, MaxItem(n.left).key, RemoveMax(n.left), n.right)
  }

  function DeleteAsWritten(t: Tree, k: string): Tree {
    match t
    case Nil => Nil
    case Node(d', k', l, r) =>
      if EqualsIgnoreCase(k, k') then ReplacementAsWritten(t)
      else if Less(k, k') then Node(d', k', DeleteAsWritten(l, k), r)
      else Node(d', k', l, DeleteAsWritten(r, k))
  }

  /** Outside the defective case the source's delete is the intended one. */
  lemma {:induction false} DeleteAsWrittenAgrees(t: Tree, k: string)
    requires !Defective(Matched(t, k))
    ensures DeleteAsWritten(t, k) == DeleteTree(t, k)
  {
    match t
    case Nil =>
    case Node(_, k', l, r) =>
      if !EqualsIgnoreCase(k, k') {
        if Less(k, k') {
          DeleteAsWrittenAgrees(l, k);
        } else {
          DeleteAsWrittenAgrees(r, k);
        }
      }
  }

  /** In the defective case the source's delete loses the matched node's whole
      right subtree besides the matched item. */
  lemma {:induction false} DeleteAsWrittenLoses(t: Tree, k: string)
    requires Defective(Matched(t, k))
    ensures TreeSize(DeleteAsWritten(t, k)) == TreeSize(t) - 1 - TreeSize(Matched(t, k).right)
  {
    match t
    case Nil =>
    case Node(_, k', l, r) =>
      if !EqualsIgnoreCase(k, k') {
        if Less(k, k') {
          DeleteAsWrittenLoses(l, k);
        } else {
          DeleteAsWrittenLoses(r, k);
        }
      }
  }

  /** Insert 5, 3, 8 and delete 5: the source's delete publishes a tree holding
      only 3, where the intended one keeps 3 and 8. */
  lemma DeleteAsWrittenCounterexample()
    ensures var t := InsertTree(InsertTree(InsertTree(Nil, "5", "5"), "3", "3"), "8", "8");
      Search(t, "5") && Search(t, "8") &&
      DeleteAsWritten(t, "5") == Node("3", "3", Nil, Nil) &&
      !Search(DeleteAsWritten(t, "5"), "8") &&
      DeleteTree(t, "5") == Node("3", "3", Nil, Node("8", "8", Nil, Nil)) &&
      Search(DeleteTree(t, "5"), "8")
  {
  }

  /** Insert 5, 3, 8, 1 and delete 5: the source's delete hangs 1 to the right
      of 3, so the published version is no longer a search tree, its in-order
      listing is out of order and `find` misses 1 although 1 is present. The
      intended delete keeps the invariant and finds 1. */
  lemma DeleteAsWrittenUnordered()
    ensures var t := InsertTree(InsertTree(InsertTree(InsertTree(Nil, "5", "5"), "3", "3"), "8", "8"), "1", "1");
      var w := DeleteAsWritten(t, "5");
      IsBst(t) && Search(t, "5") &&
      w == Node("3", "3", Nil, Node("1", "1", Nil, Nil)) &&
      !IsBst(w) &&
      InOrder(w) == [Item("3", "3"), Item("1", "1")] && Less("1", "3") &&
      Item("1", "1") in InOrder(w) && !Search(w, "1") &&
      IsBst(DeleteTree(t, "5")) && Search(DeleteTree(t, "5"), "1")
  {
  }
}
