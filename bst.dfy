/** The partially persistent ordered set: `versions[t]` is the root of the
    search tree at time `t`. `insert` and `delete` copy the nodes on their path
    and publish the copy as a new version; older versions stay as they were. */
module Bst {
  import opened KeyOrder
  import opened Versions
  import opened BstTree

  /** The walk of the two-children case of `delete` on the matched node `n`:
      from the left child, go right to the in-order predecessor, copying each
      node passed with its left subtree. The copies, topmost first, plugged
      over the predecessor's left subtree, are the left subtree without the
      predecessor. */
  method WalkToPredecessor(n: Tree) returns (spine: seq<Step>, pred: Tree)
    requires n.Node? && n.left.Node?
    ensures pred.Node? && pred.right == Nil
    ensures Item(pred.data, pred.key) == MaxItem(n.left)
    ensures spine == [] <==> n.left.right == Nil
    ensures spine == [] ==> pred == n.left
    ensures Plug(spine, pred.left) == RemoveMax(n.left)
  {
    pred := n.left;
    spine := [];
    while pred.right != Nil
      invariant pred.Node?
      invariant spine == [] ==> pred == n.left
      invariant spine != [] ==> n.left.right != Nil
      invariant MaxItem(pred) == MaxItem(n.left)
      invariant Plug(spine, RemoveMax(pred)) == RemoveMax(n.left)
      decreases pred
    {
      var step := GoRight(pred.data, pred.key, pred.left);
      assert (spine + [step])[..|spine|] == spine;
      spine := spine + [step];
      pred := pred.right;
    }
  }

  /** The two-children case of `delete` as intended: the copy of `n` gets the
      predecessor's record and key, the left subtree without the predecessor
      (the predecessor's left subtree hangs in the right slot of its copied
      parent, or is the whole new left subtree when the predecessor is the left
      child itself) and the unchanged right subtree. */
  method PromotePredecessor(n: Tree) returns (copy: Tree)
    requires n.Node? && n.left.Node? && n.right.Node?
    ensures copy == Replacement(n)
  {
    var spine, pred := WalkToPredecessor(n);
    var toDeleteLeft: Tree;
    // The two branches mirror the source's loop, which handles the first step
    // (parent is the matched node) apart; the first branch is where the
    // splice at line 145 of the source goes into the wrong slot.
    if spine == [] {
      toDeleteLeft := pred.left;
    } else {
      toDeleteLeft := Plug(spine, pred.left);
    }
    copy := Node(pred.data, pred.key, toDeleteLeft, n.right);
  }

  /** The two-children case of `delete` as the source writes it: when the
      predecessor is the left child itself, its left subtree is written into the
      right slot of the copy of `n`, over the right subtree, and the copy's left
      slot stays empty. */
  method PromotePredecessorAsWritten(n: Tree) returns (copy: Tree)
    requires n.Node? && n.left.Node? && n.right.Node?
    ensures copy == ReplacementAsWritten(n)
  {
    var spine, pred := WalkToPredecessor(n);
    var toDeleteLeft, toDeleteRight := Nil, n.right;
    if spine == [] {
      toDeleteRight := pred.left;
    } else {
      toDeleteLeft := Plug(spine, pred.left);
    }
    copy := Node(pred.data, pred.key, toDeleteLeft, toDeleteRight);
  }

  /** The descent of `insert`: copy each node passed, keeping the child on the
      side not taken, until the side taken is empty; the new leaf goes there. */
  method InsertCopy(root: Tree, elem: string, key: string) returns (newRoot: Tree)
    ensures newRoot == InsertTree(root, elem, key)
  {
    var leaf := Node(elem, key, Nil, Nil);
    newRoot := leaf;
    if root != Nil {
      var orig := root;
      var path: seq<Step> := [];  // the copies made so far, root first
      while true
        invariant orig.Node?
        invariant Plug(path, InsertTree(orig, elem, key)) == InsertTree(root, elem, key)
        decreases orig
      {
        if Less(key, orig.key) {
          var step := GoLeft(orig.data, orig.key, orig.right);
          assert (path + [step])[..|path|] == path;
          if orig.left == Nil {
            newRoot := Plug(path + [step], leaf);
            break;
          }
          path := path + [step];
          orig := orig.left;
        } else {
          var step := GoRight(orig.data, orig.key, orig.left);
          assert (path + [step])[..|path|] == path;
          if orig.right == Nil {
            newRoot := Plug(path + [step], leaf);
            break;
          }
          path := path + [step];
          orig := orig.right;
        }
      }
    }
  }

  /** The descent of `delete` on a tree where `find` succeeds: copy each node
      passed, keeping the child on the side not taken, and replace the first
      node whose key equals `key`. */
  method DeleteCopy(root: Tree, key: string) returns (newRoot: Tree)
    requires Search(root, key)
    ensures newRoot == DeleteTree(root, key)
  {
    var orig := root;
    var path: seq<Step> := [];  // the copies made so far, root first
    while true
      invariant orig.Node? && Search(orig, key)
      invariant Plug(path, DeleteTree(orig, key)) == DeleteTree(root, key)
      decreases orig
    {
      if EqualsIgnoreCase(key, orig.key) {
        var replacement: Tree;
        if orig.left == Nil || orig.right == Nil {
          var child := Nil;
          if orig.left != Nil {
            child := orig.left;
          } else if orig.right != Nil {
            child := orig.right;
          }
          replacement := child;
        } else {
          replacement := PromotePredecessor(orig);
        }
        // The replacement goes into the copied parent's slot, or becomes the
        // root when the matched node is the root.
        newRoot := Plug(path, replacement);
        break;
      } else if Less(key, orig.key) {
        SearchStep(orig, key);
        var step := GoLeft(orig.data, orig.key, orig.right);
        assert (path + [step])[..|path|] == path;
        path := path + [step];
        orig := orig.left;
      } else {
        SearchStep(orig, key);
        var step := GoRight(orig.data, orig.key, orig.left);
        assert (path + [step])[..|path|] == path;
        path := path + [step];
        orig := orig.right;
      }
    }
  }

  /** The descent of `delete` as the source writes it: the same copying walk
      as `DeleteCopy`, with the two-children step of `PromotePredecessorAsWritten`. */
  method DeleteCopyAsWritten(root: Tree, key: string) returns (newRoot: Tree)
    requires Search(root, key)
    ensures newRoot == DeleteAsWritten(root, key)
  {
    var orig := root;
    var path: seq<Step> := [];  // the copies made so far, root first
    while true
      invariant orig.Node? && Search(orig, key)
      invariant Plug(path, DeleteAsWritten(orig, key)) == DeleteAsWritten(root, key)
      decreases orig
    {
      if EqualsIgnoreCase(key, orig.key) {
        var replacement: Tree;
        if orig.left == Nil || orig.right == Nil {
          var child := Nil;
          if orig.left != Nil {
            child := orig.left;
          } else if orig.right != Nil {
            child := orig.right;
          }
          replacement := child;
        } else {
          replacement := PromotePredecessorAsWritten(orig);
        }
        newRoot := Plug(path, replacement);
        break;
      } else if Less(key, orig.key) {
        SearchStep(orig, key);
        var step := GoLeft(orig.data, orig.key, orig.right);
        assert (path + [step])[..|path|] == path;
        path := path + [step];
        orig := orig.left;
      } else {
        SearchStep(orig, key);
        var step := GoRight(orig.data, orig.key, orig.left);
        assert (path + [step])[..|path|] == path;
        path := path + [step];
        orig := orig.right;
      }
    }
  }

  /** `a` with the entries from index `i` on replaced by `w`. */
  ghost function Overwrite(a: seq<string>, i: nat, w: seq<string>): seq<string>
    requires i + |w| <= |a|
  {
    a[..i] + w + a[i + |w|..]
  }

  lemma OverwriteNothing(a: seq<string>, i: nat)
    requires i <= |a|
    ensures Overwrite(a, i, []) == a
  {
  }

  lemma OverwriteOne(a: seq<string>, i: nat, x: string)
    requires i < |a|
    ensures a[i := x] == Overwrite(a, i, [x])
  {
  }

  lemma OverwriteTwice(a: seq<string>, i: nat, u: seq<string>, v: seq<string>)
    requires i + |u| + |v| <= |a|
    ensures Overwrite(Overwrite(a, i, u), i + |u|, v) == Overwrite(a, i, u + v)
  {
  }

  /** The array contents after writing the records of `t` from index `i` on:
      the left subtree first, then the node's record, then the right subtree. */
  ghost function Written(a: seq<string>, i: nat, t: Tree): (f: seq<string>)
    requires i + TreeSize(t) <= |a|
    ensures |f| == |a|
    decreases t
  {
    if t == Nil then a
    else
      var c := Written(a, i, t.left)[i + TreeSize(t.left) := t.data];
      Written(c, i + TreeSize(t.left) + 1, t.right)
  }

  /** Writing a tree overwrites exactly its size of entries, with its records
      in in-order order. */
  lemma {:induction false} WrittenInOrder(a: seq<string>, i: nat, t: Tree)
    requires i + TreeSize(t) <= |a|
    ensures Written(a, i, t) == Overwrite(a, i, Elements(t))
    decreases t
  {
    if t == Nil {
      OverwriteNothing(a, i);
    } else {
      var l, x, r := Elements(t.left), t.data, Elements(t.right);
      var b := Written(a, i, t.left);
      var c := b[i + |l| := x];
      WrittenInOrder(a, i, t.left);
      WrittenInOrder(c, i + |l| + 1, t.right);
      OverwriteOne(b, i + |l|, x);
      OverwriteTwice(a, i, l, [x]);
      OverwriteTwice(a, i, l + [x], r);
    }
  }

  /** Writes the records of `tree` in in-order order into `elements` from
      index `i` on, and returns the index after the last one written (`0` for
      an empty tree). */
  method TreeToArray(tree: Tree, elements: array<string>, i: nat) returns (next: nat)
    requires i + TreeSize(tree) <= elements.Length
    modifies elements
    ensures next == if tree == Nil then 0 else i + TreeSize(tree)
    ensures elements[..] == Written(old(elements[..]), i, tree)
    decreases tree
  {
    if tree == Nil {
      return 0;
    }
    if tree.left == Nil && tree.right == Nil {
      elements[i] := tree.data;
      return i + 1;
    }
    var j := i;
    if tree.left != Nil {
      j := TreeToArray(tree.left, elements, j);
    }
    elements[j] := tree.data;
    j := j + 1;
    if tree.right != Nil {
      next := TreeToArray(tree.right, elements, j);
      return;
    }
    return j;
  }

  class PersistentBST {
    /** The key-extraction collaborator, fixed at construction. */
    const keyOf: string -> string
    var versions: array<Tree>
    var currentTime: nat

    /** Time `0` is the empty tree, every time up to `currentTime` has a slot,
        and every published version is a search tree keyed by `keyOf`. */
    ghost predicate Valid()
      reads this, versions
    {
      currentTime < versions.Length && versions[0] == Nil &&
      forall t | 0 <= t <= currentTime :: IsBst(versions[t]) && KeyedBy(versions[t], keyOf)
    }

    /** The roots of all versions published so far, indexed by time. */
    ghost function History(): seq<Tree>
      reads this, versions
      requires Valid()
    {
      versions[..currentTime + 1]
    }

    ghost function Root(): Tree
      reads this, versions
      requires Valid()
    {
      versions[currentTime]
    }

    constructor (keyOf: string -> string)
      ensures Valid() && fresh(versions)
      ensures this.keyOf == keyOf && currentTime == 0 && History() == [Nil]
    {
      this.keyOf := keyOf;
      versions := new Tree[MaxSize](_ => Nil);
      currentTime := 0;
    }

    /** Appends `newRoot` as the version at `currentTime + 1`, first doubling
        the array when its last slot is in use. */
    method Publish(newRoot: Tree)
      requires Valid() && IsBst(newRoot) && KeyedBy(newRoot, keyOf)
      modifies this, versions
      ensures Valid() && (versions == old(versions) || fresh(versions))
      ensures currentTime == old(currentTime) + 1
      ensures History() == old(History()) + [newRoot]
    {
      if currentTime == versions.Length - 1 {
        versions := Doubled(versions, Nil);
      }
      assert versions[..currentTime + 1] == old(History());
      currentTime := currentTime + 1;
      versions[currentTime] := newRoot;
      assert versions[..currentTime] == old(History());
      forall t | 0 <= t <= currentTime
        ensures IsBst(versions[t]) && KeyedBy(versions[t], keyOf)
      {
        if t < currentTime {
          assert versions[t] == old(History())[t];
        }
      }
    }

    /** Publishes, as the next version, a copy of the current version's search
        path ending in a new leaf for `elem`. */
    method Insert(elem: string)
      requires Valid()
      modifies this, versions
      ensures Valid() && (versions == old(versions) || fresh(versions))
      ensures currentTime == old(currentTime) + 1
      ensures History() == old(History()) + [InsertTree(old(Root()), elem, keyOf(elem))]
    {
      var root := versions[currentTime];
      var key := keyOf(elem);
      var newRoot := InsertCopy(root, elem, key);
      InsertBst(root, elem, key);
      InsertKeyedBy(root, elem, keyOf);
      Publish(newRoot);
    }

    /** Publishes, as the next version, a copy of the path to the first node
        whose key equals `elem`'s with that node replaced; a key absent from the
        current version is an error that leaves every version and the time as
        they were. */
    method Delete(elem: string) returns (r: Outcome)
      requires Valid()
      modifies this, versions
      ensures Valid() && (versions == old(versions) || fresh(versions))
      ensures !Search(old(Root()), keyOf(elem)) ==>
        r == Fail(NotFound) && currentTime == old(currentTime) &&
        versions == old(versions) && History() == old(History())
      ensures Search(old(Root()), keyOf(elem)) ==>
        r == Pass && currentTime == old(currentTime) + 1 &&
        History() == old(History()) + [DeleteTree(old(Root()), keyOf(elem))]
    {
      var present := FindNow(elem);
      if versions[currentTime] == Nil || !present {
        return Fail(NotFound);
      }
      var root := versions[currentTime];
      var key := keyOf(elem);
      var newRoot := DeleteCopy(root, key);
      DeleteBst(root, key);
      DeleteKeyedBy(root, key, keyOf);
      Publish(newRoot);
      r := Pass;
    }

    /** `find(elem, time)`: whether the search path of the version at `time`
        meets a key equal to `elem`'s, which on a search tree is whether the
        version holds such a key at all. Changes nothing. */
    method Find(elem: string, time: nat) returns (found: bool)
      requires Valid() && time <= currentTime
      ensures found == Search(versions[time], keyOf(elem))
      ensures found <==> CountKey(InOrder(versions[time]), keyOf(elem)) > 0
    {
      var current := versions[time];
      var key := keyOf(elem);
      SearchCount(current, key);
      while current != Nil
        invariant Search(current, key) == Search(versions[time], key)
        decreases current
      {
        if EqualsIgnoreCase(key, current.key) {
          return true;
        } else if CompareIgnoreCase(key, current.key) > 0 {
          current := current.right;
        } else {
          current := current.left;
        }
      }
      return false;
    }

    method FindNow(elem: string) returns (found: bool)
      requires Valid()
      ensures found == Search(Root(), keyOf(elem))
    {
      found := Find(elem, currentTime);
    }

    /** The number of successful mutations so far: every one of them
        published one version after the initial empty one. */
    function CurrentTime(): (t: nat)
      reads this, versions
      requires Valid()
      ensures |History()| == t + 1
    {
      currentTime
    }

    /** The number of records in the version at `time`. */
    function Size(time: nat): (n: nat)
      reads this, versions
      requires Valid() && time <= currentTime
      ensures n == |Elements(versions[time])|
    {
      TreeSize(versions[time])
    }

    function SizeNow(): (n: nat)
      reads this, versions
      requires Valid()
      ensures n == |Elements(Root())|
    {
      Size(currentTime)
    }

    /** The records of the version at `time` in in-order order: as many as the
        version's size, in non-decreasing order of their keys. */
    method GetAllElements(time: nat) returns (elements: array<string>)
      requires Valid() && time <= currentTime
      ensures fresh(elements)
      ensures elements[..] == Elements(versions[time])
      ensures elements.Length == Size(time)
      ensures forall i, j :: 0 <= i < j < elements.Length ==>
        LessEq(keyOf(elements[i]), keyOf(elements[j]))
    {
      var tree := versions[time];
      var arraySize := Size(time);
      elements := new string[arraySize];
      ghost var blank := elements[..];
      var _ := TreeToArray(tree, elements, 0);
      WrittenInOrder(blank, 0, tree);
      ElementsSorted(tree, keyOf);
    }

    method GetAllElementsNow() returns (elements: array<string>)
      requires Valid()
      ensures fresh(elements)
      ensures elements[..] == Elements(Root())
    {
      elements := GetAllElements(currentTime);
    }
  }
}
