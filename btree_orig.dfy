/** ex_5_btree_orig.h: the same binary search tree with raw `node` pointers,
    an explicit `destroy_tree`, and a `search` that recurses on null. Its
    `node` has the fields of `BtreeAustin.Node`, which models it. Deleting a
    node is modelled by recording it: `destroy_tree` returns the nodes in the
    order it deletes them. */
module BtreeOrig {
  import opened SearchTree
  import opened BtreeAustin

  /** The private `search(key, leaf)`: null for a null `leaf`, `leaf` when it
      holds `key`, otherwise the search of the child on `key`'s side. */
  function SearchFromNullable(k: int, leaf: Node?): (r: Node?)
    requires leaf != null ==> leaf.Valid()
    reads if leaf == null then {} else leaf.Repr
    ensures r == null <==> SearchTree.Search(ValueOf(leaf), k) == Nil
    ensures r != null ==> r.key == k
    decreases if leaf == null then {} else leaf.Repr
  {
    if leaf == null then null
    else if k == leaf.key then leaf
    else if k < leaf.key then SearchFromNullable(k, leaf.left)
    else SearchFromNullable(k, leaf.right)
  }

  /** This file's `search`, which recurses into null children, finds the same
      node as the one of ex_5_btree_austin.h, which checks for them first. */
  lemma {:induction false} SearchesAgree(k: int, leaf: Node)
    requires leaf.Valid()
    ensures SearchFromNullable(k, leaf) == leaf.SearchFrom(k)
    decreases leaf.Repr
  {
    if k < leaf.key && leaf.left != null {
      SearchesAgree(k, leaf.left);
    } else if k > leaf.key && leaf.right != null {
      SearchesAgree(k, leaf.right);
    }
  }

  /** The nodes below a possibly-null node. */
  ghost function ReprOf(n: Node?): set<Node>
    reads n
  {
    if n == null then {} else n.Repr
  }

  /** No node occurs twice in `ns`. */
  ghost predicate Distinct(ns: seq<Node>) {
    forall i, j :: 0 <= i < j < |ns| ==> ns[i] != ns[j]
  }

  /** The nodes of `ns` hold the keys `ks`, in order. */
  ghost predicate HoldKeys(ns: seq<Node>, ks: seq<int>)
    reads set i | 0 <= i < |ns| :: ns[i]
  {
    |ns| == |ks| && forall i :: 0 <= i < |ns| ==> ns[i].key == ks[i]
  }

  /** Deleting two disjoint groups of nodes and then one more node outside
      both deletes each node once, in that order. */
  lemma ConcatDeletions(a: seq<Node>, b: seq<Node>, last: Node, ka: seq<int>, kb: seq<int>,
                        sa: set<Node>, sb: set<Node>)
    requires Distinct(a) && Distinct(b) && HoldKeys(a, ka) && HoldKeys(b, kb)
    requires (forall i :: 0 <= i < |a| ==> a[i] in sa) && (forall i :: 0 <= i < |b| ==> b[i] in sb)
    requires sa !! sb && last !in sa && last !in sb
    ensures Distinct(a + b + [last])
    ensures HoldKeys(a + b + [last], ka + kb + [last.key])
    ensures forall i :: 0 <= i < |a + b + [last]| ==> (a + b + [last])[i] in sa + sb + {last}
  {
    var d := a + b + [last];
    forall i, j | 0 <= i < j < |d|
      ensures d[i] != d[j]
    {
      if j < |a| {
      } else if j < |a| + |b| {
        if i >= |a| {
          assert d[i] == b[i - |a|] && d[j] == b[j - |a|];
        } else {
          assert d[i] in sa && d[j] == b[j - |a|];
        }
      } else {
        assert d[j] == last;
        if i < |a| { assert d[i] in sa; } else { assert d[i] == b[i - |a|]; }
      }
    }
  }

  /** The private `destroy_tree(leaf)`: nothing for a null `leaf`; otherwise
      the left subtree, then the right subtree, then `leaf` itself. Every node
      below `leaf` is deleted exactly once, children before their parent. */
  method DestroyFrom(leaf: Node?) returns (deleted: seq<Node>)
    requires leaf != null ==> leaf.Valid()
    ensures Distinct(deleted)
    ensures HoldKeys(deleted, PostOrder(ValueOf(leaf)))
    ensures forall i :: 0 <= i < |deleted| ==> deleted[i] in ReprOf(leaf)
    ensures leaf != null ==> |deleted| >= 1 && deleted[|deleted| - 1] == leaf
    decreases ReprOf(leaf)
  {
    if leaf == null {
      return [];
    }
    var fromLeft := DestroyFrom(leaf.left);
    var fromRight := DestroyFrom(leaf.right);
    deleted := fromLeft + fromRight + [leaf];
    ConcatDeletions(fromLeft, fromRight, leaf,
      PostOrder(ValueOf(leaf.left)), PostOrder(ValueOf(leaf.right)),
      ReprOf(leaf.left), ReprOf(leaf.right));
  }

  class OrigTree {
    var root: Node?
    ghost var Repr: set<Node>
    ghost var Value: Tree
    /** Whether `destroy_tree` has deleted the nodes: `root` then points at
        freed memory, so no operation may follow, not even a second
        `destroy_tree`. */
    ghost var Destroyed: bool

    ghost predicate Valid()
      reads this, Repr
    {
      (root == null ==> Value == Nil) &&
      (root != null ==> root in Repr && root.Repr <= Repr && root.Valid() && Value == root.Value)
    }

    /** `btree()`: `root` is null. */
    constructor ()
      ensures Valid() && fresh(Repr) && Value == Nil && root == null && !Destroyed
    {
      root := null;
      Repr := {};
      Value := Nil;
      Destroyed := false;
    }

    /** `insert`: a new root leaf with null children in an empty tree,
        otherwise the private `insert` from the root. */
    method Insert(k: int)
      requires Valid() && !Destroyed
      modifies this, Repr
      ensures Valid() && fresh(Repr - old(Repr)) && !Destroyed
      ensures Value == SearchTree.Insert(old(Value), k)
    {
      if root != null {
        root.Insert(k);
        Repr := Repr + root.Repr;
      } else {
        root := new Node.Leaf(k);
        Repr := root.Repr;
      }
      Value := root.Value;
    }

    /** `search`: the private `search` from `root`, which may be null. In an
        ordered tree it finds a node exactly when `k` was inserted. */
    function Search(k: int): (r: Node?)
      requires Valid() && !Destroyed
      reads this, Repr
      ensures r == null <==> SearchTree.Search(Value, k) == Nil
      ensures r != null ==> r.key == k && k in Keys(Value)
      ensures IsBst(Value) ==> (r != null <==> k in Keys(Value))
    {
      SearchSound(Value, k);
      SearchComplete(Value, k);
      SearchFromNullable(k, root)
    }

    /** The public `destroy_tree`, which the destructor calls: deletes every
        node from `root` down, in post-order, but leaves `root` pointing at the
        deleted root, so the tree is destroyed and must not be used
        afterwards. */
    method DestroyTree() returns (deleted: seq<Node>)
      requires Valid() && !Destroyed
      modifies this
      ensures Destroyed
      ensures root == old(root) && Repr == old(Repr) && Value == old(Value)
      ensures |deleted| == Size(Value)
      ensures Distinct(deleted) && HoldKeys(deleted, PostOrder(Value))
      ensures multiset(PostOrder(Value)) == Keys(Value)
      ensures root != null ==> root in deleted
      ensures forall n :: n in deleted ==> n in Repr
    {
      deleted := DestroyFrom(root);
      PostOrderVisitsEachNode(Value);
      Destroyed := true;
    }
  }

  /** A new tree after inserting `keys` in turn: ordered, one node per key. */
  method BuildTree(keys: seq<int>) returns (t: OrigTree)
    ensures fresh(t) && t.Valid() && fresh(t.Repr) && !t.Destroyed
    ensures IsBst(t.Value) && Size(t.Value) == |keys|
  {
    t := new OrigTree();
    for i := 0 to |keys|
      invariant t.Valid() && fresh(t.Repr) && !t.Destroyed && IsBst(t.Value) && Size(t.Value) == i
    {
      InsertKeepsBst(t.Value, keys[i]);
      InsertAddsOneKey(t.Value, keys[i]);
      t.Insert(keys[i]);
    }
  }

  /** Inserting `k` into a tree built from `keys` and searching for it finds
      it; destroying the tree then deletes one node per key inserted, each a node
      of the tree. */
  method InsertSearchDestroy(keys: seq<int>, k: int) returns (found: bool, deletedCount: nat)
    ensures found && deletedCount == |keys| + 1
  {
    var t := BuildTree(keys);
    InsertThenSearch(t.Value, k);
    InsertAddsOneKey(t.Value, k);
    InsertKeepsBst(t.Value, k);
    t.Insert(k);
    found := t.Search(k) != null;
    var deleted := t.DestroyTree();
    deletedCount := |deleted|;
  }
}
