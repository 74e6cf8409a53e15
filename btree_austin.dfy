/** ex_5_btree_austin.h: a binary search tree of `int` keys whose nodes own
    their children. Each node carries, as ghost state, the set of nodes below it
    (`Repr`) and the tree value they spell (`Value`); every operation is proved
    against the functions of `SearchTree`. The `node` of ex_5_btree_orig.h has
    the same fields and is modelled by the same class. */
module BtreeAustin {
  import opened SearchTree

  class Node {
    var key: int
    var left: Node?
    var right: Node?
    ghost var Repr: set<Node>
    ghost var Value: Tree

    /** The nodes below form a tree (the two subtrees share no node and do
        not contain this one), and `Value` is the tree they spell. */
    ghost predicate Valid()
      reads this, Repr
      decreases Repr
    {
      this in Repr &&
      (left != null ==>
        left in Repr && left.Repr <= Repr && this !in left.Repr && left.Valid()) &&
      (right != null ==>
        right in Repr && right.Repr <= Repr && this !in right.Repr && right.Valid()) &&
      (left != null && right != null ==> left.Repr !! right.Repr) &&
      Value == Branch(ValueOf(left), key, ValueOf(right))
    }

    /** A new leaf holding `key`, with both children null: what `insert`
        attaches. */
    constructor Leaf(key: int)
      ensures Valid() && fresh(Repr)
      ensures this.key == key && left == null && right == null
      ensures Value == Branch(Nil, key, Nil)
    {
      this.key := key;
      left := null;
      right := null;
      Repr := {this};
      Value := Branch(Nil, key, Nil);
    }

    /** `Node(const Node&)` as written: copies the key, then stores the copy
        of `that.left` in `left` and overwrites it with the copy of
        `that.right` (or null); `right` stays null. */
    constructor CopyAsWritten(that: Node)
      requires that.Valid()
      ensures Valid() && fresh(Repr)
      ensures Value == SearchTree.CopyAsWritten(that.Value)
      decreases that.Repr
    {
      key := that.key;
      var l: Node? := null;
      if that.left != null {
        l := new Node.CopyAsWritten(that.left);
      }
      if that.right != null {
        l := new Node.CopyAsWritten(that.right);
      } else {
        l := null;
      }
      assert ValueOf(l) == SearchTree.CopyAsWritten(ValueOf(that.right));
      assert that.Value == Branch(ValueOf(that.left), that.key, ValueOf(that.right));
      left := l;
      right := null;
      Repr := {this} + (if l == null then {} else l.Repr);
      Value := Branch(ValueOf(l), that.key, Nil);
    }

    /** The copy constructor as evidently intended: a deep copy of both
        subtrees, each into its own field. */
    constructor Copy(that: Node)
      requires that.Valid()
      ensures Valid() && fresh(Repr)
      ensures Value == that.Value
      decreases that.Repr
    {
      key := that.key;
      var l: Node? := null;
      var r: Node? := null;
      if that.left != null {
        l := new Node.Copy(that.left);
      }
      if that.right != null {
        r := new Node.Copy(that.right);
      }
      left := l;
      right := r;
      Repr := {this} + (if l == null then {} else l.Repr) + (if r == null then {} else r.Repr);
      Value := that.Value;
    }

    /** The private `insert(key, leaf)`: goes left when `key` is below this
        node's key and right otherwise (the source's `key >= key_value` test
        always holds there), recursing into a present child and hanging a new
        leaf on an absent one. */
    method Insert(k: int)
      requires Valid()
      modifies Repr
      ensures Valid() && fresh(Repr - old(Repr))
      ensures Value == SearchTree.Insert(old(Value), k)
      decreases Repr
    {
      if k < key {
        if left != null {
          left.Insert(k);
        } else {
          left := new Node.Leaf(k);
        }
        Repr := Repr + left.Repr;
      } else {
        if right != null {
          right.Insert(k);
        } else {
          right := new Node.Leaf(k);
        }
        Repr := Repr + right.Repr;
      }
      Value := Branch(ValueOf(left), key, ValueOf(right));
    }

    /** The private `search(key, leaf)`: this node if it holds `key`, else the
        search of the child on `key`'s side when that child exists, else null.
        It finds what `SearchTree.Search` finds. */
    function SearchFrom(k: int): (r: Node?)
      requires Valid()
      reads Repr
      ensures r == null <==> SearchTree.Search(Value, k) == Nil
      ensures r != null ==>
        r in Repr && r.Valid() && r.key == k && r.Value == SearchTree.Search(Value, k)
      decreases Repr
    {
      if k == key then this
      else if k < key && left != null then left.SearchFrom(k)
      else if k > key && right != null then right.SearchFrom(k)
      else null
    }

    /** `Node::operator=` as written: builds a copy of `that` in a local and
        returns a reference to it; this node is not changed. */
    method AssignAsWritten(that: Node)
      requires Valid() && that.Valid()
      ensures Valid() && Value == old(Value)
    {
      if this != that {
        var copy := new Node.Copy(that);
      }
    }

    /** `Node::operator=` as evidently intended: this node takes a deep copy
        of `that`'s key and subtrees (assigning a node to itself changes
        nothing). */
    method Assign(that: Node)
      requires Valid() && that.Valid()
      modifies this
      ensures Valid() && Value == old(that.Value)
      ensures this != that ==> fresh(Repr - {this})
    {
      if this != that {
        var copy := new Node.Copy(that);
        key := copy.key;
        left := copy.left;
        right := copy.right;
        Repr := {this} + (if left == null then {} else left.Repr) +
          (if right == null then {} else right.Repr);
        Value := copy.Value;
      }
    }
  }

  /** The value of a possibly-null child. */
  ghost function ValueOf(n: Node?): Tree
    reads n
  {
    if n == null then Nil else n.Value
  }

  class Btree {
    var root: Node?
    ghost var Repr: set<Node>
    ghost var Value: Tree

    ghost predicate Valid()
      reads this, Repr
    {
      (root == null ==> Value == Nil) &&
      (root != null ==> root in Repr && root.Repr <= Repr && root.Valid() && Value == root.Value)
    }

    /** `Btree()`: no root. */
    constructor ()
      ensures Valid() && fresh(Repr) && Value == Nil && root == null
    {
      root := null;
      Repr := {};
      Value := Nil;
    }

    /** `Btree(const Btree&)` as written: copies the root (null for an empty
        tree) with `Node`'s copy constructor as written, so the copy holds only
        what that constructor keeps. */
    constructor CopyOfAsWritten(that: Btree)
      requires that.Valid()
      ensures Valid() && fresh(Repr)
      ensures Value == SearchTree.CopyAsWritten(that.Value)
    {
      if that.root != null {
        var r := new Node.CopyAsWritten(that.root);
        root := r;
        Repr := r.Repr;
        Value := r.Value;
      } else {
        root := null;
        Repr := {};
        Value := Nil;
      }
    }

    /** `Btree(const Btree&)` as evidently intended: a copy of the root (null
        for an empty tree), made with the corrected deep `Node` copy. */
    constructor CopyOf(that: Btree)
      requires that.Valid()
      ensures Valid() && fresh(Repr) && Value == that.Value
    {
      if that.root != null {
        var r := new Node.Copy(that.root);
        root := r;
        Repr := r.Repr;
      } else {
        root := null;
        Repr := {};
      }
      Value := that.Value;
    }

    /** `Btree::operator=` as written: builds a copy in a local and returns a
        reference to it; this tree is not changed. */
    method AssignAsWritten(that: Btree)
      requires Valid() && that.Valid()
      ensures Valid() && Value == old(Value)
    {
      if this != that {
        var copy := new Btree.CopyOf(that);
      }
    }

    /** `Btree::operator=` as evidently intended: this tree becomes a deep copy
        of `that` (self-assignment changes nothing). */
    method Assign(that: Btree)
      requires Valid() && that.Valid()
      modifies this
      ensures Valid() && Value == old(that.Value)
      ensures this != that ==> fresh(Repr)
    {
      if this != that {
        var copy := new Btree.CopyOf(that);
        root := copy.root;
        Repr := copy.Repr;
        Value := copy.Value;
      }
    }

    /** `insert`: a new root leaf in an empty tree, otherwise the private
        `insert` from the root. */
    method Insert(k: int)
      requires Valid()
      modifies this, Repr
      ensures Valid() && fresh(Repr - old(Repr))
      ensures Value == SearchTree.Insert(old(Value), k)
    {
      if root != null {
        root.Insert(k);
        Repr := Repr + root.Repr;
      } else {
        root := new Node.Leaf(k);
        Repr := root.Repr;
      }
      Value := root.Value;
    }

    /** `search`: null for an empty tree, otherwise the private `search` from
        the root. In an ordered tree it finds a node holding `k` exactly when
        `k` was inserted. */
    function Search(k: int): (r: Node?)
      requires Valid()
      reads this, Repr
      ensures r == null <==> SearchTree.Search(Value, k) == Nil
      ensures r != null ==> r.key == k && k in Keys(Value)
      ensures IsBst(Value) ==> (r != null <==> k in Keys(Value))
    {
      if root == null then null
      else
        SearchSound(Value, k);
        SearchComplete(Value, k);
        root.SearchFrom(k)
    }
  }

  /** `insert` keeps an ordered tree ordered and adds `k` to its keys, and
      `search` then finds `k`, whether the tree is ordered or not. */
  method InsertKeepsOrder(t: Btree, k: int) returns (found: bool)
    requires t.Valid()
    modifies t, t.Repr
    ensures t.Valid()
    ensures old(IsBst(t.Value)) ==> IsBst(t.Value)
    ensures Keys(t.Value) == old(Keys(t.Value)) + multiset{k}
    ensures found
  {
    if IsBst(t.Value) {
      InsertKeepsBst(t.Value, k);
    }
    InsertAddsOneKey(t.Value, k);
    InsertThenSearch(t.Value, k);
    t.Insert(k);
    found := t.Search(k) != null;
  }

  /** Copying a tree whose root 2 has the left child 1: as written, the copy
      no longer finds 1; as intended, it does. */
  method CopyScenario() returns (foundAsWritten: bool, foundIntended: bool)
    ensures !foundAsWritten && foundIntended
  {
    var source := new Btree();
    source.Insert(2);
    source.Insert(1);
    assert source.Value == Branch(Branch(Nil, 1, Nil), 2, Nil);
    var copy := new Btree.CopyOfAsWritten(source);
    assert copy.Value == Branch(Nil, 2, Nil);
    foundAsWritten := copy.Search(1) != null;
    var copy2 := new Btree.CopyOf(source);
    foundIntended := copy2.Search(1) != null;
  }

  /** Assigning a tree holding 5 to an empty tree: as written, the target
      still holds nothing; as intended, it then holds 5. */
  method AssignmentScenario() returns (foundAsWritten: bool, foundIntended: bool)
    ensures !foundAsWritten && foundIntended
  {
    var source := new Btree();
    source.Insert(5);
    var target := new Btree();
    target.AssignAsWritten(source);
    foundAsWritten := target.Search(5) != null;
    var target2 := new Btree();
    target2.Assign(source);
    assert target2.Value == Branch(Nil, 5, Nil);
    foundIntended := target2.Search(5) != null;
  }
}
