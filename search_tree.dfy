/** The binary search tree of ex_5_btree_austin.h and ex_5_btree_orig.h as a
    value: the abstraction the heap nodes of both files are proved against. */
module SearchTree {

  datatype Tree = Nil | Branch(left: Tree, key: int, right: Tree)

  function Keys(t: Tree): multiset<int> {
    match t
    case Nil => multiset{}
    case Branch(l, k, r) => Keys(l) + multiset{k} + Keys(r)
  }

  function Size(t: Tree): nat {
    match t
    case Nil => 0
    case Branch(l, _, r) => Size(l) + 1 + Size(r)
  }

  /** The ordering both files keep: keys smaller than a node's key sit to its
      left, keys greater than or equal to it (duplicates included) to its
      right. */
  ghost predicate IsBst(t: Tree) {
    match t
    case Nil => true
    case Branch(l, k, r) =>
      (forall x :: x in Keys(l) ==> x < k) &&
      (forall x :: x in Keys(r) ==> k <= x) &&
      IsBst(l) && IsBst(r)
  }

  /** `insert`: descends left when `key` is below the node's key and right
      otherwise, and hangs a new leaf on the first empty child. */
  function Insert(t: Tree, key: int): (r: Tree)
    ensures r != Nil
    ensures t == Nil ==> r == Branch(Nil, key, Nil)
    ensures t != Nil ==> r.key == t.key
  {
    match t
    case Nil => Branch(Nil, key, Nil)
    case Branch(l, k, rt) =>
      if key < k then Branch(Insert(l, key), k, rt) else Branch(l, k, Insert(rt, key))
  }

  /** An insertion adds exactly one node, holding `key`: the keys gain one
      copy of `key` and nothing else. */
  lemma {:induction false} InsertAddsOneKey(t: Tree, key: int)
    ensures Keys(Insert(t, key)) == Keys(t) + multiset{key}
    ensures Size(Insert(t, key)) == Size(t) + 1
  {
    match t
    case Nil =>
    case Branch(l, k, rt) =>
      if key < k {
        InsertAddsOneKey(l, key);
        assert Insert(t, key) == Branch(Insert(l, key), k, rt);
      } else {
        InsertAddsOneKey(rt, key);
        assert Insert(t, key) == Branch(l, k, Insert(rt, key));
      }
  }

  /** `insert` keeps the ordering. */
  lemma {:induction false} InsertKeepsBst(t: Tree, key: int)
    requires IsBst(t)
    ensures IsBst(Insert(t, key))
  {
    match t
    case Nil =>
    case Branch(l, k, rt) =>
      if key < k {
        InsertKeepsBst(l, key);
        InsertAddsOneKey(l, key);
        var nl := Insert(l, key);
        forall x | x in Keys(nl)
          ensures x < k
        {
          assert x in Keys(l) || x == key;
        }
        assert Insert(t, key) == Branch(nl, k, rt);
      } else {
        InsertKeepsBst(rt, key);
        InsertAddsOneKey(rt, key);
        var nr := Insert(rt, key);
        forall x | x in Keys(nr)
          ensures k <= x
        {
          assert x in Keys(rt) || x == key;
        }
        assert Insert(t, key) == Branch(l, k, nr);
      }
  }

  /** `search`: the subtree whose root is the first node on the search path
      holding `key`, or `Nil` when the path runs out. */
  function Search(t: Tree, key: int): (r: Tree)
    ensures r == Nil || r.key == key
  {
    match t
    case Nil => Nil
    case Branch(l, k, rt) =>
      if key == k then t else if key < k then Search(l, key) else Search(rt, key)
  }

  /** A node `search` finds holds a key of the tree. */
  lemma {:induction false} SearchSound(t: Tree, key: int)
    ensures Search(t, key) != Nil ==> key in Keys(t)
  {
    match t
    case Nil =>
    case Branch(l, k, rt) =>
      if key < k {
        SearchSound(l, key);
      } else if key > k {
        SearchSound(rt, key);
      }
  }

  /** In an ordered tree the search path reaches every key the tree holds, so
      `search` finds `key` exactly when it is in the tree. */
  lemma {:induction false} SearchComplete(t: Tree, key: int)
    ensures IsBst(t) ==> (Search(t, key) != Nil <==> key in Keys(t))
  {
    match t
    case Nil =>
    case Branch(l, k, rt) =>
      if key < k {
        SearchComplete(l, key);
      } else if key > k {
        SearchComplete(rt, key);
      }
  }

  /** After `insert(key)`, `search(key)` finds a node, in every tree, ordered
      or not: both descend by the same comparisons, so the search follows the
      path to the new leaf, or stops at an equal key on the way. */
  lemma {:induction false} InsertThenSearch(t: Tree, key: int)
    ensures Search(Insert(t, key), key) != Nil
  {
    match t
    case Nil =>
    case Branch(l, k, rt) =>
      if key < k {
        InsertThenSearch(l, key);
      } else if key > k {
        InsertThenSearch(rt, key);
      }
  }

  /** The keys in the order `destroy_tree` deletes their nodes: both children
      first, then the node itself. */
  function PostOrder(t: Tree): seq<int> {
    match t
    case Nil => []
    case Branch(l, k, r) => PostOrder(l) + PostOrder(r) + [k]
  }

  /** The post-order visits every node exactly once. */
  lemma {:induction false} PostOrderVisitsEachNode(t: Tree)
    ensures |PostOrder(t)| == Size(t)
    ensures multiset(PostOrder(t)) == Keys(t)
  {
    match t
    case Nil =>
    case Branch(l, k, r) =>
      PostOrderVisitsEachNode(l);
      PostOrderVisitsEachNode(r);
  }

  /** What `Node`'s copy constructor in ex_5_btree_austin.h builds: the key,
      then a copy of the left child in `left`, which the copy of the right
      child (or null) then overwrites; `right` is left null. Only the keys on
      the right spine survive. */
  function CopyAsWritten(t: Tree): (r: Tree)
    ensures r == Nil <==> t == Nil
    ensures r != Nil ==> r.key == t.key && r.right == Nil
  {
    match t
    case Nil => Nil
    case Branch(_, k, rt) => Branch(CopyAsWritten(rt), k, Nil)
  }

  /** The copy never holds a key the original does not. */
  lemma {:induction false} CopyAsWrittenKeepsOnlyKeys(t: Tree)
    ensures Keys(CopyAsWritten(t)) <= Keys(t)
  {
    match t
    case Nil =>
    case Branch(_, k, rt) => CopyAsWrittenKeepsOnlyKeys(rt);
  }

  /** A copy of a root with only a left child loses that child. */
  lemma CopyAsWrittenLosesLeftChild()
    ensures var t := Branch(Branch(Nil, 1, Nil), 2, Nil);
      IsBst(t) && Keys(CopyAsWritten(t)) == multiset{2} && CopyAsWritten(t) != t
  {
    var t := Branch(Branch(Nil, 1, Nil), 2, Nil);
    assert 1 in Keys(t.left);
    assert Keys(CopyAsWritten(t)) == multiset{2};
  }

  /** A copy of a root with only a right child moves that child to the left,
      where its larger key breaks the ordering. */
  lemma CopyAsWrittenBreaksOrdering()
    ensures var t := Branch(Nil, 1, Branch(Nil, 2, Nil));
      IsBst(t) && !IsBst(CopyAsWritten(t))
  {
    var c := CopyAsWritten(Branch(Nil, 1, Branch(Nil, 2, Nil)));
    assert c == Branch(Branch(Nil, 2, Nil), 1, Nil);
    assert 2 in Keys(c.left);
  }
}
