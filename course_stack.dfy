/** ex_6_LockFreeStack_austin.h: `CourseStack`, a LIFO stack of singly linked,
    singly owned nodes behind one reader/writer lock. Every public operation
    runs under that lock (or, for `isEmpty` and `size`, reads without one), so
    each is modelled as one atomic step on the object. */
module CourseStackModel {

  /** `Node<T>`: a payload and the node it owns next. A node is never changed
      after it is built, so its fields are constants; `Contents` (the payloads
      from this node to the end of the chain) and `Repr` (the nodes of the
      chain) are its abstract view. */
  class Node<T> {
    const payload: T
    const next: Node?<T>
    ghost const Contents: seq<T>
    ghost const Repr: set<object>

    /** The chain from this node is finite and acyclic (every successor's
        footprint is strictly smaller), and `Contents` lists its payloads. */
    ghost predicate Valid()
      decreases Repr
    {
      this in Repr &&
      (next == null ==> Contents == [payload]) &&
      (next != null ==>
        next in Repr && next.Repr <= Repr && this !in next.Repr &&
        Contents == [payload] + next.Contents &&
        next.Valid())
    }

    /** `Node(payload)`: a node with no successor. */
    constructor Leaf(payload: T)
      ensures Valid()
      ensures this.payload == payload && next == null
      ensures Contents == [payload]
    {
      this.payload := payload;
      this.next := null;
      Contents := [payload];
      Repr := {this};
    }

    /** `Node(payload, next)`: a node that takes `next` over as its
        successor. */
    constructor Link(payload: T, next: Node?<T>)
      requires next != null ==> next.Valid()
      ensures Valid()
      ensures this.payload == payload && this.next == next
      ensures Contents == [payload] + (if next == null then [] else next.Contents)
    {
      this.payload := payload;
      this.next := next;
      if next == null {
        Contents := [payload];
        Repr := {this};
      } else {
        Contents := [payload] + next.Contents;
        Repr := {this} + next.Repr;
      }
    }
  }

  /** The payloads of a chain, top first. */
  ghost function ChainContents<T>(n: Node?<T>): seq<T> {
    if n == null then [] else n.Contents
  }

  class CourseStack<T> {
    var head: Node?<T>
    /** The `count` member: initialised to 0 and never written (`size` counts
        with a local of the same name). */
    var count: int
    /** The value `std::make_unique<T>()` produces: a value-initialised `T`,
        which `pop` and `top` hand out when the stack is empty. */
    const dflt: T
    ghost var Contents: seq<T>

    ghost predicate Valid()
      reads this
    {
      (head != null ==> head.Valid()) &&
      Contents == ChainContents(head) &&
      count == 0
    }

    /** `CourseStack()`: an empty stack. */
    constructor (dflt: T)
      ensures Valid() && Contents == [] && head == null
      ensures this.dflt == dflt
    {
      head := null;
      count := 0;
      this.dflt := dflt;
      Contents := [];
    }

    /** `CourseStack(node)`: a stack that takes over an existing chain. */
    constructor FromChain(dflt: T, node: Node?<T>)
      requires node != null ==> node.Valid()
      ensures Valid() && head == node && Contents == ChainContents(node)
      ensures this.dflt == dflt
    {
      head := node;
      count := 0;
      this.dflt := dflt;
      Contents := ChainContents(node);
    }

    /** `push`: a new head holding `x` whose successors are exactly the
        previous contents. */
    method Push(x: T)
      requires Valid()
      modifies this
      ensures Valid()
      ensures Contents == [x] + old(Contents)
      ensures head != null && head.payload == x && head.next == old(head)
    {
      if head == null {
        head := new Node.Leaf(x);
      } else {
        var newHead := new Node.Link(x, head);
        head := newHead;
      }
      Contents := [x] + Contents;
    }

    /** `pop`: on a non-empty stack, the top payload, the stack dropping to its
        tail; on an empty stack, a default `T`, the stack staying empty. */
    method Pop() returns (r: T)
      requires Valid()
      modifies this
      ensures Valid()
      ensures old(Contents) == [] ==> r == dflt && Contents == []
      ensures old(Contents) != [] ==> r == old(Contents)[0] && Contents == old(Contents)[1..]
    {
      if head == null {
        return dflt;
      }
      r := head.payload;
      if head.next == null {
        head := null;
      } else {
        head := head.next;
      }
      Contents := Contents[1..];
    }

    /** `top`: a copy of the top payload, or a default `T` when empty. */
    method Top() returns (r: T)
      requires Valid()
      ensures r == if Contents == [] then dflt else Contents[0]
    {
      var empty := IsEmpty();
      if empty {
        return dflt;
      }
      r := head.payload;
    }

    /** `isEmpty`: whether `head` is null, which is whether the stack holds
        nothing. */
    method IsEmpty() returns (b: bool)
      requires Valid()
      ensures b <==> head == null
      ensures b <==> Contents == []
    {
      b := head == null;
    }

    /** `size`: walks the chain from `head`, counting nodes. */
    method Size() returns (n: int)
      requires Valid()
      ensures n == |Contents|
      ensures n == 0 <==> head == null
    {
      n := 0;
      if head != null {
        var curr: Node<T> := head;
        while true
          invariant curr.Valid()
          invariant n + |curr.Contents| == |Contents|
          decreases |curr.Contents|
        {
          n := n + 1;
          if curr.next != null {
            curr := curr.next;
          } else {
            break;
          }
        }
      }
    }
  }

  /** `push` then `pop` on any stack gives back the pushed value and restores
      the previous contents. */
  method PushThenPop<T>(s: CourseStack<T>, x: T) returns (r: T)
    requires s.Valid()
    modifies s
    ensures s.Valid() && r == x && s.Contents == old(s.Contents)
  {
    s.Push(x);
    r := s.Pop();
  }

  /** Pushing 1, 2, 3 and popping three times gives 3, 2, 1 and leaves the
      stack empty. */
  method PushThreePopThree() returns (a: int, b: int, c: int, emptyAfter: bool)
    ensures a == 3 && b == 2 && c == 1 && emptyAfter
  {
    var s := new CourseStack<int>(0);
    s.Push(1);
    s.Push(2);
    s.Push(3);
    a := s.Pop();
    b := s.Pop();
    c := s.Pop();
    emptyAfter := s.IsEmpty();
  }

  /** On a fresh stack, `pop` and `top` give the default value, `isEmpty` holds
      and `size` is 0. */
  method EmptyStackBehaviour<T>(dflt: T) returns (popped: T, topped: T, empty: bool, size: int)
    ensures popped == dflt && topped == dflt && empty && size == 0
  {
    var s := new CourseStack<T>(dflt);
    popped := s.Pop();
    topped := s.Top();
    empty := s.IsEmpty();
    size := s.Size();
  }

  /** `xs` last element first. */
  function Reverse<T>(xs: seq<T>): seq<T> {
    if xs == [] then [] else [xs[|xs| - 1]] + Reverse(xs[..|xs| - 1])
  }

  /** Pushing every value of `xs` and then popping until the stack is empty
      gives `xs` back in reverse: nothing is lost, duplicated or reordered
      other than by LIFO. */
  method PushAllThenDrain<T>(dflt: T, xs: seq<T>) returns (popped: seq<T>)
    ensures popped == Reverse(xs)
    ensures multiset(popped) == multiset(xs)
  {
    var s := new CourseStack<T>(dflt);
    for i := 0 to |xs|
      invariant s.Valid()
      invariant s.Contents == Reverse(xs[..i])
    {
      s.Push(xs[i]);
      assert xs[..i + 1][..i] == xs[..i];
    }
    assert xs[..|xs|] == xs;
    popped := [];
    var empty := s.IsEmpty();
    while !empty
      invariant s.Valid()
      invariant empty <==> s.Contents == []
      invariant popped + s.Contents == Reverse(xs)
      decreases |s.Contents|
    {
      var x := s.Pop();
      popped := popped + [x];
      empty := s.IsEmpty();
    }
    ReverseMultiset(xs);
  }

  lemma {:induction false} ReverseMultiset<T>(xs: seq<T>)
    ensures multiset(Reverse(xs)) == multiset(xs)
  {
    if xs != [] {
      ReverseMultiset(xs[..|xs| - 1]);
      assert xs == xs[..|xs| - 1] + [xs[|xs| - 1]];
    }
  }
}
