/** ex_5_counter_austin.cpp: wrappers that forward every call to a stored
    callable and count the calls. The callable is a Dafny function from the
    argument pack `A` to the result `R`; the reader/writer lock of
    `ThreadSafeCounter` only makes its increment atomic, so each call is one
    sequential step. `count` is an `int`, so a call that would count past
    `INT_MAX` is undefined behaviour and is excluded. */
module CallCounters {
  import opened MachineWords

  /** `Counter<F>`: counts calls while counting is switched on. */
  class Counter<A, R> {
    const myFunc: A -> R
    var shouldCount: bool
    var count: int

    /** `Counter(myFunc)`: counting is on and nothing is counted yet. */
    constructor (myFunc: A -> R)
      ensures this.myFunc == myFunc && shouldCount && count == 0
    {
      this.myFunc := myFunc;
      shouldCount := true;
      count := 0;
    }

    /** `operator()`: counts the call if counting is on, then returns what the
        callable returns for `args`, whether counting is on or not. */
    method Call(args: A) returns (r: R)
      requires shouldCount ==> count < IntMax
      modifies this
      ensures r == myFunc(args)
      ensures count == old(count) + (if old(shouldCount) then 1 else 0)
      ensures shouldCount == old(shouldCount)
    {
      if shouldCount {
        count := count + 1;
      }
      r := myFunc(args);
    }

    /** `toggleCounting`: switches counting off or on; the count stays. */
    method ToggleCounting()
      modifies this
      ensures shouldCount == !old(shouldCount) && count == old(count)
    {
      shouldCount := !shouldCount;
    }
  }

  /** Whether a fresh `Counter` counts after `toggles[i]` has (or has not)
      toggled it before the `i`-th call, for every `i`. */
  function CountingAfter(toggles: seq<bool>): bool {
    if toggles == [] then true
    else CountingAfter(toggles[..|toggles| - 1]) != toggles[|toggles| - 1]
  }

  /** How many of the calls a fresh `Counter` counts when `toggles[i]` says
      whether it is toggled just before the `i`-th call. */
  function CountedCalls(toggles: seq<bool>): nat {
    if toggles == [] then 0
    else CountedCalls(toggles[..|toggles| - 1]) + (if CountingAfter(toggles) then 1 else 0)
  }

  /** A counter counts at most one per call, and every call when it is never
      toggled. */
  lemma {:induction false} CountedCallsBound(toggles: seq<bool>)
    ensures CountedCalls(toggles) <= |toggles|
    ensures (forall i :: 0 <= i < |toggles| ==> !toggles[i]) ==>
      CountedCalls(toggles) == |toggles| && CountingAfter(toggles)
  {
    if toggles != [] {
      CountedCallsBound(toggles[..|toggles| - 1]);
    }
  }

  /** Toggling twice leaves counting as it was. */
  lemma ToggleTwiceRestores(toggles: seq<bool>)
    ensures CountingAfter(toggles + [true, true]) == CountingAfter(toggles)
  {
    assert (toggles + [true, true])[..|toggles| + 1] == toggles + [true];
    assert (toggles + [true])[..|toggles|] == toggles;
  }

  /** A fresh `Counter` over `f`, called on each of `calls` in turn, toggled
      before the `i`-th call when `toggles[i]` holds: every call returns `f` of
      its arguments, and the count is the number of calls made while
      counting was on. */
  method CountWithToggles<A, R>(f: A -> R, calls: seq<A>, toggles: seq<bool>)
    returns (results: seq<R>, count: int)
    requires |toggles| == |calls| && |calls| < IntMax
    ensures |results| == |calls|
    ensures forall i :: 0 <= i < |calls| ==> results[i] == f(calls[i])
    ensures count == CountedCalls(toggles)
  {
    var c := new Counter(f);
    results := [];
    for i := 0 to |calls|
      invariant |results| == i
      invariant forall k :: 0 <= k < i ==> results[k] == f(calls[k])
      invariant c.myFunc == f
      invariant c.count == CountedCalls(toggles[..i])
      invariant c.shouldCount == CountingAfter(toggles[..i])
    {
      if toggles[i] {
        c.ToggleCounting();
      }
      assert toggles[..i + 1][..i] == toggles[..i];
      CountedCallsBound(toggles[..i]);
      var r := c.Call(calls[i]);
      results := results + [r];
    }
    assert toggles[..|calls|] == toggles;
    count := c.count;
  }

  /** `ThreadSafeCounter<F>`: counts every call. */
  class ThreadSafeCounter<A, R> {
    const myFunc: A -> R
    var count: int

    /** `ThreadSafeCounter(myFunc)`: nothing is counted yet. */
    constructor (myFunc: A -> R)
      ensures this.myFunc == myFunc && count == 0
    {
      this.myFunc := myFunc;
      count := 0;
    }

    /** `operator()`: counts the call, then returns what the callable returns
        for `args`. */
    method Call(args: A) returns (r: R)
      requires count < IntMax
      modifies this
      ensures r == myFunc(args) && count == old(count) + 1
    {
      count := count + 1;
      r := myFunc(args);
    }

    /** `getCount`: the number of calls so far; nothing changes. */
    method GetCount() returns (r: int)
      ensures r == count
    {
      r := count;
    }
  }

  /** A fresh `ThreadSafeCounter` over `f`, called on each of `calls`:
      `getCount` reports every call, and each call returns `f` of its
      arguments. */
  method CountEveryCall<A, R>(f: A -> R, calls: seq<A>) returns (results: seq<R>, count: int)
    requires |calls| <= IntMax
    ensures |results| == |calls| && count == |calls|
    ensures forall i :: 0 <= i < |calls| ==> results[i] == f(calls[i])
  {
    var c := new ThreadSafeCounter(f);
    results := [];
    for i := 0 to |calls|
      invariant |results| == i && c.count == i && c.myFunc == f
      invariant forall k :: 0 <= k < i ==> results[k] == f(calls[k])
    {
      var r := c.Call(calls[i]);
      results := results + [r];
    }
    count := c.GetCount();
  }
}
