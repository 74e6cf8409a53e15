/** The `Accumulator` functor, defined identically in 3_classes_functors.cpp
    and 4_callables_functors.cpp: a callable object that keeps a running
    total. Its fields and result are 32-bit `int`s, so a call whose total
    overflows is undefined behaviour and is excluded. */
module Functors {
  import opened MachineWords

  class Accumulator {
    var i: int

    /** The total starts at 0. */
    constructor ()
      ensures i == 0
    {
      i := 0;
    }

    /** `operator()(j)`: adds `j` to the total and returns the new total. */
    method Call(j: int) returns (r: int)
      requires InInt(i + j)
      modifies this
      ensures i == old(i) + j && r == i
    {
      i := i + j;
      r := i;
    }
  }

  /** The sum of `js`, first element first. */
  function Sum(js: seq<int>): int {
    if js == [] then 0 else Sum(js[..|js| - 1]) + js[|js| - 1]
  }

  /** A fresh accumulator called with each of `js` in turn returns, at the
      `k`-th call, the sum of the first `k + 1` arguments, and ends holding
      the sum of them all. Every running total must fit in an `int`. */
  method RunningTotals(js: seq<int>) returns (totals: seq<int>, total: int)
    requires forall k :: 0 <= k <= |js| ==> InInt(Sum(js[..k]))
    ensures |totals| == |js|
    ensures forall k :: 0 <= k < |js| ==> totals[k] == Sum(js[..k + 1])
    ensures total == Sum(js)
  {
    var acc := new Accumulator();
    totals := [];
    for n := 0 to |js|
      invariant |totals| == n && acc.i == Sum(js[..n])
      invariant forall k :: 0 <= k < n ==> totals[k] == Sum(js[..k + 1])
    {
      assert js[..n + 1][..n] == js[..n];
      var r := acc.Call(js[n]);
      totals := totals + [r];
    }
    assert js[..|js|] == js;
    total := acc.i;
  }

  /** The documented trace: calling a fresh accumulator with 1, 2 and 4
      returns 1, 3 and 7. */
  method DocumentedTrace() returns (first: int, second: int, third: int)
    ensures first == 1 && second == 3 && third == 7
  {
    var acc := new Accumulator();
    first := acc.Call(1);
    second := acc.Call(2);
    third := acc.Call(4);
  }
}
