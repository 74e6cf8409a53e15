/** 5_locks.cpp: a coarse-grained shared list and a single-count
    `mpcs::DistributedCounter`. Each operation holds its lock for its whole
    body, so each is one sequential step; the locks carry no value. */
module CoarseLocks {
  import opened MachineWords

  /** The file's globals `some_list` and `list1`. */
  class SharedLists {
    var someList: seq<int>
    var list1: seq<int>

    constructor ()
      ensures someList == [] && list1 == []
    {
      someList := [];
      list1 := [];
    }

    /** `add_to_list` (both the `mutex` and the `shared_mutex` version): appends
        `newValue` to `some_list`. The reader/writer version locks the mutex
        declared beside `list1`, but it too appends to `some_list`, so `list1`
        is never changed. */
    method AddToList(newValue: int)
      modifies this
      ensures someList == old(someList) + [newValue]
      ensures list1 == old(list1)
    {
      someList := someList + [newValue];
    }

    /** `list_contains` (both versions): `std::find` scans `some_list` from the
        front; the value is there exactly when the scan stops before the end. */
    method ListContains(valueToFind: int) returns (found: bool)
      ensures found <==> valueToFind in someList
    {
      var i := 0;
      while i < |someList| && someList[i] != valueToFind
        invariant 0 <= i <= |someList|
        invariant forall j :: 0 <= j < i ==> someList[j] != valueToFind
        decreases |someList| - i
      {
        i := i + 1;
      }
      found := i != |someList|;
    }
  }

  /** Appending a value and then looking for it finds it, whatever the list held
      before. */
  method AddThenContains(before: seq<int>, v: int) returns (found: bool)
    ensures found
  {
    var lists := new SharedLists();
    for i := 0 to |before|
      invariant lists.someList == before[..i]
    {
      lists.AddToList(before[i]);
      assert before[..i + 1] == before[..i] + [before[i]];
    }
    lists.AddToList(v);
    found := lists.ListContains(v);
  }

  /** `mpcs::DistributedCounter` of this file: one `long long` count behind a
      reader/writer lock. Incrementing past the largest `long long` is
      undefined behaviour, so the increments require room for one more. */
  class LockedCounter {
    var count: int

    /** `DistributedCounter()`: the count starts at 0. */
    constructor ()
      ensures count == 0
    {
      count := 0;
    }

    /** Prefix `++`. */
    method Increment()
      requires count < LongLongMax
      modifies this
      ensures count == old(count) + 1
    {
      count := count + 1;
    }

    /** Postfix `++`: the same effect as prefix `++`. */
    method IncrementPostfix()
      requires count < LongLongMax
      modifies this
      ensures count == old(count) + 1
    {
      count := count + 1;
    }

    /** `get`: the current count; the object is not changed. */
    method Get() returns (r: int)
      ensures r == count
    {
      r := count;
    }
  }

  /** A fresh counter read after `n` increments, in any mix of prefix and
      postfix, gives `n`; read before any, it gives 0. */
  method CountTo(n: nat, postfix: seq<bool>) returns (initial: int, r: int)
    requires n <= LongLongMax && |postfix| == n
    ensures initial == 0 && r == n
  {
    var c := new LockedCounter();
    initial := c.Get();
    for i := 0 to n
      invariant c.count == i
    {
      if postfix[i] {
        c.IncrementPostfix();
      } else {
        c.Increment();
      }
    }
    r := c.Get();
  }
}
