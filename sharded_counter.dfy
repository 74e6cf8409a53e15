/** 5_cache_conscious_programming.cpp: `mpcs::DistributedCounter`, a counter
    split into 128 buckets so that threads hashing to different buckets do not
    contend. Each bucket's lock only makes its own update atomic, so every
    operation is modelled as one sequential step; the thread's hash is a
    parameter. The two versions in the file (the second pads each bucket to its
    own cache line) compute the same values, so one model covers both. */
module ShardedCounter {
  import opened MachineWords

  /** `buckets`. */
  const Buckets: nat := 128

  /** The exact (unbounded) sum of the bucket counts, first bucket first. */
  function Sum(s: seq<nat>): nat {
    if s == [] then 0 else Sum(s[..|s| - 1]) + s[|s| - 1]
  }

  /** Changing one bucket changes the sum by the difference. */
  lemma {:induction false} SumUpdate(s: seq<nat>, i: nat, v: nat)
    requires i < |s|
    ensures Sum(s[i := v]) + s[i] == Sum(s) + v
  {
    var t := s[i := v];
    if i < |s| - 1 {
      assert t[..|t| - 1] == s[..|s| - 1][i := v];
      SumUpdate(s[..|s| - 1], i, v);
    } else {
      assert t[..|t| - 1] == s[..|s| - 1];
    }
  }

  lemma SumZeros(n: nat)
    ensures Sum(seq(n, _ => 0)) == 0
  {
    if n > 0 {
      assert seq(n, _ => 0)[..n - 1] == seq(n - 1, _ => 0);
      SumZeros(n - 1);
    }
  }

  /** Reducing before adding does not change a `size_t` sum. */
  lemma AddMod(a: nat, c: nat)
    ensures (a % WordModulus + c) % WordModulus == (a + c) % WordModulus
  {
  }

  class DistributedCounter {
    /** `counts`: one `size_t` count per bucket (the lock and the padding
        carry no value). */
    const counts: array<nat>
    /** How many increments have been made, by any thread. */
    ghost var Increments: nat

    /** There are always exactly 128 buckets, each a `size_t`, and together
        they hold the number of increments, modulo the word size. */
    ghost predicate Valid()
      reads this, counts
    {
      counts.Length == Buckets &&
      (forall i :: 0 <= i < counts.Length ==> counts[i] < WordModulus) &&
      Sum(counts[..]) % WordModulus == Increments % WordModulus
    }

    /** The 128 buckets, value-initialised to 0. */
    constructor ()
      ensures Valid() && fresh(counts)
      ensures counts[..] == seq(Buckets, _ => 0) && Increments == 0
    {
      counts := new nat[Buckets](_ => 0);
      Increments := 0;
      new;
      assert counts[..] == seq(Buckets, _ => 0);
      SumZeros(Buckets);
    }

    /** The bucket a thread with hash `threadHash` increments: always one of
        the 128. */
    static function BucketOf(threadHash: nat): (index: nat)
      ensures index < Buckets
      ensures (threadHash - index) % Buckets == 0
    {
      threadHash % Buckets
    }

    /** Prefix `++`: adds one (wrapping) to the caller's bucket and to nothing
        else. */
    method Increment(threadHash: nat)
      requires Valid()
      modifies this, counts
      ensures Valid() && Increments == old(Increments) + 1
      ensures var index := BucketOf(threadHash);
        counts[index] == (old(counts[index]) + 1) % WordModulus &&
        forall j :: 0 <= j < Buckets && j != index ==> counts[j] == old(counts[j])
    {
      var index := BucketOf(threadHash);
      ghost var before := counts[..];
      counts[index] := (counts[index] + 1) % WordModulus;
      Increments := Increments + 1;
      assert counts[..] == before[index := counts[index]];
      SumUpdate(before, index, counts[index]);
      if before[index] + 1 < WordModulus {
        assert Sum(counts[..]) == Sum(before) + 1;
      } else {
        assert Sum(counts[..]) + WordModulus == Sum(before) + 1;
      }
      AddMod(Sum(before), 1);
      AddMod(Increments - 1, 1);
    }

    /** Postfix `++`: the same step as prefix `++`. */
    method IncrementPostfix(threadHash: nat)
      requires Valid()
      modifies this, counts
      ensures Valid() && Increments == old(Increments) + 1
      ensures var index := BucketOf(threadHash);
        counts[index] == (old(counts[index]) + 1) % WordModulus &&
        forall j :: 0 <= j < Buckets && j != index ==> counts[j] == old(counts[j])
    {
      Increment(threadHash);
    }

    /** `get`: folds `acc + count` over the buckets from 0, in `size_t`. The
        result is the number of increments, modulo the word size. */
    method Get() returns (r: nat)
      requires Valid()
      ensures r == Sum(counts[..]) % WordModulus
      ensures r == Increments % WordModulus
    {
      r := 0;
      for i := 0 to counts.Length
        invariant r == Sum(counts[..i]) % WordModulus
      {
        assert counts[..i + 1][..i] == counts[..i];
        AddMod(Sum(counts[..i]), counts[i]);
        r := (r + counts[i]) % WordModulus;
      }
      assert counts[..counts.Length] == counts[..];
    }
  }

  /** From a fresh counter, incrementing once for each thread hash in `hashes`
      (in any buckets, alternating prefix and postfix `++`) makes `get` return
      the number of increments. */
  method CountIncrements(hashes: seq<nat>) returns (r: nat)
    requires |hashes| < WordModulus
    ensures r == |hashes|
  {
    var c := new DistributedCounter();
    for i := 0 to |hashes|
      invariant c.Valid() && c.Increments == i
    {
      if i % 2 == 0 {
        c.Increment(hashes[i]);
      } else {
        c.IncrementPostfix(hashes[i]);
      }
    }
    r := c.Get();
  }
}
