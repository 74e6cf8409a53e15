/** 3_classes_members_static.cpp: two classes that count their live objects
    in a static `size_t` member, incremented by the constructor and
    decremented by the destructor. Dafny has no mutable statics, so the two
    static members live in one `ObjectCounts` object that every instance
    refers to; a destructor call is the method `Destroy`. */
module StaticMembers {
  import opened MachineWords

  /** `sizeof(CountedObject)`: the struct has no non-static member, and an
      empty struct occupies one byte. */
  const SizeOfCountedObject: nat := 1

  /** The static storage: `CountedObject::objectCount` and
      `CountedObject2::objectCount`, zero-initialised as static storage is,
      with the live objects of each class as ghost state. */
  class ObjectCounts {
    var objectCount: nat
    var objectCount2: nat
    ghost var Live: set<CountedObject>
    ghost var Live2: set<CountedObject2>

    /** Each count is the number of live objects of its class, in `size_t`. */
    ghost predicate Valid()
      reads this
    {
      objectCount == |Live| % WordModulus && objectCount2 == |Live2| % WordModulus
    }

    constructor ()
      ensures Valid() && Live == {} && Live2 == {}
      ensures objectCount == 0 && objectCount2 == 0
    {
      objectCount := 0;
      objectCount2 := 0;
      Live := {};
      Live2 := {};
    }

    /** `CountedObject2::memUsed`: the count of `CountedObject2`s times the
        size of the other class, `CountedObject`, so the number of live
        `CountedObject2`s (in `size_t`). */
    function MemUsed(): (r: nat)
      requires Valid()
      reads this
      ensures r == |Live2| % WordModulus
    {
      (objectCount2 * SizeOfCountedObject) % WordModulus
    }
  }

  class CountedObject {
    const counts: ObjectCounts

    /** `CountedObject()`: increments `objectCount`; the object is live. */
    constructor (counts: ObjectCounts)
      requires counts.Valid()
      modifies counts
      ensures this.counts == counts && counts.Valid()
      ensures counts.objectCount == (old(counts.objectCount) + 1) % WordModulus
      ensures counts.Live == old(counts.Live) + {this}
      ensures counts.objectCount2 == old(counts.objectCount2)
      ensures counts.Live2 == old(counts.Live2)
    {
      this.counts := counts;
      new;
      counts.objectCount := (counts.objectCount + 1) % WordModulus;
      counts.Live := counts.Live + {this};
    }

    /** `~CountedObject()`: decrements `objectCount`; the object is no longer
        live. */
    method Destroy()
      requires counts.Valid() && this in counts.Live
      modifies counts
      ensures counts.Valid()
      ensures counts.objectCount == (old(counts.objectCount) - 1) % WordModulus
      ensures counts.Live == old(counts.Live) - {this}
      ensures counts.objectCount2 == old(counts.objectCount2)
      ensures counts.Live2 == old(counts.Live2)
    {
      counts.objectCount := (counts.objectCount - 1) % WordModulus;
      counts.Live := counts.Live - {this};
    }
  }

  class CountedObject2 {
    const counts: ObjectCounts

    /** `CountedObject2()`: increments its own `objectCount`. */
    constructor (counts: ObjectCounts)
      requires counts.Valid()
      modifies counts
      ensures this.counts == counts && counts.Valid()
      ensures counts.objectCount2 == (old(counts.objectCount2) + 1) % WordModulus
      ensures counts.Live2 == old(counts.Live2) + {this}
      ensures counts.objectCount == old(counts.objectCount)
      ensures counts.Live == old(counts.Live)
    {
      this.counts := counts;
      new;
      counts.objectCount2 := (counts.objectCount2 + 1) % WordModulus;
      counts.Live2 := counts.Live2 + {this};
    }

    /** `~CountedObject2()`: decrements its own `objectCount`. */
    method Destroy()
      requires counts.Valid() && this in counts.Live2
      modifies counts
      ensures counts.Valid()
      ensures counts.objectCount2 == (old(counts.objectCount2) - 1) % WordModulus
      ensures counts.Live2 == old(counts.Live2) - {this}
      ensures counts.objectCount == old(counts.objectCount)
      ensures counts.Live == old(counts.Live)
    {
      counts.objectCount2 := (counts.objectCount2 - 1) % WordModulus;
      counts.Live2 := counts.Live2 - {this};
    }
  }

  /** The demonstration: with two `CountedObject`s alive the count is 2, and
      with two `CountedObject2`s alive `memUsed` is 2. When the objects go out
      of scope, in reverse order of construction, both counts return to 0. */
  method Demonstration() returns (count: nat, memUsed: nat, countAfter: nat, memUsedAfter: nat)
    ensures count == 2 && memUsed == 2
    ensures countAfter == 0 && memUsedAfter == 0
  {
    var counts := new ObjectCounts();
    var c1 := new CountedObject(counts);
    var c2 := new CountedObject(counts);
    count := counts.objectCount;
    var d1 := new CountedObject2(counts);
    var d2 := new CountedObject2(counts);
    memUsed := counts.MemUsed();
    d2.Destroy();
    d1.Destroy();
    c2.Destroy();
    c1.Destroy();
    countAfter := counts.objectCount;
    memUsedAfter := counts.MemUsed();
  }
}
