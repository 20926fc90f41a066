/**
  The fixed-capacity ring and the hash-accelerated ring on top of it.  A ring
  overwrites its oldest slot in place; its contents are described newest first.
 */
module RingBuf {
  import opened Basics

  // ----------------------------------------------------------- specification

  /** The contents after a push into a ring of the given capacity, newest first. */
  function Push<T>(capacity: nat, recent: seq<T>, x: T): seq<T> {
    if capacity == 0 then [] else [x] + (if |recent| < capacity then recent else recent[..capacity - 1])
  }

  lemma PushIs<T>(capacity: nat, recent: seq<T>, x: T)
    requires capacity > 0
    ensures var pushed := Push(capacity, recent, x);
            && |pushed| == (if |recent| < capacity then |recent| + 1 else capacity)
            && pushed[0] == x && forall i :: 0 < i < |pushed| ==> pushed[i] == recent[i - 1]
  {}

  datatype RingOp<T> = Emplace(value: T) | Clear

  /** The contents after a history of operations on an empty ring. */
  function Run<T>(capacity: nat, ops: seq<RingOp<T>>): seq<T> {
    if ops == [] then []
    else match ops[|ops| - 1]
      case Emplace(x) => Push(capacity, Run(capacity, ops[..|ops| - 1]), x)
      case Clear => []
  }

  /** What was pushed since the last clear, oldest first. */
  function SinceClear<T>(ops: seq<RingOp<T>>): seq<T> {
    if ops == [] then []
    else match ops[|ops| - 1]
      case Emplace(x) => SinceClear(ops[..|ops| - 1]) + [x]
      case Clear => []
  }

  /** After any history, element i is the i-th newest push since the last clear, and the newest ones are kept. */
  lemma {:induction false} RunIsNewest<T>(capacity: nat, ops: seq<RingOp<T>>)
    requires capacity > 0
    ensures var pushed := SinceClear(ops);
            && |Run(capacity, ops)| == Min(|pushed|, capacity)
            && forall i :: 0 <= i < |Run(capacity, ops)| ==> Run(capacity, ops)[i] == pushed[|pushed| - 1 - i]
  {
    if ops != [] {
      RunIsNewest(capacity, ops[..|ops| - 1]);
    }
  }

  /** The contents after pushing a list into an empty ring. */
  function PushAll<T>(capacity: nat, xs: seq<T>): seq<T> {
    if xs == [] then [] else Push(capacity, PushAll(capacity, xs[..|xs| - 1]), xs[|xs| - 1])
  }

  lemma PushAllStep<T>(capacity: nat, xs: seq<T>, x: T)
    ensures PushAll(capacity, xs + [x]) == Push(capacity, PushAll(capacity, xs), x)
  {
    hide Push;
    assert (xs + [x])[..|xs|] == xs;
  }

  lemma {:induction false} PushAllIsNewest<T>(capacity: nat, xs: seq<T>)
    requires capacity > 0
    ensures |PushAll(capacity, xs)| == Min(|xs|, capacity)
    ensures forall i :: 0 <= i < |PushAll(capacity, xs)| ==> PushAll(capacity, xs)[i] == xs[|xs| - 1 - i]
  {
    if xs != [] {
      PushAllIsNewest(capacity, xs[..|xs| - 1]);
    }
  }

  /** Least index whose element equals the value under the given equality, -1 if there is none. */
  function Search<T>(recent: seq<T>, same: (T, T) -> bool, value: T): (i: int)
    ensures -1 <= i < |recent|
    ensures 0 <= i ==> same(value, recent[i])
    ensures forall j :: 0 <= j < (if i == -1 then |recent| else i) ==> !same(value, recent[j])
  {
    FirstWhere(recent, x => same(value, x))
  }

  // -------------------------------------------------------------------- ring

  /** Storage that either holds a constructed object or is raw. */
  datatype Slot<T> = Raw | Live(value: T)

  /** C++ remainder: the sign follows the dividend. */
  function Remainder(a: int, b: int): int
    requires b > 0
  {
    if a >= 0 then a % b else -((-a) % b)
  }

  lemma Wraps(a: nat, b: nat)
    requires a <= b && 0 < b
    ensures a % b == if a == b then 0 else a
  {}

  class RingBuffer<T> {
    const data: array<Slot<T>>
    const mCapacity: nat
    var head: int
    var mSize: nat

    ghost predicate Valid()
      reads this, data
    {
      && data.Length == mCapacity
      && -1 <= head < mCapacity
      && mSize <= mCapacity
      && (mSize == 0 <==> head == -1)
      && (mSize < mCapacity ==> head == mSize - 1)
      && forall i :: 0 <= i < mCapacity ==> (data[i].Live? <==> i < mSize)
    }

    /** The position of the i-th newest element. */
    ghost function Position(i: int): int
      reads this
    {
      if i <= head then head - i else head - i + mCapacity
    }

    /** The elements, newest first. */
    ghost function Contents(): (s: seq<T>)
      reads this, data
      requires Valid()
      ensures |s| == mSize
    {
      seq(mSize, i requires 0 <= i < mSize && Valid() reads this, data => data[Position(i)].value)
    }

    constructor (capacity: nat)
      ensures Valid() && mCapacity == capacity && Contents() == []
      ensures fresh(data)
    {
      mCapacity := capacity;
      data := new Slot<T>[capacity](_ => Raw);
      head := -1;
      mSize := 0;
    }

    /** Objects are only constructed in raw storage. */
    method Construct(i: nat, x: T)
      requires i < data.Length && data[i].Raw?
      modifies data
      ensures data[i] == Live(x)
      ensures forall j :: 0 <= j < data.Length && j != i ==> data[j] == old(data[j])
    {
      data[i] := Live(x);
    }

    /** Objects are only destroyed where one lives. */
    method Destroy(i: nat)
      requires i < data.Length && data[i].Live?
      modifies data
      ensures data[i] == Raw
      ensures forall j :: 0 <= j < data.Length && j != i ==> data[j] == old(data[j])
    {
      data[i] := Raw;
    }

    predicate IndexIsAllocated(index: nat)
      reads this
    {
      mSize == mCapacity || index <= head
    }

    /** Undefined when the capacity is 0. */
    method Emplace(x: T) returns (entry: T)
      requires Valid() && mCapacity > 0
      modifies this, data
      ensures Valid() && entry == x
      ensures Contents() == Push(mCapacity, old(Contents()), x)
    {
      hide Push;
      ghost var before := Contents();
      PushIs(mCapacity, before, x);
      Wraps(head + 1, mCapacity);
      var slot := (head + 1) % mCapacity;
      if IndexIsAllocated(slot) {
        Destroy(slot);
      }
      Construct(slot, x);
      head := slot;
      if mSize != mCapacity {
        mSize := slot + 1;
      }
      forall i | 0 <= i < mSize
        ensures Contents()[i] == Push(mCapacity, before, x)[i]
      {
        assert 0 < i ==> Position(i) == old(Position(i - 1)) != slot;
      }
      entry := data[slot].value;
    }

    /** Assigns through the reference to the newest element. */
    method Rewrite(y: T)
      requires Valid() && mSize > 0
      modifies data
      ensures Valid() && Contents() == old(Contents())[0 := y]
    {
      data[head] := Live(y);
      assert forall i :: 0 < i < mSize ==> Position(i) != head;
    }

    /** Destroys each live slot once, starting after the head and wrapping around. */
    method Clear()
      requires Valid()
      modifies this, data
      ensures Valid() && Contents() == []
    {
      if head == -1 {
        return;
      }
      var i := head;
      var started := false;
      while !started || i != head
        invariant head == old(head) && mSize == old(mSize) && 0 <= i < mSize
        invariant !started ==> i == head
        invariant forall j :: mSize <= j < mCapacity ==> data[j].Raw?
        invariant forall j :: 0 <= j < mSize ==>
          (data[j].Raw? <==> started && (if i > head then head < j <= i else head < j || j <= i))
        decreases if !started then mSize + 1 else if i > head then mSize - i + head else head - i
      {
        Wraps(i + 1, mSize);
        i := (i + 1) % mSize;
        Destroy(i);
        started := true;
      }
      mSize := 0;
      head := -1;
    }

    /** Indexes outside the contents are undefined. */
    method At(i: nat) returns (x: T)
      requires Valid() && i < mSize
      ensures x == Contents()[i]
    {
      Wraps(if i <= head then head - i else i - head, mCapacity);
      var bufferI := Remainder(head - i, mCapacity);
      if bufferI < 0 {
        bufferI := bufferI + mCapacity;
      }
      x := data[bufferI].value;
    }
  }

  // -------------------------------------------------------------- hashed ring

  class HashBuffer<T(!new)> {
    const ring: RingBuffer<(int, T)>
    const hash: T -> int
    const same: (T, T) -> bool

    /** Equal values hash alike; nothing else is asked of the hash. */
    ghost predicate Lawful() {
      forall x, y :: same(x, y) ==> hash(x) == hash(y)
    }

    ghost predicate Valid()
      reads this, ring, ring.data
    {
      && ring.Valid() && Lawful()
      && forall i :: 0 <= i < ring.mSize ==> ring.Contents()[i].0 == hash(ring.Contents()[i].1)
    }

    ghost function Contents(): (s: seq<T>)
      reads this, ring, ring.data
      requires Valid()
      ensures |s| == ring.mSize
    {
      seq(ring.mSize, i requires 0 <= i < ring.mSize && Valid() reads this, ring, ring.data => ring.Contents()[i].1)
    }

    constructor (capacity: nat, hash: T -> int, same: (T, T) -> bool)
      requires forall x, y :: same(x, y) ==> hash(x) == hash(y)
      ensures Valid() && Contents() == [] && ring.mCapacity == capacity
      ensures this.hash == hash && this.same == same
      ensures fresh(ring) && fresh(ring.data)
    {
      ring := new RingBuffer(capacity);
      this.hash := hash;
      this.same := same;
    }

    /** Comparing hashes first never changes what a plain search finds. */
    method IndexOf(value: T) returns (index: int)
      requires Valid()
      ensures index == Search(Contents(), same, value)
    {
      var h := hash(value);
      var i := 0;
      while i < ring.mSize
        invariant 0 <= i <= ring.mSize
        invariant forall j :: 0 <= j < i ==> !same(value, Contents()[j])
      {
        var v := ring.At(i);
        assert v.1 == Contents()[i];
        if h == v.0 && same(value, v.1) {
          return i;
        }
        i := i + 1;
      }
      return -1;
    }

    /** The slot is filled first and its hash computed from the value in place. */
    method Emplace(x: T)
      requires Valid() && ring.mCapacity > 0
      modifies ring, ring.data
      ensures Valid()
      ensures Contents() == Push(ring.mCapacity, old(Contents()), x)
    {
      hide Push;
      ghost var before, pairs := Contents(), ring.Contents();
      PushIs(ring.mCapacity, before, x);
      PushIs(ring.mCapacity, pairs, (0, x));
      var entry := ring.Emplace((0, x));
      ring.Rewrite((hash(entry.1), entry.1));
      assert forall i :: 0 < i < ring.mSize ==> ring.Contents()[i] == pairs[i - 1];
      assert Contents() == Push(ring.mCapacity, before, x);
    }

    method Clear()
      requires Valid()
      modifies ring, ring.data
      ensures Valid() && Contents() == []
    {
      ring.Clear();
    }

    method At(i: nat) returns (x: T)
      requires Valid() && i < ring.mSize
      ensures x == Contents()[i]
    {
      var pair := ring.At(i);
      x := pair.1;
    }
  }
}
