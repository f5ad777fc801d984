/** Iterating over a device vector through a host buffer, against direct iteration. */
module DeviceIterator {
  import opened Wrappers

  /** One `cudaMemcpy` from the device: the first element and the number of elements. */
  datatype Copy = Copy(start: nat, length: nat)

  /** The elements copied so far: copies follow each other without gap or overlap. */
  ghost predicate Chained(copies: seq<Copy>, from: nat, to: nat) {
    if copies == [] then from == to
    else
      var last := copies[|copies| - 1];
      last.start + last.length == to && Chained(copies[..|copies| - 1], from, last.start)
  }

  ghost function TimesCopied(copies: seq<Copy>, i: nat): nat {
    if copies == [] then 0
    else
      var last := copies[|copies| - 1];
      TimesCopied(copies[..|copies| - 1], i) + if last.start <= i < last.start + last.length then 1 else 0
  }

  /** Chained copies copy each element of their range once and no other. */
  lemma {:induction false} ChainedCopiesOnce(copies: seq<Copy>, from: nat, to: nat, i: nat)
    requires Chained(copies, from, to)
    ensures from <= to
    ensures TimesCopied(copies, i) == if from <= i < to then 1 else 0
  {
    if copies != [] {
      var last := copies[|copies| - 1];
      ChainedCopiesOnce(copies[..|copies| - 1], from, last.start, i);
    }
  }

  function Min(a: nat, b: nat): nat { if a < b then a else b }

  /** `_host_accessible_iterator`. */
  class HostIterator<T> {
    const device: seq<T>
    var item: nat
    var count: nat

    ghost predicate Valid()
      reads this
    {
      item == count <= |device|
    }

    constructor (device: seq<T>)
      ensures Valid() && this.device == device && count == 0
    {
      this.device, item, count := device, 0, 0;
    }

    method Next() returns (r: Option<(nat, T)>)
      requires Valid()
      modifies this
      ensures Valid()
      ensures r == if old(count) < |device| then Some((old(count), device[old(count)])) else None
      ensures count == if old(count) < |device| then old(count) + 1 else old(count)
    {
      if count >= |device| { return None; }
      var elt := device[item];
      r := Some((count, elt));
      item, count := item + 1, count + 1;
    }
  }

  /** `_cuda_iterator`: `device` is the vector's memory, reached only through `copies`. */
  class CudaIterator<T(0)> {
    const device: seq<T>
    const bufferSize: nat
    const buffer: array<T>
    var item: nat
    var count: nat
    var bufferItem: nat
    var bufferCount: nat
    var bufferStart: nat
    ghost var copies: seq<Copy>

    function Size(): nat { |device| }

    /** How many elements of the buffer hold current data. */
    function Filled(): nat
      reads this
    {
      if bufferStart <= Size() then Min(bufferSize, Size() - bufferStart) else 0
    }

    ghost predicate Valid()
      reads this, buffer
    {
      && buffer.Length == bufferSize <= Size() && (Size() > 0 ==> bufferSize > 0)
      && item == count == bufferStart + bufferCount <= Size()
      && bufferItem == bufferCount <= Filled()
      && (forall i | 0 <= i < Filled() :: buffer[i] == device[bufferStart + i])
      && Chained(copies, 0, bufferStart + Filled())
      && forall c | c in copies :: Full(c)
    }

    /** A copy fills the buffer or takes all that is left of the vector. */
    ghost predicate Full(c: Copy) {
      c.start + c.length <= Size() && c.length <= bufferSize
      && (c.length == bufferSize || c.start + c.length == Size())
    }

    /** Allocates at most one megabyte, at least one element, and never more than the vector. */
    constructor (device: seq<T>, sizeOf: nat)
      requires sizeOf > 0
      ensures Valid() && fresh(buffer) && this.device == device && count == 0
      ensures FitsBudget(bufferSize, sizeOf) && (bufferSize == |device| || !FitsBudget(bufferSize + 1, sizeOf))
    {
      var most: nat := 0x10_0000 / sizeOf;
      var n := Min(|device|, if most < 1 then 1 else most);
      this.device, bufferSize, buffer := device, n, new T[n];
      item, count, bufferItem, bufferCount, bufferStart, copies := 0, 0, 0, n, 0, [];
      new;
      Fill();
    }

    /** The refill of `update_buffer`, entered when the buffer is used up. */
    method Fill()
      requires buffer.Length == bufferSize <= Size() && (Size() > 0 ==> bufferSize > 0)
      requires item == count <= Size() && Chained(copies, 0, count)
      requires forall c | c in copies :: Full(c)
      modifies this, buffer
      ensures Valid() && count == old(count) && bufferCount == 0
      ensures count < Size() ==> bufferCount < Filled()
    {
      bufferItem, bufferCount, bufferStart := 0, 0, count;
      var length := Min(bufferSize, Size() - bufferStart);
      forall i | 0 <= i < length {
        buffer[i] := device[item + i];
      }
      ghost var last := Copy(bufferStart, length);
      assert (copies + [last])[..|copies|] == copies;
      copies := copies + [last];
    }

    method UpdateBuffer()
      requires Valid()
      modifies this, buffer
      ensures Valid() && count == old(count)
      ensures count < Size() ==> bufferCount < Filled()
    {
      if bufferCount >= bufferSize {
        Fill();
      }
    }

    method Next() returns (r: Option<(nat, T)>)
      requires Valid()
      modifies this, buffer
      ensures Valid()
      ensures r == if old(count) < Size() then Some((old(count), device[old(count)])) else None
      ensures count == if old(count) < Size() then old(count) + 1 else old(count)
    {
      if count >= Size() { return None; }
      UpdateBuffer();
      var elt := buffer[bufferItem];
      bufferItem, bufferCount := bufferItem + 1, bufferCount + 1;
      r := Some((count, elt));
      item, count := item + 1, count + 1;
    }
  }

  /** A complete iteration through the buffer yields every index with its element, in order. */
  method DrainCuda<T(0)>(device: seq<T>, sizeOf: nat) returns (items: seq<(nat, T)>, ghost copies: seq<Copy>)
    requires sizeOf > 0
    ensures |items| == |device| && forall i | 0 <= i < |items| :: items[i] == (i, device[i])
    ensures forall i: nat :: TimesCopied(copies, i) == if i < |device| then 1 else 0
    ensures forall c | c in copies :: c.start + c.length <= |device| && FitsBudget(c.length, sizeOf)
    ensures forall c | c in copies :: c.start + c.length == |device| || !FitsBudget(c.length + 1, sizeOf)
  {
    var it := new CudaIterator(device, sizeOf);
    hide Chained, TimesCopied, FitsBudget;
    items := [];
    var r := it.Next();
    while r.Some?
      invariant it.Valid() && fresh(it) && fresh(it.buffer)
      invariant it.count == |items| + (if r.Some? then 1 else 0) <= |device|
      invariant r.Some? ==> r.value == (|items|, device[|items|])
      invariant r.None? ==> |items| == |device|
      invariant forall i | 0 <= i < |items| :: items[i] == (i, device[i])
      decreases |device| - |items|, r.Some?
    {
      items := items + [r.value];
      r := it.Next();
    }
    copies := it.copies;
    AllCopied(it, sizeOf);
  }

  /** The buffer is at most one megabyte, or a single element. */
  ghost predicate FitsBudget(length: nat, sizeOf: nat) {
    length * sizeOf <= 0x10_0000 || length <= 1
  }

  lemma AllCopied<T(0)>(it: CudaIterator<T>, sizeOf: nat)
    requires it.Valid() && it.count == it.Size() && FitsBudget(it.bufferSize, sizeOf)
    requires it.bufferSize == it.Size() || !FitsBudget(it.bufferSize + 1, sizeOf)
    ensures forall i: nat :: TimesCopied(it.copies, i) == if i < it.Size() then 1 else 0
    ensures forall c | c in it.copies :: c.start + c.length <= it.Size() && FitsBudget(c.length, sizeOf)
    ensures forall c | c in it.copies :: c.start + c.length == it.Size() || !FitsBudget(c.length + 1, sizeOf)
  {
    forall i: nat ensures TimesCopied(it.copies, i) == if i < it.Size() then 1 else 0 {
      ChainedCopiesOnce(it.copies, 0, it.Size(), i);
    }
    hide Chained, TimesCopied;
    forall c | c in it.copies
      ensures FitsBudget(c.length, sizeOf) && (c.start + c.length == it.Size() || !FitsBudget(c.length + 1, sizeOf))
    {
      assert it.Full(c);
      if it.bufferSize > 1 { assert c.length * sizeOf <= it.bufferSize * sizeOf; }
    }
  }

  method DrainHost<T>(device: seq<T>) returns (items: seq<(nat, T)>)
    ensures |items| == |device| && forall i | 0 <= i < |items| :: items[i] == (i, device[i])
  {
    var it := new HostIterator(device);
    items := [];
    var r := it.Next();
    while r.Some?
      invariant it.Valid() && fresh(it) && it.device == device
      invariant it.count == |items| + (if r.Some? then 1 else 0) <= |device|
      invariant r.Some? ==> r.value == (|items|, device[|items|])
      invariant r.None? ==> |items| == |device|
      invariant forall i | 0 <= i < |items| :: items[i] == (i, device[i])
      decreases |device| - |items|, r.Some?
    {
      items := items + [r.value];
      r := it.Next();
    }
  }
}
