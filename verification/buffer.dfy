/** The dynamic arrays of the store: a heap block of `capacity` slots of
    which the first `count` are in use, grown by doubling and compacted by
    shifting left (inventario.cpp, crearProducto and eliminarProducto). */
module Buffers {

  /** `slots` is the whole allocation, so its length is the capacity. */
  datatype Buffer<T> = Buffer(slots: seq<T>, count: int)
  {
    predicate WellFormed() {
      0 < |slots| && 0 <= count <= |slots|
    }

    function Capacity(): nat {
      |slots|
    }

    /** The records in use, in storage order. */
    function Live(): (r: seq<T>)
      requires WellFormed()
      ensures |r| == count
    {
      slots[..count]
    }
  }

  /** `new T[capacity]` with nothing in use. */
  function Empty<T>(capacity: nat, blank: T): (b: Buffer<T>)
    requires capacity > 0
    ensures b.WellFormed()
    ensures b.Live() == []
    ensures b.Capacity() == capacity
  {
    Buffer(seq(capacity, _ => blank), 0)
  }

  /** Allocates twice the capacity and copies the records in use, in order. */
  method Grow<T>(b: Buffer<T>, blank: T) returns (r: Buffer<T>)
    requires b.WellFormed()
    ensures r.WellFormed()
    ensures r.Capacity() == 2 * b.Capacity()
    ensures r.Live() == b.Live()
    ensures forall j :: b.count <= j < r.Capacity() ==> r.slots[j] == blank
  {
    var capacity := 2 * |b.slots|;
    var grown := seq(capacity, _ => blank);
    var i := 0;
    while i < b.count
      invariant 0 <= i <= b.count
      invariant |grown| == capacity
      invariant forall j :: 0 <= j < i ==> grown[j] == b.slots[j]
      invariant forall j :: i <= j < capacity ==> grown[j] == blank
    {
      grown := grown[i := b.slots[i]];
      i := i + 1;
    }
    r := Buffer(grown, b.count);
  }

  /** Stores `x` after the last record in use, doubling the capacity first
      when every slot is taken. */
  method Append<T>(b: Buffer<T>, x: T, blank: T) returns (r: Buffer<T>)
    requires b.WellFormed()
    ensures r.WellFormed()
    ensures r.Live() == b.Live() + [x]
    ensures r.Capacity() == if b.count == b.Capacity() then 2 * b.Capacity() else b.Capacity()
  {
    var cur := b;
    if cur.count >= |cur.slots| {
      cur := Grow(cur, blank);
    }
    r := Buffer(cur.slots[cur.count := x], cur.count + 1);
    assert r.Live() == cur.Live() + [x];
  }

  /** Removes the record at `index` by moving every later record one slot to
      the left. The last slot that was in use keeps its old contents. */
  method RemoveAt<T>(b: Buffer<T>, index: int) returns (r: Buffer<T>)
    requires b.WellFormed() && 0 <= index < b.count
    ensures r.WellFormed()
    ensures r.count == b.count - 1
    ensures r.Live() == b.Live()[..index] + b.Live()[index + 1..]
    ensures r.Capacity() == b.Capacity()
    ensures r.slots[r.count..] == b.slots[r.count..]
  {
    var slots := b.slots;
    var i := index;
    while i < b.count - 1
      invariant index <= i <= b.count - 1
      invariant |slots| == |b.slots|
      invariant forall j :: 0 <= j < index ==> slots[j] == b.slots[j]
      invariant forall j :: index <= j < i ==> slots[j] == b.slots[j + 1]
      invariant forall j :: i <= j < |slots| ==> slots[j] == b.slots[j]
    {
      slots := slots[i := slots[i + 1]];
      i := i + 1;
    }
    r := Buffer(slots, b.count - 1);
    assert r.slots[r.count..] == b.slots[r.count..];
    assert r.Live() == b.Live()[..index] + b.Live()[index + 1..];
  }

  ghost function Pow2(k: nat): (r: nat)
    ensures r >= 1
  {
    if k == 0 then 1 else 2 * Pow2(k - 1)
  }

  /** Appending a batch, one record at a time: every record written can be
      read back at its position however often the array grew, and the
      capacity only ever doubles. */
  method AppendAll<T>(b: Buffer<T>, xs: seq<T>, blank: T) returns (r: Buffer<T>)
    requires b.WellFormed()
    ensures r.WellFormed()
    ensures r.Live() == b.Live() + xs
    ensures exists k: nat :: r.Capacity() == b.Capacity() * Pow2(k)
  {
    r := b;
    ghost var k: nat := 0;
    var i := 0;
    while i < |xs|
      invariant 0 <= i <= |xs|
      invariant r.WellFormed()
      invariant r.Live() == b.Live() + xs[..i]
      invariant r.Capacity() == b.Capacity() * Pow2(k)
    {
      var before := r;
      r := Append(r, xs[i], blank);
      if r.Capacity() != before.Capacity() {
        k := k + 1;
      }
      assert xs[..i + 1] == xs[..i] + [xs[i]];
      i := i + 1;
    }
    assert xs[..i] == xs;
  }
}
