/** Scatter/gather buffers: bytes cut into segments, and a cursor that walks over the cuts. */
module Cursors {
  import opened Words

  /** A place in a segment. At the end of a segment it is not yet in the next one. */
  datatype Ptr = Ptr(seg: nat, off: nat)

  /** Lengths of the segments; none is empty. */
  type Cuts = lens: seq<nat> | forall i :: 0 <= i < |lens| ==> lens[i] > 0 witness []

  /** Bytes in front of segment `i`. */
  function Before(lens: seq<nat>, i: nat): (n: nat)
    requires i <= |lens|
  {
    if i == 0 then 0 else Before(lens, i - 1) + lens[i - 1]
  }

  lemma {:induction false} BeforeGrows(lens: seq<nat>, i: nat, j: nat)
    requires i <= j <= |lens|
    ensures Before(lens, i) <= Before(lens, j)
    decreases j - i
  {
    if i < j {
      BeforeGrows(lens, i, j - 1);
    }
  }

  function Size(lens: seq<nat>): nat { Before(lens, |lens|) }

  function Addr(lens: seq<nat>, p: Ptr): nat
    requires p.seg <= |lens|
  {
    Before(lens, p.seg) + p.off
  }

  /** A cursor rests inside a segment, or behind the last one. */
  predicate IsCursor(lens: seq<nat>, p: Ptr) {
    if p.seg < |lens| then p.off < lens[p.seg] else p.seg == |lens| && p.off == 0
  }

  /** Bytes left in the cursor's segment. */
  function Left(lens: seq<nat>, p: Ptr): nat
    requires IsCursor(lens, p)
  {
    if p.seg < |lens| then lens[p.seg] - p.off else 0
  }

  lemma AddrInside(lens: seq<nat>, p: Ptr)
    requires IsCursor(lens, p)
    ensures Addr(lens, p) + Left(lens, p) <= Size(lens)
    ensures Addr(lens, p) < Size(lens) ==> Left(lens, p) > 0
  {
    if p.seg < |lens| {
      BeforeGrows(lens, p.seg + 1, |lens|);
    }
  }

  /** Moves `n` bytes on, over as many cuts as it takes. */
  function Advance(lens: Cuts, p: Ptr, n: nat): (q: Ptr)
    requires IsCursor(lens, p)
    ensures IsCursor(lens, q)
    decreases |lens| - p.seg
  {
    if p.seg == |lens| then p
    else if n < lens[p.seg] - p.off then Ptr(p.seg, p.off + n)
    else Advance(lens, Ptr(p.seg + 1, 0), n - (lens[p.seg] - p.off))
  }

  lemma {:induction false} AdvanceAddr(lens: Cuts, p: Ptr, n: nat)
    requires IsCursor(lens, p) && Addr(lens, p) + n <= Size(lens)
    ensures Addr(lens, Advance(lens, p, n)) == Addr(lens, p) + n
    decreases |lens| - p.seg
  {
    if p.seg < |lens| && n >= lens[p.seg] - p.off {
      AdvanceAddr(lens, Ptr(p.seg + 1, 0), n - (lens[p.seg] - p.off));
    }
  }

  /** The cursor at the front of the buffer. */
  function Front(lens: Cuts): (p: Ptr)
    ensures IsCursor(lens, p) && Addr(lens, p) == 0
  {
    Ptr(0, 0)
  }

  function Slice(s: seq<byte>, from: nat, n: nat): (r: seq<byte>)
    requires from + n <= |s|
    ensures |r| == n
  {
    s[from..from + n]
  }

  /** Writing two neighbouring pieces is writing them joined. */
  lemma OverwriteTwice(data: seq<byte>, at: nat, a: seq<byte>, b: seq<byte>)
    requires at + |a| + |b| <= |data|
    ensures Overwrite(Overwrite(data, at, a), at + |a|, b) == Overwrite(data, at, a + b)
  {
    var x, y := Overwrite(Overwrite(data, at, a), at + |a|, b), Overwrite(data, at, a + b);
    forall k | 0 <= k < |data| ensures x[k] == y[k] {
      if k >= at && k < at + |a| {
      } else if k >= at + |a| && k < at + |a| + |b| {
        assert (a + b)[k - at] == b[k - at - |a|];
      }
    }
  }

  class CryptoBuffer {
    const lens: Cuts
    var data: seq<byte>

    constructor (lens: Cuts, data: seq<byte>)
      ensures this.lens == lens && this.data == data
    {
      this.lens, this.data := lens, data;
    }

    predicate Valid()
      reads this
    {
      |data| == Size(lens)
    }

    /** Reads from one segment. */
    method ReadSegment(p: Ptr, n: nat) returns (b: seq<byte>)
      requires Valid() && p.seg < |lens| && p.off + n <= lens[p.seg]
      ensures Addr(lens, p) + n <= |data| && b == Slice(data, Addr(lens, p), n)
    {
      BeforeGrows(lens, p.seg + 1, |lens|);
      b := data[Addr(lens, p)..Addr(lens, p) + n];
    }

    /** Writes into one segment. */
    method WriteSegment(p: Ptr, b: seq<byte>)
      requires Valid() && p.seg < |lens| && p.off + |b| <= lens[p.seg]
      modifies this
      ensures Valid() && Addr(lens, p) + |b| <= |data|
      ensures data == Overwrite(old(data), Addr(lens, p), b)
    {
      BeforeGrows(lens, p.seg + 1, |lens|);
      data := Overwrite(data, Addr(lens, p), b);
    }

    /** Copies `n` bytes out across cuts and moves the cursor on. */
    method CopyData(p: Ptr, n: nat) returns (b: seq<byte>, q: Ptr)
      requires Valid() && IsCursor(lens, p) && Addr(lens, p) + n <= |data|
      ensures b == Slice(data, Addr(lens, p), n)
      ensures q == Advance(lens, p, n)
    {
      b, q := data[Addr(lens, p)..Addr(lens, p) + n], Advance(lens, p, n);
    }

    /** Copies bytes in across cuts and moves the cursor on. */
    method CopyBack(p: Ptr, b: seq<byte>) returns (q: Ptr)
      requires Valid() && IsCursor(lens, p) && Addr(lens, p) + |b| <= |data|
      modifies this
      ensures Valid() && data == Overwrite(old(data), Addr(lens, p), b)
      ensures q == Advance(lens, p, |b|)
    {
      data := Overwrite(data, Addr(lens, p), b);
      q := Advance(lens, p, |b|);
    }
  }
}
