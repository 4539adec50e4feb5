/** The binned sparse array of the diff engine: bin 0 holds 32 elements, bin i > 0 holds as many
    elements as all bins before it together, and a bin is allocated, zeroed, when first touched. */
module SparseArray {

  const INIT_SIZE := 5
  const BINS := 16
  const CAPACITY := 0x10_0000

  function Pow2(i: nat): nat { if i == 0 then 1 else 2 * Pow2(i - 1) }

  /** Number of elements of bin i. */
  function BinSize(i: nat): nat {
    if i != 0 then Pow2(i + (INIT_SIZE - 1)) else Pow2(INIT_SIZE)
  }

  /** First index past bin i. */
  function BinEnd(i: nat): nat { Pow2(INIT_SIZE + i) }

  /** First index of bin i. */
  function BinStart(i: nat): nat { if i == 0 then 0 else BinEnd(i - 1) }

  lemma BinLayout(i: nat)
    ensures BinStart(i) + BinSize(i) == BinEnd(i) && 0 < BinSize(i)
    ensures BinStart(i + 1) == BinEnd(i)
  {
    PowPositive(INIT_SIZE + i);
  }

  lemma {:induction false} PowPositive(i: nat)
    ensures Pow2(i) > 0
  {
    if i > 0 { PowPositive(i - 1); }
  }

  lemma {:induction false} BinOrder(i: nat, j: nat)
    requires i < j
    ensures BinEnd(i) <= BinStart(j)
    decreases j
  {
    if i < j - 1 {
      BinOrder(i, j - 1);
      BinLayout(j - 1);
    }
  }

  lemma CapacityIsLastEnd()
    ensures BinEnd(BINS - 1) == CAPACITY
  {
    assert Pow2(5) == 32 && Pow2(10) == 1024 && Pow2(15) == 32768;
    assert Pow2(20) == CAPACITY;
  }

  /** Every index below the capacity has exactly one place. */
  lemma PlaceIsUnique(i: nat, o: nat, i': nat, o': nat)
    requires o < BinSize(i) && o' < BinSize(i')
    requires BinStart(i) + o == BinStart(i') + o'
    ensures i == i' && o == o'
  {
    BinLayout(i);
    BinLayout(i');
    if i < i' { BinOrder(i, i'); }
    if i' < i { BinOrder(i', i); }
  }

  /** The part of a flat array that bin i holds. */
  ghost function BinOf<T>(cells: seq<T>, i: nat): seq<T>
    requires i < BINS && |cells| == CAPACITY
  {
    AllBinsFit();
    cells[BinStart(i)..BinEnd(i)]
  }

  lemma AllBinsFit()
    ensures forall i :: 0 <= i < BINS ==> BinStart(i) <= BinEnd(i) <= CAPACITY
  {
    CapacityIsLastEnd();
    forall i | 0 <= i < BINS ensures BinStart(i) <= BinEnd(i) <= CAPACITY {
      BinLayout(i);
      BinLayout(BINS - 1);
      if i < BINS - 1 { BinOrder(i, BINS - 1); }
    }
  }

  /** Bin i is the one with the place of index idx, at offset off. */
  ghost predicate Holds(idx: nat, i: nat, off: nat) {
    i < BINS && BinStart(i) + off == idx && off < BinSize(i)
  }

  /** Different bins hold different indices. */
  lemma BinsApart(idx: nat, i: nat, off: nat, j: nat)
    requires Holds(idx, i, off) && j < BINS
    ensures BinStart(i) <= idx < BinEnd(i) <= 0x10_0000
    ensures BinStart(j) <= BinEnd(j) <= 0x10_0000
    ensures i != j ==> idx < BinStart(j) || BinEnd(j) <= idx
  {
    AllBinsFit();
    BinLayout(i);
    if j < i { BinOrder(j, i); }
    if i < j { BinOrder(i, j); }
  }

  lemma BinOfUpdate<T>(cells: seq<T>, idx: nat, v: T, i: nat, off: nat, j: nat)
    requires |cells| == CAPACITY && Holds(idx, i, off) && j < BINS
    ensures idx < CAPACITY && off < |BinOf(cells, i)| && BinOf(cells, i)[off] == cells[idx]
    ensures BinOf(cells[idx := v], j) == if i == j then BinOf(cells, i)[off := v] else BinOf(cells, j)
  {
    hide BinStart, BinEnd;
    BinsApart(idx, i, off, j);
  }

  class VArray<T> {
    const zero: T
    const bins: array<array?<T>>
    ghost var cells: seq<T>
    ghost var Repr: set<object>

    /** Bin i as the program sees it: zeroes while it is not allocated. */
    ghost function View(i: nat): seq<T>
      requires i < bins.Length
      reads bins, bins[i]
    {
      if bins[i] == null then seq(BinSize(i), _ => zero) else bins[i][..]
    }

    ghost predicate Valid()
      reads this, Repr
      ensures Valid() ==> this in Repr && |cells| == CAPACITY
    {
      && this in Repr && bins in Repr
      && bins.Length == BINS && |cells| == CAPACITY
      && (forall i :: 0 <= i < BINS && bins[i] != null ==> bins[i] in Repr && bins[i] as object != bins)
      && (forall i, j :: 0 <= i < j < BINS && bins[i] != null ==> bins[i] != bins[j])
      && forall i :: 0 <= i < BINS ==> View(i) == BinOf(cells, i)
    }

    constructor (zero: T)
      ensures Valid() && fresh(Repr) && this.zero == zero
      ensures cells == seq(CAPACITY, _ => zero)
    {
      this.zero := zero;
      bins := new array?<T>[BINS](_ => null);
      cells := seq(CAPACITY, _ => zero);
      new;
      Repr := {this, bins};
      hide BinStart, BinEnd, BinSize;
      AllBinsFit();
      forall i | 0 <= i < BINS ensures View(i) == BinOf(cells, i) {
        BinLayout(i);
      }
    }

    /** Allocates bin i, zeroed, unless it is there already. */
    method Allocate(i: nat)
      requires Valid() && i < BINS
      modifies Repr
      ensures Valid() && fresh(Repr - old(Repr)) && cells == old(cells)
      ensures bins[i] != null
      ensures forall j :: 0 <= j < BINS && (j != i || old(bins[j]) != null) ==> bins[j] == old(bins[j])
    {
      if bins[i] == null {
        var mem := new T[BinSize(i)](_ => zero);
        assert mem[..] == View(i);
        bins[i] := mem;
        Repr := Repr + {mem};
        assert forall j :: 0 <= j < BINS ==> View(j) == old(View(j));
      }
    }

    /** The cell of an index, as the bin that holds it and the place in that bin; no bin at all
        beyond the capacity. A bin already allocated stays where it is. */
    method Locate(idx: nat) returns (bin: array?<T>, off: nat, ghost i: nat)
      requires Valid()
      modifies Repr
      ensures Valid() && fresh(Repr - old(Repr)) && cells == old(cells)
      ensures bin == null <==> 0x10_0000 <= idx
      ensures bin != null ==> Holds(idx, i, off) && bins[i] == bin
      ensures forall j :: 0 <= j < BINS && old(bins[j]) != null ==> bins[j] == old(bins[j])
    {
      CapacityIsLastEnd();
      var r, b := Pow2(INIT_SIZE), 0;
      while b < BINS && r <= idx
        invariant 0 <= b <= BINS && r == BinEnd(b)
        invariant BinStart(b) <= idx
      {
        b := b + 1;
        r := r * 2;
      }
      i := b;
      BinLayout(BINS - 1);
      if b == BINS {
        return null, 0, b;
      }
      BinLayout(b);
      AllBinsFit();
      Allocate(b);
      bin, off := bins[b], if b != 0 then idx - BinSize(b) else idx;
    }

    /** Reads through the pointer that Locate stands for. */
    method Get(idx: nat) returns (v: T)
      requires Valid() && idx < CAPACITY
      modifies Repr
      ensures Valid() && fresh(Repr - old(Repr)) && cells == old(cells)
      ensures v == cells[idx]
    {
      ghost var i;
      var bin, off;
      bin, off, i := Locate(idx);
      BinOfUpdate(cells, idx, zero, i, off, i);
      assert View(i) == bin[..];
      v := bin[off];
    }

    /** Writes through the pointer that Locate stands for. */
    method Put(idx: nat, v: T)
      requires Valid() && idx < CAPACITY
      modifies Repr
      ensures Valid() && fresh(Repr - old(Repr))
      ensures cells == old(cells)[idx := v]
    {
      ghost var i;
      var bin, off;
      bin, off, i := Locate(idx);
      ghost var was := cells;
      BinOfUpdate(was, idx, v, i, off, i);
      assert View(i) == bin[..];
      label Found:
      bin[off] := v;
      cells := cells[idx := v];
      forall j | 0 <= j < BINS ensures View(j) == BinOf(cells, j) {
        BinOfUpdate(was, idx, v, i, off, j);
        assert j != i ==> View(j) == old@Found(View(j));
        assert View(i) == old@Found(View(i))[off := v];
      }
    }

    /** Frees all bins from bin `keep` on. */
    method FreeBins(keep: nat)
      requires Valid()
      modifies Repr
      ensures Valid() && Repr == old(Repr)
      ensures cells == Cleared(old(cells), BinStart(keep), zero)
      ensures forall j :: 0 <= j < BINS ==> bins[j] == if keep <= j then null else old(bins[j])
    {
      var i := keep;
      while i < BINS
        invariant keep <= i
        invariant forall j :: 0 <= j < BINS ==> bins[j] == if keep <= j < i then null else old(bins[j])
        modifies bins
      {
        if bins[i] != null {
          bins[i] := null;
        }
        i := i + 1;
      }
      cells := Cleared(cells, BinStart(keep), zero);
      forall j | 0 <= j < BINS ensures View(j) == BinOf(cells, j) {
        assert j < keep ==> View(j) == old(View(j));
        ClearedBin(old(cells), keep, zero, j);
      }
    }

    /** Frees the bins that lie wholly at or past `from`; all of them when it is 0. Indices below
        `from` keep their cells. */
    method Release(from: nat)
      requires Valid()
      modifies Repr
      ensures Valid() && Repr == old(Repr)
      ensures cells == Cleared(old(cells), ReleasedFrom(from, 0), zero)
      ensures forall i :: 0 <= i < BINS ==>
                bins[i] == if BinStart(i) < ReleasedFrom(from, 0) then old(bins[i]) else null
    {
      var r, i := Pow2(INIT_SIZE), 0;
      while i < BINS && r < from
        invariant 0 <= i <= BINS && r == BinEnd(i)
        invariant ReleasedFrom(from, 0) == ReleasedFrom(from, i)
        invariant from == 0 ==> i == 0
      {
        r := r * 2;
        i := i + 1;
      }
      if from != 0 { i := i + 1; }
      assert BinStart(i) == ReleasedFrom(from, 0);
      FreeBins(i);
      forall j | 0 <= j < BINS ensures BinStart(j) < BinStart(i) <==> j < i {
        ClearedBin(old(cells), i, zero, j);
      }
    }
  }

  lemma ClearedBin<T>(cells: seq<T>, keep: nat, zero: T, j: nat)
    requires |cells| == CAPACITY && j < BINS
    ensures BinOf(Cleared(cells, BinStart(keep), zero), j) ==
            if j < keep then BinOf(cells, j) else seq(BinSize(j), _ => zero)
    ensures BinStart(j) < BinStart(keep) <==> j < keep
  {
    hide BinStart, BinEnd, BinSize;
    AllBinsFit();
    BinLayout(j);
    if j < keep { BinStartsGrow(j, keep); } else { BinStartsGrow(keep, j); }
  }

  lemma BinStartsGrow(i: nat, j: nat)
    requires i <= j
    ensures if i == j then BinStart(i) == BinStart(j) else BinEnd(i) <= BinStart(j) && BinStart(i) < BinStart(j)
  {
    BinLayout(i);
    if i < j { BinOrder(i, j); }
  }

  ghost function Cleared<T>(cells: seq<T>, from: nat, zero: T): seq<T> {
    seq(|cells|, idx requires 0 <= idx < |cells| => if idx < from then cells[idx] else zero)
  }

  /** The first index that Release(from) clears, looking from bin i on: bins are freed whole, so it
      is the end of the first bin that reaches `from`. */
  function ReleasedFrom(from: nat, i: nat): (f: nat)
    requires i <= BINS
    ensures from <= f || CAPACITY < f
    ensures from == 0 ==> f == 0
    ensures 0 < from && (i == 0 || BinEnd(i - 1) < from) ==> f == 32 || f < 2 * from
    decreases BINS - i
  {
    assert BinEnd(0) == 32 by { assert Pow2(5) == 32; }
    assert 0 < i ==> BinEnd(i) == 2 * BinEnd(i - 1);
    if from == 0 then 0
    else if from <= BinEnd(i) then BinEnd(i)
    else if i == BINS then
      CapacityIsLastEnd();
      BinEnd(BINS)
    else ReleasedFrom(from, i + 1)
  }

  // ----- Packing of (diagonal, direction) pairs into indices

  /** Index of the forward (r == 0) or reverse (r == 1) value of diagonal k. */
  function Pack(k: int, r: int): int {
    if k <= 0 then -k * 4 + r else k * 4 + (r - 2)
  }

  function Unpack(j: nat): (int, int) {
    if j % 4 < 2 then (-(j / 4), j % 4) else (j / 4 + 1, j % 4 - 2)
  }

  /** Packing is a bijection from integers times {0, 1} onto the naturals. */
  lemma PackBijection(k: int, r: int, j: nat)
    requires 0 <= r <= 1
    ensures 0 <= Pack(k, r) && Unpack(Pack(k, r)) == (k, r)
    ensures 0 <= Unpack(j).1 <= 1 && Pack(Unpack(j).0, Unpack(j).1) == j
  {
  }
}
