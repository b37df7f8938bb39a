/**
 The circular buffer as a value: the ten (here: any number of) slots, the two
 offsets, the `full` flag and the byte count, with a NULL pointer as `None`.
 `AddEntry` takes the branches of the program, including the one where the
 allocation fails after the oldest entry has been evicted.

 The simple form it refines is a `Window`: the live strings in order, a number
 of empty slots the reader meets before them, and the flag.
 */
module RingModel {
  import opened ByteStrings

  datatype Slot = Slot(buffptr: Option<Bytes>, size: nat)

  const EMPTY_SLOT := Slot(None, 0)

  function SlotOf(data: Bytes): Slot { Slot(Some(data), |data|) }

  datatype Ring = Ring(entry: seq<Slot>, inOffs: nat, outOffs: nat, full: bool, size: int)

  predicate InRange(r: Ring) {
    r.inOffs < |r.entry| && r.outOffs < |r.entry|
  }

  function Init(n: nat): (r: Ring)
    ensures |r.entry| == n && (n > 0 ==> InRange(r))
  {
    Ring(seq(n, _ => EMPTY_SLOT), 0, 0, false, 0)
  }

  function Evict(r: Ring): (r': Ring)
    requires InRange(r)
    ensures InRange(r') && |r'.entry| == |r.entry|
  {
    Ring(r.entry[r.outOffs := EMPTY_SLOT], r.inOffs, (r.outOffs + 1) % |r.entry|, r.full,
         r.size - r.entry[r.outOffs].size)
  }

  /** The bytes the next add frees before it allocates. */
  function EvictedSize(r: Ring): nat
    requires InRange(r)
  {
    if r.full then r.entry[r.outOffs].size else 0
  }

  /** The outcome of storing `data` at the input offset; `allocOk` says whether the allocation was granted. */
  function Store(r: Ring, data: Bytes, allocOk: bool): (r': Ring)
    requires InRange(r)
    ensures InRange(r') && |r'.entry| == |r.entry|
  {
    if !allocOk then
      r.(entry := r.entry[r.inOffs := r.entry[r.inOffs].(buffptr := None)])
    else
      var nextIn := (r.inOffs + 1) % |r.entry|;
      Ring(r.entry[r.inOffs := SlotOf(data)], nextIn, r.outOffs, nextIn == r.outOffs, r.size + |data|)
  }

  function AddEntry(r: Ring, data: Bytes, allocOk: bool): (r': Ring)
    requires InRange(r)
    ensures InRange(r') && |r'.entry| == |r.entry|
  {
    Store(if r.full then Evict(r) else r, data, allocOk)
  }

  // --- positions relative to the output offset

  function Wrap(i: nat, n: nat): nat { if i < n then i else i - n }

  lemma WrapIsMod(i: nat, n: nat)
    requires i < n
    ensures (i + 1) % n == Wrap(i + 1, n) < n
  {
    if i + 1 < n {
    } else {
      assert i + 1 == n;
    }
  }

  /** The k-th slot, counted from the output offset. */
  function Nth(r: Ring, k: nat): Slot
    requires InRange(r) && k < |r.entry|
  {
    r.entry[Wrap(r.outOffs + k, |r.entry|)]
  }

  /** What a reader meets: the non-NULL slots from the output offset up to the first NULL. */
  function VisibleFrom(r: Ring, k: nat): (es: seq<Bytes>)
    requires InRange(r) && k <= |r.entry|
    ensures k + |es| <= |r.entry|
    decreases |r.entry| - k
  {
    if k == |r.entry| || Nth(r, k).buffptr.None? then []
    else [Nth(r, k).buffptr.value] + VisibleFrom(r, k + 1)
  }

  function Visible(r: Ring): seq<Bytes>
    requires InRange(r)
  {
    VisibleFrom(r, 0)
  }

  lemma {:induction false} VisibleAt(r: Ring, k: nat, i: nat)
    requires InRange(r) && k <= |r.entry|
    requires i <= |VisibleFrom(r, k)|
    ensures i < |VisibleFrom(r, k)| ==> Nth(r, k + i).buffptr == Some(VisibleFrom(r, k)[i])
    ensures i == |VisibleFrom(r, k)| && k + i < |r.entry| ==> Nth(r, k + i).buffptr == None
    decreases |r.entry| - k
  {
    if i > 0 {
      VisibleAt(r, k + 1, i - 1);
    }
  }

  // --- the simple form

  datatype Window = Window(live: seq<Bytes>, gap: nat, full: bool)

  const NEW_WINDOW := Window([], 0, false)

  /** Eviction takes the first slot the reader would meet, empty or not. */
  function Slide(w: Window, n: nat): Window
    requires n > 0
  {
    if w.gap > 0 then w.(gap := w.gap - 1)
    else if w.live != [] then w.(live := w.live[1..])
    else w.(gap := n - 1)
  }

  function AddWindow(w: Window, n: nat, data: Bytes, allocOk: bool): Window
    requires n > 0
  {
    var w1 := if w.full then Slide(w, n) else w;
    if !allocOk then w1
    else Window(w1.live + [data], w1.gap, w1.gap + |w1.live| + 1 == n)
  }

  function SlotAt(w: Window, k: nat): Slot {
    if w.gap <= k < w.gap + |w.live| then SlotOf(w.live[k - w.gap]) else EMPTY_SLOT
  }

  predicate Bounded(w: Window, n: nat) {
    && n > 0
    && w.gap + |w.live| <= n
    && (!w.full ==> w.gap + |w.live| < n)
  }

  /** The wrapped slots of r hold exactly the window w. */
  ghost predicate Represents(r: Ring, w: Window) {
    var n := |r.entry|;
    && InRange(r)
    && Bounded(w, n)
    && r.inOffs == Wrap(r.outOffs + w.gap + |w.live|, n)
    && r.full == w.full
    && r.size == |Flat(w.live)|
    && forall k :: 0 <= k < n ==> Nth(r, k) == SlotAt(w, k)
  }

  lemma InitRepresents(n: nat)
    requires n > 0
    ensures Represents(Init(n), NEW_WINDOW)
  {
  }

  /** After an eviction the slots, counted from the new output offset, hold the slid window. */
  lemma EvictSlots(r: Ring, w: Window, k: nat)
    requires Represents(r, w) && r.full && k < |r.entry|
    ensures Nth(Evict(r), k) == SlotAt(Slide(w, |r.entry|), k)
  {
    var n := |r.entry|;
    WrapIsMod(r.outOffs, n);
    if k == n - 1 {
      assert Wrap(Evict(r).outOffs + k, n) == r.outOffs;
    } else {
      assert Nth(Evict(r), k) == Nth(r, k + 1) == SlotAt(w, k + 1);
    }
  }

  lemma EvictSlides(r: Ring, w: Window)
    requires Represents(r, w) && r.full
    ensures Represents(Evict(r).(full := false), Slide(w, |r.entry|).(full := false))
  {
    var n, w', r' := |r.entry|, Slide(w, |r.entry|).(full := false), Evict(r).(full := false);
    WrapIsMod(r.outOffs, n);
    assert Nth(r, 0) == SlotAt(w, 0);
    if w.gap == 0 && w.live != [] {
      assert Flat(w.live) == w.live[0] + Flat(w.live[1..]);
    }
    forall k | 0 <= k < n
      ensures Nth(r', k) == SlotAt(w', k)
    {
      EvictSlots(r, w, k);
    }
  }

  /** The slot at the input offset is free once there is room. */
  lemma RoomAtInput(r: Ring, w: Window)
    requires Represents(r.(full := false), w.(full := false))
    ensures r.entry[r.inOffs] == EMPTY_SLOT
  {
    var g := w.gap + |w.live|;
    assert Nth(r.(full := false), g) == SlotAt(w.(full := false), g);
  }

  lemma StoreSlots(r: Ring, w: Window, data: Bytes, k: nat)
    requires Represents(r.(full := false), w.(full := false)) && k < |r.entry|
    ensures var full := w.gap + |w.live| + 1 == |r.entry|;
            Nth(Store(r, data, true), k) == SlotAt(Window(w.live + [data], w.gap, full), k)
  {
    var r0, n := r.(full := false), |r.entry|;
    assert Nth(r0, k) == SlotAt(w.(full := false), k);
    if k != w.gap + |w.live| {
      assert Wrap(r.outOffs + k, n) != r.inOffs;
    }
  }

  lemma StoreAppends(r: Ring, w: Window, data: Bytes)
    requires Represents(r.(full := false), w.(full := false))
    ensures Represents(Store(r, data, true), Window(w.live + [data], w.gap, w.gap + |w.live| + 1 == |r.entry|))
    ensures Store(r, data, false) == r
  {
    var n := |r.entry|;
    var w' := Window(w.live + [data], w.gap, w.gap + |w.live| + 1 == n);
    RoomAtInput(r, w);
    assert r.entry[r.inOffs := EMPTY_SLOT] == r.entry;
    WrapIsMod(r.inOffs, n);
    FlatSnoc(w.live, data);
    forall k | 0 <= k < n
      ensures Nth(Store(r, data, true), k) == SlotAt(w', k)
    {
      StoreSlots(r, w, data, k);
    }
  }

  lemma AddToRoom(r: Ring, w: Window, data: Bytes, allocOk: bool)
    requires Represents(r, w) && !r.full
    ensures Represents(AddEntry(r, data, allocOk), AddWindow(w, |r.entry|, data, allocOk))
  {
    StoreAppends(r, w, data);
  }

  lemma AddToFull(r: Ring, w: Window, data: Bytes, allocOk: bool)
    requires Represents(r, w) && r.full
    ensures Represents(AddEntry(r, data, allocOk), AddWindow(w, |r.entry|, data, allocOk))
  {
    var n, r1, w1 := |r.entry|, Evict(r), Slide(w, |r.entry|);
    EvictSlides(r, w);
    StoreAppends(r1, w1, data);
    if !allocOk {
      forall k | 0 <= k < n
        ensures Nth(r1, k) == SlotAt(w1, k)
      {
        EvictSlots(r, w, k);
      }
    }
  }

  /** The indexed, wrapping, flag-carrying ring does to its slots what AddWindow does to a list. */
  lemma AddEntryRefines(r: Ring, w: Window, data: Bytes, allocOk: bool)
    requires Represents(r, w)
    ensures Represents(AddEntry(r, data, allocOk), AddWindow(w, |r.entry|, data, allocOk))
  {
    if r.full {
      AddToFull(r, w, data, allocOk);
    } else {
      AddToRoom(r, w, data, allocOk);
    }
  }

  /** A failed add changes nothing iff the ring is not flagged full (or has one slot, already empty). */
  lemma FailedAdd(r: Ring, w: Window, data: Bytes)
    requires Represents(r, w)
    ensures AddEntry(r, data, false) == r <==> !r.full || (|r.entry| == 1 && w.live == [])
    ensures r.full ==> AddEntry(r, data, false).full
  {
    var n := |r.entry|;
    WrapIsMod(r.outOffs, n);
    AddEntryRefines(r, w, data, false);
    if r.full {
      assert Nth(r, 0) == SlotAt(w, 0);
      EvictSlides(r, w);
      StoreAppends(Evict(r), Slide(w, n), data);
      if n == 1 {
        if w.live == [] {
          assert Evict(r).entry == r.entry;
        } else {
          assert Evict(r).entry[0] != r.entry[0];
        }
      }
    } else {
      StoreAppends(r, w, data);
    }
  }

  /** The slot that add_entry is about to fill never holds a block, so no pointer is overwritten. */
  lemma InputSlotIsFree(r: Ring, w: Window)
    requires Represents(r, w)
    ensures (if r.full then Evict(r) else r).entry[r.inOffs] == EMPTY_SLOT
  {
    if r.full {
      EvictSlides(r, w);
      RoomAtInput(Evict(r), Slide(w, |r.entry|));
    } else {
      RoomAtInput(r, w);
    }
  }

  lemma {:induction false} VisibleFromWindow(r: Ring, w: Window, k: nat)
    requires Represents(r, w) && w.gap == 0 && k <= |w.live|
    ensures VisibleFrom(r, k) == w.live[k..]
    decreases |w.live| - k
  {
    if k < |r.entry| {
      assert Nth(r, k) == SlotAt(w, k);
      if k < |w.live| {
        VisibleFromWindow(r, w, k + 1);
        assert w.live[k..] == [w.live[k]] + w.live[k + 1..];
      }
    }
  }

  /** Readers see every live string exactly when no empty slot precedes them; otherwise they see nothing. */
  lemma VisibleWindow(r: Ring, w: Window)
    requires Represents(r, w)
    ensures Visible(r) == if w.gap == 0 then w.live else []
    ensures Visible(r) == w.live <==> w.gap == 0 || w.live == []
  {
    if w.gap == 0 {
      VisibleFromWindow(r, w, 0);
    } else {
      assert Nth(r, 0) == SlotAt(w, 0);
    }
  }

  // --- the byte count against the physical slots

  function SizeSum(entry: seq<Slot>): nat {
    if entry == [] then 0 else entry[0].size + SizeSum(entry[1..])
  }

  lemma {:induction false} SizeSumUpdate(entry: seq<Slot>, i: nat, s: Slot)
    requires i < |entry|
    ensures SizeSum(entry[i := s]) == SizeSum(entry) - entry[i].size + s.size
  {
    if i == 0 {
      assert entry[i := s][1..] == entry[1..];
    } else {
      assert entry[i := s][1..] == entry[1..][i - 1 := s];
      SizeSumUpdate(entry[1..], i - 1, s);
    }
  }

  lemma {:induction false} SizeSumInit(n: nat)
    ensures SizeSum(seq(n, _ => EMPTY_SLOT)) == 0
  {
    if n > 0 {
      assert seq(n, _ => EMPTY_SLOT)[1..] == seq(n - 1, _ => EMPTY_SLOT);
      SizeSumInit(n - 1);
    }
  }

  lemma AddEntryCounts(r: Ring, w: Window, data: Bytes, allocOk: bool)
    requires Represents(r, w) && r.size == SizeSum(r.entry)
    ensures r.full ==> r.entry[r.outOffs].size <= r.size
    ensures AddEntry(r, data, allocOk).size == SizeSum(AddEntry(r, data, allocOk).entry)
  {
    var r1 := if r.full then Evict(r) else r;
    SizeSumUpdate(r.entry, r.outOffs, EMPTY_SLOT);
    InputSlotIsFree(r, w);
    SizeSumUpdate(r1.entry, r1.inOffs, if allocOk then SlotOf(data) else EMPTY_SLOT);
  }
}
