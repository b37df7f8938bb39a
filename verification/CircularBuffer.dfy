/**
 The circular buffer as the program keeps it: an array of (pointer, size) slots
 updated in place, 8-bit offsets, a flag and a size_t byte count, over a heap.
 Every method is proved against the ring value of `RingModel`.
 */
module CircularBuffer {
  import opened ByteStrings
  import opened Memory
  import opened RingModel

  datatype BufferEntry = BufferEntry(buffptr: Ptr, size: size_t)

  ghost function Deref(blocks: map<Ptr, Bytes>, e: BufferEntry): Slot {
    Slot(if e.buffptr in blocks then Some(blocks[e.buffptr]) else None, e.size as nat)
  }

  ghost function DerefAll(blocks: map<Ptr, Bytes>, es: seq<BufferEntry>): seq<Slot> {
    seq(|es|, i requires 0 <= i < |es| => Deref(blocks, es[i]))
  }

  ghost function PointersOf(es: seq<BufferEntry>): set<Ptr> {
    set i | 0 <= i < |es| && es[i].buffptr != NULL :: es[i].buffptr
  }

  /** Every non-NULL slot points to a live block of its size, and no two to the same block. */
  ghost predicate Owning(blocks: map<Ptr, Bytes>, es: seq<BufferEntry>) {
    && (forall i :: 0 <= i < |es| && es[i].buffptr != NULL ==>
          es[i].buffptr in blocks && |blocks[es[i].buffptr]| == es[i].size as int)
    && (forall i, j :: 0 <= i < j < |es| && es[i].buffptr != NULL ==> es[i].buffptr != es[j].buffptr)
  }

  class CircularBuffer {
    const heap: Heap
    const entry: array<BufferEntry>
    var inOffs: uint8
    var outOffs: uint8
    var full: bool
    var size: size_t
    /** The simple form the slots stand for. */
    ghost var window: Window

    ghost predicate Valid()
      reads this, heap, entry
    {
      && heap.Valid()
      && 0 < entry.Length < 256
      && Owning(heap.blocks, entry[..])
      && Represents(Model(), window)
      && size as int == SizeSum(Model().entry) <= heap.used
    }

    ghost function Model(): Ring
      reads this, heap, entry
    {
      Ring(DerefAll(heap.blocks, entry[..]), inOffs as nat, outOffs as nat, full, size as int)
    }

    ghost function Owned(): set<Ptr>
      reads this, entry
    {
      PointersOf(entry[..])
    }

    constructor (heap: Heap, n: nat)
      requires heap.Valid() && 0 < n < 256
      ensures Valid() && this.heap == heap && fresh(entry) && entry.Length == n
      ensures Model() == Init(n) && Owned() == {}
    {
      this.heap := heap;
      entry := new BufferEntry[n](_ => BufferEntry(NULL, 0));
      inOffs, outOffs, full, size := 0, 0, false, 0;
      window := NEW_WINDOW;
      new;
      assert Model() == Init(n);
      InitRepresents(n);
      SizeSumInit(n);
    }

    /** The index of the slot after i, as (i + 1) % N in 8-bit offsets. */
    method Following(i: uint8) returns (next: uint8)
      requires 0 < entry.Length < 256 && i as int < entry.Length
      ensures next as int == (i as int + 1) % entry.Length < entry.Length
    {
      next := (i + 1) % (entry.Length as uint8);
    }

    /** The eviction half of add_entry. */
    method EvictOldest()
      requires Valid() && full
      modifies this, entry, heap
      ensures heap.Valid() && Owning(heap.blocks, entry[..])
      ensures Model() == Evict(old(Model())) && window == old(window)
      ensures heap.blocks == old(heap.blocks) - (old(Owned()) - Owned())
      ensures heap.used == old(heap.used) - old(size as int) + size as int
      ensures Owned() <= old(Owned()) && size as int <= heap.used
    {
      var o := outOffs as int;
      ghost var es, blocks := entry[..], heap.blocks;
      EvictSlides(Model(), window);
      assert Nth(Model(), 0) == SlotAt(window, 0);
      assert es[o] in es;
      assert Deref(blocks, es[o]) == Model().entry[o];
      if window.live != [] {
        assert Flat(window.live) == window.live[0] + Flat(window.live[1..]);
      }
      heap.Free(entry[o].buffptr);
      size := size - entry[o].size;
      entry[o] := BufferEntry(NULL, 0);
      outOffs := Following(outOffs);
      OneSlotLess(es, entry[..], o, blocks);
      assert heap.blocks == blocks - {es[o].buffptr};
      assert Model().entry == DerefAll(blocks, es)[o := EMPTY_SLOT];
    }

    /** The storing half of add_entry, into the slot at the input offset, which is free. */
    method StoreCopy(add: BufferEntry, grant: bool) returns (ghost stored: bool, ghost p: Ptr)
      requires heap.Valid() && 0 < entry.Length < 256
      requires Owning(heap.blocks, entry[..]) && InRange(Model())
      requires Model().entry[inOffs as int] == EMPTY_SLOT
      requires add.buffptr in heap.blocks && |heap.blocks[add.buffptr]| == add.size as int
      requires size as int <= heap.used
      modifies this, entry, heap
      ensures heap.Valid() && Owning(heap.blocks, entry[..])
      ensures Model() == Store(old(Model()), old(heap.blocks[add.buffptr]), stored)
      ensures stored <==> grant && old(heap.used) + add.size as int <= heap.capacity
      ensures heap.used == old(heap.used) - old(size as int) + size as int
      ensures !stored ==> heap.blocks == old(heap.blocks) && Owned() == old(Owned())
      ensures stored ==> p !in old(heap.blocks) && Owned() == old(Owned()) + {p}
      ensures stored ==> heap.blocks == old(heap.blocks)[p := old(heap.blocks[add.buffptr])]
    {
      ghost var es, blocks, m, data := entry[..], heap.blocks, Model(), heap.blocks[add.buffptr];
      var i := inOffs as int;
      assert m.entry[i] == Deref(blocks, es[i]);
      assert es[i].buffptr == NULL;
      var q := heap.Duplicate(add.buffptr, add.size, grant);
      p := q;
      entry[i] := entry[i].(buffptr := q);
      if q == NULL {
        assert entry[..] == es;
        assert m.entry[i := m.entry[i].(buffptr := None)] == m.entry;
        return false, p;
      }
      size := size + add.size;
      entry[i] := entry[i].(size := add.size);
      inOffs := Following(inOffs);
      full := inOffs == outOffs;
      assert entry[..] == es[i := BufferEntry(p, add.size)];
      OneSlotMore(es, entry[..], i, blocks, p, data);
      return true, p;
    }

    /**
     Adds a copy of the caller's block `add`, which stays the caller's. `stored`
     tells whether the allocation was granted; the C function returns nothing.
     */
    method AddEntry(add: BufferEntry, grant: bool) returns (ghost stored: bool)
      requires Valid()
      requires add.buffptr in heap.blocks && add.buffptr !in Owned()
      requires |heap.blocks[add.buffptr]| == add.size as int
      modifies this, entry, heap
      ensures Valid()
      ensures Model() == RingModel.AddEntry(old(Model()), old(heap.blocks[add.buffptr]), stored)
      ensures stored <==> grant && old(heap.used) - EvictedSize(old(Model())) + add.size as int <= heap.capacity
      ensures heap.used == old(heap.used) - old(size as int) + size as int
      ensures heap.blocks.Keys == (old(heap.blocks.Keys) - old(Owned())) + Owned()
      ensures Owned() !! (old(heap.blocks.Keys) - old(Owned()))
      ensures forall p :: p in old(heap.blocks) && p !in old(Owned()) ==> heap.blocks[p] == old(heap.blocks[p])
    {
      ghost var m, w, data := Model(), window, heap.blocks[add.buffptr];
      ghost var b0, o0 := heap.blocks, Owned();
      assert o0 <= b0.Keys;
      InputSlotIsFree(m, w);
      if full {
        EvictOldest();
      }
      assert heap.used == old(heap.used) - EvictedSize(m);
      ghost var o1, p := Owned(), NULL;
      assert heap.blocks == b0 - (o0 - o1);
      stored, p := StoreCopy(add, grant);
      OwnershipMoves(b0, o0, o1, stored, p, data);
      AddEntryRefines(m, w, data, stored);
      AddEntryCounts(m, w, data, stored);
      window := AddWindow(w, entry.Length, data, stored);
    }

    /**
     Finds the slot that holds flat index `charOffset` of the visible entries,
     and the byte within it. The out-parameter is set only when one is found.
     */
    method FindEntryOffsetForFpos(charOffset: size_t, offsetIn: size_t)
      returns (found: Option<nat>, entryOffset: size_t)
      requires Valid()
      ensures found.Some? <==> charOffset as int < |Flat(Visible(Model()))|
      ensures found.None? ==> entryOffset == offsetIn
      ensures found.Some? ==>
                var pos := Locate(Visible(Model()), charOffset as int).value;
                entryOffset as int == pos.offset && found.value == Wrap(outOffs as int + pos.index, entry.Length)
    {
      ghost var m := Model();
      ghost var es := Visible(m);
      var n := entry.Length as size_t;
      var current: size_t := 0;
      var index: size_t := outOffs as size_t;
      VisibleSizes();
      for i := 0 to entry.Length
        invariant index as int == Wrap(outOffs as int + i, entry.Length) < entry.Length
        invariant i <= |es| && current as int == |Flat(es[..i])| <= charOffset as int
        invariant |Flat(es)| < 0x8000_0000_0000_0000
      {
        assert Nth(m, i) == Deref(heap.blocks, entry[index as int]);
        ScanStep(m, i);
        if entry[index as int].buffptr != NULL {
          if current <= charOffset && charOffset < current + entry[index as int].size {
            ScanHit(es, i, charOffset as int);
            return Some(index as int), charOffset - current;
          }
          current := current + entry[index as int].size;
        } else {
          ScanMiss(es, charOffset as int);
          return None, offsetIn;
        }
        WrapIsMod(index as int, entry.Length);
        index := (index + 1) % n;
      }
      ScanMiss(es, charOffset as int);
      return None, offsetIn;
    }

    /** The entry found, as the C function returns it: by its contents. */
    method EntryAt(charOffset: size_t) returns (found: Option<BufferEntry>, offset: size_t)
      requires Valid()
      ensures found.Some? <==> Locate(Visible(Model()), charOffset as int).Some?
      ensures found.Some? ==>
                var pos := Locate(Visible(Model()), charOffset as int).value;
                && offset as int == pos.offset < |Visible(Model())[pos.index]| == found.value.size as int
                && found.value.buffptr in heap.blocks
                && heap.blocks[found.value.buffptr] == Visible(Model())[pos.index]
    {
      var index;
      index, offset := FindEntryOffsetForFpos(charOffset, 0);
      if index.None? {
        return None, offset;
      }
      VisibleSlot(Locate(Visible(Model()), charOffset as int).value.index);
      return Some(entry[index.value]), offset;
    }

    /**
     The flat position of byte `offset` of the command-th visible entry. The
     out-parameter is left alone for a command that no ring can hold, and set
     to 0 for every other miss.
     */
    method FindEntryForIoctl(command: size_t, offset: size_t, offsetIn: size_t)
      returns (found: Option<nat>, flatOffset: size_t)
      requires Valid()
      ensures var es := Visible(Model());
              && (found.Some? <==> command as int < |es| && offset as int < |es[command as int]|)
              && (found.Some? ==> Names(es, Pos(command as int, offset as int), flatOffset as int))
              && (found.Some? ==> found.value == Wrap(outOffs as int + command as int, entry.Length))
              && (found.None? ==> flatOffset == if command as int >= entry.Length then offsetIn else 0)
    {
      var n := entry.Length as size_t;
      if command >= n {
        return None, offsetIn;
      }
      ghost var m := Model();
      ghost var es := Visible(m);
      var current: size_t := 0;
      var index: size_t := outOffs as size_t;
      found, flatOffset := None, 0;
      VisibleSizes();
      for i := 0 to entry.Length
        invariant index as int == Wrap(outOffs as int + i, entry.Length) < entry.Length
        invariant i <= |es| && i <= command as int && current as int == |Flat(es[..i])|
        invariant |Flat(es)| < 0x8000_0000_0000_0000
        invariant found == None && flatOffset == 0
      {
        assert Nth(m, i) == Deref(heap.blocks, entry[index as int]);
        ScanStep(m, i);
        if entry[index as int].buffptr != NULL {
          if i as size_t == command {
            if offset >= entry[index as int].size {
              return None, 0;
            }
            current := current + offset;
            return Some(index as int), current;
          }
          current := current + entry[index as int].size;
        } else {
          return None, 0;
        }
        WrapIsMod(index as int, entry.Length);
        index := (index + 1) % n;
      }
      assert false;
    }

    /** No sum of visible sizes leaves the range of size_t. */
    lemma VisibleSizes()
      requires Valid()
      ensures |Flat(Visible(Model()))| <= size as int < 0x8000_0000_0000_0000
    {
      VisibleWindow(Model(), window);
    }

    /** The slot of the k-th visible entry points to that entry. */
    lemma VisibleSlot(k: nat)
      requires Valid() && k < |Visible(Model())|
      ensures var e := entry[Wrap(outOffs as int + k, entry.Length)];
              && e.buffptr in heap.blocks
              && heap.blocks[e.buffptr] == Visible(Model())[k]
              && |Visible(Model())[k]| == e.size as int
    {
      VisibleAt(Model(), 0, k);
      assert Nth(Model(), k) == Deref(heap.blocks, entry[Wrap(outOffs as int + k, entry.Length)]);
    }

    /** Frees every block of the ring, each once. */
    method Cleanup()
      requires Valid()
      modifies heap
      ensures heap.Valid()
      ensures heap.blocks == old(heap.blocks) - Owned()
    {
      ghost var blocks, es := heap.blocks, entry[..];
      for i := 0 to entry.Length
        invariant heap.Valid()
        invariant heap.blocks == blocks - PointersOf(es[..i])
      {
        if entry[i].buffptr != NULL {
          heap.Free(entry[i].buffptr);
        }
        assert es[..i + 1] == es[..i] + [es[i]];
      }
      assert es[..entry.Length] == es;
    }
  }

  /** A scan that has passed i visible entries meets the next one, or a NULL slot when there is none. */
  lemma ScanStep(r: Ring, i: nat)
    requires InRange(r) && i < |r.entry| && i <= |Visible(r)|
    ensures Nth(r, i).buffptr.Some? <==> i < |Visible(r)|
    ensures i < |Visible(r)| ==> Nth(r, i).buffptr == Some(Visible(r)[i])
    ensures i < |Visible(r)| ==>
              var es := Visible(r);
              |Flat(es[..i + 1])| == |Flat(es[..i])| + |es[i]| <= |Flat(es)|
  {
    VisibleAt(r, 0, i);
    if i < |Visible(r)| {
      FlatStep(Visible(r), i);
    }
  }

  lemma ScanHit(es: seq<Bytes>, i: nat, p: nat)
    requires i < |es| && |Flat(es[..i])| <= p < |Flat(es[..i])| + |es[i]|
    ensures Locate(es, p) == Some(Pos(i, p - |Flat(es[..i])|))
  {
    LocateExact(es, Pos(i, p - |Flat(es[..i])|), p);
  }

  lemma ScanMiss(es: seq<Bytes>, p: nat)
    requires |Flat(es[..|es|])| <= p
    ensures Locate(es, p) == None && |Flat(es)| <= p
  {
    assert es[..|es|] == es;
  }

  /** A heap that keeps the blocks of the slots keeps the ring. */
  lemma RingFrame(es: seq<BufferEntry>, before: map<Ptr, Bytes>, after: map<Ptr, Bytes>)
    requires Owning(before, es) && NULL !in before && NULL !in after
    requires forall p :: p in PointersOf(es) ==> p in after && after[p] == before[p]
    ensures Owning(after, es)
    ensures DerefAll(after, es) == DerefAll(before, es)
  {
  }

  /** One block may leave the slots and one may join them; no other block is touched. */
  lemma OwnershipMoves(b0: map<Ptr, Bytes>, o0: set<Ptr>, o1: set<Ptr>, stored: bool, p: Ptr, data: Bytes)
    requires o1 <= o0 <= b0.Keys && (stored ==> p !in b0 - (o0 - o1))
    ensures var b1 := b0 - (o0 - o1);
            var b2, o2 := if stored then b1[p := data] else b1, if stored then o1 + {p} else o1;
            && b2.Keys == (b0.Keys - o0) + o2
            && o2 !! (b0.Keys - o0)
            && forall q :: q in b0 && q !in o0 ==> b2[q] == b0[q]
  {
  }

  lemma OneSlotLess(es: seq<BufferEntry>, es': seq<BufferEntry>, i: nat, blocks: map<Ptr, Bytes>)
    requires i < |es| && es' == es[i := BufferEntry(NULL, 0)]
    requires Owning(blocks, es) && NULL !in blocks
    ensures Owning(blocks - {es[i].buffptr}, es')
    ensures PointersOf(es') == PointersOf(es) - {es[i].buffptr}
    ensures DerefAll(blocks - {es[i].buffptr}, es') == DerefAll(blocks, es)[i := EMPTY_SLOT]
    ensures blocks - {es[i].buffptr} == blocks - (PointersOf(es) - PointersOf(es'))
  {
    assert forall j :: 0 <= j < |es| && j != i ==> es'[j] == es[j];
  }

  lemma OneSlotMore(es: seq<BufferEntry>, es': seq<BufferEntry>, i: nat, blocks: map<Ptr, Bytes>, p: Ptr, data: Bytes)
    requires i < |es| && |data| < 0x1_0000_0000_0000_0000
    requires es' == es[i := BufferEntry(p, |data| as size_t)]
    requires Owning(blocks, es) && NULL !in blocks && es[i].buffptr == NULL
    requires p != NULL && p !in blocks
    ensures Owning(blocks[p := data], es')
    ensures PointersOf(es') == PointersOf(es) + {p}
    ensures DerefAll(blocks[p := data], es') == DerefAll(blocks, es)[i := SlotOf(data)]
  {
    assert forall j :: 0 <= j < |es| && j != i ==> es'[j] == es[j];
    assert es'[i].buffptr == p;
  }
}
