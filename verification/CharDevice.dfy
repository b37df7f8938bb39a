/**
 The character device: the circular buffer and the pending buffer over one
 kernel heap, and the file operations on them. Each method is proved equal to
 the operation of `DeviceModel`; `Valid` is the ownership discipline.
 */
module CharDevice {
  import opened ByteStrings
  import opened Memory
  import opened RingModel
  import opened DeviceModel
  import DeviceReads
  import DeviceRuns
  import CB = CircularBuffer
  import TB = TemporaryBuffer

  /** struct file, as far as the driver uses it. */
  class OpenFile {
    var fPos: loff_t

    constructor ()
      ensures fPos == 0
    {
      fPos := 0;
    }
  }

  class CharDevice {
    const heap: Heap
    const ring: CB.CircularBuffer
    const pending: TB.TemporaryBuffer

    /** The two buffers are well-formed and own disjoint blocks. */
    ghost predicate Parts()
      reads this, heap, ring, ring.heap, ring.entry, pending, pending.heap
    {
      && ring.heap == heap && pending.heap == heap
      && ring.Valid() && pending.Valid()
      && ring.Owned() !! pending.Owned()
    }

    /** Between calls the live blocks are exactly those of the slots and of the pending pointer. */
    ghost predicate Valid()
      reads this, heap, ring, ring.heap, ring.entry, pending, pending.heap
    {
      && Parts()
      && heap.blocks.Keys == ring.Owned() + pending.Owned()
      && heap.used == ring.size as int + pending.size as int
    }

    /** During a write there is one more block, the kernel copy of the chunk. */
    ghost predicate Borrowing(kbuf: Ptr, chunk: Bytes)
      reads this, heap, ring, ring.heap, ring.entry, pending, pending.heap
    {
      && Parts()
      && kbuf in heap.blocks && heap.blocks[kbuf] == chunk
      && kbuf !in ring.Owned() && kbuf !in pending.Owned()
      && heap.blocks.Keys == ring.Owned() + pending.Owned() + {kbuf}
      && heap.used == ring.size as int + pending.size as int + |chunk|
    }

    ghost function Model(): Device
      requires Parts()
      reads this, heap, ring, ring.heap, ring.entry, pending, pending.heap
    {
      Device(ring.Model(), pending.Model())
    }

    /**
     In every valid state the flat string is addressable by signed 64-bit
     positions, and it is all of the byte count unless an empty slot hides it.
     */
    lemma FlatStringFits()
      requires Valid()
      ensures DeviceReads.Addressable(Model())
      ensures ring.window.gap == 0 ==> DeviceReads.Whole(Model())
    {
      ring.VisibleSizes();
      VisibleWindow(ring.Model(), ring.window);
    }

    /** The part of aesd_init_module that sets up the data. */
    constructor (heap: Heap, n: nat)
      requires heap.Valid() && heap.blocks == map[] && 0 < n < 256
      ensures Valid() && this.heap == heap && Model() == New(n)
      ensures fresh(ring) && fresh(ring.entry) && fresh(pending)
    {
      this.heap := heap;
      ring := new CB.CircularBuffer(heap, n);
      pending := new TB.TemporaryBuffer(heap);
    }

    // --- write

    /** The kernel copy of the chunk, or the reason there is none. */
    method TakeChunk(chunk: Bytes, whim: Whim) returns (kbuf: Ptr, r: Outcome)
      requires Valid() && |chunk| < TWO64
      modifies heap
      ensures r.Ok? ==> kbuf != NULL && Borrowing(kbuf, chunk)
      ensures !r.Ok? ==> Valid()
      ensures Model() == old(Model())
      ensures r.Ok? ==> heap.used == old(heap.used) + |chunk|
      ensures r == if !(whim.kbuf && old(heap.used) + |chunk| <= heap.capacity) then ENOMEM
                   else if !whim.copy then EFAULT
                   else Ok(0)
    {
      ghost var blocks := heap.blocks;
      kbuf := heap.Alloc(|chunk| as size_t, whim.kbuf);
      if kbuf == NULL {
        return kbuf, ENOMEM;
      }
      CB.RingFrame(ring.entry[..], blocks, heap.blocks);
      if !whim.copy {
        heap.Free(kbuf);
        assert heap.blocks == blocks;
        return kbuf, EFAULT;
      }
      heap.Copy(kbuf, 0, chunk);
      assert heap.blocks[kbuf] == chunk;
      CB.RingFrame(ring.entry[..], blocks, heap.blocks);
      return kbuf, Ok(0);
    }

    method HoldsNewline(kbuf: Ptr, count: size_t) returns (newline: bool)
      requires kbuf in heap.blocks && |heap.blocks[kbuf]| == count as int
      ensures newline <==> NEWLINE in heap.blocks[kbuf]
    {
      newline := false;
      var i: size_t := 0;
      while i < count
        invariant i <= count && NEWLINE !in heap.blocks[kbuf][..i as int]
      {
        if heap.blocks[kbuf][i as int] == NEWLINE {
          return true;
        }
        i := i + 1;
      }
    }

    /** Appends the chunk to the pending bytes. */
    method Hold(kbuf: Ptr, count: size_t, ghost chunk: Bytes, grant: bool) returns (ok: bool)
      requires Borrowing(kbuf, chunk) && |chunk| == count as int
      modifies pending, heap
      ensures Borrowing(kbuf, chunk)
      ensures ok <==> grant && old(heap.used) + old(pending.size as int) + |chunk| <= heap.capacity
      ensures !ok ==> Model() == old(Model()) && heap.used == old(heap.used)
      ensures ok ==> Model() == old(Model()).(pending := Some(PendingBytes(old(Model())) + chunk))
      ensures ok ==> pending.buffptr != NULL && pending.size as int == old(pending.size as int) + |chunk|
      ensures ok ==> heap.used == old(heap.used) + |chunk|
    {
      ghost var blocks := heap.blocks;
      assert heap.Load(kbuf, count) == chunk;
      ok := pending.Add(kbuf, count, grant);
      CB.RingFrame(ring.entry[..], blocks, heap.blocks);
    }

    /** Commits the chunk as an entry of its own. */
    method CommitChunk(kbuf: Ptr, count: size_t, ghost chunk: Bytes, grant: bool) returns (ghost stored: bool)
      requires Borrowing(kbuf, chunk) && |chunk| == count as int
      modifies ring, ring.entry, heap
      ensures Borrowing(kbuf, chunk)
      ensures Model() == old(Model()).(ring := AddEntry(old(ring.Model()), chunk, stored))
      ensures stored <==> grant && old(heap.used) - EvictedSize(old(ring.Model())) + |chunk| <= heap.capacity
    {
      stored := ring.AddEntry(CB.BufferEntry(kbuf, count), grant);
    }

    /** Commits the pending bytes as an entry, and empties the pending buffer. */
    method CommitPending(kbuf: Ptr, ghost chunk: Bytes, grant: bool) returns (ghost stored: bool)
      requires Borrowing(kbuf, chunk) && pending.buffptr != NULL
      modifies ring, ring.entry, pending, heap
      ensures Borrowing(kbuf, chunk)
      ensures Model() == Device(AddEntry(old(ring.Model()), PendingBytes(old(Model())), stored), None)
      ensures stored <==>
                grant && old(heap.used) - EvictedSize(old(ring.Model())) + old(pending.size as int) <= heap.capacity
    {
      stored := ring.AddEntry(CB.BufferEntry(pending.buffptr, pending.size), grant);
      ghost var blocks := heap.blocks;
      pending.Clean();
      CB.RingFrame(ring.entry[..], blocks, heap.blocks);
    }

    /** Frees the kernel copy. */
    method DropChunk(kbuf: Ptr, ghost chunk: Bytes)
      requires Borrowing(kbuf, chunk)
      modifies heap
      ensures Valid() && Model() == old(Model())
    {
      ghost var blocks := heap.blocks;
      heap.Free(kbuf);
      CB.RingFrame(ring.entry[..], blocks, heap.blocks);
    }

    /** Between calls, what is allocated is what the model counts. */
    lemma UsedIsModel()
      requires Parts()
      ensures UsedBy(Model()) == ring.size as int + pending.size as int
      ensures |PendingBytes(Model())| == pending.size as int
    {
    }

    /** The body of aesd_write once the chunk is in `kbuf`; what is refused is what `FaultsOf` says. */
    method AcceptChunk(kbuf: Ptr, count: size_t, ghost chunk: Bytes, whim: Whim) returns (r: Outcome)
      requires Borrowing(kbuf, chunk) && |chunk| == count as int
      requires whim.kbuf && whim.copy
      modifies ring, ring.entry, pending, heap
      ensures Borrowing(kbuf, chunk)
      ensures Written(Model(), r)
           == DeviceModel.Write(old(Model()), chunk, FaultsOf(old(Model()), heap.capacity, chunk, whim))
    {
      UsedIsModel();
      var newline := HoldsNewline(kbuf, count);
      var empty := pending.IsEmpty();
      assert empty <==> PendingBytes(Model()) == [];
      if newline && empty {
        ghost var stored := CommitChunk(kbuf, count, chunk, whim.entry);
        return Ok(count as int);
      }
      var ok := Hold(kbuf, count, chunk, whim.pending);
      if !ok {
        return ENOMEM;
      }
      if newline {
        ghost var stored := CommitPending(kbuf, chunk, whim.entry);
      }
      return Ok(count as int);
    }

    /** aesd_write: which of its steps fail is decided by the whim and by the memory free at each of them. */
    method Write(chunk: Bytes, whim: Whim) returns (r: Outcome)
      requires Valid() && |chunk| < TWO64
      modifies ring, ring.entry, pending, heap
      ensures Valid()
      ensures Written(Model(), r)
           == DeviceModel.Write(old(Model()), chunk, FaultsOf(old(Model()), heap.capacity, chunk, whim))
    {
      UsedIsModel();
      var kbuf: Ptr;
      kbuf, r := TakeChunk(chunk, whim);
      if r.Ok? {
        r := AcceptChunk(kbuf, |chunk| as size_t, chunk, whim);
        DropChunk(kbuf, chunk);
      }
    }

    // --- read, llseek, ioctl

    method Read(f: OpenFile, count: size_t, copyOk: bool) returns (r: Outcome, data: Bytes)
      requires Valid()
      modifies f
      ensures ReadBack(r, data, f.fPos as int) == DeviceModel.Read(Model(), old(f.fPos as int), count as int, copyOk)
    {
      var at := ToUnsigned(f.fPos);
      var entry, offset := ring.EntryAt(at);
      if entry.None? {
        return Ok(0), [];
      }
      EntryFits(at as int);
      r, data := ServeEntry(f, entry.value, offset, count, copyOk);
    }

    /** A position within the flat string leaves room for the rest of its entry. */
    lemma EntryFits(p: nat)
      requires Valid() && p < |Flat(Visible(ring.Model()))|
      ensures var pos := Locate(Visible(ring.Model()), p).value;
              p + |Visible(ring.Model())[pos.index]| - pos.offset < TWO63
    {
      var es := Visible(ring.Model());
      var pos := Locate(es, p).value;
      ring.VisibleSizes();
      NamesBytes(es, pos, p, |es[pos.index]| - pos.offset);
    }

    /** Copies out of the entry from `offset` on, and moves the file position. */
    method ServeEntry(f: OpenFile, e: CB.BufferEntry, offset: size_t, count: size_t, copyOk: bool)
      returns (r: Outcome, data: Bytes)
      requires e.buffptr in heap.blocks && |heap.blocks[e.buffptr]| == e.size as int
      requires offset < e.size && 0 <= f.fPos && f.fPos as int + e.size as int - offset as int < TWO63
      modifies f
      ensures ReadBack(r, data, f.fPos as int)
           == ReadEntry(heap.blocks[e.buffptr], offset as int, old(f.fPos as int), count as int, copyOk)
    {
      var available := e.size - offset;
      var toCopy := if count < available then count else available;
      if !copyOk {
        return EFAULT, [];
      }
      f.fPos := f.fPos + toCopy as loff_t;
      return Ok(toCopy as int), heap.blocks[e.buffptr][offset as int..offset as int + toCopy as int];
    }

    function ToUnsigned(x: loff_t): (r: size_t)
      ensures r as int == ToSizeT(x as int)
    {
      if x < 0 then (x as int + TWO64) as size_t else x as size_t
    }

    method Llseek(f: OpenFile, offset: loff_t, whence: int) returns (r: Outcome)
      requires Valid()
      modifies f
      ensures Sought(r, f.fPos as int) == DeviceModel.Llseek(Model(), old(f.fPos as int), offset as int, whence)
    {
      if whence == SEEK_SET {
        if offset < 0 {
          return EINVAL;
        }
        f.fPos := offset;
      } else if whence == SEEK_CUR {
        if ToLoffT(f.fPos as int + offset as int) < 0 {
          return EINVAL;
        }
        f.fPos := ToLoffT(f.fPos as int + offset as int) as loff_t;
      } else if whence == SEEK_END {
        f.fPos := ToLoffT(ring.size as int + offset as int) as loff_t;
      }
      return Ok(f.fPos as int);
    }

    method Ioctl(f: OpenFile, cmd: nat, arg: Option<SeekTo>) returns (r: Outcome)
      requires Valid() && cmd < TWO32
      requires arg.Some? ==> arg.value.writeCmd < TWO32 && arg.value.writeCmdOffset < TWO32
      modifies f
      ensures Sought(r, f.fPos as int) == DeviceModel.Ioctl(Model(), old(f.fPos as int), cmd, arg)
    {
      if (cmd / 0x100) % 0x100 != AESD_IOC_MAGIC {
        return EINVAL;
      }
      if cmd % 0x100 > AESDCHAR_IOC_MAXNR {
        return EINVAL;
      }
      if cmd != AESDCHAR_IOCSEEKTO {
        return EINVAL;
      }
      if arg.None? {
        return EFAULT;
      }
      r := SeekToEntry(f, arg.value.writeCmd as size_t, arg.value.writeCmdOffset as size_t);
    }

    method SeekToEntry(f: OpenFile, writeCmd: size_t, writeCmdOffset: size_t) returns (r: Outcome)
      requires Valid()
      modifies f
      ensures Sought(r, f.fPos as int)
           == SeekToCommand(Model(), old(f.fPos as int), SeekTo(writeCmd as nat, writeCmdOffset as nat))
    {
      if writeCmd as int >= ring.entry.Length {
        return EINVAL;
      }
      assert ring.Model().entry[writeCmd as int] == CB.Deref(heap.blocks, ring.entry[writeCmd as int]);
      if writeCmdOffset >= ring.entry[writeCmd as int].size {
        return EINVAL;
      }
      ring.VisibleSizes();
      var found, offset := ring.FindEntryForIoctl(writeCmd, writeCmdOffset, 0);
      if found.Some? {
        FlatStep(Visible(ring.Model()), writeCmd as int);
      }
      f.fPos := offset as loff_t;
      return Ok(0);
    }

    // --- the end

    /** aesd_cleanup_module: every data block is freed, each once. */
    method Cleanup()
      requires Valid()
      modifies heap, pending
      ensures heap.Valid() && heap.blocks == map[]
    {
      ghost var blocks := heap.blocks;
      ring.Cleanup();
      pending.Clean();
    }
  }

  /** One more write is one more step of the pure run. */
  method WriteOne(dev: CharDevice, n: nat, ghost ops: seq<DeviceRuns.WriteOp>, chunk: Bytes, whim: Whim)
    returns (r: Outcome)
    requires dev.Valid() && n > 0 && dev.Model() == DeviceRuns.WriteRun(n, ops) && |chunk| < TWO64
    modifies dev.ring, dev.ring.entry, dev.pending, dev.heap
    ensures dev.Valid()
    ensures var op := DeviceRuns.OpAfter(n, dev.heap.capacity, ops, chunk, whim);
            dev.Model() == DeviceRuns.WriteRun(n, ops + [op]) && r == DeviceRuns.OutcomeAfter(n, ops, op)
  {
    ghost var op := DeviceRuns.OpAfter(n, dev.heap.capacity, ops, chunk, whim);
    r := dev.Write(chunk, whim);
    DeviceRuns.WriteRunStep(n, ops, op);
  }

  /** Any writes under any whims: the states and the results are those of the pure run they determine. */
  method WriteAll(dev: CharDevice, n: nat, chunks: seq<Bytes>, whims: seq<Whim>) returns (results: seq<Outcome>)
    requires dev.Valid() && n > 0 && dev.Model() == New(n)
    requires |chunks| == |whims| && forall c :: c in chunks ==> |c| < TWO64
    modifies dev.ring, dev.ring.entry, dev.pending, dev.heap
    ensures dev.Valid()
    ensures var ops := DeviceRuns.OpsOf(n, dev.heap.capacity, chunks, whims);
            dev.Model() == DeviceRuns.WriteRun(n, ops) && results == DeviceRuns.Outcomes(n, ops)
  {
    results := [];
    ghost var ops := [];
    for i := 0 to |chunks|
      invariant dev.Valid()
      invariant ops == DeviceRuns.OpsOf(n, dev.heap.capacity, chunks[..i], whims[..i])
      invariant dev.Model() == DeviceRuns.WriteRun(n, ops) && results == DeviceRuns.Outcomes(n, ops)
    {
      assert chunks[i] in chunks;
      var r := WriteOne(dev, n, ops, chunks[i], whims[i]);
      DeviceRuns.OpsOfStep(n, dev.heap.capacity, chunks, whims, i);
      ops := ops + [DeviceRuns.OpAfter(n, dev.heap.capacity, ops, chunks[i], whims[i])];
      results := results + [r];
    }
    assert chunks[..|chunks|] == chunks && whims[..|whims|] == whims;
  }
}
