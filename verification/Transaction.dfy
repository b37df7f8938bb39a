/**
 One transaction of a client thread, from taking `fileMutex` to releasing it,
 on the driver itself: parse, then seek or append, then read back to the end.
 It is proved equal to the exchange of the value model.
 */
module Transaction {
  import opened ByteStrings
  import opened Memory
  import opened RingModel
  import opened DeviceModel
  import opened DeviceRuns
  import opened DeviceReads
  import opened CommandParser
  import opened Exchange
  import CD = CharDevice

  /**
   The send loop: stdio fills blocks by reads of `block` bytes until one returns
   nothing. All that lies behind the file position is sent.
   */
  method SendRest(dev: CD.CharDevice, f: CD.OpenFile, block: size_t) returns (sent: Bytes)
    requires dev.Valid() && block > 0
    requires 0 <= f.fPos as int <= |FlatOf(dev.Model())|
    modifies f
    ensures sent == FlatOf(dev.Model())[old(f.fPos as int)..]
    ensures f.fPos as int == |FlatOf(dev.Model())|
  {
    ghost var text, start := FlatOf(dev.Model()), f.fPos as int;
    sent := [];
    while true
      invariant dev.Valid() && FlatOf(dev.Model()) == text
      invariant start <= f.fPos as int <= |text| && sent == text[start..f.fPos as int]
      decreases |text| - f.fPos as int
    {
      ghost var p := f.fPos as int;
      var data := ReadBlock(dev, f, block);
      if data == [] {
        break;
      }
      assert text[start..p] + text[p..f.fPos as int] == text[start..f.fPos as int];
      sent := sent + data;
    }
  }

  /** One read: the next piece of the flat string, empty only at its end. */
  method ReadBlock(dev: CD.CharDevice, f: CD.OpenFile, block: size_t) returns (data: Bytes)
    requires dev.Valid() && block > 0
    requires 0 <= f.fPos as int <= |FlatOf(dev.Model())|
    modifies f
    ensures old(f.fPos) <= f.fPos && f.fPos as int <= |FlatOf(dev.Model())|
    ensures data == FlatOf(dev.Model())[old(f.fPos as int)..f.fPos as int]
    ensures data == [] <==> old(f.fPos as int) == |FlatOf(dev.Model())|
  {
    ReadExact(dev.Model(), f.fPos as int, block as int, true);
    var r;
    r, data := dev.Read(f, block, true);
  }

  /** The ioctl of a fresh file; it never leaves a position outside the flat string. */
  method SeekFile(dev: CD.CharDevice, f: CD.OpenFile, command: SeekTo) returns (died: bool)
    requires dev.Valid() && f.fPos == 0
    requires command.writeCmd < TWO32 && command.writeCmdOffset < TWO32
    modifies f
    ensures var at := DeviceModel.Ioctl(dev.Model(), 0, AESDCHAR_IOCSEEKTO, Some(command));
            && (died <==> !at.outcome.Ok?)
            && f.fPos as int == at.fpos
            && 0 <= at.fpos <= |FlatOf(dev.Model())|
  {
    var r := dev.Ioctl(f, AESDCHAR_IOCSEEKTO, Some(command));
    died := !r.Ok?;
    FlatPositionInside(Visible(dev.ring.Model()), command.writeCmd, command.writeCmdOffset);
  }

  method SeekAndSend(dev: CD.CharDevice, command: SeekTo, block: size_t) returns (sent: Bytes, died: bool)
    requires dev.Valid() && block > 0
    requires command.writeCmd < TWO32 && command.writeCmdOffset < TWO32
    ensures Exchanged(dev.Model(), sent, died) == SeekExchange(dev.Model(), command)
  {
    var f := new CD.OpenFile();
    sent := [];
    died := SeekFile(dev, f, command);
    if !died {
      sent := SendRest(dev, f, block);
    }
  }

  /** Opens the device and sends all it shows. */
  method SendAll(dev: CD.CharDevice, block: size_t) returns (sent: Bytes)
    requires dev.Valid() && block > 0
    ensures sent == FlatOf(dev.Model())
  {
    var f := new CD.OpenFile();
    sent := SendRest(dev, f, block);
  }

  method AppendAndSend(dev: CD.CharDevice, buffer: Bytes, whim: Whim, block: size_t) returns (sent: Bytes)
    requires dev.Valid() && |buffer| < TWO64 && block > 0
    modifies dev.ring, dev.ring.entry, dev.pending, dev.heap
    ensures dev.Valid()
    ensures Exchanged(dev.Model(), sent, false)
         == AppendExchange(old(dev.Model()), buffer, FaultsOf(old(dev.Model()), dev.heap.capacity, buffer, whim))
  {
    var _ := dev.Write(buffer, whim);
    sent := SendAll(dev, block);
  }

  /**
   The body of the critical section. `died` stands for the process ending
   because the ioctl was refused. What becomes of the device and what is sent
   is the exchange of the value model, with the faults that the whim and the
   memory decide.
   */
  method Transact(dev: CD.CharDevice, buffer: Bytes, whim: Whim, block: size_t) returns (sent: Bytes, died: bool)
    requires dev.Valid() && |buffer| < TWO64 && block > 0
    modifies dev.ring, dev.ring.entry, dev.pending, dev.heap
    ensures dev.Valid()
    ensures Exchanged(dev.Model(), sent, died)
         == ExchangeOf(old(dev.Model()), buffer, FaultsOf(old(dev.Model()), dev.heap.capacity, buffer, whim))
    ensures ParseCommand(buffer, |buffer|).None? ==> !died && sent == Flat(Visible(dev.Model().ring))
    ensures ParseCommand(buffer, |buffer|).Some? ==> dev.Model() == old(dev.Model())
  {
    ghost var d := dev.Model();
    ghost var faults := FaultsOf(d, dev.heap.capacity, buffer, whim);
    var found, command := CheckForCommandInString(buffer, |buffer|, SeekTo(0, 0));
    assert ExchangeOf(d, buffer, faults)
        == if found then SeekExchange(d, command) else AppendExchange(d, buffer, faults);
    if found {
      sent, died := SeekAndSend(dev, command, block);
    } else {
      died := false;
      sent := AppendAndSend(dev, buffer, whim, block);
    }
  }

  // --- a whole life

  method WriteAndSee(dev: CD.CharDevice, n: nat, chunks: seq<Bytes>, whims: seq<Whim>, block: size_t)
    returns (results: seq<Outcome>, seen: Bytes)
    requires dev.Valid() && n > 0 && dev.Model() == New(n) && block > 0
    requires |chunks| == |whims| && forall c :: c in chunks ==> |c| < TWO64
    modifies dev.ring, dev.ring.entry, dev.pending, dev.heap
    ensures dev.Valid()
    ensures var ops := OpsOf(n, dev.heap.capacity, chunks, whims);
            results == Outcomes(n, ops) && seen == FlatOf(WriteRun(n, ops))
  {
    results := CD.WriteAll(dev, n, chunks, whims);
    seen := SendAll(dev, block);
  }

  /**
   From loading the module to unloading it: any writes under any whims, then a
   client that reads everything, then cleanup. The results and what the client
   reads are those of the pure run, and no block is leaked.
   */
  method Lifetime(capacity: nat, n: nat, chunks: seq<Bytes>, whims: seq<Whim>, block: size_t)
    returns (heap: Heap, results: seq<Outcome>, seen: Bytes)
    requires capacity < TWO63 && 0 < n < 256 && block > 0
    requires |chunks| == |whims| && forall c :: c in chunks ==> |c| < TWO64
    ensures var ops := OpsOf(n, capacity, chunks, whims);
            results == Outcomes(n, ops) && seen == FlatOf(WriteRun(n, ops))
    ensures heap.Valid() && heap.blocks == map[]
  {
    heap := new Heap(capacity);
    var dev := new CD.CharDevice(heap, n);
    results, seen := WriteAndSee(dev, n, chunks, whims, block);
    dev.Cleanup();
  }

  /**
   The same with a kind environment and memory for three copies of the stream:
   every write reports its length, and the client reads the last n messages.
   */
  method KindLifetime(capacity: nat, n: nat, chunks: seq<Bytes>, block: size_t)
    returns (heap: Heap, results: seq<Outcome>, seen: Bytes)
    requires capacity < TWO63 && 0 < n < 256 && block > 0
    requires 3 * |Flat(chunks)| <= capacity && forall c :: c in chunks ==> |c| < TWO64
    ensures |results| == |chunks| && forall i :: 0 <= i < |chunks| ==> results[i] == Ok(|chunks[i]|)
    ensures seen == Flat(LastN(Messages(chunks), n))
    ensures heap.Valid() && heap.blocks == map[]
  {
    heap, results, seen := Lifetime(capacity, n, chunks, Kind(|chunks|), block);
    KindRun(n, capacity, chunks);
    PlainOutcomes(n, chunks);
    PlainRun(n, chunks);
  }
}
