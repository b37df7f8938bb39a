/**
 The file operations of the driver as functions on the device value. Allocation
 and user-copy failures are inputs, one flag for each place that can fail.
 */
module DeviceModel {
  import opened ByteStrings
  import opened RingModel

  const TWO32 := 0x1_0000_0000
  const TWO63 := 0x8000_0000_0000_0000
  const TWO64 := 0x1_0000_0000_0000_0000

  /** A NULL pending pointer is None; Some([]) is a zero-length allocation. */
  datatype Device = Device(ring: Ring, pending: Option<Bytes>)

  function New(n: nat): Device { Device(Init(n), None) }

  function PendingBytes(d: Device): Bytes {
    if d.pending.None? then [] else d.pending.value
  }

  datatype Outcome = Ok(value: int) | ENOMEM | EFAULT | EINVAL

  // --- write

  datatype Faults = Faults(kbufOk: bool, copyOk: bool, pendingOk: bool, entryOk: bool)

  const NO_FAULTS := Faults(true, true, true, true)

  datatype Written = Written(dev: Device, outcome: Outcome)

  function Write(d: Device, chunk: Bytes, faults: Faults): (w: Written)
    requires InRange(d.ring)
    ensures InRange(w.dev.ring) && |w.dev.ring.entry| == |d.ring.entry|
  {
    if !faults.kbufOk then Written(d, ENOMEM)
    else if !faults.copyOk then Written(d, EFAULT)
    else if NEWLINE in chunk && PendingBytes(d) == [] then
      Written(d.(ring := AddEntry(d.ring, chunk, faults.entryOk)), Ok(|chunk|))
    else if !faults.pendingOk then Written(d, ENOMEM)
    else if NEWLINE in chunk then
      Written(Device(AddEntry(d.ring, PendingBytes(d) + chunk, faults.entryOk), None), Ok(|chunk|))
    else
      Written(d.(pending := Some(PendingBytes(d) + chunk)), Ok(|chunk|))
  }

  /** What the environment is willing to do at each step of one write. */
  datatype Whim = Whim(kbuf: bool, copy: bool, pending: bool, entry: bool)

  const KIND := Whim(true, true, true, true)

  /** The bytes allocated between calls. */
  function UsedBy(d: Device): int { d.ring.size + |PendingBytes(d)| }

  /** Which steps of a write succeed: those the environment is willing to do and there is memory for at that moment. */
  function FaultsOf(d: Device, capacity: nat, chunk: Bytes, whim: Whim): Faults
    requires InRange(d.ring)
  {
    var held := UsedBy(d) + |chunk|;
    var direct := NEWLINE in chunk && PendingBytes(d) == [];
    Faults(
      whim.kbuf && held <= capacity,
      whim.copy,
      whim.pending && held + |PendingBytes(d)| + |chunk| <= capacity,
      whim.entry &&
        (if direct then held - EvictedSize(d.ring) + |chunk|
         else held + |chunk| - EvictedSize(d.ring) + |PendingBytes(d)| + |chunk|) <= capacity)
  }

  /** With memory for two copies of what is held and three of the chunk, only the environment's will decides. */
  lemma AmpleMemory(d: Device, capacity: nat, chunk: Bytes, whim: Whim)
    requires InRange(d.ring) && d.ring.size >= 0
    requires 2 * UsedBy(d) + 3 * |chunk| <= capacity
    ensures FaultsOf(d, capacity, chunk, whim) == Faults(whim.kbuf, whim.copy, whim.pending, whim.entry)
  {
  }

  // --- read

  predicate IsLoff(x: int) { -TWO63 <= x < TWO63 }

  /** The conversion of a signed file position to size_t. */
  function ToSizeT(x: int): nat
    requires -TWO63 <= x
  {
    if x < 0 then x + TWO64 else x
  }

  /** The conversion of any integer to a signed 64-bit file position. */
  function ToLoffT(x: int): (r: int)
    ensures IsLoff(r)
  {
    (x + TWO63) % TWO64 - TWO63
  }

  datatype ReadBack = ReadBack(outcome: Outcome, data: Bytes, fpos: int)

  /** One read serves bytes of one entry only. */
  function ReadEntry(line: Bytes, offset: nat, fpos: int, count: nat, copyOk: bool): (r: ReadBack)
    requires offset <= |line|
    ensures r.fpos == fpos + |r.data|
  {
    var m := Min(count, |line| - offset);
    if !copyOk then ReadBack(EFAULT, [], fpos)
    else ReadBack(Ok(m), line[offset..offset + m], fpos + m)
  }

  function Read(d: Device, fpos: int, count: nat, copyOk: bool): (r: ReadBack)
    requires InRange(d.ring) && -TWO63 <= fpos
    ensures r.fpos == fpos + |r.data|
  {
    match Locate(Visible(d.ring), ToSizeT(fpos))
    case None => ReadBack(Ok(0), [], fpos)
    case Some(pos) => ReadEntry(Visible(d.ring)[pos.index], pos.offset, fpos, count, copyOk)
  }

  // --- seek

  const SEEK_SET := 0
  const SEEK_CUR := 1
  const SEEK_END := 2

  datatype Sought = Sought(outcome: Outcome, fpos: int)

  function Llseek(d: Device, fpos: int, offset: int, whence: int): Sought
    requires IsLoff(fpos) && IsLoff(offset)
  {
    if whence == SEEK_SET then
      if offset < 0 then Sought(EINVAL, fpos) else Sought(Ok(offset), offset)
    else if whence == SEEK_CUR then
      var to := ToLoffT(fpos + offset);
      if to < 0 then Sought(EINVAL, fpos) else Sought(Ok(to), to)
    else if whence == SEEK_END then
      var to := ToLoffT(d.ring.size + offset);
      Sought(Ok(to), to)
    else
      Sought(Ok(fpos), fpos)
  }

  // --- ioctl

  const AESD_IOC_MAGIC := 0x16
  const AESDCHAR_IOC_MAXNR := 1
  /** _IOWR(0x16, 1, struct aesd_seekto): read and write, eight bytes. */
  const AESDCHAR_IOCSEEKTO := 0xC008_1601

  datatype SeekTo = SeekTo(writeCmd: nat, writeCmdOffset: nat)

  /** The flat position of byte `off` of the k-th visible string, or 0 when there is none. */
  function FlatPosition(es: seq<Bytes>, k: nat, off: nat): nat {
    if k < |es| && off < |es[k]| then |Flat(es[..k])| + off else 0
  }

  /** AESDCHAR_IOCSEEKTO: the bound is checked on the physical slot, the position is found from `out_offs`. */
  function SeekToCommand(d: Device, fpos: int, seekto: SeekTo): (r: Sought)
    requires InRange(d.ring)
    ensures r.outcome.Ok? ==> r.fpos >= 0
  {
    if seekto.writeCmd >= |d.ring.entry| then Sought(EINVAL, fpos)
    else if seekto.writeCmdOffset >= d.ring.entry[seekto.writeCmd].size then Sought(EINVAL, fpos)
    else Sought(Ok(0), FlatPosition(Visible(d.ring), seekto.writeCmd, seekto.writeCmdOffset))
  }

  /** `arg` is None when copying the argument from user space fails. */
  function Ioctl(d: Device, fpos: int, cmd: nat, arg: Option<SeekTo>): (r: Sought)
    requires InRange(d.ring)
    ensures r.outcome.Ok? ==> r.fpos >= 0
  {
    if (cmd / 0x100) % 0x100 != AESD_IOC_MAGIC then Sought(EINVAL, fpos)
    else if cmd % 0x100 > AESDCHAR_IOC_MAXNR then Sought(EINVAL, fpos)
    else if cmd == AESDCHAR_IOCSEEKTO then
      match arg
      case None => Sought(EFAULT, fpos)
      case Some(seekto) => SeekToCommand(d, fpos, seekto)
    else Sought(EINVAL, fpos)
  }
}
