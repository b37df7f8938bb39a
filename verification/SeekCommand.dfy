/**
 The seek command of the ioctl: it checks its bound on the physical slot and
 moves to the logical one. When that is the seek its documentation promises.
 */
module SeekCommand {
  import opened ByteStrings
  import opened RingModel
  import opened RingRuns
  import opened DeviceModel
  import opened DeviceRuns

  /** _IOWR of <asm-generic/ioctl.h>: direction read and write, size, type and number, from the top bits down. */
  function IoWR(magic: nat, nr: nat, size: nat): nat {
    3 * 0x4000_0000 + size * 0x1_0000 + magic * 0x100 + nr
  }

  /**
   The word _IOWR(0x16, 1, two 32-bit numbers) passes the tests on type and
   number; of all 32-bit command words only it has any effect.
   */
  lemma IoctlDispatch(d: Device, fpos: int, cmd: nat, arg: Option<SeekTo>)
    requires InRange(d.ring) && cmd < TWO32
    ensures Ioctl(d, fpos, cmd, arg) ==
              if cmd != IoWR(0x16, 1, 8) then Sought(EINVAL, fpos)
              else if arg.None? then Sought(EFAULT, fpos)
              else SeekToCommand(d, fpos, arg.value)
  {
  }

  /**
   All outcomes. Success is 0, decided by the physical slot alone; it moves to
   the byte named among the visible entries, or to 0 when there is no such byte.
   */
  lemma SeekOutcome(d: Device, fpos: int, seekto: SeekTo)
    requires InRange(d.ring)
    ensures var es, r := Visible(d.ring), SeekToCommand(d, fpos, seekto);
            var cmd, off := seekto.writeCmd, seekto.writeCmdOffset;
            if cmd < |d.ring.entry| && off < d.ring.entry[cmd].size then
              && r.outcome == Ok(0)
              && (cmd < |es| && off < |es[cmd]| ==> Names(es, Pos(cmd, off), r.fpos))
              && (cmd >= |es| || off >= |es[cmd]| ==> r.fpos == 0)
            else
              r == Sought(EINVAL, fpos)
  {
  }

  /** The documented meaning: succeed exactly on a byte of the k-th visible entry, and move to its flat position. */
  predicate SeekMeets(d: Device, fpos: int, seekto: SeekTo)
    requires InRange(d.ring)
  {
    var es, r := Visible(d.ring), SeekToCommand(d, fpos, seekto);
    && (r.outcome.Ok? <==> seekto.writeCmd < |es| && seekto.writeCmdOffset < |es[seekto.writeCmd]|)
    && (r.outcome.Ok? ==> Names(es, Pos(seekto.writeCmd, seekto.writeCmdOffset), r.fpos))
    && (!r.outcome.Ok? ==> r.fpos == fpos)
  }

  /** The physical slot and the logical one give the same answer to the bound check. */
  predicate BoundsAgree(r: Ring, cmd: nat, off: nat)
    requires InRange(r)
  {
    cmd < |r.entry| ==> (off < r.entry[cmd].size <==> off < Nth(r, cmd).size)
  }

  lemma LogicalSize(d: Device, w: Window, cmd: nat)
    requires Represents(d.ring, w) && w.gap == 0 && cmd < |d.ring.entry|
    ensures Nth(d.ring, cmd).size == if cmd < |Visible(d.ring)| then |Visible(d.ring)[cmd]| else 0
  {
    VisibleWindow(d.ring, w);
    assert Nth(d.ring, cmd) == SlotAt(w, cmd);
  }

  /** Readers meet an entry: the first slot they come to is in use. */
  predicate Showing(r: Ring)
    requires InRange(r)
  {
    Nth(r, 0).buffptr.Some?
  }

  /** A ring that shows nothing holds nothing, or has an empty slot in front of what it holds. */
  lemma ShowingIs(r: Ring, w: Window)
    requires Represents(r, w)
    ensures Showing(r) <==> w.gap == 0 && w.live != []
    ensures !Showing(r) ==> Visible(r) == []
  {
    assert Nth(r, 0) == SlotAt(w, 0);
  }

  /**
   Argument by argument, in every state. While the ring shows its entries the
   command does what it promises iff the two slots agree on the bound; when it
   shows nothing, iff the physical slot refuses.
   */
  lemma SeekMeetsExactly(d: Device, w: Window, fpos: int, seekto: SeekTo)
    requires Represents(d.ring, w)
    ensures var cmd, off := seekto.writeCmd, seekto.writeCmdOffset;
            SeekMeets(d, fpos, seekto) <==>
              if Showing(d.ring) then BoundsAgree(d.ring, cmd, off)
              else cmd < |d.ring.entry| ==> off >= d.ring.entry[cmd].size
  {
    ShowingIs(d.ring, w);
    if Showing(d.ring) {
      VisibleWindow(d.ring, w);
      if seekto.writeCmd < |d.ring.entry| {
        LogicalSize(d, w, seekto.writeCmd);
      }
    }
  }

  /** Sizes as far as a 32-bit offset can tell them apart. */
  function Seen(size: nat): nat { Min(size, TWO32) }

  predicate SizesAgree(r: Ring)
    requires InRange(r)
  {
    forall i :: 0 <= i < |r.entry| ==> Seen(r.entry[i].size) == Seen(Nth(r, i).size)
  }

  /** The states in which the seek command can be trusted. */
  predicate SeeksExactly(r: Ring)
    requires InRange(r)
  {
    if Showing(r) then SizesAgree(r) else r.size == 0
  }

  lemma PhysicalSlot(r: Ring, w: Window, i: nat)
    requires Represents(r, w) && i < |r.entry|
    ensures r.entry[i] == SlotAt(w, if i >= r.outOffs then i - r.outOffs else i + |r.entry| - r.outOffs)
  {
    var k := if i >= r.outOffs then i - r.outOffs else i + |r.entry| - r.outOffs;
    assert r.entry[i] == Nth(r, k);
  }

  /** No byte is counted iff every slot refuses every offset. */
  lemma SizeZero(r: Ring, w: Window)
    requires Represents(r, w)
    ensures r.size == 0 <==> forall i :: 0 <= i < |r.entry| ==> r.entry[i].size == 0
  {
    FlatEmpty(w.live);
    if r.size == 0 {
      forall i | 0 <= i < |r.entry|
        ensures r.entry[i].size == 0
      {
        PhysicalSlot(r, w, i);
      }
    } else {
      var k :| 0 <= k < |w.live| && |w.live[k]| != 0;
      assert Nth(r, w.gap + k) == SlotAt(w, w.gap + k) == SlotOf(w.live[k]);
    }
  }

  /**
   State by state, in every state: it does so for all 32-bit arguments iff
   rotating the slots by `out_offs` keeps the sizes or, when the ring shows
   nothing, iff it counts nothing either.
   */
  lemma SeekAlwaysMeetsExactly(d: Device, w: Window, fpos: int)
    requires Represents(d.ring, w) && |d.ring.entry| < TWO32
    ensures (forall cmd: nat, off: nat :: cmd < TWO32 && off < TWO32 ==> SeekMeets(d, fpos, SeekTo(cmd, off)))
       <==> SeeksExactly(d.ring)
  {
    var r := d.ring;
    SizeZero(r, w);
    if SeeksExactly(r) {
      forall cmd: nat, off: nat | cmd < TWO32 && off < TWO32
        ensures SeekMeets(d, fpos, SeekTo(cmd, off))
      {
        SeekMeetsExactly(d, w, fpos, SeekTo(cmd, off));
      }
    } else {
      var i, off := SeekFails(r, w);
      SeekMeetsExactly(d, w, fpos, SeekTo(i, off));
      assert !SeekMeets(d, fpos, SeekTo(i, off));
    }
  }

  lemma SeekFails(r: Ring, w: Window) returns (cmd: nat, off: nat)
    requires Represents(r, w) && !SeeksExactly(r)
    ensures cmd < |r.entry| && off < TWO32
    ensures if Showing(r) then !BoundsAgree(r, cmd, off) else off < r.entry[cmd].size
  {
    if Showing(r) {
      cmd, off := SizesDiffer(r);
    } else {
      SizeZero(r, w);
      cmd :| 0 <= cmd < |r.entry| && r.entry[cmd].size != 0;
      off := 0;
    }
  }

  lemma SizesDiffer(r: Ring) returns (cmd: nat, off: nat)
    requires InRange(r) && !SizesAgree(r)
    ensures cmd < |r.entry| && off < TWO32 && !BoundsAgree(r, cmd, off)
  {
    cmd :| 0 <= cmd < |r.entry| && Seen(r.entry[cmd].size) != Seen(Nth(r, cmd).size);
    off := Min(r.entry[cmd].size, Nth(r, cmd).size);
  }

  /**
   Two families of states in which the sizes agree: an unwrapped ring, and a
   full ring of equal entries. With no empty slot in front that is enough.
   */
  lemma SizesAgreeWhen(d: Device, w: Window, len: nat)
    requires Represents(d.ring, w)
    requires d.ring.outOffs == 0 || (|w.live| == |d.ring.entry| && forall e :: e in w.live ==> |e| == len)
    ensures SizesAgree(d.ring)
    ensures w.gap == 0 ==> SeeksExactly(d.ring)
  {
    var r, n := d.ring, |d.ring.entry|;
    ShowingIs(r, w);
    forall i | 0 <= i < n
      ensures r.entry[i].size == Nth(r, i).size
    {
      if r.outOffs != 0 {
        var k := if i >= r.outOffs then i - r.outOffs else i + n - r.outOffs;
        PhysicalSlot(r, w, i);
        assert Nth(r, i) == SlotAt(w, i);
        assert w.live[k] in w.live && w.live[i] in w.live;
      }
    }
  }

  /** One-line writes, each with its entry allocation granted or not. */
  function LineOps(grants: seq<bool>): (ops: seq<WriteOp>)
    ensures |ops| == |grants|
  {
    seq(|grants|, i requires 0 <= i < |grants| => WriteOp([NEWLINE], NO_FAULTS.(entryOk := grants[i])))
  }

  lemma LineWritten(n: nat, grants: seq<bool>, ok: bool, r: Ring, r': Ring)
    requires n > 0 && InRange(r) && WriteRun(n, LineOps(grants)) == Device(r, None)
    requires r' == AddEntry(r, [NEWLINE], ok)
    ensures WriteRun(n, LineOps(grants + [ok])) == Device(r', None)
  {
    assert LineOps(grants + [ok]) == LineOps(grants) + [WriteOp([NEWLINE], NO_FAULTS.(entryOk := ok))];
    WriteRunStep(n, LineOps(grants), WriteOp([NEWLINE], NO_FAULTS.(entryOk := ok)));
  }

  const LINE_SLOT := SlotOf([NEWLINE])

  const FOUR_STORED := [true, true, true, true]
  const THREE_FAILED := FOUR_STORED + [false] + [false] + [false]

  /** Four one-line writes to three slots. */
  lemma ThreeSlotsWrapped()
    ensures WriteRun(3, LineOps(FOUR_STORED))
         == Device(Ring([LINE_SLOT, LINE_SLOT, LINE_SLOT], 1, 1, true, 3), None)
  {
    var x, o := LINE_SLOT, EMPTY_SLOT;
    var r0, r1 := Ring([o, o, o], 0, 0, false, 0), Ring([x, o, o], 1, 0, false, 1);
    var r2, r3 := Ring([x, x, o], 2, 0, false, 2), Ring([x, x, x], 0, 0, true, 3);
    assert Init(3) == r0;
    LineWritten(3, [], true, r0, r1);
    LineWritten(3, [] + [true], true, r1, r2);
    LineWritten(3, [] + [true] + [true], true, r2, r3);
    LineWritten(3, [] + [true] + [true] + [true], true, r3, Ring([x, x, x], 1, 1, true, 3));
    assert [] + [true] + [true] + [true] + [true] == FOUR_STORED;
  }

  /** Then three failed allocations. */
  lemma ThreeSlotsEmptied()
    ensures WriteRun(3, LineOps(THREE_FAILED))
         == Device(Ring([EMPTY_SLOT, EMPTY_SLOT, EMPTY_SLOT], 1, 1, true, 0), None)
  {
    var x, o := LINE_SLOT, EMPTY_SLOT;
    ThreeSlotsFailing();
    var r6, r7 := Ring([x, o, o], 1, 0, true, 1), Ring([o, o, o], 1, 1, true, 0);
    LineWritten(3, FOUR_STORED + [false] + [false], false, r6, r7);
  }

  lemma ThreeSlotsFailing()
    ensures WriteRun(3, LineOps(FOUR_STORED + [false] + [false]))
         == Device(Ring([LINE_SLOT, EMPTY_SLOT, EMPTY_SLOT], 1, 0, true, 1), None)
  {
    var x, o := LINE_SLOT, EMPTY_SLOT;
    var r := Ring([x, o, x], 1, 2, true, 2);
    ThreeSlotsWrapped();
    LineWritten(3, FOUR_STORED, false, Ring([x, x, x], 1, 1, true, 3), r);
    LineWritten(3, FOUR_STORED + [false], false, r, Ring([x, o, o], 1, 0, true, 1));
  }

  /** Then two more lines. */
  lemma ThreeSlotsGapped()
    ensures WriteRun(3, LineOps(THREE_FAILED + [true] + [true]))
         == Device(Ring([EMPTY_SLOT, LINE_SLOT, LINE_SLOT], 0, 0, true, 2), None)
  {
    var x, o := LINE_SLOT, EMPTY_SLOT;
    var r7, r8 := Ring([o, o, o], 1, 1, true, 0), Ring([o, x, o], 2, 2, true, 1);
    ThreeSlotsEmptied();
    LineWritten(3, THREE_FAILED, true, r7, r8);
    LineWritten(3, THREE_FAILED + [true], true, r8, Ring([o, x, x], 0, 0, true, 2));
  }

  /**
   Agreement of the sizes is not enough on a ring that hides its entries: a run
   of writes after which `out_offs` is 0 and the sizes agree, no reader sees
   anything, and a seek to byte 0 of entry 1 succeeds, at position 0.
   */
  lemma SeekMisleadsBehindGap()
    ensures var d := WriteRun(3, LineOps(THREE_FAILED + [true] + [true]));
            && d.ring.outOffs == 0 && SizesAgree(d.ring) && d.ring.size == 2 && Visible(d.ring) == []
            && SeekToCommand(d, 7, SeekTo(1, 0)) == Sought(Ok(0), 0)
            && !SeekMeets(d, 7, SeekTo(1, 0))
  {
    ThreeSlotsGapped();
    BehindGap(Device(Ring([EMPTY_SLOT, LINE_SLOT, LINE_SLOT], 0, 0, true, 2), None));
  }

  lemma BehindGap(d: Device)
    requires d.ring == Ring([EMPTY_SLOT, LINE_SLOT, LINE_SLOT], 0, 0, true, 2)
    ensures SizesAgree(d.ring) && Visible(d.ring) == []
    ensures SeekToCommand(d, 7, SeekTo(1, 0)) == Sought(Ok(0), 0)
    ensures !SeekMeets(d, 7, SeekTo(1, 0))
  {
    assert Nth(d.ring, 0) == EMPTY_SLOT;
    assert Visible(d.ring) == [];
  }

  /** Until an entry has been evicted the output offset is 0, so the seek command meets its promise. */
  lemma {:induction false} UnwrappedOffset(n: nat, msgs: seq<Bytes>)
    requires 0 < n && |msgs| <= n
    ensures AddAll(Init(n), Granted(msgs)).outOffs == 0
  {
    if msgs != [] {
      var before := msgs[..|msgs| - 1];
      assert Granted(msgs)[..|msgs| - 1] == Granted(before);
      UnwrappedOffset(n, before);
      GrantedRing(n, before);
    }
  }

  lemma FirstWrap(n: nat, msgs: seq<Bytes>)
    requires n > 1 && |msgs| == n + 1
    ensures AddAll(Init(n), Granted(msgs)).outOffs == 1
  {
    var before := msgs[..n];
    assert Granted(msgs)[..n] == Granted(before);
    UnwrappedOffset(n, before);
    GrantedRing(n, before);
    WrapIsMod(0, n);
    var r := AddAll(Init(n), Granted(before));
    assert AddAll(Init(n), Granted(msgs)) == AddEntry(r, msgs[n], true);
  }

  /**
   After a wrap the two readings differ, for every ring of two slots or more: of
   n + 1 messages where only the last has two bytes, seeking to byte 1 of entry
   0 "succeeds" at position 0 though that entry has one byte, and seeking to
   byte 1 of the last entry is refused though it is there.
   */
  lemma SeekMisreadsAfterWrap(n: nat, msgs: seq<Bytes>)
    requires n > 1 && |msgs| == n + 1
    requires (forall i :: 0 <= i < n ==> msgs[i] == [NEWLINE]) && msgs[n] == [65, NEWLINE]
    ensures var d := WriteRun(n, Plain(msgs));
            && Visible(d.ring) == msgs[1..]
            && SeekToCommand(d, 7, SeekTo(0, 1)) == Sought(Ok(0), 0)
            && SeekToCommand(d, 7, SeekTo(n - 1, 1)) == Sought(EINVAL, 7)
  {
    assert msgs[n][1] == NEWLINE;
    LinesAreMessages(msgs);
    PlainRun(n, msgs);
    FirstWrap(n, msgs);
    var d, w := WriteRun(n, Plain(msgs)), Window(msgs[1..], 0, true);
    assert LastN(msgs, n) == msgs[1..];
    assert d.ring.entry[0] == Nth(d.ring, n - 1) == SlotAt(w, n - 1) == SlotOf(msgs[n]);
    assert d.ring.entry[n - 1] == Nth(d.ring, n - 2) == SlotAt(w, n - 2) == SlotOf(msgs[n - 1]);
  }
}
