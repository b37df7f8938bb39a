/**
 What one transaction of a client does to the device and sends back, as a
 function; and what that is for a printed seek command, end to end.
 */
module Exchange {
  import opened ByteStrings
  import opened RingModel
  import opened DeviceModel
  import opened DeviceRuns
  import opened DeviceReads
  import opened SeekCommand
  import opened CommandParser

  /** The device after the transaction, the bytes sent, and whether the process ended instead. */
  datatype Exchanged = Exchanged(dev: Device, sent: Bytes, died: bool)

  /** A command leaves the device alone; it is answered from the position it seeks to, or ends the process. */
  function SeekExchange(d: Device, seekto: SeekTo): (x: Exchanged)
    requires InRange(d.ring)
    ensures InRange(x.dev.ring)
  {
    var at := Ioctl(d, 0, AESDCHAR_IOCSEEKTO, Some(seekto));
    FlatPositionInside(Visible(d.ring), seekto.writeCmd, seekto.writeCmdOffset);
    if at.outcome.Ok? then Exchanged(d, FlatOf(d)[at.fpos..], false) else Exchanged(d, [], true)
  }

  /** Anything else is written as one chunk, and answered with all there is then. */
  function AppendExchange(d: Device, buffer: Bytes, faults: Faults): (x: Exchanged)
    requires InRange(d.ring)
    ensures InRange(x.dev.ring)
  {
    var d' := Write(d, buffer, faults).dev;
    Exchanged(d', FlatOf(d'), false)
  }

  function ExchangeOf(d: Device, buffer: Bytes, faults: Faults): (x: Exchanged)
    requires InRange(d.ring)
    ensures InRange(x.dev.ring)
  {
    match ParseCommand(buffer, |buffer|)
    case Some(seekto) => SeekExchange(d, seekto)
    case None => AppendExchange(d, buffer, faults)
  }

  // --- a printed command, end to end

  /** The tail of the visible strings from byte y of string x on. */
  function TailFrom(es: seq<Bytes>, x: nat, y: nat): Bytes
    requires x < |es| && y < |es[x]|
  {
    es[x][y..] + Flat(es[x + 1..])
  }

  /** Where a command leads, for any arguments, live or not. */
  lemma SeekServes(d: Device, seekto: SeekTo)
    requires InRange(d.ring)
    ensures var es, x, y := Visible(d.ring), seekto.writeCmd, seekto.writeCmdOffset;
            SeekExchange(d, seekto) ==
              if x >= |d.ring.entry| || y >= d.ring.entry[x].size then Exchanged(d, [], true)
              else if x < |es| && y < |es[x]| then Exchanged(d, TailFrom(es, x, y), false)
              else Exchanged(d, FlatOf(d), false)
  {
    var es, x, y := Visible(d.ring), seekto.writeCmd, seekto.writeCmdOffset;
    if x < |es| && y < |es[x]| {
      FlatFrom(es, x, y);
    }
  }

  /** A buffer that parses as a command never changes the device, and is answered by where the command leads. */
  lemma CommandServes(d: Device, buffer: Bytes, seekto: SeekTo, faults: Faults)
    requires InRange(d.ring) && ParseCommand(buffer, |buffer|) == Some(seekto)
    ensures var es, x, y := Visible(d.ring), seekto.writeCmd, seekto.writeCmdOffset;
            ExchangeOf(d, buffer, faults) ==
              if x >= |d.ring.entry| || y >= d.ring.entry[x].size then Exchanged(d, [], true)
              else if x < |es| && y < |es[x]| then Exchanged(d, es[x][y..] + Flat(es[x + 1..]), false)
              else Exchanged(d, Flat(es), false)
  {
    SeekServes(d, seekto);
  }

  /**
   A buffer that does not parse, whatever fails: the process lives on, and the
   client is sent the whole flat string of the device as the write left it. A
   refused write leaves the device as it was, and its whole flat string is sent
   all the same; an accepted one makes the buffer pending or an entry.
   */
  lemma AppendServes(d: Device, buffer: Bytes, faults: Faults)
    requires InRange(d.ring) && ParseCommand(buffer, |buffer|) == None
    ensures var x, direct := ExchangeOf(d, buffer, faults), NEWLINE in buffer && PendingBytes(d) == [];
            && !x.died
            && x.sent == Flat(Visible(x.dev.ring))
            && (!faults.kbufOk || !faults.copyOk || (!direct && !faults.pendingOk) ==> x.dev == d)
            && (faults.kbufOk && faults.copyOk && (direct || faults.pendingOk) ==>
                  if NEWLINE in buffer then x.dev.ring == AddEntry(d.ring, PendingBytes(d) + buffer, faults.entryOk)
                  else x.dev == Device(d.ring, Some(PendingBytes(d) + buffer)))
  {
    WriteReturns(d, buffer, faults);
  }

  /**
   A client that prints the command (x, y) of a live byte gets exactly the tail
   from that byte iff the physical slot x is longer than y; otherwise the server
   ends. Of a byte that is not live it gets everything, or the server ends.
   */
  lemma SeekEndToEnd(d: Device, x: nat, y: nat, faults: Faults)
    requires InRange(d.ring) && x < TWO32 && y < TWO32
    ensures var es := Visible(d.ring);
            ExchangeOf(d, PrintCommand(x, y), faults) ==
              if x >= |d.ring.entry| || y >= d.ring.entry[x].size then Exchanged(d, [], true)
              else if x < |es| && y < |es[x]| then Exchanged(d, TailFrom(es, x, y), false)
              else Exchanged(d, FlatOf(d), false)
  {
    CommandRoundTrip(x, y, [], |PrintCommand(x, y)|);
    assert PrintCommand(x, y) + [] == PrintCommand(x, y);
    SeekServes(d, SeekTo(x, y));
  }

  /** What the command (x, y) promises: the tail from a live byte, and refusal for any other. */
  function Promised(d: Device, x: nat, y: nat): Exchanged
    requires InRange(d.ring)
  {
    var es := Visible(d.ring);
    if x < |es| && y < |es[x]| then Exchanged(d, TailFrom(es, x, y), false) else Exchanged(d, [], true)
  }

  lemma PromiseKept(d: Device, x: nat, y: nat, faults: Faults)
    requires InRange(d.ring) && x < TWO32 && y < TWO32
    ensures ExchangeOf(d, PrintCommand(x, y), faults) == Promised(d, x, y) <==> SeekMeets(d, 0, SeekTo(x, y))
  {
    SeekEndToEnd(d, x, y, faults);
  }

  /** The exact condition, in every state: every printed command is served as promised iff the ring seeks exactly. */
  lemma SeekEndToEndExact(d: Device, w: Window, faults: Faults)
    requires Represents(d.ring, w) && |d.ring.entry| < TWO32
    ensures (forall x: nat, y: nat :: x < TWO32 && y < TWO32 ==>
               ExchangeOf(d, PrintCommand(x, y), faults) == Promised(d, x, y))
       <==> SeeksExactly(d.ring)
  {
    forall x: nat, y: nat | x < TWO32 && y < TWO32
      ensures ExchangeOf(d, PrintCommand(x, y), faults) == Promised(d, x, y) <==> SeekMeets(d, 0, SeekTo(x, y))
    {
      PromiseKept(d, x, y, faults);
    }
    SeekAlwaysMeetsExactly(d, w, 0);
  }

  /** So it is while nothing has wrapped, or all entries of a full ring are equally long, with no gap in front. */
  lemma SeekEndToEndWhen(d: Device, w: Window, x: nat, y: nat, faults: Faults, len: nat)
    requires Represents(d.ring, w) && w.gap == 0 && |d.ring.entry| < TWO32
    requires d.ring.outOffs == 0 || (|w.live| == |d.ring.entry| && forall e :: e in w.live ==> |e| == len)
    requires x < TWO32 && y < TWO32
    ensures ExchangeOf(d, PrintCommand(x, y), faults) == Promised(d, x, y)
  {
    SizesAgreeWhen(d, w, len);
    SeekEndToEndExact(d, w, faults);
  }
}
