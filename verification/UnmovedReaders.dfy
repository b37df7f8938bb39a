/**
 A reader that keeps its position while others write: what the position denotes
 afterwards, for runs of adds to the ring and for runs of writes to the device.
 */
module UnmovedReaders {
  import opened ByteStrings
  import opened RingModel
  import opened RingRuns
  import opened DeviceModel
  import opened DeviceRuns
  import opened DeviceReads

  /** The m bytes at position p are those that stood d further on before. */
  predicate Shifted(before: Bytes, after: Bytes, d: nat, p: nat, m: nat) {
    && p + d + m <= |before|
    && p + m <= |after|
    && after[p..p + m] == before[p + d..p + d + m]
  }

  /**
   The bytes an unmoved position denotes after a run of adds: those that stood
   as much further on as the run has evicted. It holds under every pattern of
   failures that leaves the entries visible.
   */
  lemma UnmovedReader(r: Ring, w: Window, adds: seq<Add>, p: nat, m: nat)
    requires Represents(r, w) && r.size == SizeSum(r.entry)
    requires w.gap == 0 && WindowAfter(w, |r.entry|, adds).gap == 0
    requires p + Evicted(w, |r.entry|, adds) + m <= |Flat(Visible(r))|
    ensures Shifted(Flat(Visible(r)), Flat(Visible(AddAll(r, adds))), Evicted(w, |r.entry|, adds), p, m)
  {
    ViewsAre(r, w, adds);
    UnmovedPosition(w, |r.entry|, adds, p, m);
  }

  lemma UnmovedPosition(w: Window, n: nat, adds: seq<Add>, p: nat, m: nat)
    requires n > 0 && p + Evicted(w, n, adds) + m <= |Flat(w.live)|
    ensures Shifted(Flat(w.live), Flat(WindowAfter(w, n, adds).live), Evicted(w, n, adds), p, m)
  {
    RunShifts(w, n, adds);
    CutInside(Flat(w.live), Flat(Stored(adds)), Evicted(w, n, adds), p, m);
  }

  lemma ViewsAre(r: Ring, w: Window, adds: seq<Add>)
    requires Represents(r, w) && r.size == SizeSum(r.entry)
    requires w.gap == 0 && WindowAfter(w, |r.entry|, adds).gap == 0
    ensures Visible(r) == w.live
    ensures Visible(AddAll(r, adds)) == WindowAfter(w, |r.entry|, adds).live
  {
    RunRefines(r, w, adds);
    VisibleWindow(r, w);
    VisibleWindow(AddAll(r, adds), WindowAfter(w, |r.entry|, adds));
  }

  lemma CutInside(before: Bytes, added: Bytes, d: nat, p: nat, m: nat)
    requires p + d + m <= |before|
    ensures Shifted(before, (before + added)[d..], d, p, m)
  {
  }

  // --- across writes

  /** The adds that a run of writes makes to the ring. */
  function AddsOf(n: nat, ops: seq<WriteOp>): (adds: seq<Add>)
    requires n > 0
    ensures WriteRun(n, ops).ring == AddAll(Init(n), adds)
  {
    DeviceRefines(n, ops);
    Adds(Messages(Accepted(n, ops)), EntryGrants(n, ops))
  }

  lemma AddsStep(n: nat, ops: seq<WriteOp>, op: WriteOp)
    requires n > 0
    ensures AddsOf(n, ops) <= AddsOf(n, ops + [op])
  {
    assert (ops + [op])[..|ops|] == ops;
    DeviceRefines(n, ops);
    DeviceRefines(n, ops + [op]);
    WriteAccounts(n, ops, op);
    JournalStep(Accepted(n, ops) + [op.chunk], Accepted(n, ops), op.chunk);
  }

  lemma {:induction false} AddsGrow(n: nat, ops: seq<WriteOp>, more: seq<WriteOp>)
    requires n > 0
    ensures AddsOf(n, ops) <= AddsOf(n, ops + more)
    decreases |more|
  {
    if more == [] {
      assert ops + more == ops;
    } else {
      var k := |more| - 1;
      AddsGrow(n, ops, more[..k]);
      AddsStep(n, ops + more[..k], more[k]);
      assert ops + more[..k] + [more[k]] == ops + more;
    }
  }

  /** The adds of the later writes. */
  function LaterAdds(n: nat, ops: seq<WriteOp>, more: seq<WriteOp>): (later: seq<Add>)
    requires n > 0
    ensures AddsOf(n, ops + more) == AddsOf(n, ops) + later
  {
    AddsGrow(n, ops, more);
    AddsOf(n, ops + more)[|AddsOf(n, ops)|..]
  }

  /** The bytes that the later writes evict: what was held and what they store, less what is held then. */
  function MovedBy(n: nat, ops: seq<WriteOp>, more: seq<WriteOp>): int
    requires n > 0
  {
    WriteRun(n, ops).ring.size + |Flat(Stored(LaterAdds(n, ops, more)))| - WriteRun(n, ops + more).ring.size
  }

  /** The windows before and after the later writes. */
  lemma WindowsOf(n: nat, ops: seq<WriteOp>, more: seq<WriteOp>) returns (w: Window)
    requires n > 0
    ensures Represents(WriteRun(n, ops).ring, w)
    ensures Represents(WriteRun(n, ops + more).ring, WindowAfter(w, n, LaterAdds(n, ops, more)))
  {
    var adds, later := AddsOf(n, ops), LaterAdds(n, ops, more);
    w := WindowAfter(NEW_WINDOW, n, adds);
    RunFromInit(n, adds);
    RunFromInit(n, adds + later);
    WindowJoin(NEW_WINDOW, n, adds, later);
  }

  lemma MovedIsEvicted(n: nat, ops: seq<WriteOp>, more: seq<WriteOp>, w: Window)
    requires n > 0 && Represents(WriteRun(n, ops).ring, w)
    requires Represents(WriteRun(n, ops + more).ring, WindowAfter(w, n, LaterAdds(n, ops, more)))
    ensures MovedBy(n, ops, more) == Evicted(w, n, LaterAdds(n, ops, more))
  {
    RunShifts(w, n, LaterAdds(n, ops, more));
  }

  lemma ViewIsLive(d: Device, w: Window)
    requires Represents(d.ring, w)
    ensures FlatOf(d) != [] ==> Visible(d.ring) == w.live
  {
    VisibleWindow(d.ring, w);
  }

  /**
   While the device shows something before and after, its later entries are the
   earlier ones and those stored since, without the first j.
   */
  lemma ViewsShift(n: nat, ops: seq<WriteOp>, more: seq<WriteOp>) returns (stored: seq<Bytes>, j: nat)
    requires n > 0
    ensures MovedBy(n, ops, more) >= 0
    ensures var d, d' := WriteRun(n, ops), WriteRun(n, ops + more);
            FlatOf(d) != [] && FlatOf(d') != [] ==>
              && j <= |Visible(d.ring) + stored|
              && Visible(d'.ring) == (Visible(d.ring) + stored)[j..]
              && |Flat((Visible(d.ring) + stored)[..j])| == MovedBy(n, ops, more)
  {
    var later := LaterAdds(n, ops, more);
    var w := WindowsOf(n, ops, more);
    stored, j := Stored(later), EvictedCount(w, n, later);
    MovedIsEvicted(n, ops, more, w);
    ViewIsLive(WriteRun(n, ops), w);
    ViewIsLive(WriteRun(n, ops + more), WindowAfter(w, n, later));
    RunSlides(w, n, later);
  }

  /** A byte of a list that stands behind its first j strings, in the list without them and with others behind. */
  lemma NamesShifted(es: seq<Bytes>, more: seq<Bytes>, j: nat, pos: Pos, p: nat)
    requires j <= |es + more| && Names(es, pos, p + |Flat((es + more)[..j])|)
    ensures j <= pos.index && Names((es + more)[j..], Pos(pos.index - j, pos.offset), p)
    ensures (es + more)[j..][pos.index - j] == es[pos.index]
  {
    var all, i := es + more, pos.index;
    assert all[..i] == es[..i];
    if i < j {
      PrefixGrows(all, i, j);
      assert false;
    }
    assert all[..i][..j] == all[..j] && all[..i][j..] == all[j..][..i - j];
    FlatCut(all[..i], j);
  }

  /** A read at p of one device is a read of the other one e further on. */
  predicate ReadsAs(later: Device, earlier: Device, p: nat, e: nat, count: nat, copyOk: bool)
    requires InRange(later.ring) && InRange(earlier.ring)
  {
    var r := Read(earlier, p + e, count, copyOk);
    Read(later, p, count, copyOk) == ReadBack(r.outcome, r.data, r.fpos - e)
  }

  lemma ReadAt(d: Device, pos: Pos, p: nat, count: nat, copyOk: bool)
    requires InRange(d.ring) && Names(Visible(d.ring), pos, p)
    ensures Read(d, p, count, copyOk) == ReadEntry(Visible(d.ring)[pos.index], pos.offset, p, count, copyOk)
  {
    LocateExact(Visible(d.ring), pos, p);
  }

  /** The byte behind e dropped ones, before and after: it has the same place in the same string. */
  lemma ByteShifted(es: seq<Bytes>, more: seq<Bytes>, j: nat, p: nat, e: nat) returns (pos: Pos, pos': Pos)
    requires j <= |es + more| && e == |Flat((es + more)[..j])| && p + e < |Flat(es)|
    ensures Names(es, pos, p + e) && Names((es + more)[j..], pos', p)
    ensures pos'.offset == pos.offset && (es + more)[j..][pos'.index] == es[pos.index]
  {
    pos := Locate(es, p + e).value;
    NamesShifted(es, more, j, pos, p);
    pos' := Pos(pos.index - j, pos.offset);
  }

  lemma ShiftedRead(d: Device, d': Device, more: seq<Bytes>, j: nat, p: nat, e: nat, count: nat, copyOk: bool)
    requires InRange(d.ring) && InRange(d'.ring) && j <= |Visible(d.ring) + more|
    requires Visible(d'.ring) == (Visible(d.ring) + more)[j..]
    requires e == |Flat((Visible(d.ring) + more)[..j])| && p + e < |FlatOf(d)|
    ensures ReadsAs(d', d, p, e, count, copyOk)
  {
    var pos, pos' := ByteShifted(Visible(d.ring), more, j, p, e);
    ReadAt(d, pos, p + e, count, copyOk);
    ReadAt(d', pos', p, count, copyOk);
  }

  lemma ReadNothing(d: Device, p: nat, count: nat, copyOk: bool)
    requires InRange(d.ring) && FlatOf(d) == []
    ensures Read(d, p, count, copyOk) == ReadBack(Ok(0), [], p)
  {
    assert Locate(Visible(d.ring), p) == None;
  }

  /**
   The reader's view. Between two reads at one position p any writes happen,
   under any failures. While the device shows anything at all afterwards, the
   second read returns exactly what a read as much further on as the writes
   evicted would have returned before them; else it returns nothing.
   */
  lemma UnmovedRead(n: nat, ops: seq<WriteOp>, more: seq<WriteOp>, p: nat, count: nat, copyOk: bool)
    requires n > 0
    ensures MovedBy(n, ops, more) >= 0
    ensures var d, d', e := WriteRun(n, ops), WriteRun(n, ops + more), MovedBy(n, ops, more);
            && (FlatOf(d') == [] ==> Read(d', p, count, copyOk) == ReadBack(Ok(0), [], p))
            && (FlatOf(d') != [] && p + e < |FlatOf(d)| ==> ReadsAs(d', d, p, e, count, copyOk))
  {
    var d, d' := WriteRun(n, ops), WriteRun(n, ops + more);
    var stored, j := ViewsShift(n, ops, more);
    if FlatOf(d') == [] {
      ReadNothing(d', p, count, copyOk);
    } else if p + MovedBy(n, ops, more) < |FlatOf(d)| {
      ShiftedRead(d, d', stored, j, p, MovedBy(n, ops, more), count, copyOk);
    }
  }
}
