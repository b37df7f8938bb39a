/**
 Runs of writes to the device: how the chunks of a byte stream become the
 strings of the ring and the pending bytes.
 */
module DeviceRuns {
  import opened ByteStrings
  import opened RingModel
  import opened RingRuns
  import opened DeviceModel

  datatype WriteOp = WriteOp(chunk: Bytes, faults: Faults)

  function WriteRun(n: nat, ops: seq<WriteOp>): (d: Device)
    requires n > 0
    ensures InRange(d.ring) && |d.ring.entry| == n
  {
    if ops == [] then New(n)
    else
      var op := ops[|ops| - 1];
      Write(WriteRun(n, ops[..|ops| - 1]), op.chunk, op.faults).dev
  }

  lemma WriteRunStep(n: nat, ops: seq<WriteOp>, op: WriteOp)
    requires n > 0
    ensures WriteRun(n, ops + [op]) == Write(WriteRun(n, ops), op.chunk, op.faults).dev
  {
    assert (ops + [op])[..|ops|] == ops;
  }

  // --- the run that chunks, whims and the size of memory determine

  function OpAfter(n: nat, capacity: nat, ops: seq<WriteOp>, chunk: Bytes, whim: Whim): WriteOp
    requires n > 0
  {
    WriteOp(chunk, FaultsOf(WriteRun(n, ops), capacity, chunk, whim))
  }

  function OpsOf(n: nat, capacity: nat, chunks: seq<Bytes>, whims: seq<Whim>): (ops: seq<WriteOp>)
    requires n > 0 && |chunks| == |whims|
    ensures |ops| == |chunks| && forall i :: 0 <= i < |ops| ==> ops[i].chunk == chunks[i]
  {
    if chunks == [] then []
    else
      var k := |chunks| - 1;
      var ops := OpsOf(n, capacity, chunks[..k], whims[..k]);
      ops + [OpAfter(n, capacity, ops, chunks[k], whims[k])]
  }

  lemma OpsOfStep(n: nat, capacity: nat, chunks: seq<Bytes>, whims: seq<Whim>, i: nat)
    requires n > 0 && |chunks| == |whims| && i < |chunks|
    ensures var ops := OpsOf(n, capacity, chunks[..i], whims[..i]);
            var op := OpAfter(n, capacity, ops, chunks[i], whims[i]);
            && OpsOf(n, capacity, chunks[..i + 1], whims[..i + 1]) == ops + [op]
            && Outcomes(n, ops + [op]) == Outcomes(n, ops) + [OutcomeAfter(n, ops, op)]
  {
    assert chunks[..i + 1][..i] == chunks[..i] && whims[..i + 1][..i] == whims[..i];
    var ops := OpsOf(n, capacity, chunks[..i], whims[..i]);
    assert (ops + [OpAfter(n, capacity, ops, chunks[i], whims[i])])[..|ops|] == ops;
  }

  /** What the write `op` returns after the run `ops`. */
  function OutcomeAfter(n: nat, ops: seq<WriteOp>, op: WriteOp): Outcome
    requires n > 0
  {
    Write(WriteRun(n, ops), op.chunk, op.faults).outcome
  }

  function Outcomes(n: nat, ops: seq<WriteOp>): (rs: seq<Outcome>)
    requires n > 0
    ensures |rs| == |ops|
  {
    if ops == [] then []
    else
      var before := ops[..|ops| - 1];
      Outcomes(n, before) + [OutcomeAfter(n, before, ops[|ops| - 1])]
  }

  // --- the reference: how a list of chunks falls into messages

  function Concat(groups: seq<seq<Bytes>>): seq<Bytes> {
    if groups == [] then [] else groups[0] + Concat(groups[1..])
  }

  lemma {:induction false} ConcatSnoc(groups: seq<seq<Bytes>>, g: seq<Bytes>)
    ensures Concat(groups + [g]) == Concat(groups) + g
  {
    if groups != [] {
      ConcatSnoc(groups[1..], g);
      assert (groups + [g])[1..] == groups[1..] + [g];
    }
  }

  /** A message: some chunks without a newline, then one that holds a newline, and ends the message. */
  predicate IsMessage(g: seq<Bytes>) {
    && g != []
    && NEWLINE in g[|g| - 1]
    && forall i :: 0 <= i < |g| - 1 ==> NEWLINE !in g[i]
  }

  /** The chunks, in order, are the chunks of the messages and then of an unfinished rest. */
  predicate Grouping(chunks: seq<Bytes>, groups: seq<seq<Bytes>>, rest: seq<Bytes>) {
    && Concat(groups) + rest == chunks
    && (forall g :: g in groups ==> IsMessage(g))
    && (forall c :: c in rest ==> NEWLINE !in c)
  }

  datatype Split = Split(groups: seq<seq<Bytes>>, rest: seq<Bytes>)

  function SplitChunks(chunks: seq<Bytes>): Split {
    if chunks == [] then Split([], [])
    else
      var c, s := chunks[|chunks| - 1], SplitChunks(chunks[..|chunks| - 1]);
      if NEWLINE in c then Split(s.groups + [s.rest + [c]], []) else Split(s.groups, s.rest + [c])
  }

  lemma {:induction false} SplitIsGrouping(chunks: seq<Bytes>)
    ensures Grouping(chunks, SplitChunks(chunks).groups, SplitChunks(chunks).rest)
  {
    if chunks != [] {
      var before, c := chunks[..|chunks| - 1], chunks[|chunks| - 1];
      var s := SplitChunks(before);
      SplitIsGrouping(before);
      assert chunks == before + [c];
      if NEWLINE in c {
        ConcatSnoc(s.groups, s.rest + [c]);
        assert IsMessage(s.rest + [c]);
      }
    }
  }

  /** There is only one way to group chunks into messages and a rest. */
  lemma {:induction false} GroupingUnique(chunks: seq<Bytes>, groups: seq<seq<Bytes>>, rest: seq<Bytes>)
    requires Grouping(chunks, groups, rest)
    ensures SplitChunks(chunks) == Split(groups, rest)
  {
    if rest != [] {
      var r := rest[..|rest| - 1];
      assert rest == r + [rest[|rest| - 1]];
      assert chunks[..|chunks| - 1] == Concat(groups) + r;
      GroupingUnique(chunks[..|chunks| - 1], groups, r);
    } else if groups != [] {
      var before, g := groups[..|groups| - 1], groups[|groups| - 1];
      assert g in groups && IsMessage(g);
      var r, c := g[..|g| - 1], g[|g| - 1];
      assert groups == before + [g] && g == r + [c];
      ConcatSnoc(before, g);
      assert chunks[..|chunks| - 1] == Concat(before) + r;
      GroupingUnique(chunks[..|chunks| - 1], before, r);
    }
  }

  function Messages(chunks: seq<Bytes>): (msgs: seq<Bytes>) {
    var groups := SplitChunks(chunks).groups;
    seq(|groups|, i requires 0 <= i < |groups| => Flat(groups[i]))
  }

  function Tail(chunks: seq<Bytes>): Bytes {
    Flat(SplitChunks(chunks).rest)
  }

  /** The messages so far and the unfinished one. */
  datatype Journal = Journal(msgs: seq<Bytes>, tail: Bytes)

  function JournalOf(chunks: seq<Bytes>): Journal { Journal(Messages(chunks), Tail(chunks)) }

  function Extend(j: Journal, c: Bytes): Journal {
    if NEWLINE in c then Journal(j.msgs + [j.tail + c], []) else Journal(j.msgs, j.tail + c)
  }

  lemma JournalStep(chunks: seq<Bytes>, before: seq<Bytes>, c: Bytes)
    requires chunks == before + [c]
    ensures JournalOf(chunks) == Extend(JournalOf(before), c)
  {
    assert chunks[..|before|] == before;
    FlatSnoc(SplitChunks(before).rest, c);
  }

  /** Nothing is lost, added or reordered. */
  lemma {:induction false} MessagesConserve(chunks: seq<Bytes>)
    ensures Flat(Messages(chunks)) + Tail(chunks) == Flat(chunks)
  {
    if chunks != [] {
      var before, c := chunks[..|chunks| - 1], chunks[|chunks| - 1];
      var j := JournalOf(before);
      MessagesConserve(before);
      JournalStep(chunks, before, c);
      assert chunks == before + [c];
      FlatSnoc(before, c);
      FlatSnoc(j.msgs, j.tail + c);
      assert Flat(j.msgs) + (j.tail + c) == Flat(j.msgs) + j.tail + c;
    }
  }

  lemma NewlineBehind(s: Bytes, c: Bytes)
    requires NEWLINE in c
    ensures NEWLINE in s + c
  {
    var i :| 0 <= i < |c| && c[i] == NEWLINE;
    assert (s + c)[|s| + i] == NEWLINE;
  }

  /** The rest holds no newline; every message holds one. */
  lemma {:induction false} MessagesEnd(chunks: seq<Bytes>)
    ensures NEWLINE !in Tail(chunks)
    ensures forall m :: m in Messages(chunks) ==> NEWLINE in m
  {
    if chunks != [] {
      var before, c := chunks[..|chunks| - 1], chunks[|chunks| - 1];
      MessagesEnd(before);
      JournalStep(chunks, before, c);
      if NEWLINE in c {
        NewlineBehind(Tail(before), c);
      }
    }
  }

  /** Chunks that all hold a newline, behind a finished message, are each a message. */
  lemma {:induction false} LinesJournal(before: seq<Bytes>, lines: seq<Bytes>)
    requires Tail(before) == [] && forall m :: m in lines ==> NEWLINE in m
    ensures JournalOf(before + lines) == Journal(Messages(before) + lines, [])
    decreases |lines|
  {
    if lines == [] {
      assert before + lines == before;
    } else {
      var k := |lines| - 1;
      assert lines == lines[..k] + [lines[k]] && lines[k] in lines;
      assert forall m :: m in lines[..k] ==> m in lines;
      LinesJournal(before, lines[..k]);
      JournalStep(before + lines, before + lines[..k], lines[k]);
      assert [] + lines[k] == lines[k];
    }
  }

  lemma LinesAreMessages(chunks: seq<Bytes>)
    requires forall c :: c in chunks ==> NEWLINE in c
    ensures Messages(chunks) == chunks && Tail(chunks) == []
  {
    LinesJournal([], chunks);
    assert [] + chunks == chunks;
  }

  // --- the device against the reference, whatever fails

  /** The chunks whose write returned their length. */
  function Accepted(n: nat, ops: seq<WriteOp>): seq<Bytes>
    requires n > 0
  {
    if ops == [] then []
    else
      var before, op := ops[..|ops| - 1], ops[|ops| - 1];
      Accepted(n, before) + if Write(WriteRun(n, before), op.chunk, op.faults).outcome.Ok? then [op.chunk] else []
  }

  /** For each message, whether its entry could be allocated. */
  function EntryGrants(n: nat, ops: seq<WriteOp>): seq<bool>
    requires n > 0
  {
    if ops == [] then []
    else
      var before, op := ops[..|ops| - 1], ops[|ops| - 1];
      var ok := Write(WriteRun(n, before), op.chunk, op.faults).outcome.Ok?;
      EntryGrants(n, before) + if ok && NEWLINE in op.chunk then [op.faults.entryOk] else []
  }

  function Adds(msgs: seq<Bytes>, grants: seq<bool>): (adds: seq<Add>)
    requires |msgs| == |grants|
    ensures |adds| == |msgs|
  {
    seq(|msgs|, i requires 0 <= i < |msgs| => Add(msgs[i], grants[i]))
  }

  lemma AddsSnoc(r: Ring, msgs: seq<Bytes>, grants: seq<bool>, m: Bytes, grant: bool)
    requires |msgs| == |grants| && InRange(r)
    ensures AddAll(r, Adds(msgs + [m], grants + [grant])) == AddEntry(AddAll(r, Adds(msgs, grants)), m, grant)
  {
    var all := Adds(msgs + [m], grants + [grant]);
    assert all[..|all| - 1] == Adds(msgs, grants);
  }

  /**
   Every run of writes, under every pattern of failures: the ring is the one
   built by adding the messages of the accepted chunks, and the pending bytes
   are their rest.
   */
  lemma {:induction false} DeviceRefines(n: nat, ops: seq<WriteOp>)
    requires n > 0
    ensures |EntryGrants(n, ops)| == |Messages(Accepted(n, ops))|
    ensures WriteRun(n, ops).ring == AddAll(Init(n), Adds(Messages(Accepted(n, ops)), EntryGrants(n, ops)))
    ensures PendingBytes(WriteRun(n, ops)) == Tail(Accepted(n, ops))
  {
    if ops != [] {
      var before, op := ops[..|ops| - 1], ops[|ops| - 1];
      var d, chunks := WriteRun(n, before), Accepted(n, before);
      DeviceRefines(n, before);
      JournalStep(chunks + [op.chunk], chunks, op.chunk);
      if Write(d, op.chunk, op.faults).outcome.Ok? {
        if NEWLINE in op.chunk {
          var m := PendingBytes(d) + op.chunk;
          assert PendingBytes(d) == [] ==> m == op.chunk;
          assert Messages(Accepted(n, ops)) == Messages(chunks) + [m];
          assert EntryGrants(n, ops) == EntryGrants(n, before) + [op.faults.entryOk];
          AddsSnoc(Init(n), Messages(chunks), EntryGrants(n, before), m, op.faults.entryOk);
        } else {
          assert Accepted(n, ops) == chunks + [op.chunk];
          assert EntryGrants(n, ops) == EntryGrants(n, before);
        }
      } else {
        assert Accepted(n, ops) == chunks;
        assert EntryGrants(n, ops) == EntryGrants(n, before);
      }
    }
  }

  /** A write that reports an error changes nothing; one that does not accepts the whole chunk. */
  lemma WriteAccounts(n: nat, ops: seq<WriteOp>, op: WriteOp)
    requires n > 0
    ensures var d, w := WriteRun(n, ops), Write(WriteRun(n, ops), op.chunk, op.faults);
            && (!w.outcome.Ok? ==> w.dev == d && Accepted(n, ops + [op]) == Accepted(n, ops))
            && (w.outcome.Ok? ==> w.outcome.value == |op.chunk|)
            && (w.outcome.Ok? ==> Accepted(n, ops + [op]) == Accepted(n, ops) + [op.chunk])
            && (w.outcome.Ok? <==>
                  && op.faults.kbufOk
                  && op.faults.copyOk
                  && (op.faults.pendingOk || (NEWLINE in op.chunk && Tail(Accepted(n, ops)) == [])))
  {
    DeviceRefines(n, ops);
    assert (ops + [op])[..|ops|] == ops;
  }

  /**
   What a write returns and leaves, by the step that is refused first: ENOMEM
   for the kernel copy, EFAULT for the copy from user space, ENOMEM for the
   pending buffer, which only a direct commit does without. An accepted chunk
   without a newline is pending; one with a newline leaves nothing pending,
   and no pending block unless an empty one was there.
   */
  lemma WriteReturns(d: Device, chunk: Bytes, faults: Faults)
    requires InRange(d.ring)
    ensures var w, direct := Write(d, chunk, faults), NEWLINE in chunk && PendingBytes(d) == [];
            && (!faults.kbufOk ==> w == Written(d, ENOMEM))
            && (faults.kbufOk && !faults.copyOk ==> w == Written(d, EFAULT))
            && (faults.kbufOk && faults.copyOk && !direct && !faults.pendingOk ==> w == Written(d, ENOMEM))
            && (faults.kbufOk && faults.copyOk && (direct || faults.pendingOk) ==>
                  && w.outcome == Ok(|chunk|)
                  && (NEWLINE !in chunk ==> w.dev == Device(d.ring, Some(PendingBytes(d) + chunk)))
                  && (NEWLINE in chunk ==>
                        && w.dev.ring == AddEntry(d.ring, PendingBytes(d) + chunk, faults.entryOk)
                        && w.dev.pending == if d.pending == Some([]) then d.pending else None))
  {
    assert PendingBytes(d) == [] ==> PendingBytes(d) + chunk == chunk;
  }

  /** Entries that could not be allocated were accepted all the same: bytes are kept iff every entry was granted. */
  lemma {:induction false} LossExactly(msgs: seq<Bytes>, grants: seq<bool>)
    requires |msgs| == |grants| && [] !in msgs
    ensures |Flat(Stored(Adds(msgs, grants)))| <= |Flat(msgs)|
    ensures |Flat(Stored(Adds(msgs, grants)))| == |Flat(msgs)| <==> false !in grants
  {
    if msgs != [] {
      var k := |msgs| - 1;
      var before, adds := Adds(msgs[..k], grants[..k]), Adds(msgs, grants);
      assert msgs == msgs[..k] + [msgs[k]] && grants == grants[..k] + [grants[k]];
      assert adds == before + [Add(msgs[k], grants[k])];
      LossExactly(msgs[..k], grants[..k]);
      StoredFlat(before, Add(msgs[k], grants[k]));
      FlatSnoc(msgs[..k], msgs[k]);
      assert msgs[k] in msgs && (grants[k] || grants[k] in grants);
    }
  }

  /** After any run: of the bytes whose writes reported success, all are stored or pending iff no entry failed. */
  lemma ReportedAndKept(n: nat, ops: seq<WriteOp>)
    requires n > 0
    ensures |EntryGrants(n, ops)| == |Messages(Accepted(n, ops))|
    ensures var kept := Flat(Stored(Adds(Messages(Accepted(n, ops)), EntryGrants(n, ops))));
            |kept| + |PendingBytes(WriteRun(n, ops))| == |Flat(Accepted(n, ops))| <==> false !in EntryGrants(n, ops)
  {
    DeviceRefines(n, ops);
    MessagesConserve(Accepted(n, ops));
    MessagesEnd(Accepted(n, ops));
    LossExactly(Messages(Accepted(n, ops)), EntryGrants(n, ops));
  }

  // --- runs in which nothing fails

  function Plain(chunks: seq<Bytes>): (ops: seq<WriteOp>)
    ensures |ops| == |chunks|
  {
    seq(|chunks|, i requires 0 <= i < |chunks| => WriteOp(chunks[i], NO_FAULTS))
  }

  lemma {:induction false} PlainAccepted(n: nat, chunks: seq<Bytes>)
    requires n > 0
    ensures Accepted(n, Plain(chunks)) == chunks
    ensures |EntryGrants(n, Plain(chunks))| == |Messages(chunks)|
    ensures forall i :: 0 <= i < |Messages(chunks)| ==> EntryGrants(n, Plain(chunks))[i]
  {
    if chunks != [] {
      var before := chunks[..|chunks| - 1];
      assert Plain(chunks)[..|chunks| - 1] == Plain(before);
      PlainAccepted(n, before);
      JournalStep(chunks, before, chunks[|chunks| - 1]);
    }
  }

  /**
   The refinement of the whole driver: after any list of chunks the ring read
   from `out_offs` is the last n messages, its byte count is their length, and
   all messages followed by the pending bytes are all bytes written.
   */
  lemma PlainRun(n: nat, chunks: seq<Bytes>)
    requires n > 0
    ensures var d, msgs := WriteRun(n, Plain(chunks)), Messages(chunks);
            && d.ring == AddAll(Init(n), Granted(msgs))
            && Represents(d.ring, Window(LastN(msgs, n), 0, |msgs| >= n))
            && Visible(d.ring) == LastN(msgs, n)
            && d.ring.size == |Flat(LastN(msgs, n))|
            && PendingBytes(d) == Tail(chunks)
            && NEWLINE !in PendingBytes(d)
            && Flat(msgs) + PendingBytes(d) == Flat(chunks)
  {
    PlainAccepted(n, chunks);
    assert Adds(Messages(chunks), EntryGrants(n, Plain(chunks))) == Granted(Messages(chunks));
    DeviceRefines(n, Plain(chunks));
    GrantedRing(n, Messages(chunks));
    RunFromInit(n, Granted(Messages(chunks)));
    GrantedWindow(n, Messages(chunks));
    MessagesConserve(chunks);
    MessagesEnd(chunks);
  }

  /** A device never holds more than has been written to it. */
  lemma PlainUsed(n: nat, chunks: seq<Bytes>)
    requires n > 0
    ensures 0 <= WriteRun(n, Plain(chunks)).ring.size
    ensures UsedBy(WriteRun(n, Plain(chunks))) <= |Flat(chunks)|
  {
    PlainRun(n, chunks);
    var msgs := Messages(chunks);
    if |msgs| > n {
      FlatCut(msgs, |msgs| - n);
    }
  }

  function Kind(k: nat): (whims: seq<Whim>)
    ensures |whims| == k
  {
    seq(k, _ => KIND)
  }

  /** With a kind environment and memory for three copies of all that is written, no step of any write fails. */
  lemma {:induction false} KindRun(n: nat, capacity: nat, chunks: seq<Bytes>)
    requires n > 0 && 3 * |Flat(chunks)| <= capacity
    ensures OpsOf(n, capacity, chunks, Kind(|chunks|)) == Plain(chunks)
  {
    if chunks != [] {
      var k := |chunks| - 1;
      var before, c := chunks[..k], chunks[k];
      assert chunks == before + [c] && Kind(|chunks|)[..k] == Kind(k);
      FlatSnoc(before, c);
      KindRun(n, capacity, before);
      assert OpAfter(n, capacity, Plain(before), c, KIND) == WriteOp(c, NO_FAULTS) by {
        PlainUsed(n, before);
        AmpleMemory(WriteRun(n, Plain(before)), capacity, c, KIND);
      }
      assert Plain(chunks) == Plain(before) + [WriteOp(c, NO_FAULTS)];
    }
  }

  /** Then every write reports the length of its chunk. */
  lemma {:induction false} PlainOutcomes(n: nat, chunks: seq<Bytes>)
    requires n > 0
    ensures forall i :: 0 <= i < |chunks| ==> Outcomes(n, Plain(chunks))[i] == Ok(|chunks[i]|)
  {
    if chunks != [] {
      var k := |chunks| - 1;
      assert Plain(chunks)[..k] == Plain(chunks[..k]);
      PlainOutcomes(n, chunks[..k]);
    }
  }
}
