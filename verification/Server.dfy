/**
 Many client threads over one device. A state machine of atomic steps: accepting,
 receiving, taking `fileMutex`, the transaction on the device, each read of the
 reply, and unlocking. Every sequence of events is a run (an event that is not
 enabled changes nothing), so a statement about all event sequences is one about
 all interleavings.
 */
module Server {
  import opened ByteStrings
  import opened RingModel
  import opened DeviceModel
  import opened DeviceRuns
  import opened DeviceReads
  import opened CommandParser
  import opened ClientFraming
  import opened Exchange

  datatype Pc = Polling | WantLock | Holding | Reading(fpos: nat) | Unlocking | Closed

  /** What recv has delivered, what has not been flushed of it, where the thread is, and the reply sent so far. */
  datatype Client = Client(chunks: seq<Bytes>, buffer: Bytes, pc: Pc, reply: Bytes)

  const NEW_CLIENT := Client([], [], Polling, [])

  /** A transaction, in the order the lock was taken. */
  datatype Flush =
    | Append(client: nat, msg: Bytes)
    | Seek(client: nat, msg: Bytes, seekto: SeekTo)

  /** A complete reply, and the client whose thread sent it on its own connection. */
  datatype Reply = Reply(client: nat, data: Bytes)

  datatype Sys = Sys(clients: map<nat, Client>, lock: Option<nat>, dev: Device,
                     log: seq<Flush>, replies: seq<Reply>, exited: bool)

  datatype Event =
    | Accept(c: nat)
    | Recv(c: nat, chunk: Bytes)
    | Hangup(c: nat)
    | Lock(c: nat)
    | Transact(c: nat)
    | ReadSome(c: nat, count: nat)
    | Unlock(c: nat)

  function Start(n: nat): Sys { Sys(map[], None, New(n), [], [], false) }

  function Put(s: Sys, c: nat, client: Client): Sys {
    s.(clients := s.clients[c := client])
  }

  /** The client after a received chunk. */
  function Received(client: Client, chunk: Bytes): Client {
    var all := client.buffer + chunk;
    Client(client.chunks + [chunk], all, if FlushTest(all, |chunk|) then WantLock else Polling, [])
  }

  /** An append: everything accumulated is written as one chunk; the reply is read from the start. */
  function AppendStep(s: Sys, c: nat): (s': Sys)
    requires c in s.clients && InRange(s.dev.ring)
    ensures InRange(s'.dev.ring)
  {
    var client := s.clients[c];
    Put(s.(dev := Write(s.dev, client.buffer, NO_FAULTS).dev, log := s.log + [Append(c, client.buffer)]),
        c, client.(pc := Reading(0), reply := []))
  }

  /** A seek: the reply is read from the position it sets; a refused one ends the process. */
  function SeekStep(s: Sys, c: nat, seekto: SeekTo): (s': Sys)
    requires c in s.clients && InRange(s.dev.ring)
    ensures s'.dev == s.dev
  {
    var client := s.clients[c];
    var r := Ioctl(s.dev, 0, AESDCHAR_IOCSEEKTO, Some(seekto));
    if !r.outcome.Ok? then s.(exited := true)
    else Put(s.(log := s.log + [Seek(c, client.buffer, seekto)]), c, client.(pc := Reading(r.fpos), reply := []))
  }

  /** The device part of a transaction. */
  function TransactStep(s: Sys, c: nat): (s': Sys)
    requires c in s.clients && InRange(s.dev.ring)
    ensures InRange(s'.dev.ring)
  {
    match ParseCommand(s.clients[c].buffer, |s.clients[c].buffer|)
    case None => AppendStep(s, c)
    case Some(seekto) => SeekStep(s, c, seekto)
  }

  function ReadStep(s: Sys, c: nat, count: nat): (s': Sys)
    requires c in s.clients && s.clients[c].pc.Reading? && InRange(s.dev.ring)
    ensures s'.dev == s.dev
  {
    var client := s.clients[c];
    var r := Read(s.dev, client.pc.fpos, count, true);
    if r.data == [] then
      Put(s.(replies := s.replies + [Reply(c, client.reply)]), c, client.(pc := Unlocking))
    else
      Put(s, c, client.(pc := Reading(r.fpos), reply := client.reply + r.data))
  }

  function Step(s: Sys, e: Event): (s': Sys)
    requires InRange(s.dev.ring)
    ensures InRange(s'.dev.ring)
  {
    if s.exited then s
    else if e.Accept? then
      if e.c in s.clients then s else Put(s, e.c, NEW_CLIENT)
    else if e.c !in s.clients then s
    else
      var client := s.clients[e.c];
      match e
      case Recv(c, chunk) =>
        if client.pc.Polling? && 0 < |chunk| < BUFFER_SIZE then Put(s, c, Received(client, chunk)) else s
      case Hangup(c) =>
        if client.pc.Polling? then Put(s, c, client.(buffer := [], pc := Closed)) else s
      case Lock(c) =>
        if client.pc.WantLock? && s.lock.None? then Put(s.(lock := Some(c)), c, client.(pc := Holding)) else s
      case Transact(c) =>
        if client.pc.Holding? then TransactStep(s, c) else s
      case ReadSome(c, count) =>
        if client.pc.Reading? && count > 0 then ReadStep(s, c, count) else s
      case Unlock(c) =>
        if client.pc.Unlocking? then Put(s.(lock := None), c, client.(buffer := [], pc := Polling)) else s
      case Accept(_) => s
  }

  function Run(n: nat, events: seq<Event>): (s: Sys)
    requires n > 0
    ensures InRange(s.dev.ring)
  {
    if events == [] then Start(n)
    else Step(Run(n, events[..|events| - 1]), events[|events| - 1])
  }

  // --- the reference: transactions one after the other

  /** The appended messages, in lock order. */
  function Appended(log: seq<Flush>): seq<Bytes> {
    if log == [] then []
    else
      var last := log[|log| - 1];
      Appended(log[..|log| - 1]) + if last.Append? then [last.msg] else []
  }

  /** The messages of client c, in order. */
  function MessagesOf(log: seq<Flush>, c: nat): seq<Bytes> {
    if log == [] then []
    else
      var last := log[|log| - 1];
      MessagesOf(log[..|log| - 1], c) + if last.client == c then [last.msg] else []
  }

  /** The device after a sequential server has executed the log. */
  function Sequential(n: nat, log: seq<Flush>): Device
    requires n > 0
  {
    WriteRun(n, Plain(Appended(log)))
  }

  /** What a sequential server would answer to the last transaction of the log. */
  function Answer(n: nat, log: seq<Flush>): (data: Bytes)
    requires n > 0 && log != []
  {
    var lines := LastN(Appended(log), n);
    Flat(lines)[AnswerFrom(lines, log[|log| - 1])..]
  }

  function AnswerFrom(lines: seq<Bytes>, last: Flush): (p: nat)
    ensures p <= |Flat(lines)|
  {
    match last
    case Append(_, _) => 0
    case Seek(_, _, seekto) =>
      FlatPositionInside(lines, seekto.writeCmd, seekto.writeCmdOffset);
      FlatPosition(lines, seekto.writeCmd, seekto.writeCmdOffset)
  }

  // --- the invariant

  predicate InLock(pc: Pc) { pc.Holding? || pc.Reading? || pc.Unlocking? }

  predicate Logged(pc: Pc) { pc.Reading? || pc.Unlocking? }

  /** The device is the sequential one; its readers see exactly the last n appended messages; nothing is pending. */
  ghost predicate DeviceInv(n: nat, dev: Device, log: seq<Flush>)
    requires n > 0 && InRange(dev.ring)
  {
    && dev == Sequential(n, log)
    && (forall m :: m in Appended(log) ==> NEWLINE in m)
    && Visible(dev.ring) == LastN(Appended(log), n)
    && PendingBytes(dev) == []
  }

  /** A client's logged messages and its buffer are what the framing makes of the chunks it was sent. */
  ghost predicate FramingInv(client: Client, msgs: seq<Bytes>) {
    var f := ReceiveAll(client.chunks);
    match client.pc
    case Polling => f == Framing(msgs, client.buffer)
    case WantLock => f == Framing(msgs + [client.buffer], [])
    case Holding => f == Framing(msgs + [client.buffer], [])
    case Reading(_) => f == Framing(msgs, [])
    case Unlocking => f == Framing(msgs, [])
    case Closed => f.flushed == msgs
  }

  /** One client, against the lock, the log and the strings visible in the device. */
  ghost predicate ClientInv(client: Client, c: nat, lock: Option<nat>, log: seq<Flush>, lines: seq<Bytes>) {
    && (InLock(client.pc) <==> lock == Some(c))
    && (Logged(client.pc) ==> log != [] && log[|log| - 1].client == c)
    && (client.pc.Reading? ==>
          var from := AnswerFrom(lines, log[|log| - 1]);
          && from <= client.pc.fpos <= |Flat(lines)|
          && client.reply == Flat(lines)[from..client.pc.fpos])
    && FramingInv(client, MessagesOf(log, c))
  }

  ghost predicate ClientsInv(clients: map<nat, Client>, lock: Option<nat>, log: seq<Flush>, lines: seq<Bytes>) {
    forall c :: c in clients ==> ClientInv(clients[c], c, lock, log, lines)
  }

  /** The i-th reply went to the client of the i-th transaction, and is what a sequential server would answer. */
  ghost predicate ReplyInv(n: nat, log: seq<Flush>, i: nat, reply: Reply)
    requires n > 0
  {
    i < |log| && reply.client == log[i].client && reply.data == Answer(n, log[..i + 1])
  }

  ghost predicate RepliesInv(n: nat, log: seq<Flush>, replies: seq<Reply>)
    requires n > 0
  {
    forall i :: 0 <= i < |replies| ==> ReplyInv(n, log, i, replies[i])
  }

  /** The transaction of the lock's holder is logged and not yet answered in full. */
  predicate Answering(clients: map<nat, Client>, lock: Option<nat>) {
    lock.Some? && lock.value in clients && clients[lock.value].pc.Reading?
  }

  /** Every transaction has its reply, but for one that is being answered. */
  predicate CountInv(s: Sys) {
    |s.log| == |s.replies| + if Answering(s.clients, s.lock) then 1 else 0
  }

  ghost predicate Inv(n: nat, s: Sys) {
    && n > 0 && InRange(s.dev.ring)
    && DeviceInv(n, s.dev, s.log)
    && (s.lock.Some? ==> s.lock.value in s.clients)
    && (forall i :: 0 <= i < |s.log| ==> s.log[i].client in s.clients)
    && ClientsInv(s.clients, s.lock, s.log, Visible(s.dev.ring))
    && RepliesInv(n, s.log, s.replies)
    && CountInv(s)
  }

  lemma {:induction false} NothingLogged(log: seq<Flush>, c: nat)
    requires forall i :: 0 <= i < |log| ==> log[i].client != c
    ensures MessagesOf(log, c) == []
  {
    if log != [] {
      NothingLogged(log[..|log| - 1], c);
    }
  }

  // --- each step keeps it

  /** A step of client c that leaves the device, the log and the replies alone, and at most gives or takes c's lock. */
  lemma LocalStep(n: nat, s: Sys, c: nat, client: Client, lock: Option<nat>)
    requires Inv(n, s)
    requires lock == s.lock || (s.lock == None && lock == Some(c)) || (s.lock == Some(c) && lock == None)
    requires ClientInv(client, c, lock, s.log, Visible(s.dev.ring))
    requires Answering(s.clients[c := client], lock) == Answering(s.clients, s.lock)
    ensures Inv(n, Put(s.(lock := lock), c, client))
  {
    OthersKeep(s.clients, c, client, s.lock, lock, s.log, Visible(s.dev.ring));
  }

  lemma OthersKeep(clients: map<nat, Client>, c: nat, client: Client, lock: Option<nat>, lock': Option<nat>,
                   log: seq<Flush>, lines: seq<Bytes>)
    requires ClientsInv(clients, lock, log, lines) && ClientInv(client, c, lock', log, lines)
    requires lock' == lock || (lock == None && lock' == Some(c)) || (lock == Some(c) && lock' == None)
    ensures ClientsInv(clients[c := client], lock', log, lines)
  {
    forall c2 | c2 in clients && c2 != c
      ensures ClientInv(clients[c2], c2, lock', log, lines)
    {
      assert ClientInv(clients[c2], c2, lock, log, lines);
    }
  }

  /** A longer log is the same to the clients that did not write the last entry and are not in a transaction. */
  lemma OtherClient(client: Client, c: nat, lock: Option<nat>, log: seq<Flush>, lines: seq<Bytes>,
                    last: Flush, lines': seq<Bytes>)
    requires ClientInv(client, c, lock, log, lines) && lock != Some(c) && last.client != c
    ensures ClientInv(client, c, lock, log + [last], lines')
  {
    assert (log + [last])[..|log|] == log;
    assert MessagesOf(log + [last], c) == MessagesOf(log, c) + [];
  }

  lemma OthersLog(clients: map<nat, Client>, c: nat, client: Client, log: seq<Flush>, lines: seq<Bytes>,
                  last: Flush, lines': seq<Bytes>)
    requires ClientsInv(clients, Some(c), log, lines) && last.client == c
    requires ClientInv(client, c, Some(c), log + [last], lines')
    ensures ClientsInv(clients[c := client], Some(c), log + [last], lines')
  {
    forall c2 | c2 in clients && c2 != c
      ensures ClientInv(clients[c2], c2, Some(c), log + [last], lines')
    {
      OtherClient(clients[c2], c2, Some(c), log, lines, last, lines');
    }
  }

  lemma RepliesLog(n: nat, log: seq<Flush>, last: Flush, replies: seq<Reply>)
    requires n > 0 && RepliesInv(n, log, replies)
    ensures RepliesInv(n, log + [last], replies)
  {
    forall i | 0 <= i < |replies|
      ensures ReplyInv(n, log + [last], i, replies[i])
    {
      assert ReplyInv(n, log, i, replies[i]);
      assert (log + [last])[..i + 1] == log[..i + 1];
    }
  }

  /** The log grows by a transaction of the client that holds the lock, which starts to read its answer. */
  lemma LogStep(n: nat, s: Sys, c: nat, client: Client, dev: Device, last: Flush)
    requires Inv(n, s) && s.lock == Some(c) && last.client == c
    requires c in s.clients && s.clients[c].pc.Holding? && client.pc.Reading?
    requires InRange(dev.ring) && DeviceInv(n, dev, s.log + [last])
    requires ClientInv(client, c, s.lock, s.log + [last], Visible(dev.ring))
    ensures Inv(n, Put(s.(dev := dev, log := s.log + [last]), c, client))
  {
    OthersLog(s.clients, c, client, s.log, Visible(s.dev.ring), last, Visible(dev.ring));
    RepliesLog(n, s.log, last, s.replies);
  }

  /** The holder's answer is complete: it is recorded, and the holder goes on to unlock. */
  lemma ReplyStep(n: nat, s: Sys, c: nat, client: Client, reply: Reply)
    requires Inv(n, s) && s.lock == Some(c)
    requires c in s.clients && s.clients[c].pc.Reading? && client.pc.Unlocking?
    requires ClientInv(client, c, s.lock, s.log, Visible(s.dev.ring))
    requires ReplyInv(n, s.log, |s.replies|, reply)
    ensures Inv(n, Put(s.(replies := s.replies + [reply]), c, client))
  {
    OthersKeep(s.clients, c, client, s.lock, s.lock, s.log, Visible(s.dev.ring));
    RepliesGrow(n, s.log, s.replies, reply);
  }

  lemma RepliesGrow(n: nat, log: seq<Flush>, replies: seq<Reply>, reply: Reply)
    requires n > 0 && RepliesInv(n, log, replies) && ReplyInv(n, log, |replies|, reply)
    ensures RepliesInv(n, log, replies + [reply])
  {
    forall i | 0 <= i < |replies| + 1
      ensures ReplyInv(n, log, i, (replies + [reply])[i])
    {
      if i < |replies| {
        assert ReplyInv(n, log, i, replies[i]);
      }
    }
  }

  lemma AcceptKeeps(n: nat, s: Sys, c: nat)
    requires Inv(n, s) && c !in s.clients
    ensures Inv(n, Put(s, c, NEW_CLIENT))
  {
    NothingLogged(s.log, c);
    LocalStep(n, s, c, NEW_CLIENT, s.lock);
  }

  lemma RecvClient(client: Client, c: nat, lock: Option<nat>, log: seq<Flush>, lines: seq<Bytes>, chunk: Bytes)
    requires ClientInv(client, c, lock, log, lines) && client.pc.Polling?
    ensures ClientInv(Received(client, chunk), c, lock, log, lines)
  {
    var chunks := client.chunks + [chunk];
    assert chunks[..|chunks| - 1] == client.chunks;
    assert ReceiveAll(chunks) == Receive(ReceiveAll(client.chunks), chunk);
  }

  lemma RecvKeeps(n: nat, s: Sys, c: nat, chunk: Bytes)
    requires Inv(n, s) && c in s.clients && s.clients[c].pc.Polling?
    ensures Inv(n, Put(s, c, Received(s.clients[c], chunk)))
  {
    RecvClient(s.clients[c], c, s.lock, s.log, Visible(s.dev.ring), chunk);
    LocalStep(n, s, c, Received(s.clients[c], chunk), s.lock);
  }

  lemma HangupKeeps(n: nat, s: Sys, c: nat)
    requires Inv(n, s) && c in s.clients && s.clients[c].pc.Polling?
    ensures Inv(n, Put(s, c, s.clients[c].(buffer := [], pc := Closed)))
  {
    assert ClientInv(s.clients[c], c, s.lock, s.log, Visible(s.dev.ring));
    LocalStep(n, s, c, s.clients[c].(buffer := [], pc := Closed), s.lock);
  }

  lemma LockKeeps(n: nat, s: Sys, c: nat)
    requires Inv(n, s) && c in s.clients && s.clients[c].pc.WantLock? && s.lock.None?
    ensures Inv(n, Put(s.(lock := Some(c)), c, s.clients[c].(pc := Holding)))
  {
    assert ClientInv(s.clients[c], c, s.lock, s.log, Visible(s.dev.ring));
    LocalStep(n, s, c, s.clients[c].(pc := Holding), Some(c));
  }

  lemma UnlockKeeps(n: nat, s: Sys, c: nat)
    requires Inv(n, s) && c in s.clients && s.clients[c].pc.Unlocking?
    ensures Inv(n, Put(s.(lock := None), c, s.clients[c].(buffer := [], pc := Polling)))
  {
    assert ClientInv(s.clients[c], c, s.lock, s.log, Visible(s.dev.ring));
    LocalStep(n, s, c, s.clients[c].(buffer := [], pc := Polling), None);
  }

  /** The reference device of lines that all hold a newline. */
  lemma LinesDevice(n: nat, msgs: seq<Bytes>)
    requires n > 0 && forall m :: m in msgs ==> NEWLINE in m
    ensures var d := WriteRun(n, Plain(msgs));
            Visible(d.ring) == LastN(msgs, n) && PendingBytes(d) == []
  {
    LinesAreMessages(msgs);
    PlainRun(n, msgs);
  }

  /** Writing one more line is what the sequential server does. */
  lemma AppendDevice(n: nat, dev: Device, log: seq<Flush>, last: Flush)
    requires n > 0 && InRange(dev.ring) && DeviceInv(n, dev, log)
    requires last.Append? && NEWLINE in last.msg
    ensures DeviceInv(n, Write(dev, last.msg, NO_FAULTS).dev, log + [last])
  {
    var msgs, m := Appended(log), last.msg;
    assert (log + [last])[..|log|] == log;
    assert Plain(msgs + [m])[..|msgs|] == Plain(msgs);
    LinesDevice(n, msgs + [m]);
  }

  lemma SeekDevice(n: nat, dev: Device, log: seq<Flush>, last: Flush)
    requires n > 0 && InRange(dev.ring) && DeviceInv(n, dev, log) && last.Seek?
    ensures DeviceInv(n, dev, log + [last])
  {
    assert (log + [last])[..|log|] == log;
    assert Appended(log + [last]) == Appended(log);
  }

  /** What waits for the lock is a message of the framing, and so holds a newline. */
  lemma FlushHoldsNewline(client: Client, c: nat, lock: Option<nat>, log: seq<Flush>, lines: seq<Bytes>)
    requires ClientInv(client, c, lock, log, lines) && client.pc.Holding?
    ensures NEWLINE in client.buffer
  {
    FramingConserves(client.chunks);
    var flushed := ReceiveAll(client.chunks).flushed;
    assert flushed[|flushed| - 1] == client.buffer;
  }

  /** Right after its transaction is logged, the holder starts to read at the answer's start. */
  lemma HolderLogs(client: Client, c: nat, log: seq<Flush>, lines: seq<Bytes>, last: Flush, lines': seq<Bytes>)
    requires ClientInv(client, c, Some(c), log, lines) && client.pc.Holding?
    requires last.client == c && last.msg == client.buffer
    ensures ClientInv(client.(pc := Reading(AnswerFrom(lines', last)), reply := []), c, Some(c), log + [last], lines')
  {
    var p := AnswerFrom(lines', last);
    assert (log + [last])[..|log|] == log;
    assert Flat(lines')[p..p] == [];
  }

  lemma AppendKeeps(n: nat, s: Sys, c: nat)
    requires Inv(n, s) && c in s.clients && s.clients[c].pc.Holding?
    ensures Inv(n, AppendStep(s, c))
  {
    var client := s.clients[c];
    var last, dev := Append(c, client.buffer), Write(s.dev, client.buffer, NO_FAULTS).dev;
    assert ClientInv(client, c, s.lock, s.log, Visible(s.dev.ring));
    FlushHoldsNewline(client, c, s.lock, s.log, Visible(s.dev.ring));
    AppendDevice(n, s.dev, s.log, last);
    HolderLogs(client, c, s.log, Visible(s.dev.ring), last, Visible(dev.ring));
    LogStep(n, s, c, client.(pc := Reading(0), reply := []), dev, last);
  }

  lemma SeekKeeps(n: nat, s: Sys, c: nat, seekto: SeekTo)
    requires Inv(n, s) && c in s.clients && s.clients[c].pc.Holding?
    ensures Inv(n, SeekStep(s, c, seekto))
  {
    var client, lines := s.clients[c], Visible(s.dev.ring);
    var last := Seek(c, client.buffer, seekto);
    var p := FlatPosition(lines, seekto.writeCmd, seekto.writeCmdOffset);
    assert ClientInv(client, c, s.lock, s.log, lines);
    if Ioctl(s.dev, 0, AESDCHAR_IOCSEEKTO, Some(seekto)).outcome.Ok? {
      SeekDevice(n, s.dev, s.log, last);
      HolderLogs(client, c, s.log, lines, last, lines);
      LogStep(n, s, c, client.(pc := Reading(p), reply := []), s.dev, last);
    }
  }

  lemma TransactKeeps(n: nat, s: Sys, c: nat)
    requires Inv(n, s) && c in s.clients && s.clients[c].pc.Holding?
    ensures Inv(n, TransactStep(s, c))
  {
    match ParseCommand(s.clients[c].buffer, |s.clients[c].buffer|) {
      case None => AppendKeeps(n, s, c);
      case Some(seekto) => SeekKeeps(n, s, c, seekto);
    }
  }

  /** What one read adds to the reply. */
  lemma ReadAdvances(client: Client, c: nat, lock: Option<nat>, log: seq<Flush>, dev: Device, count: nat)
    requires InRange(dev.ring) && client.pc.Reading? && count > 0
    requires ClientInv(client, c, lock, log, Visible(dev.ring))
    ensures var r := Read(dev, client.pc.fpos, count, true);
            && (r.data == [] ==>
                  && client.pc.fpos == |FlatOf(dev)|
                  && ClientInv(client.(pc := Unlocking), c, lock, log, Visible(dev.ring))
                  && client.reply == FlatOf(dev)[AnswerFrom(Visible(dev.ring), log[|log| - 1])..])
            && (r.data != [] ==>
                  && client.pc.fpos < r.fpos
                  && ClientInv(client.(pc := Reading(r.fpos), reply := client.reply + r.data),
                               c, lock, log, Visible(dev.ring)))
  {
    var text, f, from := FlatOf(dev), client.pc.fpos, AnswerFrom(Visible(dev.ring), log[|log| - 1]);
    ReadExact(dev, f, count, true);
    var r := Read(dev, f, count, true);
    if r.data == [] {
      assert text[from..f] == text[from..];
    } else {
      assert text[from..f] + text[f..r.fpos] == text[from..r.fpos];
    }
  }

  /** The whole reply is what is left of the flat string from the answer's start. */
  lemma ReplyIsAnswer(n: nat, dev: Device, log: seq<Flush>, data: Bytes)
    requires n > 0 && InRange(dev.ring) && DeviceInv(n, dev, log) && log != []
    requires data == FlatOf(dev)[AnswerFrom(Visible(dev.ring), log[|log| - 1])..]
    ensures data == Answer(n, log)
    ensures log[..|log| - 1 + 1] == log
  {
  }

  /** A read that finds the end completes the answer. */
  lemma ReadEnds(n: nat, s: Sys, c: nat, count: nat)
    requires Inv(n, s) && c in s.clients && s.clients[c].pc.Reading? && count > 0
    requires Read(s.dev, s.clients[c].pc.fpos, count, true).data == []
    ensures s.log != [] && s.clients[c].reply == Answer(n, s.log)
    ensures Inv(n, ReadStep(s, c, count))
  {
    var client := s.clients[c];
    assert ClientInv(client, c, s.lock, s.log, Visible(s.dev.ring));
    ReadAdvances(client, c, s.lock, s.log, s.dev, count);
    ReplyIsAnswer(n, s.dev, s.log, client.reply);
    ReplyStep(n, s, c, client.(pc := Unlocking), Reply(c, client.reply));
  }

  /** Any other read goes on. */
  lemma ReadGoesOn(n: nat, s: Sys, c: nat, count: nat)
    requires Inv(n, s) && c in s.clients && s.clients[c].pc.Reading? && count > 0
    requires Read(s.dev, s.clients[c].pc.fpos, count, true).data != []
    ensures s.clients[c].pc.fpos < Read(s.dev, s.clients[c].pc.fpos, count, true).fpos
    ensures Inv(n, ReadStep(s, c, count))
  {
    var client, r := s.clients[c], Read(s.dev, s.clients[c].pc.fpos, count, true);
    assert ClientInv(client, c, s.lock, s.log, Visible(s.dev.ring));
    ReadAdvances(client, c, s.lock, s.log, s.dev, count);
    LocalStep(n, s, c, client.(pc := Reading(r.fpos), reply := client.reply + r.data), s.lock);
  }

  lemma ReadKeeps(n: nat, s: Sys, c: nat, count: nat)
    requires Inv(n, s) && c in s.clients && s.clients[c].pc.Reading? && count > 0
    ensures Inv(n, ReadStep(s, c, count))
  {
    if Read(s.dev, s.clients[c].pc.fpos, count, true).data == [] {
      ReadEnds(n, s, c, count);
    } else {
      ReadGoesOn(n, s, c, count);
    }
  }

  lemma StepKeeps(n: nat, s: Sys, e: Event)
    requires Inv(n, s)
    ensures Inv(n, Step(s, e))
  {
    if Step(s, e) != s {
      match e {
        case Accept(c) => AcceptKeeps(n, s, c);
        case Recv(c, chunk) => RecvKeeps(n, s, c, chunk);
        case Hangup(c) => HangupKeeps(n, s, c);
        case Lock(c) => LockKeeps(n, s, c);
        case Transact(c) => TransactKeeps(n, s, c);
        case ReadSome(c, count) => ReadKeeps(n, s, c, count);
        case Unlock(c) => UnlockKeeps(n, s, c);
      }
    }
  }

  lemma {:induction false} RunKeeps(n: nat, events: seq<Event>)
    requires n > 0
    ensures Inv(n, Run(n, events))
  {
    if events == [] {
      LinesDevice(n, []);
      assert Plain([]) == [];
    } else {
      RunKeeps(n, events[..|events| - 1]);
      StepKeeps(n, Run(n, events[..|events| - 1]), events[|events| - 1]);
    }
  }

  // --- what it says

  /**
   Linearizability. After any interleaving the device is the one a sequential
   server would leave that executes the logged transactions in lock order, with
   nothing pending. Every transaction has been answered, but for one whose client
   is still reading inside the lock; the i-th answer went to the client of the
   i-th transaction, and is the sequential server's.
   */
  lemma Linearizable(n: nat, events: seq<Event>)
    requires n > 0
    ensures var s := Run(n, events);
            && s.dev == Sequential(n, s.log)
            && Visible(s.dev.ring) == LastN(Appended(s.log), n)
            && PendingBytes(s.dev) == []
            && |s.log| == |s.replies| + (if Answering(s.clients, s.lock) then 1 else 0)
            && forall i :: 0 <= i < |s.replies| ==>
                 && s.replies[i].client == s.log[i].client
                 && s.replies[i].data == Answer(n, s.log[..i + 1])
  {
    RunKeeps(n, events);
    var s := Run(n, events);
    assert forall i :: 0 <= i < |s.replies| ==> ReplyInv(n, s.log, i, s.replies[i]);
  }

  /**
   The reply to an append is the last n messages, whole, and ends in the
   client's own; the reply to a seek is the flat string of the last n messages
   from the byte it names on, or all of it when it names none.
   */
  ghost predicate Answers(n: nat, log: seq<Flush>, i: nat, reply: Reply) {
    && i < |log| && reply.client == log[i].client
    && var lines := LastN(Appended(log[..i + 1]), n);
       match log[i]
       case Append(_, msg) =>
         reply.data == Flat(lines) && lines != [] && lines[|lines| - 1] == msg
       case Seek(_, _, seekto) =>
         if seekto.writeCmd < |lines| && seekto.writeCmdOffset < |lines[seekto.writeCmd]| then
           reply.data == TailFrom(lines, seekto.writeCmd, seekto.writeCmdOffset)
         else
           reply.data == Flat(lines)
  }

  lemma ReplyAnswers(n: nat, log: seq<Flush>, i: nat, reply: Reply)
    requires n > 0 && ReplyInv(n, log, i, reply)
    ensures Answers(n, log, i, reply)
  {
    var upTo := log[..i + 1];
    var lines := LastN(Appended(upTo), n);
    assert upTo[|upTo| - 1] == log[i];
    match log[i] {
      case Append(_, _) =>
      case Seek(_, _, seekto) =>
        if seekto.writeCmd < |lines| && seekto.writeCmdOffset < |lines[seekto.writeCmd]| {
          FlatFrom(lines, seekto.writeCmd, seekto.writeCmdOffset);
        }
    }
  }

  /** So it is for every completed reply of every interleaving. */
  lemma AllReplies(n: nat, events: seq<Event>)
    requires n > 0
    ensures var s := Run(n, events);
            forall i :: 0 <= i < |s.replies| ==> Answers(n, s.log, i, s.replies[i])
  {
    RunKeeps(n, events);
    var s := Run(n, events);
    forall i | 0 <= i < |s.replies|
      ensures Answers(n, s.log, i, s.replies[i])
    {
      ReplyAnswers(n, s.log, i, s.replies[i]);
    }
  }

  /** The mutex is held by at most one client, and only its holder is inside a transaction. */
  lemma MutualExclusion(n: nat, events: seq<Event>, a: nat, b: nat)
    requires n > 0
    requires var s := Run(n, events);
             a in s.clients && b in s.clients && InLock(s.clients[a].pc) && InLock(s.clients[b].pc)
    ensures a == b
  {
    RunKeeps(n, events);
    var s := Run(n, events);
    assert ClientInv(s.clients[a], a, s.lock, s.log, Visible(s.dev.ring));
    assert ClientInv(s.clients[b], b, s.lock, s.log, Visible(s.dev.ring));
  }

  /** What recv hands to the thread of c: 1 to 511 bytes, and only while the thread polls. */
  predicate Delivers(s: Sys, c: nat, chunk: Bytes) {
    !s.exited && c in s.clients && s.clients[c].pc.Polling? && 0 < |chunk| < 512
  }

  /** All that was delivered to c in the run, from its events. */
  function Delivered(n: nat, events: seq<Event>, c: nat): seq<Bytes>
    requires n > 0
  {
    if events == [] then []
    else
      var before, last := events[..|events| - 1], events[|events| - 1];
      Delivered(n, before, c)
      + if last.Recv? && last.c == c && Delivers(Run(n, before), c, last.chunk) then [last.chunk] else []
  }

  lemma ChunksStep(s: Sys, e: Event, c: nat)
    requires InRange(s.dev.ring) && c in s.clients
    ensures c in Step(s, e).clients
    ensures Step(s, e).clients[c].chunks == s.clients[c].chunks
              + if e.Recv? && e.c == c && Delivers(s, c, e.chunk) then [e.chunk] else []
  {
    if e.Recv? && e.c == c && Delivers(s, c, e.chunk) {
      assert Step(s, e).clients[c].chunks == s.clients[c].chunks + [e.chunk];
    } else {
      assert Step(s, e).clients[c].chunks == s.clients[c].chunks;
    }
  }

  /** The chunks on record are the delivered ones, whole and in order; before it is accepted a client gets none. */
  lemma {:induction false} ChunksAreDelivered(n: nat, events: seq<Event>, c: nat)
    requires n > 0
    ensures (if c in Run(n, events).clients then Run(n, events).clients[c].chunks else []) == Delivered(n, events, c)
  {
    if events != [] {
      var before, last := events[..|events| - 1], events[|events| - 1];
      ChunksAreDelivered(n, before, c);
      if c in Run(n, before).clients {
        ChunksStep(Run(n, before), last, c);
      }
    }
  }

  /**
   Whoever else is served in between, a client's transactions are exactly the
   flushes of the chunks delivered to it, in order, the last of them not yet
   logged while it waits for the lock or has just got it. So none of its bytes
   is lost, added or moved while it polls.
   */
  lemma ClientConservation(n: nat, events: seq<Event>, c: nat)
    requires n > 0 && c in Run(n, events).clients
    ensures var s, chunks := Run(n, events), Delivered(n, events, c);
            var client, msgs := s.clients[c], MessagesOf(s.log, c);
            && ReceiveAll(chunks).flushed
               == (if client.pc.WantLock? || client.pc.Holding? then msgs + [client.buffer] else msgs)
            && (client.pc.Polling? ==>
                  && ReceiveAll(chunks) == Framing(msgs, client.buffer)
                  && Flat(msgs) + client.buffer == Flat(chunks))
  {
    RunKeeps(n, events);
    ChunksAreDelivered(n, events, c);
    var s := Run(n, events);
    assert ClientInv(s.clients[c], c, s.lock, s.log, Visible(s.dev.ring));
    FramingConserves(s.clients[c].chunks);
  }

  // --- when memory suffices

  /** An append's allocations are granted where memory holds twice what the device shows and three times the message. */
  lemma AppendIsGranted(n: nat, s: Sys, c: nat, capacity: nat)
    requires Inv(n, s) && c in s.clients
    requires 2 * |Flat(LastN(Appended(s.log), n))| + 3 * |s.clients[c].buffer| <= capacity
    ensures FaultsOf(s.dev, capacity, s.clients[c].buffer, KIND) == NO_FAULTS
  {
    LinesAreMessages(Appended(s.log));
    PlainRun(n, Appended(s.log));
    AmpleMemory(s.dev, capacity, s.clients[c].buffer, KIND);
  }

  /** In every interleaving: memory for 2n + 3 messages is enough when none is longer than `longest`. */
  lemma RunIsGranted(n: nat, events: seq<Event>, c: nat, longest: nat, capacity: nat)
    requires n > 0 && c in Run(n, events).clients
    requires forall m :: m in Appended(Run(n, events).log) ==> |m| <= longest
    requires |Run(n, events).clients[c].buffer| <= longest
    requires (2 * n + 3) * longest <= capacity
    ensures var s := Run(n, events); FaultsOf(s.dev, capacity, s.clients[c].buffer, KIND) == NO_FAULTS
  {
    var s := Run(n, events);
    var lines := LastN(Appended(s.log), n);
    RunKeeps(n, events);
    FlatBound(lines, longest, n);
    Distribute(n, longest);
    AppendIsGranted(n, s, c, capacity);
  }

  lemma OneMore(n: int, longest: nat)
    ensures n * longest == (n - 1) * longest + longest
  {
  }

  lemma Distribute(n: nat, longest: nat)
    ensures (2 * n + 3) * longest == 2 * (n * longest) + 3 * longest
  {
  }

  lemma {:induction false} FlatBound(es: seq<Bytes>, longest: nat, n: nat)
    requires |es| <= n && forall e :: e in es ==> |e| <= longest
    ensures |Flat(es)| <= n * longest
  {
    if es != [] {
      assert |es[0]| <= longest;
      FlatBound(es[1..], longest, n - 1);
      OneMore(n, longest);
    }
  }

  // --- a transaction in one piece

  function StepAll(s: Sys, events: seq<Event>): (s': Sys)
    requires InRange(s.dev.ring)
    ensures InRange(s'.dev.ring)
    decreases |events|
  {
    if events == [] then s else StepAll(Step(s, events[0]), events[1..])
  }

  function Reads(c: nat, counts: seq<nat>): (events: seq<Event>)
    ensures |events| == |counts|
  {
    seq(|counts|, i requires 0 <= i < |counts| => ReadSome(c, counts[i]))
  }

  /** The reads of the answer, as long as there is something to read. */
  function ReadAll(s: Sys, c: nat, counts: seq<nat>): (s': Sys)
    requires c in s.clients && InRange(s.dev.ring)
    ensures InRange(s'.dev.ring)
    decreases |counts|
  {
    if counts == [] || counts[0] == 0 || !s.clients[c].pc.Reading? then s
    else ReadAll(ReadStep(s, c, counts[0]), c, counts[1..])
  }

  lemma StepAllFirst(s: Sys, e: Event, rest: seq<Event>)
    requires InRange(s.dev.ring)
    ensures StepAll(s, [e] + rest) == StepAll(Step(s, e), rest)
  {
    assert ([e] + rest)[1..] == rest;
  }

  lemma ReadIsStep(s: Sys, c: nat, count: nat)
    requires InRange(s.dev.ring) && !s.exited && c in s.clients && count > 0
    ensures Step(s, ReadSome(c, count)) == if s.clients[c].pc.Reading? then ReadStep(s, c, count) else s
  {
  }

  lemma {:induction false} ReadsAreReadAll(s: Sys, c: nat, counts: seq<nat>, rest: seq<Event>)
    requires InRange(s.dev.ring) && !s.exited && c in s.clients
    requires forall i :: 0 <= i < |counts| ==> counts[i] > 0
    ensures StepAll(s, Reads(c, counts) + rest) == StepAll(ReadAll(s, c, counts), rest)
    decreases |counts|
  {
    if counts == [] {
      assert Reads(c, counts) + rest == rest;
    } else {
      var s1 := if s.clients[c].pc.Reading? then ReadStep(s, c, counts[0]) else s;
      ReadIsStep(s, c, counts[0]);
      assert Reads(c, counts) + rest == [ReadSome(c, counts[0])] + (Reads(c, counts[1..]) + rest);
      StepAllFirst(s, ReadSome(c, counts[0]), Reads(c, counts[1..]) + rest);
      ReadsAreReadAll(s1, c, counts[1..], rest);
    }
  }

  /** The state once the holder's answer is complete. */
  function AnsweredState(n: nat, s: Sys, c: nat): Sys
    requires n > 0 && c in s.clients && s.log != []
  {
    var data := Answer(n, s.log);
    Put(s.(replies := s.replies + [Reply(c, data)]), c, s.clients[c].(pc := Unlocking, reply := data))
  }

  lemma AnsweredLater(n: nat, s: Sys, c: nat, client: Client)
    requires n > 0 && c in s.clients && s.log != []
    requires client.chunks == s.clients[c].chunks && client.buffer == s.clients[c].buffer
    ensures AnsweredState(n, Put(s, c, client), c) == AnsweredState(n, s, c)
  {
    assert s.clients[c := client][c := AnsweredState(n, s, c).clients[c]] == AnsweredState(n, s, c).clients;
  }

  /** Enough reads with positive counts complete the answer, whatever the counts. */
  lemma {:induction false} ReadsComplete(n: nat, s: Sys, c: nat, counts: seq<nat>)
    requires Inv(n, s) && c in s.clients && s.clients[c].pc.Reading? && s.log != []
    requires forall i :: 0 <= i < |counts| ==> counts[i] > 0
    requires counts != [] && |counts| > |FlatOf(s.dev)| - s.clients[c].pc.fpos
    ensures ReadAll(s, c, counts) == AnsweredState(n, s, c)
    decreases |counts|
  {
    var client, r := s.clients[c], Read(s.dev, s.clients[c].pc.fpos, counts[0], true);
    if r.data == [] {
      ReadEnds(n, s, c, counts[0]);
    } else {
      ReadGoesOn(n, s, c, counts[0]);
      ReadsComplete(n, ReadStep(s, c, counts[0]), c, counts[1..]);
      AnsweredLater(n, s, c, client.(pc := Reading(r.fpos), reply := client.reply + r.data));
    }
  }

  /** The log entry of a transaction. */
  function FlushOf(c: nat, buffer: Bytes): Flush {
    match ParseCommand(buffer, |buffer|)
    case None => Append(c, buffer)
    case Some(seekto) => Seek(c, buffer, seekto)
  }

  /** The state after a whole transaction that the exchange x of the value model describes. */
  function ExchangedState(s: Sys, c: nat, x: Exchanged): Sys
    requires c in s.clients
  {
    var client := s.clients[c];
    if x.died then s.(exited := true)
    else Sys(s.clients[c := client.(buffer := [], pc := Polling, reply := x.sent)], None, x.dev,
             s.log + [FlushOf(c, client.buffer)], s.replies + [Reply(c, x.sent)], s.exited)
  }

  lemma {:induction false} ExitedStays(s: Sys, events: seq<Event>)
    requires InRange(s.dev.ring) && s.exited
    ensures StepAll(s, events) == s
    decreases |events|
  {
    if events != [] {
      ExitedStays(s, events[1..]);
    }
  }

  /** The state after the first step of a transaction that the exchange x describes. */
  function StartedState(s: Sys, c: nat, x: Exchanged): Sys
    requires c in s.clients && InRange(x.dev.ring)
  {
    var last := FlushOf(c, s.clients[c].buffer);
    var from := AnswerFrom(Visible(x.dev.ring), last);
    Put(s.(dev := x.dev, log := s.log + [last]), c, s.clients[c].(pc := Reading(from), reply := []))
  }

  lemma TransactStarts(s: Sys, c: nat)
    requires InRange(s.dev.ring) && c in s.clients
    ensures var x := ExchangeOf(s.dev, s.clients[c].buffer, NO_FAULTS);
            && TransactStep(s, c) == (if x.died then s.(exited := true) else StartedState(s, c, x))
            && (!x.died ==>
                  x.sent == FlatOf(x.dev)[AnswerFrom(Visible(x.dev.ring), FlushOf(c, s.clients[c].buffer))..])
  {
  }

  /** The sequential answer to the new transaction is what the exchange sends. */
  lemma StartedAnswer(n: nat, s: Sys, c: nat, x: Exchanged)
    requires c in s.clients && InRange(x.dev.ring) && Inv(n, StartedState(s, c, x))
    requires x.sent == FlatOf(x.dev)[AnswerFrom(Visible(x.dev.ring), FlushOf(c, s.clients[c].buffer))..]
    ensures Answer(n, StartedState(s, c, x).log) == x.sent
  {
    ReplyIsAnswer(n, x.dev, StartedState(s, c, x).log, x.sent);
  }

  /** Unlocking after the complete answer leaves the exchanged state. */
  lemma TransactEnds(n: nat, s: Sys, c: nat, x: Exchanged)
    requires n > 0 && InRange(s.dev.ring) && !s.exited && c in s.clients && InRange(x.dev.ring) && !x.died
    requires Answer(n, StartedState(s, c, x).log) == x.sent
    ensures StepAll(AnsweredState(n, StartedState(s, c, x), c), [Unlock(c)]) == ExchangedState(s, c, x)
  {
    var s1 := StartedState(s, c, x);
    var s2, done := AnsweredState(n, s1, c), s.clients[c].(buffer := [], pc := Polling, reply := x.sent);
    UnlockEnds(s2, c);
    assert s2.clients[c].(buffer := [], pc := Polling) == done;
    PutTwice(s1.clients, c, s2.clients[c], done);
    PutTwice(s.clients, c, s1.clients[c], done);
  }

  lemma PutTwice(clients: map<nat, Client>, c: nat, a: Client, b: Client)
    ensures clients[c := a][c := b] == clients[c := b]
  {
  }

  /** The reads and the unlocking complete a transaction that has started. */
  lemma TransactServed(n: nat, s: Sys, c: nat, counts: seq<nat>, x: Exchanged)
    requires InRange(s.dev.ring) && !s.exited && c in s.clients && InRange(x.dev.ring) && !x.died
    requires Inv(n, StartedState(s, c, x))
    requires x.sent == FlatOf(x.dev)[AnswerFrom(Visible(x.dev.ring), FlushOf(c, s.clients[c].buffer))..]
    requires forall i :: 0 <= i < |counts| ==> counts[i] > 0
    requires |counts| > |FlatOf(x.dev)|
    ensures StepAll(StartedState(s, c, x), Reads(c, counts) + [Unlock(c)]) == ExchangedState(s, c, x)
  {
    var s1 := StartedState(s, c, x);
    ReadsAreReadAll(s1, c, counts, [Unlock(c)]);
    ReadsComplete(n, s1, c, counts);
    StartedAnswer(n, s, c, x);
    TransactEnds(n, s, c, x);
  }

  lemma UnlockEnds(s: Sys, c: nat)
    requires InRange(s.dev.ring) && !s.exited && c in s.clients && s.clients[c].pc.Unlocking?
    ensures StepAll(s, [Unlock(c)]) == Put(s.(lock := None), c, s.clients[c].(buffer := [], pc := Polling))
  {
    assert [Unlock(c)] == [Unlock(c)] + [];
    StepAllFirst(s, Unlock(c), []);
  }

  /**
   The steps Transact, any sufficient reads, Unlock of one client, taken
   together, are one exchange: the device, the reply and the end of the process
   are those that `ExchangeOf` gives, which is what the code of the critical
   section computes on the driver.
   */
  lemma TransactionIsExchange(n: nat, s: Sys, c: nat, counts: seq<nat>)
    requires Inv(n, s) && !s.exited && c in s.clients && s.clients[c].pc.Holding?
    requires forall i :: 0 <= i < |counts| ==> counts[i] > 0
    requires |counts| > |FlatOf(ExchangeOf(s.dev, s.clients[c].buffer, NO_FAULTS).dev)|
    ensures StepAll(s, [Transact(c)] + (Reads(c, counts) + [Unlock(c)]))
         == ExchangedState(s, c, ExchangeOf(s.dev, s.clients[c].buffer, NO_FAULTS))
  {
    var x, rest := ExchangeOf(s.dev, s.clients[c].buffer, NO_FAULTS), Reads(c, counts) + [Unlock(c)];
    assert Step(s, Transact(c)) == TransactStep(s, c);
    StepAllFirst(s, Transact(c), rest);
    TransactStarts(s, c);
    if x.died {
      ExitedStays(s.(exited := true), rest);
    } else {
      TransactKeeps(n, s, c);
      TransactServed(n, s, c, counts, x);
    }
  }

  /** On a device with memory enough, it is the exchange that a kind environment and that memory decide. */
  lemma TransactionOnMemory(n: nat, s: Sys, c: nat, counts: seq<nat>, capacity: nat)
    requires Inv(n, s) && !s.exited && c in s.clients && s.clients[c].pc.Holding?
    requires 2 * |Flat(LastN(Appended(s.log), n))| + 3 * |s.clients[c].buffer| <= capacity
    requires forall i :: 0 <= i < |counts| ==> counts[i] > 0
    requires var buffer := s.clients[c].buffer;
             |counts| > |FlatOf(ExchangeOf(s.dev, buffer, FaultsOf(s.dev, capacity, buffer, KIND)).dev)|
    ensures var buffer := s.clients[c].buffer;
            StepAll(s, [Transact(c)] + (Reads(c, counts) + [Unlock(c)]))
            == ExchangedState(s, c, ExchangeOf(s.dev, buffer, FaultsOf(s.dev, capacity, buffer, KIND)))
  {
    AppendIsGranted(n, s, c, capacity);
    TransactionIsExchange(n, s, c, counts);
  }
}
