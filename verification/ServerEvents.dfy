/**
 What each event of the server does where it can happen, that nothing happens
 where it cannot, and the whole service of one line from recv to unlock.
 */
module ServerEvents {
  import opened ByteStrings
  import opened RingModel
  import opened DeviceModel
  import opened DeviceReads
  import opened ClientFraming
  import opened Exchange
  import opened Server

  /** Where an event can happen. Transact and ReadSome are parts of a transaction. */
  predicate Possible(s: Sys, e: Event) {
    && !s.exited
    && (e.Accept? <==> e.c !in s.clients)
    && (e.c in s.clients ==>
          var pc := s.clients[e.c].pc;
          match e
          case Accept(_) => false
          case Recv(_, chunk) => pc.Polling? && 0 < |chunk| < 512
          case Hangup(_) => pc.Polling?
          case Lock(_) => pc.WantLock? && s.lock == None
          case Transact(_) => pc.Holding?
          case ReadSome(_, count) => pc.Reading? && count > 0
          case Unlock(_) => pc.Unlocking?)
  }

  lemma ImpossibleIsNothing(s: Sys, e: Event)
    requires InRange(s.dev.ring) && !Possible(s, e)
    ensures Step(s, e) == s
  {
  }

  /** The effect of all events but the two within a transaction: on their own client, and on the lock. */
  lemma EventEffects(s: Sys, e: Event)
    requires InRange(s.dev.ring) && Possible(s, e) && !e.Transact? && !e.ReadSome?
    ensures var s' := Step(s, e);
            && s'.clients.Keys == s.clients.Keys + {e.c}
            && (forall c :: c in s.clients && c != e.c ==> s'.clients[c] == s.clients[c])
            && s'.dev == s.dev && s'.log == s.log && s'.replies == s.replies && !s'.exited
            && var client := s'.clients[e.c];
               match e
               case Accept(c) => client.buffer == [] && client.chunks == [] && client.pc == Polling && s'.lock == s.lock
               case Recv(c, chunk) =>
                 && client.buffer == s.clients[c].buffer + chunk
                 && client.chunks == s.clients[c].chunks + [chunk]
                 && client.pc == (if NEWLINE in client.buffer[..|chunk|] then WantLock else Polling)
                 && s'.lock == s.lock
               case Hangup(c) => client == s.clients[c].(buffer := [], pc := Closed) && s'.lock == s.lock
               case Lock(c) => client == s.clients[c].(pc := Holding) && s'.lock == Some(c)
               case Unlock(c) => client == s.clients[c].(buffer := [], pc := Polling) && s'.lock == None
  {
    if e.Recv? {
      SeenIn(s.clients[e.c].buffer + e.chunk, |e.chunk|);
    }
  }

  lemma SeenIn(all: Bytes, m: nat)
    requires m <= |all|
    ensures FlushTest(all, m) <==> NEWLINE in all[..m]
  {
    if FlushTest(all, m) {
      var i :| 0 <= i < m && i < |all| && all[i] == NEWLINE;
      assert all[..m][i] == NEWLINE;
    }
  }

  /** The first step of a transaction logs it, under its client, with the client's whole buffer. */
  lemma TransactLogs(s: Sys, c: nat)
    requires InRange(s.dev.ring) && Possible(s, Transact(c))
    ensures var s', client := Step(s, Transact(c)), s.clients[c];
            !s'.exited ==>
              && |s'.log| == |s.log| + 1 && s'.log[..|s.log|] == s.log
              && s'.log[|s.log|].client == c && s'.log[|s.log|].msg == client.buffer
              && s'.clients[c].pc.Reading? && s'.clients[c].reply == []
              && s'.replies == s.replies && s'.lock == s.lock
              && (forall b :: b in s.clients && b != c ==> b in s'.clients && s'.clients[b] == s.clients[b])
  {
  }

  /** One read of the answer: it is sent on, and the position moves on by it; the first empty one ends the answer. */
  lemma ReadEffects(s: Sys, c: nat, count: nat)
    requires InRange(s.dev.ring) && Possible(s, ReadSome(c, count))
    ensures var s', client := Step(s, ReadSome(c, count)), s.clients[c];
            var r := Read(s.dev, client.pc.fpos, count, true);
            && s'.dev == s.dev && s'.lock == s.lock && s'.log == s.log && !s'.exited
            && if r.data != [] then
                 && s'.replies == s.replies
                 && s'.clients == s.clients[c := client.(pc := Reading(r.fpos), reply := client.reply + r.data)]
               else
                 && s'.replies == s.replies + [Reply(c, client.reply)]
                 && s'.clients == s.clients[c := client.(pc := Unlocking)]
  {
  }

  /** The state before the transaction, when a line is complete and the lock is taken. */
  function LockedState(s: Sys, c: nat, chunk: Bytes): Sys
    requires c in s.clients
  {
    var client := s.clients[c];
    s.(lock := Some(c),
       clients := s.clients[c := Client(client.chunks + [chunk], client.buffer + chunk, Holding, [])])
  }

  lemma LineWaits(s: Sys, c: nat, chunk: Bytes)
    requires InRange(s.dev.ring) && Possible(s, Recv(c, chunk))
    requires NEWLINE in (s.clients[c].buffer + chunk)[..|chunk|]
    ensures var client := Client(s.clients[c].chunks + [chunk], s.clients[c].buffer + chunk, WantLock, []);
            Step(s, Recv(c, chunk)) == Put(s, c, client)
  {
    SeenIn(s.clients[c].buffer + chunk, |chunk|);
  }

  /** Receiving the chunk and taking the lock leads there. */
  lemma LineLocks(s: Sys, c: nat, chunk: Bytes)
    requires InRange(s.dev.ring) && Possible(s, Recv(c, chunk)) && s.lock == None
    requires NEWLINE in (s.clients[c].buffer + chunk)[..|chunk|]
    ensures Step(Step(s, Recv(c, chunk)), Lock(c)) == LockedState(s, c, chunk)
  {
    var s1 := Step(s, Recv(c, chunk));
    LineWaits(s, c, chunk);
    PutTwice(s.clients, c, s1.clients[c], LockedState(s, c, chunk).clients[c]);
  }

  lemma LineLocked(n: nat, s: Sys, c: nat, chunk: Bytes)
    requires Inv(n, s) && Possible(s, Recv(c, chunk)) && s.lock == None
    requires NEWLINE in (s.clients[c].buffer + chunk)[..|chunk|]
    ensures Step(Step(s, Recv(c, chunk)), Lock(c)) == LockedState(s, c, chunk)
    ensures Inv(n, LockedState(s, c, chunk))
  {
    LineLocks(s, c, chunk);
    StepKeeps(n, s, Recv(c, chunk));
    StepKeeps(n, Step(s, Recv(c, chunk)), Lock(c));
  }

  lemma TwoSteps(s: Sys, e: Event, e': Event, rest: seq<Event>)
    requires InRange(s.dev.ring)
    ensures StepAll(s, [e] + ([e'] + rest)) == StepAll(Step(Step(s, e), e'), rest)
  {
    StepAllFirst(s, e, [e'] + rest);
    StepAllFirst(Step(s, e), e', rest);
  }

  /** The exchange on all that the client has sent since its last flush. */
  function ServedBy(s: Sys, c: nat, chunk: Bytes): Exchanged
    requires c in s.clients && InRange(s.dev.ring)
  {
    ExchangeOf(s.dev, s.clients[c].buffer + chunk, NO_FAULTS)
  }

  /** The state after the whole service. */
  function ServedState(s: Sys, c: nat, chunk: Bytes): Sys
    requires c in s.clients && InRange(s.dev.ring)
  {
    var x, client := ServedBy(s, c, chunk), s.clients[c];
    Sys(s.clients[c := Client(client.chunks + [chunk], [], Polling, x.sent)], None, x.dev,
        s.log + [FlushOf(c, client.buffer + chunk)], s.replies + [Reply(c, x.sent)], false)
  }

  lemma ServedIsExchanged(s: Sys, c: nat, chunk: Bytes)
    requires c in s.clients && InRange(s.dev.ring) && !s.exited && !ServedBy(s, c, chunk).died
    ensures ExchangedState(LockedState(s, c, chunk), c, ServedBy(s, c, chunk)) == ServedState(s, c, chunk)
  {
    var s2 := LockedState(s, c, chunk);
    PutTwice(s.clients, c, s2.clients[c], ServedState(s, c, chunk).clients[c]);
  }

  /**
   One line, from recv to unlock, while the lock is free: the chunk that
   completes it, the lock, the transaction, any reads enough to reach the end,
   and the unlock are together one exchange on all that the client has sent
   since its last flush, after which it polls again with an empty buffer.
   */
  lemma LineServed(n: nat, s: Sys, c: nat, chunk: Bytes, counts: seq<nat>)
    requires Inv(n, s) && Possible(s, Recv(c, chunk)) && s.lock == None
    requires NEWLINE in (s.clients[c].buffer + chunk)[..|chunk|]
    requires forall i :: 0 <= i < |counts| ==> counts[i] > 0
    requires |counts| > |FlatOf(ServedBy(s, c, chunk).dev)|
    ensures var transaction := [Transact(c)] + (Reads(c, counts) + [Unlock(c)]);
            var s' := StepAll(s, [Recv(c, chunk)] + ([Lock(c)] + transaction));
            if ServedBy(s, c, chunk).died then s'.exited else s' == ServedState(s, c, chunk)
  {
    var s2 := LockedState(s, c, chunk);
    LineLocked(n, s, c, chunk);
    TwoSteps(s, Recv(c, chunk), Lock(c), [Transact(c)] + (Reads(c, counts) + [Unlock(c)]));
    TransactionIsExchange(n, s2, c, counts);
    if !ServedBy(s, c, chunk).died {
      ServedIsExchanged(s, c, chunk);
    }
  }
}
