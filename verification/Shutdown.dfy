/**
 How the server ends. Client threads wait in poll on their socket and on one
 shared pipe; `cleanupMain` writes one token per thread ever started and joins
 the threads in order. Several threads can see the same token; each then blocks
 in read until a token is left for it.
 */
module Shutdown {
  import opened ByteStrings

  datatype Pc = Poll | TakeToken | WaitLock | Holding | Done

  /** `toWrite` tokens are still to be written, `pipe` are in the pipe, `joined` threads have been joined. */
  datatype State = State(accepting: bool, threads: seq<Pc>, toWrite: nat, pipe: nat, joined: nat, lock: Option<nat>)

  const INITIAL := State(true, [], 0, 0, 0, None)

  datatype Event =
    | Spawn
    | Stop
    | WriteToken
    | Join
    | SeeToken(i: nat)
    | ReadToken(i: nat)
    | ReceivePart(i: nat)
    | ReceiveLine(i: nat)
    | PeerCloses(i: nat)
    | PollFails(i: nat)
    | Lock(i: nat)
    | Unlock(i: nat)

  predicate At(s: State, i: nat, pc: Pc) {
    i < |s.threads| && s.threads[i] == pc
  }

  /**
   The token is looked at before the socket, so a thread serves its socket only
   when the pipe is empty. A thread whose poll fails ends without a token.
   */
  predicate Enabled(s: State, e: Event) {
    match e
    case Spawn => s.accepting
    case Stop => s.accepting
    case WriteToken => !s.accepting && s.toWrite > 0
    case Join => !s.accepting && s.toWrite == 0 && At(s, s.joined, Done)
    case SeeToken(i) => At(s, i, Poll) && s.pipe > 0
    case ReadToken(i) => At(s, i, TakeToken) && s.pipe > 0
    case ReceivePart(i) => At(s, i, Poll) && s.pipe == 0
    case ReceiveLine(i) => At(s, i, Poll) && s.pipe == 0
    case PeerCloses(i) => At(s, i, Poll) && s.pipe == 0
    case PollFails(i) => At(s, i, Poll)
    case Lock(i) => At(s, i, WaitLock) && s.lock == None
    case Unlock(i) => At(s, i, Holding)
  }

  function Move(s: State, i: nat, pc: Pc): State
    requires i < |s.threads|
  {
    s.(threads := s.threads[i := pc])
  }

  function Step(s: State, e: Event): State
    requires Enabled(s, e)
  {
    match e
    case Spawn => s.(threads := s.threads + [Poll])
    case Stop => s.(accepting := false, toWrite := |s.threads|)
    case WriteToken => s.(toWrite := s.toWrite - 1, pipe := s.pipe + 1)
    case Join => s.(joined := s.joined + 1)
    case SeeToken(i) => Move(s, i, TakeToken)
    case ReadToken(i) => Move(s.(pipe := s.pipe - 1), i, Done)
    case ReceivePart(i) => s
    case ReceiveLine(i) => Move(s, i, WaitLock)
    case PeerCloses(i) => Move(s, i, Done)
    case PollFails(i) => Move(s, i, Done)
    case Lock(i) => Move(s.(lock := Some(i)), i, Holding)
    case Unlock(i) => Move(s.(lock := None), i, Poll)
  }

  /** s' is reached from s by the events, each enabled in its turn. */
  predicate Reaches(s: State, events: seq<Event>, s': State)
    decreases |events|
  {
    if events == [] then s == s'
    else Enabled(s, events[0]) && Reaches(Step(s, events[0]), events[1..], s')
  }

  // --- counting threads

  function Weight(pc: Pc): nat {
    match pc
    case WaitLock => 4
    case Holding => 3
    case Poll => 2
    case TakeToken => 1
    case Done => 0
  }

  /** The threads that have not ended. */
  function Live(threads: seq<Pc>): nat {
    if threads == [] then 0 else (if threads[0].Done? then 0 else 1) + Live(threads[1..])
  }

  function Work(threads: seq<Pc>): nat {
    if threads == [] then 0 else Weight(threads[0]) + Work(threads[1..])
  }

  lemma {:induction false} MoveCounts(threads: seq<Pc>, i: nat, pc: Pc)
    requires i < |threads|
    ensures Live(threads[i := pc]) + (if threads[i].Done? then 0 else 1) == Live(threads) + if pc.Done? then 0 else 1
    ensures Work(threads[i := pc]) + Weight(threads[i]) == Work(threads) + Weight(pc)
  {
    if i == 0 {
      assert threads[i := pc][1..] == threads[1..];
    } else {
      assert threads[i := pc][1..] == threads[1..][i - 1 := pc];
      MoveCounts(threads[1..], i - 1, pc);
    }
  }

  lemma {:induction false} SpawnCounts(threads: seq<Pc>)
    ensures Live(threads + [Poll]) == Live(threads) + 1
  {
    if threads != [] {
      assert (threads + [Poll])[1..] == threads[1..] + [Poll];
      SpawnCounts(threads[1..]);
    }
  }

  lemma {:induction false} LiveBound(threads: seq<Pc>)
    ensures Live(threads) <= |threads|
    ensures Live(threads) == 0 <==> forall i :: 0 <= i < |threads| ==> threads[i] == Done
  {
    if threads != [] {
      LiveBound(threads[1..]);
      assert forall i :: 0 < i < |threads| ==> threads[i] == threads[1..][i - 1];
    }
  }

  // --- what ends a thread, and what does not

  predicate EndsThread(e: Event, i: nat) {
    e == ReadToken(i) || e == PeerCloses(i) || e == PollFails(i)
  }

  /** A thread ends by taking a token, by its peer closing, or by a failing poll, and by nothing else. */
  lemma EndsExactly(s: State, e: Event, i: nat)
    requires Enabled(s, e) && i < |s.threads|
    ensures i < |Step(s, e).threads|
    ensures Step(s, e).threads[i] == Done <==> s.threads[i] == Done || EndsThread(e, i)
  {
  }

  datatype Kind = Spawned | TokenWritten | TokenRead | PeerClosed | PollFailed | Joined

  predicate OfKind(e: Event, kind: Kind) {
    match kind
    case Spawned => e.Spawn?
    case TokenWritten => e.WriteToken?
    case TokenRead => e.ReadToken?
    case PeerClosed => e.PeerCloses?
    case PollFailed => e.PollFails?
    case Joined => e.Join?
  }

  /** How many events of a run are of a kind. */
  function Count(events: seq<Event>, kind: Kind): nat {
    if events == [] then 0 else (if OfKind(events[0], kind) then 1 else 0) + Count(events[1..], kind)
  }

  /** The ends, the tokens written, the tokens read, the joins and the threads of a run, from s to s'. */
  lemma {:induction false} RunCounts(s: State, events: seq<Event>, s': State)
    requires Reaches(s, events, s')
    ensures |s'.threads| == |s.threads| + Count(events, Spawned)
    ensures |s'.threads| - Live(s'.threads) == |s.threads| - Live(s.threads)
         + Count(events, TokenRead) + Count(events, PeerClosed) + Count(events, PollFailed)
    ensures s'.pipe + Count(events, TokenRead) == s.pipe + Count(events, TokenWritten)
    ensures s'.joined == s.joined + Count(events, Joined)
    ensures !s.accepting ==> s'.toWrite + Count(events, TokenWritten) == s.toWrite
    decreases |events|
  {
    if events != [] {
      StepCounts(s, events[0]);
      RunCounts(Step(s, events[0]), events[1..], s');
    }
  }

  lemma StepCounts(s: State, e: Event)
    requires Enabled(s, e)
    ensures var s' := Step(s, e);
            && |s'.threads| == |s.threads| + (if e.Spawn? then 1 else 0)
            && |s'.threads| - Live(s'.threads) == |s.threads| - Live(s.threads)
                 + (if e.ReadToken? || e.PeerCloses? || e.PollFails? then 1 else 0)
            && s'.pipe + (if e.ReadToken? then 1 else 0) == s.pipe + (if e.WriteToken? then 1 else 0)
            && s'.joined == s.joined + (if e.Join? then 1 else 0)
            && (!s.accepting ==> !s'.accepting && s'.toWrite + (if e.WriteToken? then 1 else 0) == s.toWrite)
  {
    match e {
      case Spawn => SpawnCounts(s.threads);
      case SeeToken(i) => MoveCounts(s.threads, i, TakeToken);
      case ReadToken(i) => MoveCounts(s.threads, i, Done);
      case ReceiveLine(i) => MoveCounts(s.threads, i, WaitLock);
      case PeerCloses(i) => MoveCounts(s.threads, i, Done);
      case PollFails(i) => MoveCounts(s.threads, i, Done);
      case Lock(i) => MoveCounts(s.threads, i, Holding);
      case Unlock(i) => MoveCounts(s.threads, i, Poll);
      case _ =>
    }
  }

  /**
   Of a whole run from the start: the threads that have ended are the tokens
   read, the peers that closed and the polls that failed; the tokens written are
   those in the pipe and those read; and once accepting has ended, one token per
   thread is written or still to be written.
   */
  lemma RunAccounts(events: seq<Event>, s: State)
    requires Reaches(INITIAL, events, s)
    ensures |s.threads| == Count(events, Spawned)
    ensures |s.threads| - Live(s.threads)
         == Count(events, TokenRead) + Count(events, PeerClosed) + Count(events, PollFailed)
    ensures Count(events, TokenWritten) == s.pipe + Count(events, TokenRead)
    ensures !s.accepting ==> s.toWrite + Count(events, TokenWritten) == |s.threads|
    ensures s.accepting ==> Count(events, TokenWritten) == 0
  {
    RunCounts(INITIAL, events, s);
    TokensPerThread(INITIAL, events, s);
  }

  /** While accepting no token is written; afterwards there is one for each thread. */
  lemma {:induction false} TokensPerThread(s: State, events: seq<Event>, s': State)
    requires Reaches(s, events, s') && s.accepting
    ensures s'.accepting ==> Count(events, TokenWritten) == 0
    ensures !s'.accepting ==> s'.toWrite + Count(events, TokenWritten) == |s'.threads|
    decreases |events|
  {
    if events != [] {
      var s1 := Step(s, events[0]);
      if s1.accepting {
        TokensPerThread(s1, events[1..], s');
      } else {
        RunCounts(s1, events[1..], s');
        NoSpawn(s1, events[1..], s');
      }
    }
  }

  lemma {:induction false} NoSpawn(s: State, events: seq<Event>, s': State)
    requires Reaches(s, events, s') && !s.accepting
    ensures !s'.accepting && |s'.threads| == |s.threads|
    decreases |events|
  {
    if events != [] {
      NoSpawn(Step(s, events[0]), events[1..], s');
    }
  }

  /** The service of k lines by thread i. */
  function Service(i: nat, k: nat): seq<Event> {
    if k == 0 then [] else [ReceiveLine(i), Lock(i), Unlock(i)] + Service(i, k - 1)
  }

  /**
   While the pipe is empty and the lock is free, a polling thread can receive
   parts, and can serve any number of lines, each with the lock, after each of
   which everything is as it was: a thread that unlocks polls again.
   */
  lemma {:induction false} ServesAgain(s: State, i: nat, k: nat)
    requires At(s, i, Poll) && s.pipe == 0 && s.lock == None
    ensures Enabled(s, ReceivePart(i)) && Step(s, ReceivePart(i)) == s
    ensures Reaches(s, Service(i, k), s)
  {
    if k > 0 {
      ServesAgain(s, i, k - 1);
      var waiting := Move(s, i, WaitLock);
      var holding := Move(s.(lock := Some(i)), i, Holding);
      assert Step(s, ReceiveLine(i)) == waiting;
      assert Step(waiting, Lock(i)) == holding;
      assert Step(holding, Unlock(i)) == s;
      StepBefore(holding, Unlock(i), Service(i, k - 1), s);
      StepBefore(waiting, Lock(i), [Unlock(i)] + Service(i, k - 1), s);
      StepBefore(s, ReceiveLine(i), [Lock(i)] + ([Unlock(i)] + Service(i, k - 1)), s);
      assert Service(i, k) == [ReceiveLine(i)] + ([Lock(i)] + ([Unlock(i)] + Service(i, k - 1)));
    }
  }

  /** Each thread can always do what its place in the program is waiting for, once that is there. */
  lemma CanGoOn(s: State, i: nat)
    requires i < |s.threads|
    ensures match s.threads[i]
            case Poll =>
              && Enabled(s, PollFails(i))
              && (s.pipe > 0 <==> Enabled(s, SeeToken(i)))
              && (s.pipe == 0 <==> Enabled(s, PeerCloses(i)))
              && (s.pipe == 0 <==> Enabled(s, ReceiveLine(i)))
            case TakeToken => s.pipe > 0 <==> Enabled(s, ReadToken(i))
            case WaitLock => s.lock == None <==> Enabled(s, Lock(i))
            case Holding => Enabled(s, Unlock(i)) && At(Step(s, Unlock(i)), i, Poll)
            case Done => forall e :: Enabled(s, e) ==> Step(s, e).threads[i] == Done
  {
  }

  /** The main thread: it spawns and stops at any time while accepting, then writes its tokens, then joins in order. */
  lemma MainCanGoOn(s: State)
    ensures s.accepting <==> Enabled(s, Spawn)
    ensures s.accepting <==> Enabled(s, Stop)
    ensures !s.accepting && s.toWrite > 0 <==> Enabled(s, WriteToken)
    ensures !s.accepting && s.toWrite == 0 && At(s, s.joined, Done) <==> Enabled(s, Join)
  {
  }

  function Repeat<T>(x: T, k: nat): (xs: seq<T>)
    ensures |xs| == k && forall y :: y in xs ==> y == x
  {
    seq(k, _ => x)
  }

  /** Any number of clients: the accept loop leaves as many polling threads, and a token to write for each. */
  lemma AnyThreads(k: nat)
    ensures Reaches(INITIAL, Repeat(Spawn, k) + [Stop], State(false, Repeat(Poll, k), k, 0, 0, None))
  {
    assert Repeat(Poll, 0) == [];
    SpawnMore(0, k);
  }

  lemma {:induction false} SpawnMore(j: nat, k: nat)
    requires j <= k
    ensures Reaches(State(true, Repeat(Poll, j), 0, 0, 0, None), Repeat(Spawn, k - j) + [Stop],
                    State(false, Repeat(Poll, k), k, 0, 0, None))
    decreases k - j
  {
    var s, end := State(true, Repeat(Poll, j), 0, 0, 0, None), State(false, Repeat(Poll, k), k, 0, 0, None);
    if j == k {
      assert Repeat(Spawn, 0) + [Stop] == [Stop] + [];
      StepBefore(s, Stop, [], end);
    } else {
      assert Repeat(Poll, j) + [Poll] == Repeat(Poll, j + 1);
      SpawnMore(j + 1, k);
      StepBefore(s, Spawn, Repeat(Spawn, k - j - 1) + [Stop], end);
      assert [Spawn] + (Repeat(Spawn, k - j - 1) + [Stop]) == Repeat(Spawn, k - j) + [Stop];
    }
  }

  // --- the invariant

  predicate JoinInv(s: State) {
    s.joined <= |s.threads| && forall i :: 0 <= i < s.joined ==> s.threads[i] == Done
  }

  predicate LockInv(s: State) {
    && (s.lock.Some? ==> At(s, s.lock.value, Holding))
    && (forall i :: 0 <= i < |s.threads| && s.threads[i] == Holding ==> s.lock == Some(i))
  }

  predicate TokenInv(s: State) {
    if s.accepting then s.pipe == 0 && s.toWrite == 0 && s.joined == 0
    else s.toWrite + s.pipe >= Live(s.threads)
  }

  predicate Inv(s: State) { JoinInv(s) && LockInv(s) && TokenInv(s) }

  /** A thread that has not ended moves to pc; one that ends may take a token with it; the lock follows its holder. */
  lemma MoveKeeps(s: State, i: nat, pc: Pc, pipe: nat, lock: Option<nat>)
    requires Inv(s) && i < |s.threads| && !s.threads[i].Done?
    requires pipe == s.pipe || (pipe + 1 == s.pipe && pc.Done?)
    requires lock == if pc.Holding? then Some(i) else if s.threads[i].Holding? then None else s.lock
    requires pc.Holding? ==> s.lock == None
    ensures Inv(Move(s.(pipe := pipe, lock := lock), i, pc))
  {
    MoveCounts(s.threads, i, pc);
  }

  lemma StepKeeps(s: State, e: Event)
    requires Inv(s) && Enabled(s, e)
    ensures Inv(Step(s, e))
  {
    match e {
      case Spawn => SpawnCounts(s.threads);
      case Stop => LiveBound(s.threads);
      case WriteToken =>
      case Join =>
      case SeeToken(i) => MoveKeeps(s, i, TakeToken, s.pipe, s.lock);
      case ReadToken(i) => MoveKeeps(s, i, Done, s.pipe - 1, s.lock);
      case ReceivePart(i) =>
      case ReceiveLine(i) => MoveKeeps(s, i, WaitLock, s.pipe, s.lock);
      case PeerCloses(i) => MoveKeeps(s, i, Done, s.pipe, s.lock);
      case PollFails(i) => MoveKeeps(s, i, Done, s.pipe, s.lock);
      case Lock(i) => MoveKeeps(s, i, Holding, s.pipe, Some(i));
      case Unlock(i) => MoveKeeps(s, i, Poll, s.pipe, None);
    }
  }

  /** After any run: once the accept loop has ended there are tokens enough for every thread that has not. */
  lemma {:induction false} RunKeeps(s: State, events: seq<Event>, s': State)
    requires Inv(s) && Reaches(s, events, s')
    ensures Inv(s')
    decreases |events|
  {
    if events != [] {
      StepKeeps(s, events[0]);
      RunKeeps(Step(s, events[0]), events[1..], s');
    }
  }

  lemma TokensSuffice(events: seq<Event>, s: State)
    requires Reaches(INITIAL, events, s) && !s.accepting
    ensures s.toWrite + s.pipe >= Live(s.threads)
    ensures s.toWrite == 0 ==> forall i :: At(s, i, TakeToken) ==> Enabled(s, ReadToken(i))
  {
    RunKeeps(INITIAL, events, s);
    LiveBound(s.threads);
  }

  // --- it comes to an end

  predicate Finished(s: State) {
    !s.accepting && s.toWrite == 0 && s.joined == |s.threads|
  }

  /** The steps still possible once all tokens are written. */
  function Measure(s: State): nat
    requires s.joined <= |s.threads|
  {
    Work(s.threads) + (|s.threads| - s.joined)
  }

  /** Once the last token is written, every step of any thread decreases the measure. */
  lemma StepDecreases(s: State, e: Event)
    requires Inv(s) && !s.accepting && s.toWrite == 0 && Enabled(s, e)
    ensures Inv(Step(s, e)) && Step(s, e).toWrite == 0 && !Step(s, e).accepting
    ensures Measure(Step(s, e)) < Measure(s)
  {
    StepKeeps(s, e);
    LiveBound(s.threads);
    match e {
      case SeeToken(i) => MoveCounts(s.threads, i, TakeToken);
      case ReadToken(i) => MoveCounts(s.threads, i, Done);
      case PollFails(i) => MoveCounts(s.threads, i, Done);
      case Lock(i) => MoveCounts(s.threads, i, Holding);
      case Unlock(i) => MoveCounts(s.threads, i, Poll);
      case _ =>
    }
  }

  /** Until all threads are joined some step is possible: no deadlock on pipe, mutex or joins. */
  lemma Progress(s: State) returns (e: Event)
    requires Inv(s) && !s.accepting && !Finished(s)
    ensures Enabled(s, e)
    ensures s.toWrite > 0 ==> e == WriteToken
  {
    LiveBound(s.threads);
    if s.toWrite > 0 {
      e := WriteToken;
    } else {
      match s.threads[s.joined] {
        case Done => e := Join;
        case Poll => e := SeeToken(s.joined);
        case TakeToken => e := ReadToken(s.joined);
        case Holding => e := Unlock(s.joined);
        case WaitLock => e := if s.lock.None? then Lock(s.joined) else Unlock(s.lock.value);
      }
    }
  }

  /** From the last token on, no run is longer than the measure, whatever the scheduler does. */
  lemma {:induction false} RunsAreBounded(s: State, events: seq<Event>, s': State)
    requires Inv(s) && !s.accepting && s.toWrite == 0 && Reaches(s, events, s')
    ensures |events| <= Measure(s)
    ensures Inv(s') && !s'.accepting && s'.toWrite == 0
    decreases |events|
  {
    if events != [] {
      StepDecreases(s, events[0]);
      RunsAreBounded(Step(s, events[0]), events[1..], s');
    }
  }

  /** Hence a run that cannot be continued has joined every thread, and every thread has ended. */
  lemma StuckMeansFinished(s: State, events: seq<Event>, s': State)
    requires Inv(s) && !s.accepting && s.toWrite == 0 && Reaches(s, events, s')
    ensures Finished(s') || exists e :: Enabled(s', e)
    ensures Finished(s') ==> forall i :: 0 <= i < |s'.threads| ==> s'.threads[i] == Done
  {
    RunsAreBounded(s, events, s');
    if !Finished(s') {
      var e := Progress(s');
    }
  }

  /** What the accept loop leaves to `cleanupMain` with two threads, but with one token fewer to write. */
  const ONE_SHORT := State(false, [Poll, Poll], 1, 0, 0, None)

  lemma StepBefore(s: State, e: Event, events: seq<Event>, s': State)
    requires Enabled(s, e) && Reaches(Step(s, e), events, s')
    ensures Reaches(s, [e] + events, s')
  {
    assert ([e] + events)[1..] == events;
  }

  lemma BothSeeOneTaken() returns (events: seq<Event>)
    ensures Reaches(State(false, [Poll, TakeToken], 0, 1, 0, None), events,
                    State(false, [Done, TakeToken], 0, 0, 1, None))
  {
    var s := State(false, [Done, TakeToken], 0, 0, 1, None);
    var s3 := State(false, [TakeToken, TakeToken], 0, 1, 0, None);
    var s4 := State(false, [Done, TakeToken], 0, 0, 0, None);
    assert Step(s3, ReadToken(0)) == s4;
    StepBefore(s4, Join, [], s);
    StepBefore(s3, ReadToken(0), [Join] + [], s);
    events := [SeeToken(0)] + ([ReadToken(0)] + ([Join] + []));
    StepBefore(State(false, [Poll, TakeToken], 0, 1, 0, None), SeeToken(0), [ReadToken(0)] + ([Join] + []), s);
  }

  /**
   One token per thread is needed. A run of the protocol leads to two threads
   and two tokens to write. With one token instead both threads can see it, one
   takes it, and the other blocks in read: a run into a state in which nothing
   is possible any more and a thread is never joined.
   */
  lemma OneTokenShort() returns (setup: seq<Event>, events: seq<Event>)
    ensures Reaches(INITIAL, setup, ONE_SHORT.(toWrite := 2))
    ensures var s := State(false, [Done, TakeToken], 0, 0, 1, None);
            && Reaches(ONE_SHORT, events, s)
            && !Finished(s)
            && forall e :: !Enabled(s, e)
  {
    var s := State(false, [Done, TakeToken], 0, 0, 1, None);
    var s1 := State(false, [Poll, Poll], 0, 1, 0, None);
    setup := Repeat(Spawn, 2) + [Stop];
    AnyThreads(2);
    assert Repeat(Poll, 2) == [Poll, Poll];
    var rest := BothSeeOneTaken();
    assert Step(s1, SeeToken(1)) == State(false, [Poll, TakeToken], 0, 1, 0, None);
    StepBefore(s1, SeeToken(1), rest, s);
    StepBefore(ONE_SHORT, WriteToken, [SeeToken(1)] + rest, s);
    events := [WriteToken] + ([SeeToken(1)] + rest);
  }
}
