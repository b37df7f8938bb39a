/**
 How one client's bytes are cut into flushes: received chunks accumulate, and a
 flush takes everything accumulated. The test for a newline looks only at as
 many bytes of the accumulated string as the last chunk had.
 */
module ClientFraming {
  import opened ByteStrings
  import opened Memory
  import TB = TemporaryBuffer

  const BUFFER_SIZE := 512

  /** The decision taken after a chunk of recvLen bytes has been appended. */
  predicate FlushTest(accumulated: Bytes, recvLen: nat) {
    exists i :: 0 <= i < recvLen && i < |accumulated| && accumulated[i] == NEWLINE
  }

  /** What has been flushed, and what has not. */
  datatype Framing = Framing(flushed: seq<Bytes>, buffer: Bytes)

  function Receive(f: Framing, chunk: Bytes): Framing {
    var all := f.buffer + chunk;
    if FlushTest(all, |chunk|) then Framing(f.flushed + [all], []) else Framing(f.flushed, all)
  }

  function ReceiveAll(chunks: seq<Bytes>): Framing {
    if chunks == [] then Framing([], [])
    else Receive(ReceiveAll(chunks[..|chunks| - 1]), chunks[|chunks| - 1])
  }

  lemma ReceiveAllStep(chunks: seq<Bytes>, i: nat)
    requires i < |chunks|
    ensures ReceiveAll(chunks[..i + 1]) == Receive(ReceiveAll(chunks[..i]), chunks[i])
  {
    assert chunks[..i + 1][..i] == chunks[..i];
  }

  /** At every loop head the flushes, in order, and the buffer are all bytes received; every flush holds a newline. */
  lemma {:induction false} FramingConserves(chunks: seq<Bytes>)
    ensures var f := ReceiveAll(chunks);
            && Flat(f.flushed) + f.buffer == Flat(chunks)
            && forall m :: m in f.flushed ==> NEWLINE in m
  {
    if chunks != [] {
      var before, c := chunks[..|chunks| - 1], chunks[|chunks| - 1];
      var f := ReceiveAll(before);
      FramingConserves(before);
      assert chunks == before + [c];
      FlatSnoc(before, c);
      FlatSnoc(f.flushed, f.buffer + c);
    }
  }

  /** The position of the first newline. */
  predicate FirstNewline(s: Bytes, i: nat) {
    i < |s| && s[i] == NEWLINE && NEWLINE !in s[..i]
  }

  /** A chunk leads to a flush iff the first newline of all accumulated bytes stands before the chunk's own length. */
  lemma FlushExactly(buffer: Bytes, chunk: Bytes, i: nat)
    requires FirstNewline(buffer + chunk, i)
    ensures FlushTest(buffer + chunk, |chunk|) <==> i < |chunk|
  {
  }

  /** So the test is exact on an empty buffer; on a held one it misses each newline that comes too far back. */
  lemma FlushOnChunk(buffer: Bytes, chunk: Bytes, i: nat)
    requires NEWLINE !in buffer && FirstNewline(chunk, i)
    ensures FlushTest(buffer + chunk, |chunk|) <==> |buffer| + i < |chunk|
    ensures buffer == [] ==> FlushTest(buffer + chunk, |chunk|)
  {
    var all := buffer + chunk;
    assert all[..|buffer| + i] == buffer + chunk[..i];
    FlushExactly(buffer, chunk, |buffer| + i);
  }

  /** A complete line that is not flushed: three bytes, then the newline alone. */
  lemma LineHeldBack()
    ensures ReceiveAll([[65, 66, 67], [NEWLINE]]) == Framing([], [65, 66, 67, NEWLINE])
  {
    var a: seq<Bytes> := [[65, 66, 67]];
    assert [[65, 66, 67], [NEWLINE]][..1] == a && a[..0] == [];
    assert ReceiveAll(a) == Receive(ReceiveAll([]), [65, 66, 67]);
    assert ReceiveAll(a).buffer == [65, 66, 67];
  }

  // --- the program

  /** checkForNewlineCharInString; `str` is None for a NULL pointer. The position is written only when one is found. */
  method CheckForNewlineCharInString(str: Option<Bytes>, len: int, positionIn: int) returns (found: bool, position: int)
    requires str.Some? ==> len <= |str.value|
    ensures str.None? || len <= 0 ==> found && position == positionIn
    ensures str.Some? && len > 0 ==> (found <==> FlushTest(str.value, len))
    ensures str.Some? && len > 0 ==> if found then position >= 0 && FirstNewline(str.value, position) && position < len
                                     else position == positionIn
  {
    position := positionIn;
    if str.None? || len <= 0 {
      return true, position;
    }
    var i := 0;
    while i < len
      invariant 0 <= i <= len && NEWLINE !in str.value[..i]
    {
      if str.value[i] == NEWLINE {
        return true, i;
      }
      i := i + 1;
    }
    assert forall j :: 0 <= j < len ==> str.value[j] == str.value[..len][j];
    return false, position;
  }

  /** Whether the two allocations of one received chunk are willing to succeed: the recv block, and the buffer's. */
  datatype Grant = Grant(recvBlock: bool, buffer: bool)

  /** Both are granted, and `free` bytes suffice beside the bytes already held. */
  predicate HasRoom(free: int, held: nat, chunk: Bytes, grant: Grant) {
    && grant.recvBlock && held + BUFFER_SIZE <= free
    && grant.buffer && held + BUFFER_SIZE + held + |chunk| <= free
  }

  /** Chunk i cannot be received, after those before it. */
  predicate Refused(free: int, chunks: seq<Bytes>, grants: seq<Grant>, i: nat)
    requires |chunks| == |grants| && i < |chunks|
  {
    !HasRoom(free, |ReceiveAll(chunks[..i]).buffer|, chunks[i], grants[i])
  }

  predicate NoneRefused(free: int, chunks: seq<Bytes>, grants: seq<Grant>, m: nat)
    requires |chunks| == |grants| && m <= |chunks|
  {
    forall i :: 0 <= i < m ==> !Refused(free, chunks, grants, i)
  }

  lemma TakeStep(free: int, chunks: seq<Bytes>, grants: seq<Grant>, m: nat)
    requires |chunks| == |grants| && m < |chunks|
    requires NoneRefused(free, chunks, grants, m) && forall c :: c in chunks ==> 0 < |c| < BUFFER_SIZE
    ensures 0 < |chunks[m]| < BUFFER_SIZE
    ensures ReceiveAll(chunks[..m + 1]) == Receive(ReceiveAll(chunks[..m]), chunks[m])
    ensures if HasRoom(free, |ReceiveAll(chunks[..m]).buffer|, chunks[m], grants[m])
            then NoneRefused(free, chunks, grants, m + 1) else Refused(free, chunks, grants, m)
  {
    assert chunks[m] in chunks;
    ReceiveAllStep(chunks, m);
  }

  /** With all allocations willing, one recv block and twice the stream are memory enough. */
  lemma EnoughMemory(free: int, chunks: seq<Bytes>, grants: seq<Grant>)
    requires |chunks| == |grants| && BUFFER_SIZE + 2 * |Flat(chunks)| <= free
    requires forall g :: g in grants ==> g == Grant(true, true)
    ensures NoneRefused(free, chunks, grants, |chunks|)
  {
    forall i | 0 <= i < |chunks|
      ensures !Refused(free, chunks, grants, i)
    {
      FramingConserves(chunks[..i]);
      FlatStep(chunks, i);
      assert grants[i] in grants;
    }
  }

  /** Beside the buffer's own block the heap holds exactly `base`. */
  ghost predicate Beside(buf: TB.TemporaryBuffer, base: map<Ptr, Bytes>, used: int)
    reads buf, buf.heap
  {
    && buf.Valid()
    && buf.Owned() !! base.Keys
    && buf.heap.blocks - buf.Owned() == base
    && buf.heap.used - buf.size as int == used
  }

  /**
   The receive loop of clientHandler over the chunks that recv delivers, until
   the connection closes. `received` is how many of them it took in: the process
   ends at the first chunk that is refused, and only there. The buffer's block
   is the only one the loop holds, and the clean-up at the end frees it.
   */
  method ReceiveLoop(heap: Heap, chunks: seq<Bytes>, grants: seq<Grant>) returns (framing: Framing, received: nat)
    requires heap.Valid() && |chunks| == |grants|
    requires forall c :: c in chunks ==> 0 < |c| < BUFFER_SIZE
    modifies heap
    ensures heap.Valid()
    ensures received <= |chunks| && framing == ReceiveAll(chunks[..received])
    ensures NoneRefused(heap.capacity - old(heap.used), chunks, grants, received)
    ensures received < |chunks| ==> Refused(heap.capacity - old(heap.used), chunks, grants, received)
    ensures received == |chunks| ==> heap.blocks == old(heap.blocks)
  {
    ghost var base, used := heap.blocks, heap.used;
    var buf := new TB.TemporaryBuffer(heap);
    framing, received := Framing([], []), 0;
    while received < |chunks|
      invariant fresh(buf) && buf.heap == heap
      invariant TakenIn(buf, base, used, chunks, grants, framing, received)
    {
      var ok;
      ok, framing := TakeIn(buf, framing, chunks, grants, received, base, used);
      if !ok {
        return;
      }
      received := received + 1;
    }
    buf.Clean();
  }

  /** The first m chunks have been taken in. */
  ghost predicate TakenIn(buf: TB.TemporaryBuffer, base: map<Ptr, Bytes>, used: int, chunks: seq<Bytes>,
                          grants: seq<Grant>, framing: Framing, m: nat)
    requires |chunks| == |grants|
    reads buf, buf.heap
  {
    && Beside(buf, base, used)
    && m <= |chunks| && framing == ReceiveAll(chunks[..m])
    && framing.buffer == buf.Contents()
    && NoneRefused(buf.heap.capacity - used, chunks, grants, m)
  }

  /** The turn of the loop that takes in chunk m, if it is not refused. */
  method TakeIn(buf: TB.TemporaryBuffer, framing: Framing, chunks: seq<Bytes>, grants: seq<Grant>, m: nat,
                ghost base: map<Ptr, Bytes>, ghost used: int)
    returns (ok: bool, framing': Framing)
    requires |chunks| == |grants| && m < |chunks| && forall c :: c in chunks ==> 0 < |c| < BUFFER_SIZE
    requires TakenIn(buf, base, used, chunks, grants, framing, m)
    modifies buf, buf.heap
    ensures buf.Valid()
    ensures ok ==> TakenIn(buf, base, used, chunks, grants, framing', m + 1)
    ensures !ok ==> framing' == framing && Refused(buf.heap.capacity - used, chunks, grants, m)
  {
    TakeStep(buf.heap.capacity - used, chunks, grants, m);
    ok, framing' := ReceiveOne(buf, framing, chunks[m], grants[m], base, used);
  }

  /** One turn of the loop: receive a chunk, and flush if it is due. */
  method ReceiveOne(buf: TB.TemporaryBuffer, framing: Framing, chunk: Bytes, grant: Grant,
                    ghost base: map<Ptr, Bytes>, ghost used: int)
    returns (ok: bool, framing': Framing)
    requires Beside(buf, base, used) && framing.buffer == buf.Contents() && 0 < |chunk| < BUFFER_SIZE
    modifies buf, buf.heap
    ensures buf.Valid()
    ensures ok <==> HasRoom(buf.heap.capacity - used, |framing.buffer|, chunk, grant)
    ensures framing' == if ok then Receive(framing, chunk) else framing
    ensures ok ==> Beside(buf, base, used) && buf.Contents() == framing'.buffer
  {
    assert buf.size as int == |framing.buffer|;
    framing' := framing;
    ok := ReceiveChunk(buf, chunk, grant);
    if ok {
      framing' := FlushIfDue(buf, framing, |chunk|);
    }
  }

  /** The newline test after a chunk, and what follows from it for the buffer. */
  method FlushIfDue(buf: TB.TemporaryBuffer, framing: Framing, recvLen: nat) returns (framing': Framing)
    requires buf.Valid() && buf.buffptr != NULL && 0 < recvLen <= buf.size as int
    modifies buf, buf.heap
    ensures buf.Valid()
    ensures var all := old(buf.Contents());
            framing' == if FlushTest(all, recvLen) then Framing(framing.flushed + [all], [])
                        else Framing(framing.flushed, all)
    ensures buf.Contents() == framing'.buffer && buf.Owned() <= old(buf.Owned())
    ensures buf.heap.blocks - buf.Owned() == old(buf.heap.blocks) - old(buf.Owned())
    ensures buf.heap.used - buf.size as int == old(buf.heap.used) - old(buf.size as int)
  {
    var all := buf.heap.blocks[buf.buffptr];
    var found, _ := CheckForNewlineCharInString(Some(all), recvLen, -1);
    if found {
      buf.Clean();
      framing' := Framing(framing.flushed + [all], []);
    } else {
      framing' := Framing(framing.flushed, all);
    }
  }

  /** One recv into a fresh 512-byte block, appended to the accumulated bytes. */
  method ReceiveChunk(buf: TB.TemporaryBuffer, chunk: Bytes, grant: Grant) returns (ok: bool)
    requires buf.Valid() && 0 < |chunk| < BUFFER_SIZE
    modifies buf, buf.heap
    ensures buf.Valid()
    ensures var free := buf.heap.capacity - (old(buf.heap.used) - old(buf.size as int));
            ok <==> HasRoom(free, old(buf.size as int), chunk, grant)
    ensures ok ==> buf.buffptr != NULL && buf.Owned() !! (old(buf.heap.blocks) - old(buf.Owned())).Keys
    ensures ok ==> buf.Contents() == old(buf.Contents()) + chunk
    ensures ok ==> buf.heap.blocks - buf.Owned() == old(buf.heap.blocks) - old(buf.Owned())
    ensures ok ==> buf.heap.used - buf.size as int == old(buf.heap.used) - old(buf.size as int)
  {
    var heap := buf.heap;
    ghost var blocks, held := heap.blocks, buf.Contents();
    var block := heap.Alloc(BUFFER_SIZE as size_t, grant.recvBlock);
    if block == NULL {
      return false;
    }
    heap.Copy(block, 0, chunk);
    assert heap.Load(block, |chunk| as size_t) == chunk;
    ok := buf.Add(block, |chunk| as size_t, grant.buffer);
    heap.Free(block);
    if ok {
      assert heap.blocks == (blocks - old(buf.Owned()))[buf.buffptr := held + chunk];
    }
  }
}
