/**
 When the server's framing is right over a whole run of chunks: the flushes
 against the messages that the driver would make of the same chunks.
 */
module FramingRuns {
  import opened ByteStrings
  import opened DeviceRuns
  import opened ClientFraming

  /** Before chunk i no newline is in the buffer. */
  predicate NothingHeld(chunks: seq<Bytes>, i: nat)
    requires i <= |chunks|
  {
    NEWLINE !in ReceiveAll(chunks[..i]).buffer
  }

  /** The flushes are the messages of the chunks, and the buffer their rest. */
  predicate FlushesMessages(chunks: seq<Bytes>, i: nat)
    requires i <= |chunks|
  {
    ReceiveAll(chunks[..i]) == Framing(Messages(chunks[..i]), Tail(chunks[..i]))
  }

  /** The first newline of chunk i, with the unfinished line before it, stands within the chunk's own length. */
  predicate SeenInTime(chunks: seq<Bytes>, i: nat)
    requires i < |chunks|
  {
    forall j :: 0 <= j < |chunks[i]| && FirstNewline(chunks[i], j) ==> |Tail(chunks[..i])| + j < |chunks[i]|
  }

  lemma FirstNewlineOf(s: Bytes) returns (i: nat)
    requires NEWLINE in s
    ensures FirstNewline(s, i)
    decreases |s|
  {
    var k := |s| - 1;
    assert s == s[..k] + [s[k]];
    if NEWLINE in s[..k] {
      i := FirstNewlineOf(s[..k]);
      assert s[..i] == s[..k][..i];
    } else {
      i := k;
    }
  }

  /** One more chunk on exact framing. */
  lemma FramingStep(chunks: seq<Bytes>, i: nat)
    requires i < |chunks| && FlushesMessages(chunks, i)
    ensures FlushesMessages(chunks, i + 1) <==> SeenInTime(chunks, i)
    ensures NothingHeld(chunks, i + 1) <==> SeenInTime(chunks, i)
  {
    var before, c := chunks[..i], chunks[i];
    assert chunks[..i + 1] == before + [c];
    ReceiveAllStep(chunks, i);
    JournalStep(chunks[..i + 1], before, c);
    MessagesEnd(before);
    if NEWLINE in c {
      var j := FirstNewlineOf(c);
      FlushOnChunk(Tail(before), c, j);
      NewlineBehind(Tail(before), c);
      assert forall j' :: FirstNewline(c, j') ==> j' == j;
    }
  }

  lemma {:induction false} FramingUpTo(chunks: seq<Bytes>, i: nat)
    requires i <= |chunks|
    requires || (forall k :: 0 <= k < i ==> SeenInTime(chunks, k))
             || (forall k :: 0 <= k <= i ==> NothingHeld(chunks, k))
    ensures FlushesMessages(chunks, i)
  {
    if i > 0 {
      FramingUpTo(chunks, i - 1);
      FramingStep(chunks, i - 1);
    }
  }

  /**
   Whole runs. The server flushes exactly the messages that the driver would
   make of the chunks, at every point, iff each newline is seen in time; and iff
   it never holds a complete line back.
   */
  lemma FramingExactly(chunks: seq<Bytes>)
    ensures (forall i :: 0 <= i <= |chunks| ==> FlushesMessages(chunks, i))
       <==> (forall i :: 0 <= i < |chunks| ==> SeenInTime(chunks, i))
    ensures (forall i :: 0 <= i <= |chunks| ==> NothingHeld(chunks, i))
       <==> (forall i :: 0 <= i < |chunks| ==> SeenInTime(chunks, i))
  {
    if forall i :: 0 <= i < |chunks| ==> SeenInTime(chunks, i) {
      forall i | 0 <= i <= |chunks|
        ensures FlushesMessages(chunks, i) && NothingHeld(chunks, i)
      {
        FramingUpTo(chunks, i);
        MessagesEnd(chunks[..i]);
      }
    } else {
      var i := FirstLate(chunks);
      FramingUpTo(chunks, i);
      FramingStep(chunks, i);
    }
  }

  lemma FirstLate(chunks: seq<Bytes>) returns (i: nat)
    requires exists k :: 0 <= k < |chunks| && !SeenInTime(chunks, k)
    ensures i < |chunks| && !SeenInTime(chunks, i) && forall k :: 0 <= k < i ==> SeenInTime(chunks, k)
  {
    i := 0;
    while SeenInTime(chunks, i)
      invariant i < |chunks| && forall k :: 0 <= k < i ==> SeenInTime(chunks, k)
      decreases |chunks| - i
    {
      i := i + 1;
    }
  }

  // --- the reference: chunks grouped into flushes

  /** The last chunk of g makes the server see a newline in what the chunks of g accumulate to. */
  predicate Triggers(g: seq<Bytes>)
    requires g != []
  {
    FlushTest(Flat(g), |g[|g| - 1]|)
  }

  predicate Quiet(g: seq<Bytes>) {
    forall m :: 0 < m <= |g| ==> !Triggers(g[..m])
  }

  predicate IsFlush(g: seq<Bytes>) {
    g != [] && Triggers(g) && Quiet(g[..|g| - 1])
  }

  /** The chunks in order: groups whose last chunk triggers and no earlier one does, and a rest in which none does. */
  predicate FlushGrouping(chunks: seq<Bytes>, groups: seq<seq<Bytes>>, rest: seq<Bytes>) {
    && Concat(groups) + rest == chunks
    && (forall g :: g in groups ==> IsFlush(g))
    && Quiet(rest)
  }

  function FlatEach(groups: seq<seq<Bytes>>): seq<Bytes> {
    seq(|groups|, i requires 0 <= i < |groups| => Flat(groups[i]))
  }

  lemma QuietShorter(g: seq<Bytes>, k: nat)
    requires Quiet(g) && k <= |g|
    ensures Quiet(g[..k])
  {
    forall m | 0 < m <= k
      ensures !Triggers(g[..k][..m])
    {
      assert g[..k][..m] == g[..m];
    }
  }

  lemma RestShorter(chunks: seq<Bytes>, before: seq<Bytes>, groups: seq<seq<Bytes>>, r: seq<Bytes>, c: Bytes)
    requires FlushGrouping(chunks, groups, r + [c]) && before == Concat(groups) + r
    ensures chunks == before + [c] && FlushGrouping(before, groups, r) && !Triggers(r + [c])
  {
    QuietShorter(r + [c], |r|);
    assert (r + [c])[..|r|] == r && (r + [c])[..|r| + 1] == r + [c];
  }

  lemma GroupOpened(chunks: seq<Bytes>, before: seq<Bytes>, groups: seq<seq<Bytes>>, r: seq<Bytes>, c: Bytes)
    requires FlushGrouping(chunks, groups + [r + [c]], []) && before == Concat(groups) + r
    ensures chunks == before + [c] && FlushGrouping(before, groups, r) && Triggers(r + [c])
  {
    assert IsFlush(r + [c]) by {
      assert (groups + [r + [c]])[|groups|] == r + [c];
    }
    assert (r + [c])[..|r|] == r;
    assert forall g :: g in groups ==> g in groups + [r + [c]];
    ConcatSnoc(groups, r + [c]);
    assert Concat(groups) + (r + [c]) == before + [c];
  }

  lemma FlatEachSnoc(groups: seq<seq<Bytes>>, g: seq<Bytes>)
    ensures FlatEach(groups + [g]) == FlatEach(groups) + [Flat(g)]
  {
  }

  /** In every such grouping the flushes are the groups, each as one string, and the buffer is the rest. */
  lemma {:induction false} FlushesAreGroups(chunks: seq<Bytes>, groups: seq<seq<Bytes>>, rest: seq<Bytes>)
    requires FlushGrouping(chunks, groups, rest)
    ensures ReceiveAll(chunks) == Framing(FlatEach(groups), Flat(rest))
    decreases |chunks|, 1
  {
    if rest != [] {
      var r, c := rest[..|rest| - 1], rest[|rest| - 1];
      var before := Concat(groups) + r;
      assert rest == r + [c];
      RestShorter(chunks, before, groups, r, c);
      FlushesAreGroups(before, groups, r);
      OneChunk(chunks, before, groups, r, c);
    } else if groups != [] {
      var gs, g := groups[..|groups| - 1], groups[|groups| - 1];
      assert g in groups && IsFlush(g);
      assert groups == gs + [g] && g == g[..|g| - 1] + [g[|g| - 1]];
      GroupFlushed(chunks, gs, g[..|g| - 1], g[|g| - 1]);
    }
  }

  lemma {:induction false} GroupFlushed(chunks: seq<Bytes>, groups: seq<seq<Bytes>>, r: seq<Bytes>, c: Bytes)
    requires FlushGrouping(chunks, groups + [r + [c]], [])
    ensures ReceiveAll(chunks) == Framing(FlatEach(groups + [r + [c]]), [])
    decreases |chunks|, 0
  {
    var before := Concat(groups) + r;
    GroupOpened(chunks, before, groups, r, c);
    FlushesAreGroups(before, groups, r);
    OneChunk(chunks, before, groups, r, c);
    FlatEachSnoc(groups, r + [c]);
  }

  lemma OneChunk(chunks: seq<Bytes>, before: seq<Bytes>, groups: seq<seq<Bytes>>, r: seq<Bytes>, c: Bytes)
    requires chunks == before + [c] && ReceiveAll(before) == Framing(FlatEach(groups), Flat(r))
    ensures ReceiveAll(chunks) == if Triggers(r + [c]) then Framing(FlatEach(groups) + [Flat(r + [c])], [])
                                  else Framing(FlatEach(groups), Flat(r + [c]))
  {
    assert chunks[..|before|] == before;
    FlatSnoc(r, c);
  }

  /** And every list of chunks has one. */
  lemma {:induction false} FlushGroups(chunks: seq<Bytes>) returns (groups: seq<seq<Bytes>>, rest: seq<Bytes>)
    ensures FlushGrouping(chunks, groups, rest)
  {
    if chunks == [] {
      groups, rest := [], [];
    } else {
      var k := |chunks| - 1;
      var c := chunks[k];
      groups, rest := FlushGroups(chunks[..k]);
      assert chunks == chunks[..k] + [c];
      if Triggers(rest + [c]) {
        assert (rest + [c])[..|rest|] == rest;
        ConcatSnoc(groups, rest + [c]);
        groups, rest := groups + [rest + [c]], [];
      } else {
        QuietLonger(rest, c);
        rest := rest + [c];
      }
    }
  }

  lemma QuietLonger(r: seq<Bytes>, c: Bytes)
    requires Quiet(r) && !Triggers(r + [c])
    ensures Quiet(r + [c])
  {
    forall m | 0 < m <= |r| + 1
      ensures !Triggers((r + [c])[..m])
    {
      assert m <= |r| ==> (r + [c])[..m] == r[..m];
      assert m == |r| + 1 ==> (r + [c])[..m] == r + [c];
    }
  }
}
