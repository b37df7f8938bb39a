/**
 A byte stream reaches the device cut into writes. When the cuts matter: to the
 messages, to the device, and to what a reader of it can tell.
 */
module Chunking {
  import opened ByteStrings
  import opened RingModel
  import opened DeviceModel
  import opened DeviceRuns

  /** A newline can only be the last byte. */
  predicate LineLike(s: Bytes) {
    forall i :: 0 <= i < |s| - 1 ==> s[i] != NEWLINE
  }

  predicate Aligned(chunks: seq<Bytes>) {
    forall c :: c in chunks ==> LineLike(c)
  }

  function Singles(s: Bytes): (chunks: seq<Bytes>)
    ensures |chunks| == |s|
  {
    seq(|s|, i requires 0 <= i < |s| => [s[i]])
  }

  function ExtendAll(j: Journal, chunks: seq<Bytes>): Journal {
    if chunks == [] then j
    else Extend(ExtendAll(j, chunks[..|chunks| - 1]), chunks[|chunks| - 1])
  }

  /** The journal of chunks depends on what came before only through its journal. */
  lemma {:induction false} JournalContinues(chunks: seq<Bytes>, before: seq<Bytes>, more: seq<Bytes>)
    requires chunks == before + more
    ensures JournalOf(chunks) == ExtendAll(JournalOf(before), more)
    decreases |more|
  {
    if more == [] {
      assert chunks == before;
    } else {
      var k := |more| - 1;
      assert chunks == (before + more[..k]) + [more[k]];
      JournalContinues(before + more[..k], before, more[..k]);
      JournalStep(chunks, before + more[..k], more[k]);
    }
  }

  lemma {:induction false} QuietSingles(j: Journal, c: Bytes)
    requires NEWLINE !in c
    ensures ExtendAll(j, Singles(c)) == Journal(j.msgs, j.tail + c)
  {
    if c != [] {
      var k := |c| - 1;
      QuietSingles(j, c[..k]);
      assert Singles(c)[..k] == Singles(c[..k]);
      assert j.tail + c == (j.tail + c[..k]) + [c[k]];
    }
  }

  /** One aligned chunk acts like its bytes written one at a time. */
  lemma ChunkAsSingles(j: Journal, c: Bytes)
    requires LineLike(c)
    ensures ExtendAll(j, Singles(c)) == Extend(j, c)
  {
    if c == [] {
      assert j.tail + c == j.tail;
    } else {
      var k := |c| - 1;
      QuietSingles(j, c[..k]);
      assert Singles(c)[..k] == Singles(c[..k]);
      assert j.tail + c == (j.tail + c[..k]) + [c[k]];
      assert c == c[..k] + [c[k]];
    }
  }

  lemma SinglesContinue(s: Bytes, c: Bytes)
    ensures JournalOf(Singles(s + c)) == ExtendAll(JournalOf(Singles(s)), Singles(c))
  {
    assert Singles(s + c) == Singles(s) + Singles(c);
    JournalContinues(Singles(s + c), Singles(s), Singles(c));
  }

  lemma {:induction false} AlignedAsSingles(chunks: seq<Bytes>)
    requires Aligned(chunks)
    ensures JournalOf(chunks) == JournalOf(Singles(Flat(chunks)))
  {
    if chunks != [] {
      var before, c := chunks[..|chunks| - 1], chunks[|chunks| - 1];
      assert chunks == before + [c] && c in chunks;
      AlignedAsSingles(before);
      FlatSnoc(before, c);
      SinglesContinue(Flat(before), c);
      ChunkAsSingles(JournalOf(before), c);
      JournalStep(chunks, before, c);
    }
  }

  /** Written one byte at a time, every message ends with its only newline. */
  lemma {:induction false} SinglesAreLines(s: Bytes)
    ensures forall m :: m in Messages(Singles(s)) ==> LineLike(m)
  {
    if s != [] {
      var k := |s| - 1;
      SinglesAreLines(s[..k]);
      MessagesEnd(Singles(s[..k]));
      assert Singles(s) == Singles(s[..k]) + [[s[k]]];
      JournalStep(Singles(s), Singles(s[..k]), [s[k]]);
      assert forall i :: 0 <= i < |Tail(Singles(s[..k]))| ==> Tail(Singles(s[..k]))[i] != NEWLINE;
    }
  }

  /** A chunk with bytes behind a newline makes a message with bytes behind a newline. */
  lemma {:induction false} UnalignedMessage(chunks: seq<Bytes>) returns (m: Bytes)
    requires !Aligned(chunks)
    ensures m in Messages(chunks) && !LineLike(m)
  {
    var k := |chunks| - 1;
    var before, c := chunks[..k], chunks[k];
    assert chunks == before + [c];
    JournalStep(chunks, before, c);
    if LineLike(c) {
      m := UnalignedMessage(before);
    } else {
      var i :| 0 <= i < |c| - 1 && c[i] == NEWLINE;
      m := Tail(before) + c;
      assert m[|Tail(before)| + i] == NEWLINE;
      assert Messages(chunks)[|Messages(chunks)| - 1] == m;
    }
  }

  /**
   The exact condition. A list of chunks leaves the messages and the rest that
   its bytes would leave one at a time iff no chunk has a newline before its
   last byte. Empty chunks make no difference.
   */
  lemma ChunkingExactly(chunks: seq<Bytes>)
    ensures JournalOf(chunks) == JournalOf(Singles(Flat(chunks))) <==> Aligned(chunks)
  {
    if Aligned(chunks) {
      AlignedAsSingles(chunks);
    } else {
      var m := UnalignedMessage(chunks);
      SinglesAreLines(Flat(chunks));
    }
  }

  /** With no empty write, the pending pointer is NULL exactly when no bytes are pending. */
  lemma {:induction false} PendingPointer(n: nat, chunks: seq<Bytes>)
    requires n > 0 && [] !in chunks
    ensures WriteRun(n, Plain(chunks)).pending == if Tail(chunks) == [] then None else Some(Tail(chunks))
  {
    if chunks != [] {
      var before, c := chunks[..|chunks| - 1], chunks[|chunks| - 1];
      assert Plain(chunks)[..|chunks| - 1] == Plain(before);
      assert chunks == before + [c] && c in chunks;
      PendingPointer(n, before);
      PlainRun(n, before);
      JournalStep(chunks, before, c);
    }
  }

  /**
   Two ways of cutting the same stream into aligned writes leave the same slots,
   offsets, flag, byte count and pending bytes; where no write is empty, the
   pending pointer too, and so the same device.
   */
  lemma ChunkingInvariance(n: nat, a: seq<Bytes>, b: seq<Bytes>)
    requires n > 0 && Aligned(a) && Aligned(b) && Flat(a) == Flat(b)
    ensures WriteRun(n, Plain(a)).ring == WriteRun(n, Plain(b)).ring
    ensures PendingBytes(WriteRun(n, Plain(a))) == PendingBytes(WriteRun(n, Plain(b)))
    ensures [] !in a && [] !in b ==> WriteRun(n, Plain(a)) == WriteRun(n, Plain(b))
  {
    ChunkingExactly(a);
    ChunkingExactly(b);
    PlainRun(n, a);
    PlainRun(n, b);
    if [] !in a && [] !in b {
      PendingPointer(n, a);
      PendingPointer(n, b);
    }
  }

  // --- what a reader can tell

  predicate EndsLine(s: Bytes) { s != [] && s[|s| - 1] == NEWLINE }

  /** Bytes that end a line, written one at a time, leave nothing behind. */
  lemma SinglesEnd(s: Bytes)
    requires s == [] || EndsLine(s)
    ensures Tail(Singles(s)) == []
  {
    if s != [] {
      assert Singles(s) == Singles(s[..|s| - 1]) + [[NEWLINE]];
      JournalStep(Singles(s), Singles(s[..|s| - 1]), [NEWLINE]);
    }
  }

  /** The strings that a ring of n slots no longer holds, and those it holds. */
  function Gone(msgs: seq<Bytes>, n: nat): seq<Bytes> { msgs[..|msgs| - |LastN(msgs, n)|] }

  lemma GoneAndLast(msgs: seq<Bytes>, n: nat)
    ensures Gone(msgs, n) + LastN(msgs, n) == msgs
    ensures Flat(Gone(msgs, n)) + Flat(LastN(msgs, n)) == Flat(msgs)
    ensures Gone(msgs, n) != [] ==> |LastN(msgs, n)| == n && |msgs| > n
  {
    var k := |msgs| - |LastN(msgs, n)|;
    assert LastN(msgs, n) == msgs[k..];
    assert msgs[..k] + msgs[k..] == msgs;
    FlatCut(msgs, k);
  }

  /**
   The ring's strings are lines, each with its newline as last byte only, and
   the first of them began where a line had ended.
   */
  predicate ShowsLines(msgs: seq<Bytes>, n: nat) {
    && (forall m :: m in LastN(msgs, n) ==> LineLike(m))
    && (|msgs| > n ==> EndsLine(msgs[|msgs| - n - 1]))
  }

  lemma {:induction false} FlatEnds(es: seq<Bytes>)
    requires es != [] && es[|es| - 1] != []
    ensures EndsLine(Flat(es)) <==> EndsLine(es[|es| - 1])
  {
    var k := |es| - 1;
    assert es == es[..k] + [es[k]];
    FlatSnoc(es[..k], es[k]);
  }

  /** The messages of single bytes are lines. */
  lemma AllSinglesLines(s: Bytes)
    ensures forall m :: m in Messages(Singles(s)) ==> LineLike(m) && EndsLine(m)
  {
    SinglesAreLines(s);
    MessagesEnd(Singles(s));
    forall m | m in Messages(Singles(s))
      ensures EndsLine(m)
    {
      var i :| 0 <= i < |m| && m[i] == NEWLINE;
    }
  }

  /** Lines behind a point where a line has ended: byte by byte they are the same messages, and the same rest. */
  lemma LinesAsSingles(gone: Bytes, lines: seq<Bytes>, tail: Bytes)
    requires gone == [] || EndsLine(gone)
    requires (forall m :: m in lines ==> LineLike(m) && NEWLINE in m) && NEWLINE !in tail
    ensures JournalOf(Singles(gone + Flat(lines) + tail)) == Journal(Messages(Singles(gone)) + lines, tail)
  {
    var before, chunks := Singles(gone), Singles(gone) + lines + [tail];
    SinglesEnd(gone);
    AlignedAsSingles(before);
    SinglesFlat(gone);
    FlatConcat(before, lines);
    FlatSnoc(before + lines, tail);
    assert Aligned(chunks);
    AlignedAsSingles(chunks);
    JournalStep(chunks, before + lines, tail);
    LinesJournal(before, lines);
  }

  lemma {:induction false} SinglesFlat(s: Bytes)
    ensures Flat(Singles(s)) == s
  {
    if s != [] {
      assert Singles(s)[1..] == Singles(s[1..]);
      SinglesFlat(s[1..]);
    }
  }

  /** The messages a ring still holds, and the rest. */
  function Kept(chunks: seq<Bytes>, n: nat): Journal { Journal(LastN(Messages(chunks), n), Tail(chunks)) }

  lemma LastNBehind(gone: seq<Bytes>, last: seq<Bytes>, n: nat)
    requires |last| == n || (gone == [] && |last| <= n)
    ensures LastN(gone + last, n) == last
  {
  }

  /** What ends the messages that a ring has dropped. */
  lemma GoneEnds(msgs: seq<Bytes>, n: nat)
    requires |msgs| > n ==> EndsLine(msgs[|msgs| - n - 1])
    ensures Flat(Gone(msgs, n)) == [] || EndsLine(Flat(Gone(msgs, n)))
  {
    if |msgs| > n {
      FlatEnds(Gone(msgs, n));
    }
  }

  lemma LinesLast(n: nat, msgs: seq<Bytes>, tail: Bytes)
    requires ShowsLines(msgs, n) && (forall m :: m in msgs ==> NEWLINE in m) && NEWLINE !in tail
    ensures var singles := Singles(Flat(msgs) + tail);
            LastN(Messages(singles), n) == LastN(msgs, n) && Tail(singles) == tail
  {
    var gone, last := Flat(Gone(msgs, n)), LastN(msgs, n);
    GoneAndLast(msgs, n);
    GoneEnds(msgs, n);
    LinesAsSingles(gone, last, tail);
    LastNBehind(Messages(Singles(gone)), last, n);
  }

  lemma LinesKept(n: nat, chunks: seq<Bytes>)
    requires ShowsLines(Messages(chunks), n)
    ensures Kept(chunks, n) == Kept(Singles(Flat(chunks)), n)
  {
    MessagesConserve(chunks);
    MessagesEnd(chunks);
    LinesLast(n, Messages(chunks), Tail(chunks));
  }

  /** Two lists that end alike and are alike as flat strings have the same flat string before the end. */
  lemma GoneFlat(chunks: seq<Bytes>, n: nat)
    requires Kept(chunks, n) == Kept(Singles(Flat(chunks)), n)
    ensures Flat(Gone(Messages(chunks), n)) == Flat(Gone(Messages(Singles(Flat(chunks))), n))
  {
    var a, b := chunks, Singles(Flat(chunks));
    MessagesConserve(a);
    MessagesConserve(b);
    SinglesFlat(Flat(chunks));
    GoneAndLast(Messages(a), n);
    GoneAndLast(Messages(b), n);
    SuffixCancels(Flat(Gone(Messages(a), n)), Flat(Gone(Messages(b), n)), Flat(LastN(Messages(a), n)), Tail(a));
  }

  lemma SuffixCancels(a: Bytes, b: Bytes, s: Bytes, t: Bytes)
    requires a + s + t == b + s + t
    ensures a == b
  {
    assert |a| == |b|;
    assert a == (a + s + t)[..|a|];
    assert b == (b + s + t)[..|a|];
  }

  /** Lists alike as flat strings, one of them of lines: the other one ends in a newline too. */
  lemma EndsAsLines(es: seq<Bytes>, lines: seq<Bytes>)
    requires Flat(es) == Flat(lines) && es != [] && es[|es| - 1] != []
    requires forall m :: m in lines ==> EndsLine(m)
    ensures EndsLine(es[|es| - 1])
  {
    FlatEmpty(es);
    assert lines != [];
    assert lines[|lines| - 1] in lines;
    FlatEnds(lines);
    FlatEnds(es);
  }

  lemma SameLast(n: nat, msgs: seq<Bytes>, lines: seq<Bytes>)
    requires LastN(msgs, n) == LastN(lines, n) && Flat(Gone(msgs, n)) == Flat(Gone(lines, n))
    requires forall m :: m in lines ==> LineLike(m) && EndsLine(m)
    requires [] !in msgs
    ensures ShowsLines(msgs, n)
  {
    forall m | m in LastN(msgs, n)
      ensures LineLike(m)
    {
      assert m in LastN(lines, n);
    }
    if |msgs| > n {
      var gone := Gone(msgs, n);
      assert gone[|gone| - 1] == msgs[|msgs| - n - 1] && msgs[|msgs| - n - 1] in msgs;
      EndsAsLines(gone, Gone(lines, n));
    }
  }

  lemma SameAsSingles(n: nat, chunks: seq<Bytes>, s: Bytes)
    requires LastN(Messages(chunks), n) == LastN(Messages(Singles(s)), n)
    requires Flat(Gone(Messages(chunks), n)) == Flat(Gone(Messages(Singles(s)), n))
    ensures ShowsLines(Messages(chunks), n)
  {
    MessagesEnd(chunks);
    AllSinglesLines(s);
    SameLast(n, Messages(chunks), Messages(Singles(s)));
  }

  lemma KeptIsLines(n: nat, chunks: seq<Bytes>)
    requires Kept(chunks, n) == Kept(Singles(Flat(chunks)), n)
    ensures ShowsLines(Messages(chunks), n)
  {
    GoneFlat(chunks, n);
    SameAsSingles(n, chunks, Flat(chunks));
  }

  /**
   What a reader can tell, after any stream. The device shows the entries and
   the pending bytes of the stream written byte by byte iff the last n messages
   are lines and the message before them, if there is one, ends in a newline.
   */
  lemma ChunkingMatters(n: nat, chunks: seq<Bytes>)
    requires n > 0
    ensures var cut, whole := WriteRun(n, Plain(chunks)), WriteRun(n, Plain(Singles(Flat(chunks))));
            (Visible(cut.ring) == Visible(whole.ring) && PendingBytes(cut) == PendingBytes(whole))
            <==> ShowsLines(Messages(chunks), n)
  {
    PlainRun(n, chunks);
    PlainRun(n, Singles(Flat(chunks)));
    if ShowsLines(Messages(chunks), n) {
      LinesKept(n, chunks);
    } else if Kept(chunks, n) == Kept(Singles(Flat(chunks)), n) {
      KeptIsLines(n, chunks);
    }
  }

  /** While the ring holds every message of either cut, that is alignment: every unaligned cut is visible. */
  lemma ChunkingMattersEarly(n: nat, chunks: seq<Bytes>)
    requires n > 0 && |Messages(chunks)| <= n && |Messages(Singles(Flat(chunks)))| <= n
    ensures ShowsLines(Messages(chunks), n) <==> Aligned(chunks)
    ensures var cut, whole := WriteRun(n, Plain(chunks)), WriteRun(n, Plain(Singles(Flat(chunks))));
            (Visible(cut.ring) == Visible(whole.ring) && PendingBytes(cut) == PendingBytes(whole)) <==> Aligned(chunks)
  {
    PlainRun(n, chunks);
    PlainRun(n, Singles(Flat(chunks)));
    ChunkingExactly(chunks);
    ChunkingMatters(n, chunks);
  }
}
