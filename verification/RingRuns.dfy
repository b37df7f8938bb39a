/**
 Runs of `aesd_circular_buffer_add_entry`, with any pattern of allocation
 failures: what the ring holds afterwards, when its readers see it, and how far
 the flat string has moved under an unmoved position.
 */
module RingRuns {
  import opened ByteStrings
  import opened RingModel

  datatype Add = Add(data: Bytes, allocOk: bool)

  function AddAll(r: Ring, adds: seq<Add>): (r': Ring)
    requires InRange(r)
    ensures InRange(r') && |r'.entry| == |r.entry|
  {
    if adds == [] then r
    else
      var last := adds[|adds| - 1];
      AddEntry(AddAll(r, adds[..|adds| - 1]), last.data, last.allocOk)
  }

  function WindowAfter(w: Window, n: nat, adds: seq<Add>): Window
    requires n > 0
  {
    if adds == [] then w
    else
      var last := adds[|adds| - 1];
      AddWindow(WindowAfter(w, n, adds[..|adds| - 1]), n, last.data, last.allocOk)
  }

  function Stored(adds: seq<Add>): seq<Bytes> {
    if adds == [] then []
    else
      var last := adds[|adds| - 1];
      Stored(adds[..|adds| - 1]) + if last.allocOk then [last.data] else []
  }

  lemma {:induction false} WindowJoin(w: Window, n: nat, a: seq<Add>, b: seq<Add>)
    requires n > 0
    ensures WindowAfter(w, n, a + b) == WindowAfter(WindowAfter(w, n, a), n, b)
    decreases |b|
  {
    if b == [] {
      assert a + b == a;
    } else {
      WindowJoin(w, n, a, b[..|b| - 1]);
      assert (a + b)[..|a + b| - 1] == a + b[..|b| - 1];
    }
  }

  /** The adds of a list of strings when every allocation is granted. */
  function Granted(msgs: seq<Bytes>): (adds: seq<Add>)
    ensures |adds| == |msgs|
  {
    seq(|msgs|, i requires 0 <= i < |msgs| => Add(msgs[i], true))
  }

  /** In every run the ring refines the window, and `size` is the sum of all slot sizes. */
  lemma {:induction false} RunRefines(r: Ring, w: Window, adds: seq<Add>)
    requires Represents(r, w) && r.size == SizeSum(r.entry)
    ensures Represents(AddAll(r, adds), WindowAfter(w, |r.entry|, adds))
    ensures AddAll(r, adds).size == SizeSum(AddAll(r, adds).entry)
  {
    if adds != [] {
      var before, last := adds[..|adds| - 1], adds[|adds| - 1];
      RunRefines(r, w, before);
      AddEntryRefines(AddAll(r, before), WindowAfter(w, |r.entry|, before), last.data, last.allocOk);
      AddEntryCounts(AddAll(r, before), WindowAfter(w, |r.entry|, before), last.data, last.allocOk);
    }
  }

  /** From the empty ring: the run refines the window, from which the reader's view follows. */
  lemma RunFromInit(n: nat, adds: seq<Add>)
    requires n > 0
    ensures Represents(AddAll(Init(n), adds), WindowAfter(NEW_WINDOW, n, adds))
    ensures AddAll(Init(n), adds).size == SizeSum(AddAll(Init(n), adds).entry)
  {
    InitRepresents(n);
    SizeSumInit(n);
    RunRefines(Init(n), NEW_WINDOW, adds);
  }

  /** With every allocation granted the window is the last n strings, and it is full once there are n. */
  lemma {:induction false} GrantedWindow(n: nat, msgs: seq<Bytes>)
    requires n > 0
    ensures WindowAfter(NEW_WINDOW, n, Granted(msgs)) == Window(LastN(msgs, n), 0, |msgs| >= n)
  {
    if msgs != [] {
      var k := |msgs| - 1;
      assert Granted(msgs)[..k] == Granted(msgs[..k]);
      GrantedWindow(n, msgs[..k]);
    }
  }

  /** Hence the ring read from `out_offs` is exactly the last n strings added, in order. */
  lemma GrantedRing(n: nat, msgs: seq<Bytes>)
    requires n > 0
    ensures Visible(AddAll(Init(n), Granted(msgs))) == LastN(msgs, n)
    ensures AddAll(Init(n), Granted(msgs)).size == |Flat(LastN(msgs, n))|
    ensures AddAll(Init(n), Granted(msgs)).full <==> |msgs| >= n
  {
    RunFromInit(n, Granted(msgs));
    GrantedWindow(n, msgs);
    VisibleWindow(AddAll(Init(n), Granted(msgs)), WindowAfter(NEW_WINDOW, n, Granted(msgs)));
  }

  /** Whatever fails, the live strings are a suffix of those stored. */
  lemma {:induction false} LiveIsSuffix(n: nat, adds: seq<Add>)
    requires n > 0
    ensures var live, all := WindowAfter(NEW_WINDOW, n, adds).live, Stored(adds);
            |live| <= |all| && live == all[|all| - |live|..]
  {
    if adds != [] {
      LiveIsSuffix(n, adds[..|adds| - 1]);
    }
  }

  // --- when readers see all live strings

  /** The window after the first i adds of the run. */
  function At(n: nat, adds: seq<Add>, i: nat): Window
    requires n > 0 && i <= |adds|
  {
    WindowAfter(NEW_WINDOW, n, adds[..i])
  }

  lemma AtStep(n: nat, adds: seq<Add>, i: nat)
    requires n > 0 && i < |adds|
    ensures At(n, adds, i + 1) == AddWindow(At(n, adds, i), n, adds[i].data, adds[i].allocOk)
  {
    assert adds[..i + 1][..i] == adds[..i];
  }

  lemma AtBounded(n: nat, adds: seq<Add>, i: nat)
    requires n > 0 && i <= |adds|
    ensures Bounded(At(n, adds, i), n)
  {
    RunFromInit(n, adds[..i]);
  }

  /** How many failures stand directly before point i of the run. */
  function FailRun(adds: seq<Add>, i: nat): (k: nat)
    requires i <= |adds|
    ensures k <= i && forall j :: i - k <= j < i ==> !adds[j].allocOk
    ensures k < i ==> adds[i - k - 1].allocOk
  {
    if i == 0 || adds[i - 1].allocOk then 0 else 1 + FailRun(adds, i - 1)
  }

  /**
   A granted add that comes after k failures in a row, which began in state w,
   cannot hide what it stores: they did not begin with n live strings, or they
   were fewer than n, or one less than a multiple of n, so that the eviction
   that comes with the add completes a round.
   */
  predicate Harmless(n: nat, w: Window, k: nat)
    requires n > 0
  {
    |w.live| == n ==> k < n || (k + 1) % n == 0
  }

  predicate HarmlessAt(n: nat, adds: seq<Add>, i: nat)
    requires n > 0 && i <= |adds|
  {
    var k := FailRun(adds, i);
    Harmless(n, At(n, adds, i - k), k)
  }

  /** Readers of the ring see every live string, at every point of the run. */
  predicate AlwaysVisible(n: nat, adds: seq<Add>)
    requires n > 0
  {
    forall i :: 0 <= i <= |adds| ==> Visible(AddAll(Init(n), adds[..i])) == At(n, adds, i).live
  }

  lemma VisibleAtPoint(n: nat, adds: seq<Add>, i: nat)
    requires n > 0 && i <= |adds|
    ensures Visible(AddAll(Init(n), adds[..i])) == At(n, adds, i).live
       <==> At(n, adds, i).gap == 0 || At(n, adds, i).live == []
  {
    RunFromInit(n, adds[..i]);
    VisibleWindow(AddAll(Init(n), adds[..i]), At(n, adds, i));
  }

  /** The empty slots in front after k failures in a row, once nothing is left to evict. */
  function GapAfter(n: nat, k: nat): nat
    requires n > 0
  {
    if k == 0 then 0
    else if GapAfter(n, k - 1) == 0 then n - 1
    else GapAfter(n, k - 1) - 1
  }

  lemma {:induction false} GapFirstRound(n: nat, k: nat)
    requires n > 0 && 0 < k <= n
    ensures GapAfter(n, k) == n - k
  {
    if k > 1 {
      GapFirstRound(n, k - 1);
    }
  }

  lemma {:induction false} GapGoesRound(n: nat, k: nat)
    requires n > 0
    ensures GapAfter(n, k + n) == GapAfter(n, k)
  {
    if k == 0 {
      GapFirstRound(n, n);
    } else {
      GapGoesRound(n, k - 1);
    }
  }

  lemma MulGrows(q: int, n: nat)
    requires q >= 1
    ensures q * n >= n
  {
    assert (q - 1) * n >= 0;
  }

  lemma QuotientUnique(p: int, q: int, l: int, m: int, n: nat)
    requires p * n + l == q * n + m && 0 <= l < n && 0 <= m < n
    ensures p == q
  {
    assert (p - q) * n == p * n - q * n;
    assert (q - p) * n == q * n - p * n;
    if p > q {
      MulGrows(p - q, n);
    } else if q > p {
      MulGrows(q - p, n);
    }
  }

  lemma ModDown(k: nat, n: nat)
    requires 0 < n <= k
    ensures (k - n) % n == k % n
  {
    var q, p := k / n, (k - n) / n;
    assert (q - 1) * n == q * n - n;
    QuotientUnique(p, q - 1, (k - n) % n, k % n, n);
  }

  predicate Multiple(m: nat, n: nat)
    requires n > 0
  {
    if m < n then m == 0 else Multiple(m - n, n)
  }

  lemma {:induction false} MultipleIsMod(m: nat, n: nat)
    requires n > 0
    ensures Multiple(m, n) <==> m % n == 0
    decreases m
  {
    if m >= n {
      MultipleIsMod(m - n, n);
      ModDown(m, n);
    }
  }

  lemma {:induction false} NoGapExactly(n: nat, k: nat)
    requires n > 0
    ensures GapAfter(n, k) == 0 <==> Multiple(k, n)
    decreases k
  {
    if k < n {
      if k > 0 {
        GapFirstRound(n, k);
      }
    } else {
      NoGapExactly(n, k - n);
      GapGoesRound(n, k - n);
    }
  }

  /** After k failures in a row on a ring with n live strings: one evicted by each, then the offset goes round. */
  predicate Emptied(n: nat, w: Window, k: nat)
    requires n > 0
  {
    && w.full
    && |w.live| == (if k < n then n - k else 0)
    && w.gap == if k < n then 0 else GapAfter(n, k)
  }

  lemma EmptiedStep(n: nat, w: Window, k: nat, data: Bytes)
    requires n > 0 && Emptied(n, w, k)
    ensures Emptied(n, AddWindow(w, n, data, false), k + 1)
  {
    GapFirstRound(n, n);
  }

  lemma EmptiedGrant(n: nat, w: Window, k: nat, data: Bytes)
    requires n > 0 && Emptied(n, w, k)
    ensures var w' := AddWindow(w, n, data, true);
            w'.live != [] && w'.gap == if k < n then 0 else GapAfter(n, k + 1)
  {
  }

  lemma {:induction false} FailuresMove(n: nat, adds: seq<Add>, from: nat, k: nat)
    requires n > 0 && from + k <= |adds| && |At(n, adds, from).live| == n
    requires forall j :: from <= j < from + k ==> !adds[j].allocOk
    ensures Emptied(n, At(n, adds, from + k), k)
  {
    if k == 0 {
      AtBounded(n, adds, from);
    } else {
      FailuresMove(n, adds, from, k - 1);
      AtStep(n, adds, from + k - 1);
      EmptiedStep(n, At(n, adds, from + k - 1), k - 1, adds[from + k - 1].data);
    }
  }

  /** On a ring not flagged full, failures change nothing. */
  lemma {:induction false} FailuresIdle(n: nat, adds: seq<Add>, from: nat, k: nat)
    requires n > 0 && from + k <= |adds| && !At(n, adds, from).full
    requires forall j :: from <= j < from + k ==> !adds[j].allocOk
    ensures At(n, adds, from + k) == At(n, adds, from)
  {
    if k > 0 {
      FailuresIdle(n, adds, from, k - 1);
      AtStep(n, adds, from + k - 1);
    }
  }

  /** What a granted add leaves, after k failures that began with n live strings. */
  lemma GrantAfter(n: nat, adds: seq<Add>, i: nat, k: nat)
    requires n > 0 && k <= i < |adds| && adds[i].allocOk && |At(n, adds, i - k).live| == n
    requires forall j :: i - k <= j < i ==> !adds[j].allocOk
    ensures var w := At(n, adds, i + 1); w.live != [] && w.gap == if k < n then 0 else GapAfter(n, k + 1)
  {
    FailuresMove(n, adds, i - k, k);
    AtStep(n, adds, i);
    EmptiedGrant(n, At(n, adds, i), k, adds[i].data);
  }

  lemma GrantAfterFailures(n: nat, adds: seq<Add>, i: nat, k: nat)
    requires n > 0 && k <= i < |adds| && adds[i].allocOk && |At(n, adds, i - k).live| == n
    requires forall j :: i - k <= j < i ==> !adds[j].allocOk
    ensures At(n, adds, i + 1).gap == 0 <==> Harmless(n, At(n, adds, i - k), k)
    ensures At(n, adds, i + 1).live != []
  {
    GrantAfter(n, adds, i, k);
    NoGapExactly(n, k + 1);
    MultipleIsMod(k + 1, n);
  }

  predicate AllHarmless(n: nat, adds: seq<Add>)
    requires n > 0
  {
    forall i {:trigger HarmlessAt(n, adds, i)} :: 0 <= i < |adds| && adds[i].allocOk ==> HarmlessAt(n, adds, i)
  }

  /** While every granted add is harmless there is no gap after one, and the flag is honest. */
  lemma {:induction false} GrantedClear(n: nat, adds: seq<Add>, i: nat)
    requires n > 0 && i <= |adds| && (i == 0 || adds[i - 1].allocOk)
    requires AllHarmless(n, adds)
    ensures var w := At(n, adds, i); w.gap == 0 && (w.full <==> |w.live| == n)
    decreases i
  {
    if i > 0 {
      var k := FailRun(adds, i - 1);
      var from := i - 1 - k;
      GrantedClear(n, adds, from);
      AtStep(n, adds, i - 1);
      if |At(n, adds, from).live| == n {
        GrantAfterFailures(n, adds, i - 1, k);
        assert HarmlessAt(n, adds, i - 1);
      } else {
        FailuresIdle(n, adds, from, k);
      }
    }
  }

  lemma HarmlessIsVisible(n: nat, adds: seq<Add>, i: nat)
    requires n > 0 && i <= |adds| && AllHarmless(n, adds)
    ensures At(n, adds, i).gap == 0 || At(n, adds, i).live == []
  {
    var k := FailRun(adds, i);
    var from := i - k;
    GrantedClear(n, adds, from);
    if |At(n, adds, from).live| == n {
      FailuresMove(n, adds, from, k);
      assert Emptied(n, At(n, adds, i), k);
    } else {
      FailuresIdle(n, adds, from, k);
    }
  }

  lemma HarmlessVisible(n: nat, adds: seq<Add>)
    requires n > 0 && AllHarmless(n, adds)
    ensures AlwaysVisible(n, adds)
  {
    forall i | 0 <= i <= |adds|
      ensures Visible(AddAll(Init(n), adds[..i])) == At(n, adds, i).live
    {
      HarmlessIsVisible(n, adds, i);
      VisibleAtPoint(n, adds, i);
    }
  }

  lemma HarmfulHides(n: nat, adds: seq<Add>, i: nat)
    requires n > 0 && i < |adds| && adds[i].allocOk && !HarmlessAt(n, adds, i)
    ensures Visible(AddAll(Init(n), adds[..i + 1])) != At(n, adds, i + 1).live
  {
    GrantAfterFailures(n, adds, i, FailRun(adds, i));
    VisibleAtPoint(n, adds, i + 1);
  }

  /** The exact condition: readers see every live string throughout a run iff every granted add of it is harmless. */
  lemma VisibleExactly(n: nat, adds: seq<Add>)
    requires n > 0
    ensures AlwaysVisible(n, adds) <==> AllHarmless(n, adds)
  {
    if AllHarmless(n, adds) {
      HarmlessVisible(n, adds);
    } else {
      var i :| 0 <= i < |adds| && adds[i].allocOk && !HarmlessAt(n, adds, i);
      HarmfulHides(n, adds, i);
    }
  }

  /** A run in which the readers' view is lost: on a full ring of two slots, two adds fail and one succeeds. */
  lemma StarvedRingHidesData(data: Bytes)
    requires data != []
    ensures var ok, fail := Add(data, true), Add(data, false);
            var r := AddAll(Init(2), [ok, ok, fail, fail, ok]);
            r.size == |data| && Visible(r) == []
  {
    var ok, fail := Add(data, true), Add(data, false);
    var adds := [ok, ok, fail, fail, ok];
    RunFromInit(2, adds);
    var w1, w2 := Window([data], 0, false), Window([data, data], 0, true);
    var w3, w4 := Window([data], 0, true), Window([], 0, true);
    assert adds[..4][..3] == adds[..3] && adds[..3][..2] == adds[..2] && adds[..2][..1] == adds[..1];
    assert adds[..1][..0] == [];
    assert WindowAfter(NEW_WINDOW, 2, adds[..1]) == w1;
    assert WindowAfter(NEW_WINDOW, 2, adds[..2]) == w2;
    assert WindowAfter(NEW_WINDOW, 2, adds[..3]) == w3;
    assert WindowAfter(NEW_WINDOW, 2, adds[..4]) == w4;
    assert WindowAfter(NEW_WINDOW, 2, adds) == Window([data], 1, true);
    VisibleWindow(AddAll(Init(2), adds), Window([data], 1, true));
    assert Flat([data]) == data + Flat([]);
  }

  // --- how far the flat string moves

  function EvictedNow(w: Window): nat {
    if w.full && w.gap == 0 && w.live != [] then |w.live[0]| else 0
  }

  /** The bytes evicted by a run of adds. */
  function Evicted(w: Window, n: nat, adds: seq<Add>): nat
    requires n > 0
  {
    if adds == [] then 0
    else
      var before := adds[..|adds| - 1];
      Evicted(w, n, before) + EvictedNow(WindowAfter(w, n, before))
  }

  /** The strings evicted by a run of adds. */
  function EvictedCount(w: Window, n: nat, adds: seq<Add>): nat
    requires n > 0
  {
    if adds == [] then 0
    else
      var before := adds[..|adds| - 1];
      var mid := WindowAfter(w, n, before);
      EvictedCount(w, n, before) + if mid.full && mid.gap == 0 && mid.live != [] then 1 else 0
  }

  /** One more add, when j strings of all have been evicted before it. */
  lemma AddSlides(w: Window, n: nat, all: seq<Bytes>, j: nat, data: Bytes, allocOk: bool)
    requires n > 0 && j <= |all| && w.live == all[j..]
    ensures var j' := if w.full && w.gap == 0 && w.live != [] then j + 1 else j;
            var all' := all + if allocOk then [data] else [];
            && j' <= |all|
            && AddWindow(w, n, data, allocOk).live == all'[j'..]
            && |Flat(all'[..j'])| == |Flat(all[..j])| + EvictedNow(w)
  {
    var j' := if w.full && w.gap == 0 && w.live != [] then j + 1 else j;
    var all' := all + if allocOk then [data] else [];
    assert all'[..j'] == all[..j'];
    if j' > j {
      FlatStep(all, j);
    }
  }

  /** A run of adds drops whole strings from the front of the live and the stored ones: as many as it evicts. */
  lemma {:induction false} RunSlides(w: Window, n: nat, adds: seq<Add>)
    requires n > 0
    ensures var all, j := w.live + Stored(adds), EvictedCount(w, n, adds);
            && j <= |all|
            && WindowAfter(w, n, adds).live == all[j..]
            && |Flat(all[..j])| == Evicted(w, n, adds)
  {
    if adds != [] {
      var before, last := adds[..|adds| - 1], adds[|adds| - 1];
      var mid, all, j := WindowAfter(w, n, before), w.live + Stored(before), EvictedCount(w, n, before);
      RunSlides(w, n, before);
      AddSlides(mid, n, all, j, last.data, last.allocOk);
      assert w.live + Stored(adds) == all + if last.allocOk then [last.data] else [];
    }
  }

  /** So it drops the evicted bytes from the front of the flat string and puts the stored ones at its end. */
  lemma RunShifts(w: Window, n: nat, adds: seq<Add>)
    requires n > 0
    ensures Evicted(w, n, adds) <= |Flat(w.live)| + |Flat(Stored(adds))|
    ensures Flat(WindowAfter(w, n, adds).live)
         == (Flat(w.live) + Flat(Stored(adds)))[Evicted(w, n, adds)..]
  {
    RunSlides(w, n, adds);
    FlatCut(w.live + Stored(adds), EvictedCount(w, n, adds));
    FlatConcat(w.live, Stored(adds));
  }

  lemma StoredFlat(adds: seq<Add>, last: Add)
    ensures Flat(Stored(adds + [last])) == Flat(Stored(adds)) + if last.allocOk then last.data else []
  {
    assert (adds + [last])[..|adds|] == adds;
    FlatSnoc(Stored(adds), last.data);
    if !last.allocOk {
      assert Stored(adds) + [] == Stored(adds);
    }
  }
}
