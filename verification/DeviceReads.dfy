/**
 What a client of the device sees: reads from a position to the end, and the
 three seeks, against the flat string of the visible entries.
 */
module DeviceReads {
  import opened ByteStrings
  import opened RingModel
  import opened DeviceModel

  function FlatOf(d: Device): Bytes
    requires InRange(d.ring)
  {
    Flat(Visible(d.ring))
  }

  /** The flat string is shorter than any negative position cast to size_t, as it is in every address space. */
  predicate Addressable(d: Device) {
    InRange(d.ring) && |FlatOf(d)| < TWO63
  }

  predicate Position(d: Device, fpos: int) {
    InRange(d.ring) && (fpos >= 0 || (fpos >= -TWO63 && Addressable(d)))
  }

  /** The bytes from position p to the end of the entry p falls in. */
  function RestOfEntry(d: Device, p: nat): nat
    requires InRange(d.ring) && p < |FlatOf(d)|
  {
    var pos := Locate(Visible(d.ring), p).value;
    |Visible(d.ring)[pos.index]| - pos.offset
  }

  /**
   A read serves the flat string from its position, up to the end of one entry;
   every position outside the flat string, negative ones included, reads nothing.
   */
  lemma ReadExact(d: Device, fpos: int, count: nat, copyOk: bool)
    requires Position(d, fpos)
    ensures var r, s := Read(d, fpos, count, copyOk), FlatOf(d);
            if !(0 <= fpos < |s|) then r == ReadBack(Ok(0), [], fpos)
            else if !copyOk then r == ReadBack(EFAULT, [], fpos)
            else var m := Min(count, RestOfEntry(d, fpos));
                 && fpos + m <= |s|
                 && r == ReadBack(Ok(m), s[fpos..fpos + m], fpos + m)
                 && (count > 0 ==> m > 0)
  {
    if 0 <= fpos < |FlatOf(d)| {
      var pos := Locate(Visible(d.ring), fpos).value;
      NamesBytes(Visible(d.ring), pos, fpos, Min(count, RestOfEntry(d, fpos)));
    }
  }

  /**
   How much one read returns. At byte `pos` of the visible entries, with a good
   copy, it returns the bytes of that entry from there on: as many as asked for,
   or all up to the end of the entry when there are fewer.
   */
  lemma ReadAmount(d: Device, pos: Pos, fpos: nat, count: nat)
    requires InRange(d.ring) && Names(Visible(d.ring), pos, fpos)
    ensures var es, r := Visible(d.ring), Read(d, fpos, count, true);
            var m := |r.data|;
            && r.outcome == Ok(m)
            && r.fpos == fpos + m
            && m <= count && pos.offset + m <= |es[pos.index]|
            && r.data == es[pos.index][pos.offset..pos.offset + m]
            && (m == count || r.fpos == |Flat(es[..pos.index + 1])|)
  {
    var es := Visible(d.ring);
    LocateExact(es, pos, fpos);
    FlatStep(es, pos.index);
  }

  datatype Drainage = Drainage(data: Bytes, fpos: int)

  /** A series of reads with the given counts. */
  function Drain(d: Device, fpos: int, counts: seq<nat>): Drainage
    requires Position(d, fpos)
    decreases |counts|
  {
    if counts == [] then Drainage([], fpos)
    else
      var r := Read(d, fpos, counts[0], true);
      var rest := Drain(d, r.fpos, counts[1..]);
      Drainage(r.data + rest.data, rest.fpos)
  }

  /**
   Reads with any positive counts return consecutive pieces of the flat string,
   never pass its end, and reach it after at most as many reads as there are
   bytes left.
   */
  lemma {:induction false} DrainExact(d: Device, p: nat, counts: seq<nat>)
    requires InRange(d.ring) && p <= |FlatOf(d)|
    requires forall i :: 0 <= i < |counts| ==> counts[i] > 0
    ensures var s, r := FlatOf(d), Drain(d, p, counts);
            && p <= r.fpos <= |s|
            && r.data == s[p..r.fpos]
            && (|counts| >= |s| - p ==> r.fpos == |s|)
    decreases |counts|
  {
    if counts != [] {
      var s, r := FlatOf(d), Read(d, p, counts[0], true);
      var rest := Drain(d, r.fpos, counts[1..]);
      assert p <= r.fpos <= |s| && r.data == s[p..r.fpos] && (p < |s| ==> p < r.fpos) by {
        ReadExact(d, p, counts[0], true);
      }
      DrainExact(d, r.fpos, counts[1..]);
      assert Drain(d, p, counts) == Drainage(r.data + rest.data, rest.fpos);
      Pieces(s, p, r.fpos, rest.fpos);
    }
  }

  lemma Pieces(s: Bytes, p: nat, q: nat, t: nat)
    requires p <= q <= t <= |s|
    ensures s[p..q] + s[q..t] == s[p..t]
  {
  }

  // --- the three seeks

  /** Readers see every byte the ring counts. */
  predicate Whole(d: Device) {
    Addressable(d) && d.ring.size == |FlatOf(d)|
  }

  /** Behind the end there is nothing to drain. */
  lemma {:induction false} DrainBehindEnd(d: Device, p: nat, counts: seq<nat>)
    requires InRange(d.ring) && p >= |FlatOf(d)|
    ensures Drain(d, p, counts) == Drainage([], p)
    decreases |counts|
  {
    if counts != [] {
      ReadExact(d, p, counts[0], true);
      DrainBehindEnd(d, p, counts[1..]);
    }
  }

  /**
   Seeking k bytes back from the end and draining yields the last k bytes iff
   readers see every byte the ring counts (or k is 0), and otherwise fewer than
   k bytes: the seek goes by the count.
   */
  lemma SeekEndThenDrain(d: Device, fpos: int, k: nat, counts: seq<nat>)
    requires InRange(d.ring) && |FlatOf(d)| <= d.ring.size < TWO63 && IsLoff(fpos) && k <= d.ring.size
    requires |counts| >= k && forall i :: 0 <= i < |counts| ==> counts[i] > 0
    ensures Llseek(d, fpos, 0 - k, SEEK_END) == Sought(Ok(d.ring.size - k), d.ring.size - k)
    ensures var s, data := FlatOf(d), Drain(d, d.ring.size - k, counts).data;
            && (k == 0 || Whole(d) ==> k <= |s| && data == s[|s| - k..])
            && (|data| == k <==> k == 0 || Whole(d))
            && |data| <= k
  {
    var sum := d.ring.size - k;
    assert ToLoffT(sum) == sum;
    if sum <= |FlatOf(d)| {
      DrainExact(d, sum, counts);
    } else {
      DrainBehindEnd(d, sum, counts);
    }
  }

  /**
   A seek from the start or from the current position never leaves a negative
   position, and reports the position it leaves; a refused one leaves the
   position alone. It succeeds exactly when the 64-bit sum is not negative: the
   sum itself where it fits, and its wrapped value where it does not.
   */
  lemma SeekKeepsSign(d: Device, fpos: int, offset: int, whence: int)
    requires IsLoff(fpos) && IsLoff(offset)
    requires whence == SEEK_SET || whence == SEEK_CUR
    ensures var sum, r := (if whence == SEEK_SET then 0 else fpos) + offset, Llseek(d, fpos, offset, whence);
            && (r.outcome.Ok? ==> r.fpos >= 0 && r.outcome.value == r.fpos)
            && (!r.outcome.Ok? ==> r == Sought(EINVAL, fpos))
            && (r.outcome.Ok? <==> 0 <= sum < TWO63 || sum < -TWO63)
            && (r.outcome.Ok? ==> r.fpos == if sum < 0 then sum + TWO64 else sum)
  {
    var sum := fpos + offset;
    if IsLoff(sum) {
      assert ToLoffT(sum) == sum;
    } else if sum >= TWO63 {
      assert ToLoffT(sum) == sum - TWO64;
    } else {
      assert ToLoffT(sum) == sum + TWO64;
    }
  }

  /** Any other whence changes nothing and reports the position. */
  lemma SeekElse(d: Device, fpos: int, offset: int, whence: int)
    requires IsLoff(fpos) && IsLoff(offset) && whence != 0 && whence != 1 && whence != 2
    ensures Llseek(d, fpos, offset, whence) == Sought(Ok(fpos), fpos)
  {
  }

  /**
   SEEK_END has no such check: it always succeeds, and leaves a negative
   position iff the sum of size and offset is negative or passes 2^63 - 1. From
   a negative position nothing is read.
   */
  lemma SeekEndUnchecked(d: Device, fpos: int, offset: int, count: nat)
    requires Addressable(d) && 0 <= d.ring.size < TWO63 && IsLoff(fpos) && IsLoff(offset)
    ensures var sum, r := d.ring.size + offset, Llseek(d, fpos, offset, SEEK_END);
            && r.outcome == Ok(r.fpos)
            && r.fpos == (if sum < TWO63 then sum else sum - TWO64)
            && (r.fpos < 0 <==> sum < 0 || sum >= TWO63)
            && (r.fpos < 0 ==> Read(d, r.fpos, count, true) == ReadBack(Ok(0), [], r.fpos))
  {
    var sum := d.ring.size + offset;
    assert ToLoffT(sum) == if sum < TWO63 then sum else sum - TWO64;
    ReadExact(d, ToLoffT(sum), count, true);
  }

  // --- the two lookups

  /** Position to byte and byte to position are inverse: the ioctl lookup undoes the fpos lookup, and conversely. */
  lemma LookupsInverse(es: seq<Bytes>, pos: Pos, p: nat)
    ensures pos.index < |es| && pos.offset < |es[pos.index]| ==>
              Locate(es, FlatPosition(es, pos.index, pos.offset)) == Some(pos)
    ensures p < |Flat(es)| ==>
              var found := Locate(es, p).value; FlatPosition(es, found.index, found.offset) == p
    ensures p >= |Flat(es)| ==> Locate(es, p) == None
  {
    LocateExact(es, pos, FlatPosition(es, pos.index, pos.offset));
  }

  lemma FlatPositionInside(es: seq<Bytes>, k: nat, off: nat)
    ensures FlatPosition(es, k, off) <= |Flat(es)|
  {
    if k < |es| && off < |es[k]| {
      FlatStep(es, k);
    }
  }

  lemma FlatFrom(es: seq<Bytes>, k: nat, off: nat)
    requires k < |es| && off <= |es[k]|
    ensures |Flat(es[..k])| + off <= |Flat(es)|
    ensures Flat(es)[|Flat(es[..k])| + off..] == es[k][off..] + Flat(es[k + 1..])
  {
    FlatCut(es, k);
    FlatStep(es, k);
    FlatCut(es, k + 1);
    assert Flat(es) == Flat(es[..k]) + es[k] + Flat(es[k + 1..]);
  }
}
