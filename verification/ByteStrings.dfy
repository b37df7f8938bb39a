/** Byte strings, and sequences of byte strings read as one flat string. */
module ByteStrings {

  datatype Option<+T> = None | Some(value: T)

  type Byte = b: int | 0 <= b < 256

  type Bytes = seq<Byte>

  const NEWLINE: Byte := 10

  function Min(a: int, b: int): (r: int)
    ensures r <= a && r <= b
    ensures r == a || r == b
  {
    if a < b then a else b
  }

  /** All strings of es, concatenated end to end. */
  function Flat(es: seq<Bytes>): Bytes {
    if es == [] then [] else es[0] + Flat(es[1..])
  }

  /** The last n strings of es, or all of them when there are fewer. */
  function LastN(es: seq<Bytes>, n: nat): seq<Bytes> {
    if |es| <= n then es else es[|es| - n..]
  }

  lemma {:induction false} FlatConcat(a: seq<Bytes>, b: seq<Bytes>)
    ensures Flat(a + b) == Flat(a) + Flat(b)
  {
    if a == [] {
      assert a + b == b;
    } else {
      assert (a + b)[1..] == a[1..] + b;
      FlatConcat(a[1..], b);
    }
  }

  lemma FlatSnoc(es: seq<Bytes>, e: Bytes)
    ensures Flat(es + [e]) == Flat(es) + e
  {
    FlatConcat(es, [e]);
    assert Flat([e]) == e + Flat([]);
  }

  /** Cutting the list at k cuts the flat string at the length of the first k strings. */
  lemma FlatCut(es: seq<Bytes>, k: nat)
    requires k <= |es|
    ensures Flat(es) == Flat(es[..k]) + Flat(es[k..])
  {
    assert es == es[..k] + es[k..];
    FlatConcat(es[..k], es[k..]);
  }

  lemma FlatStep(es: seq<Bytes>, k: nat)
    requires k < |es|
    ensures Flat(es[..k + 1]) == Flat(es[..k]) + es[k]
    ensures |Flat(es[..k + 1])| <= |Flat(es)|
  {
    assert es[..k + 1] == es[..k] + [es[k]];
    FlatSnoc(es[..k], es[k]);
    FlatCut(es, k + 1);
  }

  lemma {:induction false} FlatEmpty(es: seq<Bytes>)
    ensures Flat(es) == [] <==> forall k :: 0 <= k < |es| ==> |es[k]| == 0
  {
    if es != [] {
      FlatEmpty(es[1..]);
      assert forall k :: 0 < k < |es| ==> es[k] == es[1..][k - 1];
    }
  }

  /** A byte of a list of strings: which string, and where in it. */
  datatype Pos = Pos(index: nat, offset: nat)

  /** pos is the byte of es that stands at index p of the flat string. */
  predicate Names(es: seq<Bytes>, pos: Pos, p: nat) {
    && pos.index < |es|
    && pos.offset < |es[pos.index]|
    && p == |Flat(es[..pos.index])| + pos.offset
  }

  /** The byte at flat index p: every index below the flat length has one, no other has. */
  function Locate(es: seq<Bytes>, p: nat): (r: Option<Pos>)
    ensures r.Some? <==> p < |Flat(es)|
    ensures r.Some? ==> Names(es, r.value, p)
  {
    if es == [] then None
    else if p < |es[0]| then
      assert es[..0] == [];
      Some(Pos(0, p))
    else
      match Locate(es[1..], p - |es[0]|)
      case None => None
      case Some(pos) =>
        assert es[..pos.index + 1][1..] == es[1..][..pos.index];
        Some(Pos(pos.index + 1, pos.offset))
  }

  lemma PrefixGrows(es: seq<Bytes>, j: nat, k: nat)
    requires j < k <= |es|
    ensures |Flat(es[..j])| + |es[j]| <= |Flat(es[..k])|
  {
    FlatStep(es, j);
    assert es[..k][..j + 1] == es[..j + 1];
    FlatCut(es[..k], j + 1);
  }

  /** Two positions with the same flat index are the same position. */
  lemma NamesUnique(es: seq<Bytes>, a: Pos, b: Pos, p: nat)
    requires Names(es, a, p) && Names(es, b, p)
    ensures a == b
  {
    if a.index < b.index {
      PrefixGrows(es, a.index, b.index);
    } else if b.index < a.index {
      PrefixGrows(es, b.index, a.index);
    }
  }

  /** Locate inverts Names in both directions. */
  lemma LocateExact(es: seq<Bytes>, pos: Pos, p: nat)
    ensures Names(es, pos, p) <==> Locate(es, p) == Some(pos)
  {
    if Names(es, pos, p) {
      FlatStep(es, pos.index);
      NamesUnique(es, pos, Locate(es, p).value, p);
    }
  }

  /** A run of bytes inside one string is the same run of the flat string. */
  lemma NamesBytes(es: seq<Bytes>, pos: Pos, p: nat, m: nat)
    requires Names(es, pos, p)
    requires pos.offset + m <= |es[pos.index]|
    ensures p + m <= |Flat(es)|
    ensures Flat(es)[p..p + m] == es[pos.index][pos.offset..pos.offset + m]
  {
    var k := pos.index;
    FlatStep(es, k);
    FlatCut(es, k + 1);
    CutMiddle(Flat(es[..k]), es[k], Flat(es[k + 1..]), pos.offset, m);
  }

  lemma CutMiddle(a: Bytes, b: Bytes, c: Bytes, off: nat, m: nat)
    requires off + m <= |b|
    ensures (a + b + c)[|a| + off..|a| + off + m] == b[off..off + m]
  {
  }
}
