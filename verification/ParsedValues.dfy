/**
 What the numbers of an accepted command are: for any spaces, sign and digits,
 leading zeros and values of any size included.
 */
module ParsedValues {
  import opened ByteStrings
  import opened DeviceModel
  import opened CommandParser

  /** In c from i on: spaces up to j, at most one sign up to k, and digits, at least one, up to e, where they end. */
  predicate NumeralAt(c: Bytes, i: nat, j: nat, k: nat, e: nat) {
    && i <= j <= k < e <= |c|
    && (forall l :: i <= l < j ==> IsSpace(c[l]))
    && (k == j || (k == j + 1 && IsSign(c[j])))
    && (forall l :: k <= l < e ==> IsDigit(c[l]))
    && (e == |c| || !IsDigit(c[e]))
  }

  /** A sign stands between j and k, and it is a minus. */
  predicate Negative(c: Bytes, j: nat, k: nat) {
    j < k && j < |c| && c[j] == 45
  }

  /**
   v is what a 32-bit field gets of a numeral of magnitude x: the field's
   maximum where x is beyond an unsigned long, and else the number, or with a
   minus its negative, up to a multiple of 2^32.
   */
  ghost predicate Reduced(v: nat, x: nat, negative: bool) {
    && v < 4_294_967_296
    && if x > 18_446_744_073_709_551_615 then v == 4_294_967_295
       else if negative then exists q: nat :: x + v == q * 4_294_967_296
       else exists q: nat :: x == q * 4_294_967_296 + v
  }

  lemma NumeralUnique(c: Bytes, i: nat, j: nat, k: nat, e: nat)
    requires NumeralAt(c, i, j, k, e)
    ensures SpaceEnd(c, i) == j
    ensures k == (if IsSign(c[j]) then j + 1 else j) && DigitsEnd(c, k) == e
  {
    assert !IsSpace(c[j]) by {
      assert k == j ==> IsDigit(c[k]);
    }
    assert k == j ==> IsDigit(c[j]);
  }

  /** The conversion of a numeral stops at its end; its value in 32 bits is the numeral's. */
  lemma NumeralReads(c: Bytes, i: nat, j: nat, k: nat, e: nat)
    requires NumeralAt(c, i, j, k, e)
    ensures Strtoul(c, i).end == e
    ensures Reduced(ToUint32(Strtoul(c, i).value), ValueIn(c, k, e), Negative(c, j, k))
  {
    NumeralUnique(c, i, j, k, e);
    var x := ValueIn(c, k, e);
    if x > ULONG_MAX {
      MaxReduced();
    } else if Negative(c, j, k) {
      NegativeReduced(x);
    } else {
      PositiveReduced(x);
    }
  }

  lemma MaxReduced()
    ensures ToUint32(ULONG_MAX) == 4_294_967_295
  {
  }

  lemma PositiveReduced(x: nat)
    requires x <= ULONG_MAX
    ensures Reduced(ToUint32(x), x, false)
  {
    assert x == (x / TWO32) * 4_294_967_296 + ToUint32(x);
  }

  lemma NegativeReduced(x: nat)
    requires x <= ULONG_MAX
    ensures Reduced(ToUint32(if x > 0 then TWO64 - x else x), x, true)
  {
    var u := if x > 0 then TWO64 - x else x;
    if x == 0 {
      assert x + ToUint32(u) == 0 * 4_294_967_296;
    } else {
      assert x + ToUint32(u) == (TWO32 - u / TWO32) * 4_294_967_296;
    }
  }

  lemma ParsedIs(mem: Bytes, size: nat, comma: nat)
    requires size >= 19 && PREFIX <= CString(mem) && FirstComma(CString(mem), comma)
    requires Strtoul(CString(mem), 19).end != 19 && Strtoul(CString(mem), comma + 1).end != comma + 1
    ensures var x, y := Strtoul(CString(mem), 19).value, Strtoul(CString(mem), comma + 1).value;
            ParseCommand(mem, size) == Some(SeekTo(ToUint32(x), ToUint32(y)))
  {
    var c := CString(mem);
    StrstrComma(c);
    FirstCommaUnique(c, Strstr(c, [COMMA]).value, comma);
  }

  /**
   The whole parse, by positions. Behind the prefix stands a numeral, and behind
   the first comma, wherever that is, another: the command is accepted, and its
   two fields are the two numerals in 32 bits.
   */
  lemma ParseValues(mem: Bytes, size: nat, j: nat, k: nat, e: nat, comma: nat, j': nat, k': nat, e': nat)
    requires size >= 19 && PREFIX <= CString(mem) && FirstComma(CString(mem), comma)
    requires NumeralAt(CString(mem), 19, j, k, e) && NumeralAt(CString(mem), comma + 1, j', k', e')
    ensures var c, r := CString(mem), ParseCommand(mem, size);
            && r.Some?
            && Reduced(r.value.writeCmd, ValueIn(c, k, e), Negative(c, j, k))
            && Reduced(r.value.writeCmdOffset, ValueIn(c, k', e'), Negative(c, j', k'))
  {
    var c := CString(mem);
    NumeralReads(c, 19, j, k, e);
    NumeralReads(c, comma + 1, j', k', e');
    ParsedIs(mem, size, comma);
  }

  /** And only so is a command accepted: every accepted one has such positions. */
  lemma ParsedHasNumerals(mem: Bytes, size: nat)
    returns (j: nat, k: nat, e: nat, comma: nat, j': nat, k': nat, e': nat)
    requires ParseCommand(mem, size).Some?
    ensures var c := CString(mem);
            && size >= 19 && PREFIX <= c && FirstComma(c, comma)
            && NumeralAt(c, 19, j, k, e) && NumeralAt(c, comma + 1, j', k', e')
  {
    var c := CString(mem);
    StrstrComma(c);
    comma := Strstr(c, [COMMA]).value;
    j, k, e := NumeralOf(c, 19);
    j', k', e' := NumeralOf(c, comma + 1);
  }

  lemma NumeralOf(c: Bytes, i: nat) returns (j: nat, k: nat, e: nat)
    requires i <= |c| && Strtoul(c, i).end != i
    ensures NumeralAt(c, i, j, k, e)
  {
    j := SpaceEnd(c, i);
    k := if j < |c| && IsSign(c[j]) then j + 1 else j;
    e := DigitsEnd(c, k);
  }

  // --- the value of digits

  function Zeros(z: nat): (s: Bytes)
    ensures |s| == z && forall d :: d in s ==> d == 48
  {
    seq(z, _ => 48)
  }

  lemma DecimalSnoc(v: nat, d: nat)
    requires 0 < v && d < 10
    ensures Decimal(10 * v + d) == Decimal(v) + [48 + d]
  {
  }

  lemma ValueSnoc(t: Bytes, d: Byte)
    requires Digits(t) && Digits(t + [d])
    ensures ValueOf(t + [d]) == 10 * ValueOf(t) + (d - 48)
  {
    ValueMoves(t + [d], 0, t, |t|);
  }

  lemma PrintedSnoc(z: nat, v: nat, d: Byte) returns (z': nat)
    requires IsDigit(d)
    ensures Zeros(z) + Decimal(v) + [d] == Zeros(z') + Decimal(10 * v + (d - 48))
  {
    if v == 0 {
      z' := z + 1;
      assert Zeros(z) + [48] == Zeros(z + 1);
    } else {
      z' := z;
      DecimalSnoc(v, d - 48);
    }
  }

  /** Digits are zeros in front of the printed form of their value: ValueOf is the inverse of printing. */
  lemma {:induction false} DigitsArePrinted(s: Bytes) returns (z: nat)
    requires Digits(s)
    ensures s == Zeros(z) + Decimal(ValueOf(s))
    decreases |s|
  {
    var t, d := s[..|s| - 1], s[|s| - 1];
    assert s == t + [d] && d in s;
    if t == [] {
      z := 0;
      assert ValueOf(s) == ValueIn(s, 0, 0) * 10 + (d - 48);
    } else {
      assert forall b :: b in t ==> b in s;
      z := DigitsArePrinted(t);
      ValueSnoc(t, d);
      z := PrintedSnoc(z, ValueOf(t), d);
    }
  }
}
