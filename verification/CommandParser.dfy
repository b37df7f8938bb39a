/**
 The seek command of the server, "AESDCHAR_IOCSEEKTO:X,Y", and the pieces of
 the C library its parser is made of. Text in memory is a C string: it ends at
 its first NUL.
 */
module CommandParser {
  import opened ByteStrings
  import opened DeviceModel

  const PREFIX: Bytes := [65, 69, 83, 68, 67, 72, 65, 82, 95, 73, 79, 67, 83, 69, 69, 75, 84, 79, 58]
  const PREFIX_LENGTH := 19
  const COMMA: Byte := 44
  const PLUS: Byte := 43
  const MINUS: Byte := 45
  const ZERO: Byte := 48

  const ULONG_MAX := TWO64 - 1

  predicate IsSpace(b: Byte) { b == 32 || 9 <= b <= 13 }

  predicate IsDigit(b: Byte) { 48 <= b <= 57 }

  predicate IsSign(b: Byte) { b == PLUS || b == MINUS }

  /** The bytes before the first NUL. */
  function CString(mem: Bytes): (c: Bytes)
    ensures c <= mem && 0 !in c
    ensures |c| == |mem| || mem[|c|] == 0
  {
    if mem == [] || mem[0] == 0 then [] else [mem[0]] + CString(mem[1..])
  }

  /** Text without a NUL survives. */
  lemma CStringKeeps(mem: Bytes, m: nat)
    requires m <= |mem| && 0 !in mem[..m]
    ensures m <= |CString(mem)| && CString(mem)[..m] == mem[..m]
  {
  }

  // --- strtoul in base 10, section 7.22.1.4 of ISO C11

  function SpaceEnd(c: Bytes, i: nat): (j: nat)
    requires i <= |c|
    ensures i <= j <= |c|
    ensures forall k :: i <= k < j ==> IsSpace(c[k])
    ensures j == |c| || !IsSpace(c[j])
    decreases |c| - i
  {
    if i < |c| && IsSpace(c[i]) then SpaceEnd(c, i + 1) else i
  }

  function DigitsEnd(c: Bytes, i: nat): (j: nat)
    requires i <= |c|
    ensures i <= j <= |c|
    ensures forall k :: i <= k < j ==> IsDigit(c[k])
    ensures j == |c| || !IsDigit(c[j])
    decreases |c| - i
  {
    if i < |c| && IsDigit(c[i]) then DigitsEnd(c, i + 1) else i
  }

  /** The value of the digits in c from i to j. */
  function ValueIn(c: Bytes, i: nat, j: nat): nat
    requires i <= j <= |c| && forall k :: i <= k < j ==> IsDigit(c[k])
    decreases j
  {
    if i == j then 0
    else
      assert IsDigit(c[j - 1]);
      ValueIn(c, i, j - 1) * 10 + (c[j - 1] - ZERO)
  }

  /** The value, and where the conversion stopped: at the start when there is no number. */
  datatype Number = Number(value: nat, end: nat)

  function Strtoul(c: Bytes, i: nat): (r: Number)
    requires i <= |c|
    ensures i <= r.end <= |c| && r.value <= ULONG_MAX
  {
    var j := SpaceEnd(c, i);
    var signed := j < |c| && IsSign(c[j]);
    var k := if signed then j + 1 else j;
    var e := DigitsEnd(c, k);
    if e == k then Number(0, i)
    else
      var v := ValueIn(c, k, e);
      if v > ULONG_MAX then Number(ULONG_MAX, e)
      else if signed && c[j] == MINUS && v > 0 then Number(TWO64 - v, e)
      else Number(v, e)
  }

  /** A number can be read at i: spaces, at most one sign, a digit. */
  ghost predicate NumberAt(c: Bytes, i: nat) {
    exists j: nat, k: nat ::
      && i <= j <= k < |c|
      && (forall l :: i <= l < j ==> IsSpace(c[l]))
      && (k == j || (k == j + 1 && IsSign(c[j])))
      && IsDigit(c[k])
  }

  lemma StrtoulReads(c: Bytes, i: nat)
    requires i <= |c|
    ensures Strtoul(c, i).end != i <==> NumberAt(c, i)
  {
  }

  // --- strstr

  predicate OccursAt(c: Bytes, pattern: Bytes, i: nat) {
    i + |pattern| <= |c| && c[i..i + |pattern|] == pattern
  }

  function Strstr(c: Bytes, pattern: Bytes, from: nat := 0): (r: Option<nat>)
    requires from <= |c|
    ensures r.Some? ==> from <= r.value && OccursAt(c, pattern, r.value)
    ensures r.Some? ==> forall i :: from <= i < r.value ==> !OccursAt(c, pattern, i)
    ensures r.None? ==> forall i :: from <= i ==> !OccursAt(c, pattern, i)
    decreases |c| - from
  {
    if OccursAt(c, pattern, from) then Some(from)
    else if from == |c| then None
    else Strstr(c, pattern, from + 1)
  }

  /** The first comma of a string. */
  predicate FirstComma(c: Bytes, k: nat) {
    k < |c| && c[k] == COMMA && COMMA !in c[..k]
  }

  lemma StrstrComma(c: Bytes)
    ensures match Strstr(c, [COMMA])
            case None => COMMA !in c
            case Some(k) => FirstComma(c, k)
  {
    assert forall i: nat :: i < |c| ==> (OccursAt(c, [COMMA], i) <==> c[i] == COMMA);
  }

  lemma FirstCommaUnique(c: Bytes, j: nat, k: nat)
    requires FirstComma(c, j) && FirstComma(c, k)
    ensures j == k
  {
  }

  // --- the parser

  /** The conversion of unsigned long to uint32_t, section 6.3.1.3 of ISO C11. */
  function ToUint32(x: nat): (r: nat)
    ensures r < TWO32
    ensures x < TWO32 ==> r == x
  {
    x % TWO32
  }

  /** The command of two conversions that start at i and j, unless one of them finds no number. */
  function Combine(i: nat, first: Number, j: nat, second: Number): (r: Option<SeekTo>)
    ensures r.Some? ==> r.value.writeCmd < TWO32 && r.value.writeCmdOffset < TWO32
  {
    if first.end == i || second.end == j then None
    else Some(SeekTo(ToUint32(first.value), ToUint32(second.value)))
  }

  /** The two numbers of a command, the first at i and the second after the first comma, reduced to 32 bits. */
  function ParseNumbers(c: Bytes, i: nat): (r: Option<SeekTo>)
    requires i <= |c|
    ensures r.Some? ==> r.value.writeCmd < TWO32 && r.value.writeCmdOffset < TWO32
  {
    match Strstr(c, [COMMA])
    case None => None
    case Some(k) => Combine(i, Strtoul(c, i), k + 1, Strtoul(c, k + 1))
  }

  /** checkForCommandInString on the memory at `buffer`: the command it writes, if it returns true. */
  function ParseCommand(mem: Bytes, size: nat): (r: Option<SeekTo>)
    ensures r.Some? ==> r.value.writeCmd < TWO32 && r.value.writeCmdOffset < TWO32
  {
    if size < PREFIX_LENGTH || !(PREFIX <= CString(mem)) then None
    else ParseNumbers(CString(mem), PREFIX_LENGTH)
  }

  /** The checks in the order the program makes them; the out-parameter is written only on success. */
  method CheckForCommandInString(mem: Bytes, size: nat, commandIn: SeekTo) returns (found: bool, command: SeekTo)
    ensures found <==> ParseCommand(mem, size).Some?
    ensures command == if found then ParseCommand(mem, size).value else commandIn
  {
    command := commandIn;
    if size == 0 {
      return false, command;
    }
    var c := CString(mem);
    if size < |PREFIX| || !(PREFIX <= c) {
      return false, command;
    }
    var at := Strstr(c, PREFIX);
    assert OccursAt(c, PREFIX, 0);
    if at.None? {
      return false, command;
    }
    assert at == Some(0);
    var firstArg := at.value + |PREFIX|;
    var numbers := ReadArguments(c, firstArg);
    if numbers.None? {
      return false, command;
    }
    return true, numbers.value;
  }

  /** The first conversion and its test, the search for the comma, the second conversion and its test. */
  method ReadArguments(c: Bytes, firstArg: nat) returns (r: Option<SeekTo>)
    requires firstArg <= |c|
    ensures r == ParseNumbers(c, firstArg)
  {
    var first := Strtoul(c, firstArg);
    if first.end == firstArg {
      return None;
    }
    var comma := Strstr(c, [COMMA]);
    if comma.None? {
      return None;
    }
    var secondArg := comma.value + 1;
    var second := Strtoul(c, secondArg);
    if second.end == secondArg {
      return None;
    }
    return Some(SeekTo(ToUint32(first.value), ToUint32(second.value)));
  }

  ghost predicate NumberAfterComma(c: Bytes) {
    exists k: nat :: FirstComma(c, k) && NumberAt(c, k + 1)
  }

  lemma NumbersExactly(c: Bytes, i: nat)
    requires i <= |c|
    ensures ParseNumbers(c, i).Some? <==> NumberAt(c, i) && NumberAfterComma(c)
  {
    StrtoulReads(c, i);
    StrstrComma(c);
    match Strstr(c, [COMMA]) {
      case None =>
        assert !NumberAfterComma(c);
      case Some(k) =>
        StrtoulReads(c, k + 1);
        if NumberAfterComma(c) {
          var j: nat :| FirstComma(c, j) && NumberAt(c, j + 1);
          FirstCommaUnique(c, j, k);
        }
    }
  }

  /** What is accepted: the prefix, a readable number, and a readable number after the first comma, wherever that is. */
  lemma AcceptsExactly(mem: Bytes, size: nat)
    ensures var c := CString(mem);
            ParseCommand(mem, size).Some? <==>
              && size >= PREFIX_LENGTH
              && PREFIX <= c
              && NumberAt(c, PREFIX_LENGTH)
              && NumberAfterComma(c)
  {
    if PREFIX <= CString(mem) {
      NumbersExactly(CString(mem), PREFIX_LENGTH);
    }
  }

  // --- printed commands

  predicate Digits(s: Bytes) {
    s != [] && forall d :: d in s ==> IsDigit(d)
  }

  function Decimal(n: nat): (s: Bytes)
    ensures Digits(s)
  {
    if n < 10 then [ZERO + n] else Decimal(n / 10) + [ZERO + n % 10]
  }

  function ValueOf(digits: Bytes): nat
    requires Digits(digits)
  {
    ValueIn(digits, 0, |digits|)
  }

  /** The text s stands in c from i on. */
  predicate StandsAt(c: Bytes, i: nat, s: Bytes) {
    i + |s| <= |c| && forall j :: 0 <= j < |s| ==> c[i + j] == s[j]
  }

  lemma {:induction false} ValueMoves(c: Bytes, i: nat, s: Bytes, m: nat)
    requires StandsAt(c, i, s) && m <= |s| && forall d :: d in s ==> IsDigit(d)
    ensures forall k :: i <= k < i + m ==> IsDigit(c[k])
    ensures ValueIn(c, i, i + m) == ValueIn(s, 0, m)
    decreases m
  {
    forall k | i <= k < i + m
      ensures IsDigit(c[k])
    {
      assert c[k] == s[k - i] && s[k - i] in s;
    }
    if m > 0 {
      ValueMoves(c, i, s, m - 1);
      assert c[i + (m - 1)] == s[m - 1];
    }
  }

  lemma {:induction false} DecimalValue(n: nat)
    ensures ValueOf(Decimal(n)) == n
  {
    if n < 10 {
      assert ValueIn(Decimal(n), 0, 1) == ValueIn(Decimal(n), 0, 0) * 10 + n;
    } else {
      var d := Decimal(n / 10);
      DecimalValue(n / 10);
      assert StandsAt(Decimal(n), 0, d);
      ValueMoves(Decimal(n), 0, d, |d|);
      assert Decimal(n)[|d|] - ZERO == n % 10;
    }
  }

  lemma {:induction false} DigitsEndIs(c: Bytes, i: nat, e: nat)
    requires i <= e <= |c|
    requires forall k :: i <= k < e ==> IsDigit(c[k])
    requires e == |c| || !IsDigit(c[e])
    ensures DigitsEnd(c, i) == e
    decreases e - i
  {
  }

  /** strtoul reads a string of digits as its value, and stops right after it. */
  lemma StrtoulDigits(c: Bytes, i: nat, digits: Bytes)
    requires StandsAt(c, i, digits) && Digits(digits)
    requires ValueOf(digits) <= ULONG_MAX
    requires i + |digits| < |c| ==> !IsDigit(c[i + |digits|])
    ensures Strtoul(c, i) == Number(ValueOf(digits), i + |digits|)
  {
    ValueMoves(c, i, digits, |digits|);
    assert IsDigit(c[i]);
    DigitsEndIs(c, i, i + |digits|);
  }

  /** Two strings of digits stand in c from i on, with a comma between, a newline behind, and no comma before. */
  predicate Layout(c: Bytes, i: nat, dx: Bytes, dy: Bytes) {
    var k := i + |dx|;
    var m := k + 1 + |dy|;
    && m < |c|
    && (forall j :: 0 <= j < i ==> c[j] != COMMA)
    && StandsAt(c, i, dx)
    && c[k] == COMMA
    && StandsAt(c, k + 1, dy)
    && c[m] == NEWLINE
  }

  lemma LayoutComma(c: Bytes, i: nat, dx: Bytes, dy: Bytes)
    requires Layout(c, i, dx, dy) && Digits(dx)
    ensures Strstr(c, [COMMA]) == Some(i + |dx|)
  {
    var k := i + |dx|;
    StrstrComma(c);
    forall j | i <= j < k
      ensures c[j] != COMMA
    {
      assert c[j] == dx[j - i] && dx[j - i] in dx;
    }
    assert FirstComma(c, k);
    FirstCommaUnique(c, Strstr(c, [COMMA]).value, k);
  }

  lemma CombineNumbers(c: Bytes, i: nat, k: nat, first: Number, second: Number)
    requires i <= |c| && k < |c|
    requires Strtoul(c, i) == first && Strstr(c, [COMMA]) == Some(k) && Strtoul(c, k + 1) == second
    ensures ParseNumbers(c, i) == Combine(i, first, k + 1, second)
  {
  }

  lemma LayoutFirst(c: Bytes, i: nat, dx: Bytes, dy: Bytes)
    requires Layout(c, i, dx, dy) && Digits(dx) && ValueOf(dx) <= ULONG_MAX
    ensures Strtoul(c, i) == Number(ValueOf(dx), i + |dx|)
  {
    StrtoulDigits(c, i, dx);
  }

  lemma LayoutSecond(c: Bytes, i: nat, dx: Bytes, dy: Bytes)
    requires Layout(c, i, dx, dy) && Digits(dy) && ValueOf(dy) <= ULONG_MAX
    ensures Strtoul(c, i + |dx| + 1) == Number(ValueOf(dy), i + |dx| + 1 + |dy|)
  {
    StrtoulDigits(c, i + |dx| + 1, dy);
  }

  lemma LayoutParses(c: Bytes, i: nat, dx: Bytes, dy: Bytes)
    requires Layout(c, i, dx, dy) && Digits(dx) && Digits(dy)
    requires ValueOf(dx) < TWO32 && ValueOf(dy) < TWO32
    ensures ParseNumbers(c, i) == Some(SeekTo(ValueOf(dx), ValueOf(dy)))
  {
    var k, x, y := i + |dx|, ValueOf(dx), ValueOf(dy);
    assert Strtoul(c, i) == Number(x, k) by { LayoutFirst(c, i, dx, dy); }
    assert Strtoul(c, k + 1) == Number(y, k + 1 + |dy|) by { LayoutSecond(c, i, dx, dy); }
    assert Strstr(c, [COMMA]) == Some(k) by { LayoutComma(c, i, dx, dy); }
    assert Combine(i, Number(x, k), k + 1, Number(y, k + 1 + |dy|)) == Some(SeekTo(x, y));
    CombineNumbers(c, i, k, Number(ValueOf(dx), k), Number(ValueOf(dy), k + 1 + |dy|));
  }

  /** The text of a command, with any text before the numbers. */
  function PrintDigits(before: Bytes, dx: Bytes, dy: Bytes): Bytes {
    before + dx + [COMMA] + dy + [NEWLINE]
  }

  function PrintCommand(x: nat, y: nat): Bytes { PrintDigits(PREFIX, Decimal(x), Decimal(y)) }

  lemma PrintedLayout(before: Bytes, dx: Bytes, dy: Bytes)
    requires COMMA !in before
    ensures Layout(PrintDigits(before, dx, dy), |before|, dx, dy)
    ensures before <= PrintDigits(before, dx, dy)
  {
  }

  /** The layout of a text is that of anything which begins with the text. */
  lemma LayoutExtends(text: Bytes, c: Bytes, i: nat, dx: Bytes, dy: Bytes)
    requires Layout(text, i, dx, dy) && text <= c
    ensures Layout(c, i, dx, dy)
  {
  }

  lemma PrefixIsClean()
    ensures |PREFIX| == PREFIX_LENGTH && COMMA !in PREFIX && 0 !in PREFIX
  {
  }

  lemma PrintedSurvives(before: Bytes, dx: Bytes, dy: Bytes, beyond: Bytes)
    requires COMMA !in before && 0 !in before && Digits(dx) && Digits(dy)
    ensures var c := CString(PrintDigits(before, dx, dy) + beyond);
            before <= c && Layout(c, |before|, dx, dy)
  {
    var text := PrintDigits(before, dx, dy);
    PrintedLayout(before, dx, dy);
    assert 0 !in text;
    assert (text + beyond)[..|text|] == text;
    CStringKeeps(text + beyond, |text|);
    LayoutExtends(text, CString(text + beyond), |before|, dx, dy);
  }

  /**
   Printing and parsing are inverse for all 32-bit arguments. Nothing after the
   newline matters, so the parser does not depend on what lies behind the text,
   whether it is terminated there or not.
   */
  lemma CommandRoundTrip(x: nat, y: nat, beyond: Bytes, size: nat)
    requires x < TWO32 && y < TWO32 && size >= PREFIX_LENGTH
    ensures ParseCommand(PrintCommand(x, y) + beyond, size) == Some(SeekTo(x, y))
  {
    PrefixIsClean();
    DecimalValue(x);
    DecimalValue(y);
    PrintedSurvives(PREFIX, Decimal(x), Decimal(y), beyond);
    LayoutParses(CString(PrintCommand(x, y) + beyond), |PREFIX|, Decimal(x), Decimal(y));
  }
}
