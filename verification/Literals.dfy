/**
 The constants of the program and of the C library, against the characters and
 numbers that the source spells.
 */
module Literals {
  import opened ByteStrings
  import opened DeviceModel
  import opened CommandParser
  import opened ClientFraming

  function Code(c: char): Byte
    requires c < '\U{0080}'
  {
    c as int
  }

  function Ascii(text: string): (s: Bytes)
    requires forall c :: c in text ==> c < '\U{0080}'
    ensures |s| == |text|
  {
    seq(|text|, i requires 0 <= i < |text| => assert text[i] in text; Code(text[i]))
  }

  lemma Constants()
    ensures [NEWLINE] == Ascii("\n") && [COMMA] == Ascii(",") && [PLUS] == Ascii("+") && [MINUS] == Ascii("-")
    ensures PREFIX == Ascii("AESDCHAR_IOCSEEKTO:") && PREFIX_LENGTH == |PREFIX|
    ensures BUFFER_SIZE == 512
    ensures SEEK_SET == 0 && SEEK_CUR == 1 && SEEK_END == 2
    ensures TWO32 == 4_294_967_296 && TWO64 == TWO32 * TWO32 && 2 * TWO63 == TWO64
  {
  }

  /** The classes of `isspace` in the C locale, of decimal digits, and of signs. */
  lemma Classes(b: Byte)
    ensures IsSpace(b) <==> b in Ascii(" \t\n\U{000B}\U{000C}\r")
    ensures IsDigit(b) <==> b in Ascii("0123456789")
    ensures IsSign(b) <==> b in Ascii("+-")
  {
    var spaces, digits, signs := Ascii(" \t\n\U{000B}\U{000C}\r"), Ascii("0123456789"), Ascii("+-");
    assert spaces == [32, 9, 10, 11, 12, 13];
    assert digits == [48, 49, 50, 51, 52, 53, 54, 55, 56, 57];
    assert signs == [43, 45];
  }
}
