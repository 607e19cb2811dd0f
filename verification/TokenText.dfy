/** Text of zone files, the ASCII part: characters, escapes, and the tokenizer's tokens. */
module TokenText {
  import opened Common

  type Ascii = c: char | c as int < 0x80 witness 'a'
  type Text = seq<Ascii>

  predicate IsDigit(c: Ascii) {
    '0' <= c <= '9'
  }

  function DigitValue(c: Ascii): (d: nat)
    requires IsDigit(c)
    ensures d < 10
  {
    c as int - '0' as int
  }

  function Digit(d: nat): (c: Ascii)
    requires d < 10
    ensures IsDigit(c) && DigitValue(c) == d
  {
    (d + '0' as int) as char
  }

  /** "\%03d". */
  function Decimal(b: Byte): (t: Text)
    ensures |t| == 4 && t[0] == '\\' && IsDigit(t[1]) && IsDigit(t[2]) && IsDigit(t[3])
    ensures DigitValue(t[1]) * 100 + DigitValue(t[2]) * 10 + DigitValue(t[3]) == b
  {
    ['\\', Digit(b / 100), Digit(b / 10 % 10), Digit(b % 10)]
  }

  /** One octet of a label or string, escaped if need be. */
  function EscapeByte(b: Byte, special: set<char>, low: nat): (t: Text)
    requires low >= 0x20
    ensures |t| == 1 || |t| == 2 || |t| == 4
  {
    if b < 0x80 && b as char in special then ['\\', b as char]
    else if low <= b < 0x7F then [b as char]
    else Decimal(b)
  }

  function Escape(s: Bytes, special: set<char>, low: nat): (t: Text)
    requires low >= 0x20
  {
    if s == [] then [] else EscapeByte(s[0], special, low) + Escape(s[1..], special, low)
  }

  /** _escapify, for labels and for quoted strings. */
  method Escapify(s: Bytes, special: set<char>, low: nat) returns (text: Text)
    requires low >= 0x20
    ensures text == Escape(s, special, low)
  {
    hide Decimal, Escape;
    text := [];
    var i := 0;
    WholeEscaped(s, special, low);
    while i < |s|
      invariant 0 <= i <= |s|
      invariant text + Escape(s[i..], special, low) == Escape(s, special, low)
    {
      var c := s[i];
      OneEscaped(s, i, special, low);
      var piece: Text;
      if c < 0x80 && c as char in special {
        piece := ['\\', c as char];
      } else if low <= c < 0x7F {
        piece := [c as char];
      } else {
        piece := Decimal(c);
      }
      assert text + (piece + Escape(s[i + 1..], special, low)) == text + piece + Escape(s[i + 1..], special, low);
      text := text + piece;
      i := i + 1;
    }
  }

  lemma WholeEscaped(s: Bytes, special: set<char>, low: nat)
    requires low >= 0x20
    ensures [] + Escape(s[0..], special, low) == Escape(s, special, low) && Escape(s[|s|..], special, low) == []
    ensures forall text: Text :: text + [] == text
  {
    assert s[0..] == s;
  }

  lemma OneEscaped(s: Bytes, i: nat, special: set<char>, low: nat)
    requires low >= 0x20 && i < |s|
    ensures Escape(s[i..], special, low) == EscapeByte(s[i], special, low) + Escape(s[i + 1..], special, low)
  {
    assert s[i..][1..] == s[i + 1..];
  }

  /** A backslash and the three decimal digits of an octet. */
  function ThreeDigits(b: Byte): Text {
    ['\\', "0123456789"[b / 100], "0123456789"[b / 10 % 10], "0123456789"[b % 10]]
  }

  lemma DecimalDigits(b: Byte)
    ensures Decimal(b) == ThreeDigits(b)
  {
    Ten(b / 100);
    Ten(b / 10 % 10);
    Ten(b % 10);
  }

  lemma Ten(d: nat)
    requires d < 10
    ensures Digit(d) == "0123456789"[d]
  {
  }
}
