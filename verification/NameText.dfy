/** The text form of domain names (dns/name.py: _escapify, to_text and from_text). */
module NameText {
  import opened Common
  import opened Names
  import opened TokenText

  /** Characters that are escaped in a label. */
  const SPECIAL: set<char> := {'"', '(', ')', '.', ';', '\\', '@', '$'}

  datatype TextError = BadEscape | PackError | BadName(error: NameError)

  function LabelText(part: Label): Text {
    Escape(part, SPECIAL, 0x21)
  }

  /** The labels with dots between them. */
  function Joined(labels: Name): Text {
    if labels == [] then []
    else if |labels| == 1 then LabelText(labels[0])
    else LabelText(labels[0]) + ['.'] + Joined(labels[1..])
  }

  /** to_text. */
  function ToText(n: Name, omitFinalDot: bool): Text {
    if n == [] then ['@']
    else if n == [[]] then ['.']
    else if omitFinalDot && IsAbsolute(n) then Joined(n[..|n| - 1])
    else Joined(n)
  }

  // ---------------------------------------------------------------- from_text

  /** The loop's variables. */
  datatype Parse = Parse(labels: Name, part: Label, escaping: bool, edigits: nat, total: nat)

  function Step(p: Parse, c: Ascii): Result<Parse, TextError> {
    if p.escaping then
      if p.edigits == 0 then
        if IsDigit(c) then Ok(p.(total := DigitValue(c), edigits := 1))
        else Ok(p.(part := p.part + [c as int], escaping := false))
      else if !IsDigit(c) then Err(BadEscape)
      else
        var total := p.total * 10 + DigitValue(c);
        if p.edigits + 1 != 3 then Ok(p.(total := total, edigits := p.edigits + 1))
        else if total > 0xFF then Err(PackError)
        else Ok(p.(total := total, edigits := 3, escaping := false, part := p.part + [total]))
    else if c == '.' then
      if p.part == [] then Err(BadName(EmptyLabel)) else Ok(p.(labels := p.labels + [p.part], part := []))
    else if c == '\\' then Ok(p.(escaping := true, edigits := 0, total := 0))
    else Ok(p.(part := p.part + [c as int]))
  }

  function Steps(p: Parse, text: Text): Result<Parse, TextError>
    decreases |text|
  {
    if text == [] then Ok(p)
    else
      match Step(p, text[0])
      case Err(e) => Err(e)
      case Ok(p1) => Steps(p1, text[1..])
  }

  /** The labels the text spells out. */
  function ReadLabels(text: Text): Result<Name, TextError> {
    if text == ['@'] || text == [] then Ok([])
    else
      match Steps(Parse([], [], false, 0, 0), text)
      case Err(e) => Err(e)
      case Ok(p) => if p.escaping then Err(BadEscape) else Ok(p.labels + [p.part])
  }

  /** from_text of an ASCII text: a name that is not absolute is completed with the origin. */
  function FromText(text: Text, origin: Option<Name>): Result<Name, TextError> {
    if text == ['.'] then Ok(ROOT)
    else
      match ReadLabels(text)
      case Err(e) => Err(e)
      case Ok(labels) =>
        match CheckLabels(if !IsAbsolute(labels) && origin.Some? then labels + origin.value else labels)
        case Err(e) => Err(BadName(e))
        case Ok(n) => Ok(n)
  }

  method ParseText(text: Text, origin: Option<Name>) returns (r: Result<Name, TextError>)
    ensures r == FromText(text, origin)
  {
    hide Steps, CheckLabels;
    var labels: Name, part: Label := [], [];
    var escaping, edigits: nat, total: nat := false, 0, 0;
    var given := if text == ['@'] then [] else text;
    if |given| > 0 {
      if given == ['.'] {
        return Ok([[]]);
      }
      var i := 0;
      assert given[0..] == given;
      while i < |given|
        invariant 0 <= i <= |given|
        invariant Steps(Parse(labels, part, escaping, edigits, total), given[i..])
          == Steps(Parse([], [], false, 0, 0), given)
      {
        var c := given[i];
        ghost var before := Parse(labels, part, escaping, edigits, total);
        StepsFirst(before, given, i);
        if escaping {
          if edigits == 0 {
            if IsDigit(c) {
              total, edigits := DigitValue(c), edigits + 1;
            } else {
              part, escaping := part + [c as int], false;
            }
          } else {
            if !IsDigit(c) {
              return Err(BadEscape);
            }
            total := total * 10;
            total := total + DigitValue(c);
            edigits := edigits + 1;
            if edigits == 3 {
              escaping := false;
              if total > 0xFF {
                return Err(PackError);
              }
              part := part + [total];
            }
          }
        } else if c == '.' {
          if |part| == 0 {
            return Err(BadName(EmptyLabel));
          }
          labels, part := labels + [part], [];
        } else if c == '\\' {
          escaping, edigits, total := true, 0, 0;
        } else {
          part := part + [c as int];
        }
        assert Step(before, c) == Ok(Parse(labels, part, escaping, edigits, total));
        i := i + 1;
      }
      StepsOver(Parse(labels, part, escaping, edigits, total), given);
      if escaping {
        return Err(BadEscape);
      }
      labels := labels + [part];
    }
    if (|labels| == 0 || labels[|labels| - 1] != []) && origin.Some? {
      labels := labels + origin.value;
    }
    var name := ValidateLabels(labels);
    r := match name case Ok(n) => Ok(n) case Err(e) => Err(BadName(e));
  }

  /** One character, and those still to come. */
  lemma StepsFirst(p: Parse, text: Text, i: nat)
    requires i < |text|
    ensures Steps(p, text[i..])
            == if Step(p, text[i]).Err? then Err(Step(p, text[i]).error)
               else Steps(Step(p, text[i]).value, text[i + 1..])
  {
    hide Step;
    assert text[i..][1..] == text[i + 1..];
  }

  lemma StepsOver(p: Parse, text: Text)
    ensures Steps(p, text[|text|..]) == Ok(p)
  {
  }

  // ---------------------------------------------------------------- round trip

  lemma {:induction false} StepsConcat(p: Parse, a: Text, b: Text)
    ensures Steps(p, a + b) == match Steps(p, a) case Err(e) => Err(e) case Ok(q) => Steps(q, b)
    decreases |a|
  {
    hide Step;
    if a == [] {
      assert a + b == b;
    } else {
      assert (a + b)[1..] == a[1..] + b;
      match Step(p, a[0])
      case Err(_) =>
      case Ok(q) => StepsConcat(q, a[1..], b);
    }
  }

  /** An escaped octet adds itself to the label. */
  lemma ByteReads(p: Parse, b: Byte) returns (q: Parse)
    requires !p.escaping
    ensures Steps(p, EscapeByte(b, SPECIAL, 0x21)) == Ok(q)
    ensures !q.escaping && q.labels == p.labels && q.part == p.part + [b]
  {
    var t := EscapeByte(b, SPECIAL, 0x21);
    if |t| == 1 {
      q := p.(part := p.part + [b]);
      assert Step(p, t[0]) == Ok(q);
    } else {
      var p1 := p.(escaping := true, edigits := 0, total := 0);
      assert Step(p, t[0]) == Ok(p1);
      if |t| == 2 {
        q := p1.(part := p.part + [b], escaping := false);
        assert Step(p1, t[1]) == Ok(q);
        assert t[1..] == [t[1]];
        assert Steps(p1, t[1..]) == Ok(q);
      } else {
        var p2 := p1.(total := DigitValue(t[1]), edigits := 1);
        var p3 := p2.(total := DigitValue(t[1]) * 10 + DigitValue(t[2]), edigits := 2);
        q := p3.(total := b, edigits := 3, escaping := false, part := p.part + [b]);
        assert Step(p1, t[1]) == Ok(p2) && Step(p2, t[2]) == Ok(p3) && Step(p3, t[3]) == Ok(q);
        FourSteps(p, t, p1, p2, p3, q);
      }
    }
  }

  lemma FourSteps(p: Parse, t: Text, p1: Parse, p2: Parse, p3: Parse, q: Parse)
    requires |t| == 4 && Step(p, t[0]) == Ok(p1) && Step(p1, t[1]) == Ok(p2) && Step(p2, t[2]) == Ok(p3)
    requires Step(p3, t[3]) == Ok(q)
    ensures Steps(p, t) == Ok(q)
  {
    hide Step;
    assert t[1..][1..] == t[2..] && t[2..][1..] == t[3..] && t[3..][1..] == [];
    assert Steps(p3, t[3..]) == Ok(q);
    assert Steps(p2, t[2..]) == Ok(q);
    assert Steps(p1, t[1..]) == Ok(q);
  }

  lemma {:induction false} LabelReads(p: Parse, part: Label) returns (q: Parse)
    requires !p.escaping
    ensures Steps(p, LabelText(part)) == Ok(q)
    ensures !q.escaping && q.labels == p.labels && q.part == p.part + part
    decreases |part|
  {
    if part == [] {
      q := p;
    } else {
      var p1 := ByteReads(p, part[0]);
      q := LabelReads(p1, part[1..]);
      StepsConcat(p, EscapeByte(part[0], SPECIAL, 0x21), LabelText(part[1..]));
      assert p.part + part == p.part + [part[0]] + part[1..];
    }
  }

  lemma {:induction false} JoinedReads(p: Parse, n: Name) returns (q: Parse)
    requires !p.escaping && p.part == [] && n != [] && RootLast(n)
    ensures Steps(p, Joined(n)) == Ok(q)
    ensures !q.escaping && q.labels + [q.part] == p.labels + n
    decreases |n|
  {
    hide Step;
    var p1 := LabelReads(p, n[0]);
    assert p1.part == n[0];
    if |n| == 1 {
      q := p1;
      assert n == [n[0]];
    } else {
      var p2 := p1.(labels := p1.labels + [p1.part], part := []);
      assert Steps(p1, ['.']) == Ok(p2) by { DotReads(p1); }
      q := JoinedReads(p2, n[1..]);
      StepsConcat(p, LabelText(n[0]), ['.']);
      StepsConcat(p, LabelText(n[0]) + ['.'], Joined(n[1..]));
      assert p.labels + n == p2.labels + n[1..];
    }
  }

  lemma DotReads(p: Parse)
    requires !p.escaping && p.part != []
    ensures Steps(p, ['.']) == Ok(p.(labels := p.labels + [p.part], part := []))
  {
  }

  /** The text of a name that is not the root starts with neither a dot nor a bare "@". */
  lemma JoinedStart(n: Name)
    requires n != [] && n != ROOT && RootLast(n)
    ensures Joined(n) != [] && Joined(n)[0] != '.' && Joined(n)[0] != '@'
  {
    assert n[0] != [];
    assert LabelText(n[0])[0] == EscapeByte(n[0][0], SPECIAL, 0x21)[0];
  }

  lemma JoinedParses(n: Name)
    requires n != [] && n != ROOT && RootLast(n)
    ensures ReadLabels(Joined(n)) == Ok(n) && Joined(n) != ['.']
  {
    JoinedStart(n);
    var q := JoinedReads(Parse([], [], false, 0, 0), n);
    assert [] + n == n;
  }

  /** Every name's text parses back to exactly its labels. */
  lemma TextRoundTrip(n: Name)
    requires ValidName(n)
    ensures FromText(ToText(n, false), None) == Ok(n)
  {
    if n != [] && n != ROOT {
      JoinedParses(n);
    }
  }

  /** So does the text of an absolute name without its final dot, read with the root as its
      origin. */
  lemma TextRoundTripOmittingDot(n: Name)
    requires ValidName(n) && IsAbsolute(n)
    ensures FromText(ToText(n, true), Some(ROOT)) == Ok(n)
  {
    if n != ROOT {
      var labels := n[..|n| - 1];
      assert labels + ROOT == n;
      assert labels[|labels| - 1] == n[|n| - 2] != [];
      JoinedParses(labels);
    }
  }

  // ---------------------------------------------------------------- with any origin

  /** Text read with any origin: that of an absolute name is that name, and a relative name, the
      empty one included, is completed by the origin, if the whole is not too long. */
  lemma TextWithOrigin(n: Name, origin: Name)
    requires ValidName(n) && ValidName(origin)
    ensures FromText(ToText(n, false), Some(origin))
            == if IsAbsolute(n) then Ok(n)
               else if WireLength(n) + WireLength(origin) <= 255 then Ok(n + origin)
               else Err(BadName(NameTooLong))
  {
    if n != [] && n != ROOT {
      JoinedParses(n);
    }
    Completed(n, origin);
  }

  lemma Completed(n: Name, origin: Name)
    requires ValidName(n) && ValidName(origin)
    ensures CheckLabels(n) == Ok(n)
    ensures !IsAbsolute(n) ==>
              CheckLabels(n + origin)
              == if WireLength(n) + WireLength(origin) <= 255 then Ok(n + origin) else Err(NameTooLong)
  {
    WireLengthConcat(n, origin);
    if !IsAbsolute(n) {
      assert RootLast(n + origin) by {
        assert n != [] ==> n[|n| - 1] != [];
      }
    }
  }

  /** Without its final dot the text of an absolute name is that of a relative one, and the
      origin takes the place of the root. */
  lemma OmittedDotWithOrigin(n: Name, origin: Name)
    requires ValidName(n) && IsAbsolute(n) && n != ROOT && ValidName(origin)
    ensures FromText(ToText(n, true), Some(origin)) == FromText(ToText(n[..|n| - 1], false), Some(origin))
    ensures WireLength(n) + WireLength(origin) <= 256 ==>
              FromText(ToText(n, true), Some(origin)) == Ok(n[..|n| - 1] + origin)
  {
    hide FromText, Joined, WireLength, ValidName;
    WithoutRoot(n);
    TextWithOrigin(n[..|n| - 1], origin);
  }

  lemma WithoutRoot(n: Name)
    requires ValidName(n) && IsAbsolute(n) && n != ROOT
    ensures var labels := n[..|n| - 1];
            && ValidName(labels) && !IsAbsolute(labels) && labels != [] && WireLength(labels) + 1 == WireLength(n)
            && ToText(n, true) == ToText(labels, false)
  {
    var labels := n[..|n| - 1];
    assert labels + [[]] == n;
    WireLengthConcat(labels, [[]]);
    assert WireLength([[]]) == 1 by { assert ROOT[1..] == []; }
    assert labels != [] by { assert |n| == 1 ==> n == [n[0]]; }
    assert labels[|labels| - 1] == n[|n| - 2] != [];
  }

  // ---------------------------------------------------------------- characters

  /** What stands for an octet of a label: itself from the exclamation mark to the tilde, but a
      backslash before a character that means something in a name or a zone file, and three
      digits for any other. */
  lemma LabelOctet(b: Byte)
    ensures LabelText([b]) == if b < 0x80 && b as char in "\"().;\\@$" then ['\\', b as char]
                              else if '!' as int <= b <= '~' as int then [b as char]
                              else ThreeDigits(b)
  {
    assert [b][1..] == [] && Escape([], SPECIAL, 0x21) == [];
    DecimalDigits(b);
    var t := EscapeByte(b, SPECIAL, 0x21);
    assert t + [] == t;
    assert forall c :: c in SPECIAL <==> c in "\"().;\\@$";
  }

  /** The labels of a name stand octet by octet with a dot between them; the empty name is an at
      sign, and the root is a dot. */
  lemma NameTextMeans(n: Name, l: Label)
    ensures ToText([], false) == "@" && ToText([[]], false) == ToText([[]], true) == "."
    ensures l != [] ==> ToText([l], false) == LabelText(l)
    ensures n != [] && l != [] ==> ToText([l] + n, false) == LabelText(l) + "." + Joined(n)
    ensures IsAbsolute(n) && n != [[]] && RootLast(n) ==> ToText(n, true) == ToText(n[..|n| - 1], false)
  {
    hide LabelText;
    assert ([l] + n)[1..] == n && ['.'] == ".";
    if IsAbsolute(n) && n != [[]] {
      assert n[..|n| - 1] != [];
      if |n| == 2 {
        assert n[..1] != [[]] || n[0] == [];
      }
    }
  }

  lemma LabelTextMeans(l: Label)
    requires l != []
    ensures LabelText(l) == LabelText([l[0]]) + LabelText(l[1..])
  {
    assert [l[0]][1..] == [] && Escape([], SPECIAL, 0x21) == [];
    var t := EscapeByte(l[0], SPECIAL, 0x21);
    assert t + [] == t && LabelText([l[0]]) == t;
  }

  lemma ThreeOctets()
    ensures LabelText([0x77, 0x2E, 0x00]) == "w\\.\\000"
  {
    var l: Label := [0x77, 0x2E, 0x00];
    hide LabelText, Escape, EscapeByte;
    LabelOctet(0x77);
    LabelOctet(0x2E);
    LabelOctet(0x00);
    LabelTextMeans(l);
    LabelTextMeans(l[1..]);
    assert l[1..] == [0x2E, 0x00] && l[1..][1..] == [0x00];
    assert "w" + ("\\." + "\\000") == "w\\.\\000";
  }

  /** A label holds octets, a dot as well, and an absolute name's text ends with a dot. */
  lemma SomeText()
    ensures ToText([[0x77, 0x2E, 0x00], [0x65], []], false) == "w\\.\\000.e."
  {
    hide LabelText, ToText;
    var n: Name := [[0x77, 0x2E, 0x00], [0x65], []];
    var last: Name := [[]];
    var rest: Name := [[0x65]] + last;
    LabelOctet(0x65);
    ThreeOctets();
    NoText();
    assert rest[1..] == last && Joined(rest) == LabelText([0x65]) + ['.'] + Joined(last);
    assert Joined(rest) == "e.";
    NameTextMeans(rest, n[0]);
    assert n == [n[0]] + rest;
    assert "w\\.\\000" + "." + "e." == "w\\.\\000.e.";
  }

  lemma NoText()
    ensures Joined([[]]) == []
  {
  }

  // ---------------------------------------------------------------- what is no name

  /** A label text is read from where the text before it left off: at its end a dot makes it a
      label; two dots, or a dot at the start, leave an empty one; and an escape takes a
      character, or three digits that come to no more than 255. */
  lemma StepMeans(p: Parse, c: Ascii)
    requires !p.escaping
    ensures c == '.' && p.part == [] ==> Step(p, c) == Err(BadName(EmptyLabel))
    ensures c == '.' && p.part != [] ==> Step(p, c) == Ok(p.(labels := p.labels + [p.part], part := []))
    ensures c != '.' && c != '\\' ==> Step(p, c) == Ok(p.(part := p.part + [c as int]))
  {
  }

  lemma EscapeMeans(p: Parse, a: Ascii, b: Ascii, c: Ascii)
    requires !p.escaping
    ensures Steps(p, ['\\']).Ok? && Steps(p, ['\\']).value.escaping
    ensures !('0' <= a <= '9') ==>
              Steps(p, ['\\', a]) == Ok(p.(part := p.part + [a as int], edigits := 0, total := 0))
    ensures '0' <= a <= '9' ==> Steps(p, ['\\', a]).Ok? && Steps(p, ['\\', a]).value.escaping
    ensures '0' <= a <= '9' && !('0' <= b <= '9') ==> Steps(p, ['\\', a, b]) == Err(BadEscape)
    ensures '0' <= a <= '9' && '0' <= b <= '9' && !('0' <= c <= '9') ==> Steps(p, ['\\', a, b, c]) == Err(BadEscape)
    ensures '0' <= a <= '9' && '0' <= b <= '9' && '0' <= c <= '9' ==>
              var code := 100 * (a as int - '0' as int) + 10 * (b as int - '0' as int) + (c as int - '0' as int);
              if code > 255 then Steps(p, ['\\', a, b, c]) == Err(PackError)
              else
                && Steps(p, ['\\', a, b, c]).Ok? && !Steps(p, ['\\', a, b, c]).value.escaping
                && Steps(p, ['\\', a, b, c]).value.part == p.part + [code]
                && Steps(p, ['\\', a, b, c]).value.labels == p.labels
  {
    var p1 := p.(escaping := true, edigits := 0, total := 0);
    assert ['\\'] + [] == ['\\'] && ['\\'] + [a] == ['\\', a] && ['\\'] + [a, b] == ['\\', a, b];
    assert ['\\'] + [a, b, c] == ['\\', a, b, c] && [a] + [] == [a] && [a] + [b] == [a, b];
    assert [a] + [b, c] == [a, b, c] && [b] + [] == [b] && [b] + [c] == [b, c] && [c] + [] == [c];
    OneStep(p, '\\', []);
    OneStep(p, '\\', [a]);
    OneStep(p, '\\', [a, b]);
    OneStep(p, '\\', [a, b, c]);
    OneStep(p1, a, []);
    OneStep(p1, a, [b]);
    OneStep(p1, a, [b, c]);
    if IsDigit(a) {
      var p2 := p1.(total := DigitValue(a), edigits := 1);
      OneStep(p2, b, []);
      OneStep(p2, b, [c]);
      if IsDigit(b) {
        OneStep(p2.(total := DigitValue(a) * 10 + DigitValue(b), edigits := 2), c, []);
      }
    }
  }

  lemma OneStep(p: Parse, c: Ascii, rest: Text)
    ensures Steps(p, [c] + rest)
            == if Step(p, c).Err? then Err(Step(p, c).error) else Steps(Step(p, c).value, rest)
  {
    assert ([c] + rest)[1..] == rest;
  }

  /** A text that ends within an escape is no name. */
  lemma EscapeOpen(text: Text, origin: Option<Name>)
    requires text != ['@'] && text != ['.'] && text != []
    requires var p := Steps(Parse([], [], false, 0, 0), text); p.Ok? && p.value.escaping
    ensures FromText(text, origin) == Err(BadEscape)
  {
  }
}
