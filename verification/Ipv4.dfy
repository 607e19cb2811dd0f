/** IPv4 addresses as text (dns/ipv4.py). */
module Ipv4 {
  import opened Common
  import opened TokenText
  import opened Splitting

  predicate AllDigits(t: Text) {
    t != [] && forall i :: 0 <= i < |t| ==> IsDigit(t[i])
  }

  /** int() of digits. */
  function Number(t: Text): nat
    requires forall i :: 0 <= i < |t| ==> IsDigit(t[i])
  {
    if t == [] then 0 else Number(t[..|t| - 1]) * 10 + DigitValue(t[|t| - 1])
  }

  /** "%u" of an octet. */
  function Digits(b: Byte): Text {
    if b < 10 then [Digit(b)]
    else if b < 100 then [Digit(b / 10), Digit(b % 10)]
    else [Digit(b / 100), Digit(b / 10 % 10), Digit(b % 10)]
  }

  function Ntoa(address: Bytes): Text
    requires |address| == 4
  {
    Join([Digits(address[0]), Digits(address[1]), Digits(address[2]), Digits(address[3])], '.')
  }

  predicate PartOk(part: Text) {
    AllDigits(part) && !(|part| > 1 && part[0] == '0')
  }

  /** inet_aton; none for a SyntaxError. */
  function Aton(text: Text): (r: Option<Bytes>)
    ensures r.Some? ==> |r.value| == 4
  {
    var parts := Split(text, '.');
    if |parts| == 4 && (forall i :: 0 <= i < 4 ==> PartOk(parts[i]))
      && (forall i :: 0 <= i < 4 ==> Number(parts[i]) <= 0xFF)
    then Some([Number(parts[0]), Number(parts[1]), Number(parts[2]), Number(parts[3])]) else None
  }

  method InetAton(text: Text) returns (r: Option<Bytes>)
    ensures r == Aton(text)
  {
    var parts := Split(text, '.');
    if |parts| != 4 {
      return None;
    }
    var i := 0;
    while i < 4
      invariant 0 <= i <= 4
      invariant forall j :: 0 <= j < i ==> PartOk(parts[j])
    {
      if !AllDigits(parts[i]) {
        return None;
      }
      if |parts[i]| > 1 && parts[i][0] == '0' {
        return None;
      }
      i := i + 1;
    }
    if Number(parts[0]) > 0xFF || Number(parts[1]) > 0xFF || Number(parts[2]) > 0xFF || Number(parts[3]) > 0xFF {
      return None;
    }
    r := Some([Number(parts[0]), Number(parts[1]), Number(parts[2]), Number(parts[3])]);
  }

  lemma NumberAdd(t: Text, c: Ascii)
    requires (forall i :: 0 <= i < |t| ==> IsDigit(t[i])) && IsDigit(c)
    ensures Number(t + [c]) == Number(t) * 10 + DigitValue(c)
  {
    assert (t + [c])[..|t|] == t;
  }

  lemma DigitsRead(b: Byte)
    ensures PartOk(Digits(b)) && Number(Digits(b)) == b
  {
    var d, e, f := b / 100, b / 10 % 10, b % 10;
    assert b == d * 100 + e * 10 + f && b / 10 == d * 10 + e;
    if b < 10 {
      OneDigit(b);
    } else if b < 100 {
      MoreDigits([], b / 10, f);
      assert [] + [Digit(b / 10), Digit(f)] == Digits(b);
    } else {
      MoreDigits([Digit(d)], e, f);
      assert [Digit(d)] + [Digit(e), Digit(f)] == Digits(b);
    }
  }

  lemma OneDigit(d: nat)
    requires d < 10
    ensures Number([Digit(d)]) == d
  {
    NumberAdd([], Digit(d));
    assert [] + [Digit(d)] == [Digit(d)];
  }

  lemma MoreDigits(t: Text, e: nat, f: nat)
    requires |t| <= 1 && (t != [] ==> IsDigit(t[0])) && e < 10 && f < 10
    ensures Number(t + [Digit(e), Digit(f)]) == (if t == [] then 0 else DigitValue(t[0])) * 100 + e * 10 + f
  {
    hide Digit, Number;
    NoNumber();
    if t != [] {
      NumberAdd([], t[0]);
      assert [] + [t[0]] == t;
    }
    NumberAdd(t, Digit(e));
    NumberAdd(t + [Digit(e)], Digit(f));
    assert t + [Digit(e)] + [Digit(f)] == t + [Digit(e), Digit(f)];
  }

  lemma NoNumber()
    ensures Number([]) == 0
  {
  }

  lemma OnlyDigits(t: Text)
    requires AllDigits(t)
    ensures '.' !in t && ':' !in t && '\n' !in t
  {
  }

  lemma RoundTrip(address: Bytes)
    requires |address| == 4
    ensures Aton(Ntoa(address)) == Some(address)
    ensures ':' !in Ntoa(address) && '\n' !in Ntoa(address)
    ensures Split(Ntoa(address), '.')
            == [Digits(address[0]), Digits(address[1]), Digits(address[2]), Digits(address[3])]
  {
    hide Digits, Number;
    var parts := [Digits(address[0]), Digits(address[1]), Digits(address[2]), Digits(address[3])];
    forall p | p in parts ensures '.' !in p && ':' !in p && '\n' !in p {
      var i :| 0 <= i < 4 && parts[i] == p;
      DigitsRead(address[i]);
      OnlyDigits(p);
    }
    forall i | 0 <= i < 4 ensures PartOk(parts[i]) && Number(parts[i]) == address[i] {
      DigitsRead(address[i]);
    }
    SplitJoin(parts, '.');
    JoinCharacters(parts, '.', ':');
    JoinCharacters(parts, '.', '\n');
    assert address == [address[0], address[1], address[2], address[3]];
  }

  // ---------------------------------------------------------------- any text

  /** An octet as it is written: in decimal, with no more digits than it takes. */
  lemma DigitsMeans(b: Byte)
    ensures Digits(b) == if b < 10 then ["0123456789"[b]]
                         else if b < 100 then ["0123456789"[b / 10], "0123456789"[b % 10]]
                         else ["0123456789"[b / 100], "0123456789"[b / 10 % 10], "0123456789"[b % 10]]
  {
    Ten(b % 10);
    Ten(b / 10 % 10);
    Ten(b / 100);
  }

  lemma {:induction false} LongNumber(t: Text)
    requires PartOk(t)
    ensures |t| == 2 ==> Number(t) >= 10
    ensures |t| == 3 ==> Number(t) >= 100
    ensures |t| > 3 ==> Number(t) >= 1000
    decreases |t|
  {
    if |t| > 1 {
      var shorter := t[..|t| - 1];
      assert shorter[0] == t[0] && PartOk(shorter);
      LongNumber(shorter);
      if |t| == 2 {
        assert shorter == [] + [t[0]];
        NumberAdd([], t[0]);
        assert Number([]) == 0;
      }
    }
  }

  /** A number without leading zeros has but one text. */
  lemma OnlyText(t: Text)
    requires PartOk(t) && Number(t) <= 0xFF
    ensures t == Digits(Number(t))
  {
    LongNumber(t);
    assert Number([]) == 0;
    NumberAdd(t[..|t| - 1], t[|t| - 1]);
    assert t == t[..|t| - 1] + [t[|t| - 1]];
    if |t| == 1 {
      OneOfTen(t[0]);
    } else if |t| == 2 {
      TwoDigits(t);
    } else {
      ThreeOf(t);
    }
  }

  lemma OneOfTen(c: Ascii)
    requires IsDigit(c)
    ensures Digit(DigitValue(c)) == c
  {
  }

  lemma TwoDigits(t: Text)
    requires |t| == 2 && AllDigits(t) && t[0] != '0' && Number(t) <= 0xFF
    ensures t == Digits(Number(t))
  {
    NumberAdd([], t[0]);
    NumberAdd([t[0]], t[1]);
    NoNumber();
    assert [] + [t[0]] == [t[0]] && [t[0]] + [t[1]] == t;
    OneOfTen(t[0]);
    OneOfTen(t[1]);
  }

  lemma ThreeOf(t: Text)
    requires |t| == 3 && AllDigits(t) && t[0] != '0' && Number(t) <= 0xFF
    ensures t == Digits(Number(t))
  {
    hide Digits, Number;
    var a, b, c := DigitValue(t[0]), DigitValue(t[1]), DigitValue(t[2]);
    MoreDigits([t[0]], b, c);
    OneOfTen(t[0]);
    OneOfTen(t[1]);
    OneOfTen(t[2]);
    assert [t[0]] + [Digit(b), Digit(c)] == t;
    assert Number(t) == a * 100 + b * 10 + c;
    assert a == Number(t) / 100 && b == Number(t) / 10 % 10 && c == Number(t) % 10;
    LongDigits(Number(t), a, b, c);
  }

  lemma LongDigits(n: Byte, a: nat, b: nat, c: nat)
    requires n >= 100 && a == n / 100 && b == n / 10 % 10 && c == n % 10 && a < 10
    ensures Digits(n) == [Digit(a), Digit(b), Digit(c)]
  {
  }

  /** Exactly which texts are read: those that are written, and each as what it was written
      for.  Any other, with leading zeros, signs, white space or parts beyond 255, is an error. */
  lemma AtonIff(text: Text, address: Bytes)
    requires |address| == 4
    ensures Aton(text) == Some(address) <==> text == Ntoa(address)
  {
    hide Digits, Number, PartOk;
    RoundTrip(address);
    if Aton(text) == Some(address) {
      var parts := Split(text, '.');
      JoinSplit(text, '.');
      forall i | 0 <= i < 4 ensures parts[i] == Digits(address[i]) {
        OnlyText(parts[i]);
      }
      assert parts == [Digits(address[0]), Digits(address[1]), Digits(address[2]), Digits(address[3])];
    }
  }
}
