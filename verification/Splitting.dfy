/** bytes.split and bytes.join with a separator of one character. */
module Splitting {
  import opened TokenText

  function Split(text: Text, sep: Ascii): (parts: seq<Text>)
    ensures parts != []
  {
    if text == [] then [[]]
    else if text[0] == sep then [[]] + Split(text[1..], sep)
    else
      var rest := Split(text[1..], sep);
      [[text[0]] + rest[0]] + rest[1..]
  }

  function Join(parts: seq<Text>, sep: Ascii): Text {
    if parts == [] then []
    else if |parts| == 1 then parts[0]
    else parts[0] + [sep] + Join(parts[1..], sep)
  }

  lemma {:induction false} SplitWord(word: Text, sep: Ascii)
    requires sep !in word
    ensures Split(word, sep) == [word]
  {
    if word != [] {
      SplitWord(word[1..], sep);
      assert [word[0]] + word[1..] == word;
    }
  }

  lemma {:induction false} SplitFirst(word: Text, rest: Text, sep: Ascii)
    requires sep !in word
    ensures Split(word + [sep] + rest, sep) == [word] + Split(rest, sep)
  {
    var all := word + [sep] + rest;
    if word == [] {
      assert all[1..] == rest;
    } else {
      SplitFirst(word[1..], rest, sep);
      assert all[1..] == word[1..] + [sep] + rest;
      assert [word[0]] + word[1..] == word;
    }
  }

  /** Splitting undoes joining. */
  lemma {:induction false} SplitJoin(parts: seq<Text>, sep: Ascii)
    requires parts != [] && forall p :: p in parts ==> sep !in p
    ensures Split(Join(parts, sep), sep) == parts
  {
    assert parts[0] in parts;
    if |parts| == 1 {
      SplitWord(parts[0], sep);
    } else {
      SplitJoin(parts[1..], sep);
      SplitFirst(parts[0], Join(parts[1..], sep), sep);
      assert parts == [parts[0]] + parts[1..];
    }
  }

  lemma {:induction false} JoinConcat(a: seq<Text>, b: seq<Text>, sep: Ascii)
    requires a != [] && b != []
    ensures Join(a + b, sep) == Join(a, sep) + [sep] + Join(b, sep)
  {
    if |a| == 1 {
      assert (a + b)[1..] == b;
    } else {
      assert (a + b)[1..] == a[1..] + b;
      JoinConcat(a[1..], b, sep);
    }
  }

  lemma {:induction false} JoinCharacters(parts: seq<Text>, sep: Ascii, c: Ascii)
    requires c != sep && forall p :: p in parts ==> c !in p
    ensures c !in Join(parts, sep)
  {
    if parts != [] {
      assert parts[0] in parts;
      if |parts| > 1 {
        JoinCharacters(parts[1..], sep, c);
      }
    }
  }

  /** Joining undoes splitting, and no part holds the separator. */
  lemma {:induction false} JoinSplit(text: Text, sep: Ascii)
    ensures Join(Split(text, sep), sep) == text
    ensures forall p :: p in Split(text, sep) ==> sep !in p
  {
    if text != [] {
      JoinSplit(text[1..], sep);
      var rest := Split(text[1..], sep);
      assert rest[0] in rest && forall p :: p in rest[1..] ==> p in rest;
      if text[0] == sep {
        assert ([[]] + rest)[1..] == rest;
        assert [] + [sep] + text[1..] == text;
      } else {
        assert ([[text[0]] + rest[0]] + rest[1..])[1..] == rest[1..];
        assert text == [text[0]] + text[1..];
      }
    }
  }
}
