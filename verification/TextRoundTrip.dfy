/** Names and strings written as text, one after another, come back from the tokenizer
    (dns/tokenizer.py, dns/name.py, dns/rdata.py). */
module TextRoundTrips {
  import opened Common
  import opened Names
  import opened TokenText
  import opened NameText
  import opened Tokenizers

  // ---------------------------------------------------------------- escapes in strings

  /** Characters that are escaped in a quoted string. */
  const QUOTED_SPECIAL: set<char> := {'"', '\\'}

  function StringText(s: Bytes): Text {
    Escape(s, QUOTED_SPECIAL, 0x20)
  }

  function Prepend(b: Byte, rest: Result<Bytes, LexError>): Result<Bytes, LexError> {
    match rest case Err(e) => Err(e) case Ok(more) => Ok([b] + more)
  }

  /** Token.unescape_to_bytes, on the text of a token. */
  function Unescape(text: Text): Result<Bytes, LexError>
    decreases |text|
  {
    if text == [] then Ok([])
    else if text[0] != '\\' then Prepend(text[0] as int, Unescape(text[1..]))
    else if |text| < 2 then Err(UnexpectedEnd)
    else if !IsDigit(text[1]) then Prepend(text[1] as int, Unescape(text[2..]))
    else if |text| < 4 then Err(UnexpectedEnd)
    else if !IsDigit(text[2]) || !IsDigit(text[3]) then Err(SyntaxError)
    else
      var code := Code(text[1], text[2], text[3]);
      if code > 0xFF then Err(SyntaxError) else Prepend(code, Unescape(text[4..]))
  }

  /** The octets unescaped so far, and those still to come. */
  function After(done: Bytes, rest: Result<Bytes, LexError>): Result<Bytes, LexError> {
    match rest case Err(e) => Err(e) case Ok(more) => Ok(done + more)
  }

  lemma AfterPrepend(done: Bytes, b: Byte, rest: Result<Bytes, LexError>)
    ensures After(done, Prepend(b, rest)) == After(done + [b], rest)
  {
    if rest.Ok? {
      assert done + ([b] + rest.value) == done + [b] + rest.value;
    }
  }

  method UnescapeToBytes(value: Text) returns (r: Result<Bytes, LexError>)
    ensures r == Unescape(value)
  {
    var unescaped: Bytes := [];
    var i := 0;
    assert After([], Unescape(value)) == Unescape(value) by { AfterNothing(Unescape(value)); }
    assert value[0..] == value;
    while i < |value|
      invariant 0 <= i <= |value|
      invariant After(unescaped, Unescape(value[i..])) == Unescape(value)
    {
      ghost var tail := value[i..];
      var c := value[i];
      i := i + 1;
      if c == '\\' {
        if i >= |value| {
          return Err(UnexpectedEnd);
        }
        c := value[i];
        i := i + 1;
        if IsDigit(c) {
          if i >= |value| {
            return Err(UnexpectedEnd);
          }
          var c2 := value[i];
          i := i + 1;
          if i >= |value| {
            return Err(UnexpectedEnd);
          }
          var c3 := value[i];
          i := i + 1;
          if !(IsDigit(c2) && IsDigit(c3)) {
            return Err(SyntaxError);
          }
          var code := Code(c, c2, c3);
          if code > 0xFF {
            return Err(SyntaxError);
          }
          AfterPrepend(unescaped, code, Unescape(tail[4..]));
          unescaped := unescaped + [code];
          assert tail[4..] == value[i..];
        } else {
          AfterPrepend(unescaped, c as int, Unescape(tail[2..]));
          unescaped := unescaped + [c as int];
          assert tail[2..] == value[i..];
        }
      } else {
        AfterPrepend(unescaped, c as int, Unescape(tail[1..]));
        unescaped := unescaped + [c as int];
        assert tail[1..] == value[i..];
      }
    }
    r := Ok(unescaped);
    assert value[i..] == [] && unescaped + [] == unescaped;
  }

  lemma AfterNothing(r: Result<Bytes, LexError>)
    ensures After([], r) == r
  {
    if r.Ok? {
      assert [] + r.value == r.value;
    }
  }

  /** The code of three digits. */
  function Code(a: Ascii, b: Ascii, c: Ascii): nat
    requires IsDigit(a) && IsDigit(b) && IsDigit(c)
  {
    DigitValue(a) * 100 + DigitValue(b) * 10 + DigitValue(c)
  }

  /** Unescaping undoes escaping. */
  lemma {:induction false} StringRoundTrip(s: Bytes)
    ensures Unescape(StringText(s)) == Ok(s)
  {
    if s != [] {
      var t, rest := EscapeByte(s[0], QUOTED_SPECIAL, 0x20), StringText(s[1..]);
      StringRoundTrip(s[1..]);
      var all := t + rest;
      assert all[|t|..] == rest;
      assert all[0] == t[0];
      assert s == [s[0]] + s[1..];
      if |t| == 1 {
        assert all[1..] == rest;
      } else if |t| == 2 {
        assert t[1] as int == s[0] && !IsDigit(t[1]);
        assert all[1] == t[1] && all[2..] == rest;
        assert Unescape(all) == Prepend(s[0], Unescape(rest));
      } else {
        assert all[1] == t[1] && all[2] == t[2] && all[3] == t[3] && all[4..] == rest;
        assert Code(t[1], t[2], t[3]) == s[0];
        assert Unescape(all) == Prepend(s[0], Unescape(rest));
      }
    }
  }

  // ---------------------------------------------------------------- fields of a line

  /** What the text of an rdata is made of: names, and quoted strings of octets. */
  datatype Field = NameField(name: Name) | StringField(s: Bytes)
  {
    predicate Valid() {
      NameField? ==> ValidName(name)
    }
  }

  function FieldText(f: Field): Text {
    match f
    case NameField(n) => ToText(n, false)
    case StringField(s) => ['"'] + StringText(s) + ['"']
  }

  /** The texts of the fields from one on, each after a space. */
  function Spaced(fs: seq<Field>): Text {
    if fs == [] then [] else [' '] + FieldText(fs[0]) + Spaced(fs[1..])
  }

  /** The fields with single spaces between them. */
  function Line(fs: seq<Field>): Text {
    if fs == [] then [] else FieldText(fs[0]) + Spaced(fs[1..])
  }

  datatype FieldError = Lexical(lex: LexError) | BadText(error: TextError) | Unexpected(kind: Kind)

  /** A token as a field: as_name for an identifier, unescape_to_bytes for a quoted string. */
  function ReadToken(token: Token): Result<Field, FieldError> {
    if token.kind == Identifier then
      match FromText(token.value, None) case Err(e) => Err(BadText(e)) case Ok(n) => Ok(NameField(n))
    else if token.kind == Quoted then
      match Unescape(token.value) case Err(e) => Err(Lexical(e)) case Ok(s) => Ok(StringField(s))
    else Err(Unexpected(token.kind))
  }

  /** So many fields, and then the end of the input. */
  function ReadFields(lx: Lexer, n: nat): Result<seq<Field>, FieldError>
    decreases n
  {
    match NextToken(lx, false, false)
    case Err(e) => Err(Lexical(e))
    case Ok((token, lx1)) =>
      if n == 0 then if token.kind == Eof then Ok([]) else Err(Unexpected(token.kind))
      else
        match ReadToken(token)
        case Err(e) => Err(e)
        case Ok(f) => match ReadFields(lx1, n - 1) case Err(e) => Err(e) case Ok(fs) => Ok([f] + fs)
  }

  // ---------------------------------------------------------------- one token

  /** Text without a delimiter that is not escaped. */
  predicate Bare(text: Text, quoting: bool)
    decreases |text|
  {
    if text == [] then true
    else if text[0] == '\\' then |text| >= 2 && text[1] != '\n' && Bare(text[2..], quoting)
    else !IsDelimiter(text[0], quoting) && text[0] != '\n' && Bare(text[1..], quoting)
  }

  lemma {:induction false} BareConcat(a: Text, b: Text, quoting: bool)
    requires Bare(a, quoting) && Bare(b, quoting)
    ensures Bare(a + b, quoting)
    decreases |a|
  {
    if a == [] {
      assert a + b == b;
    } else if a[0] == '\\' {
      assert (a + b)[2..] == a[2..] + b;
      BareConcat(a[2..], b, quoting);
    } else {
      assert (a + b)[1..] == a[1..] + b;
      BareConcat(a[1..], b, quoting);
    }
  }

  predicate EscapesDelimiters(special: set<char>, low: nat, quoting: bool) {
    '\\' in special && '"' in special && '\n' !in special
    && (if quoting then low == 0x20 else low == 0x21 && ';' in special && '(' in special && ')' in special)
  }

  lemma EscapedByteBare(b: Byte, special: set<char>, low: nat, quoting: bool)
    requires low >= 0x20 && EscapesDelimiters(special, low, quoting)
    ensures Bare(EscapeByte(b, special, low), quoting)
  {
    var t := EscapeByte(b, special, low);
    if |t| == 1 {
      assert t[1..] == [];
    } else if |t| == 2 {
      assert t[2..] == [];
    } else {
      assert t[2..] == [t[2], t[3]] && t[2..][1..] == [t[3]] && [t[3]][1..] == [];
      assert Bare([t[3]], quoting);
      assert Bare(t[2..], quoting);
    }
  }

  lemma {:induction false} EscapedBare(s: Bytes, special: set<char>, low: nat, quoting: bool)
    requires low >= 0x20 && EscapesDelimiters(special, low, quoting)
    ensures Bare(Escape(s, special, low), quoting)
  {
    if s != [] {
      EscapedByteBare(s[0], special, low, quoting);
      EscapedBare(s[1..], special, low, quoting);
      BareConcat(EscapeByte(s[0], special, low), Escape(s[1..], special, low), quoting);
    }
  }

  lemma {:induction false} JoinedBare(n: Name)
    ensures Bare(Joined(n), false)
  {
    if n != [] {
      EscapedBare(n[0], SPECIAL, 0x21, false);
      if |n| > 1 {
        JoinedBare(n[1..]);
        assert Bare(['.'], false) by { assert ['.'][1..] == []; }
        BareConcat(LabelText(n[0]), ['.'], false);
        BareConcat(LabelText(n[0]) + ['.'], Joined(n[1..]), false);
      }
    }
  }

  /** The text of a name is one word: not empty, and without a bare delimiter. */
  lemma NameWord(n: Name)
    requires ValidName(n)
    ensures ToText(n, false) != [] && Bare(ToText(n, false), false)
  {
    if n == [] || n == ROOT {
      assert ToText(n, false)[1..] == [];
    } else {
      JoinedStart(n);
      JoinedBare(n);
    }
  }

  lemma ScanPlain(lx: Lexer, token: Text, kind: Kind, hasEscape: bool)
    requires lx.rest != [] && !IsDelimiter(lx.rest[0], lx.quoting) && lx.rest[0] != '\\' && lx.rest[0] != '\n'
    ensures Scan(lx, token, kind, hasEscape, false)
            == Scan(lx.(rest := lx.rest[1..]), token + [lx.rest[0]], kind, hasEscape, false)
  {
  }

  lemma ScanEscape(lx: Lexer, token: Text, kind: Kind, hasEscape: bool)
    requires |lx.rest| >= 2 && lx.rest[0] == '\\' && lx.rest[1] != '\n'
    ensures Scan(lx, token, kind, hasEscape, false)
            == Scan(lx.(rest := lx.rest[2..]), token + [lx.rest[0], lx.rest[1]], kind, true, false)
  {
    assert lx.rest[1..][1..] == lx.rest[2..];
    assert token + [lx.rest[0]] + [lx.rest[1]] == token + [lx.rest[0], lx.rest[1]];
  }

  /** At a delimiter, a token that has begun ends. */
  lemma ScanEnds(lx: Lexer, token: Text, kind: Kind, hasEscape: bool)
    requires token != [] || kind == Quoted
    requires if lx.rest == [] then !lx.quoting else IsDelimiter(lx.rest[0], lx.quoting)
    ensures Scan(lx, token, kind, hasEscape, false) == Ok((Token(kind, token, hasEscape, None), lx))
  {
  }

  /** The characters of a token, whatever follows them. */
  lemma {:induction false} ScanOver(lx: Lexer, token: Text, text: Text, rest: Text, kind: Kind, hasEscape: bool)
    returns (esc: bool)
    requires Bare(text, lx.quoting) && lx.rest == text + rest
    ensures Scan(lx, token, kind, hasEscape, false) == Scan(lx.(rest := rest), token + text, kind, esc, false)
    ensures esc <==> hasEscape || '\\' in text
    decreases |text|
  {
    hide Scan, IsDelimiter;
    if text == [] {
      assert lx.rest == rest && token + text == token && lx.(rest := rest) == lx;
      esc := hasEscape;
    } else if text[0] == '\\' {
      ScanEscape(lx, token, kind, hasEscape);
      assert lx.rest[2..] == text[2..] + rest;
      assert token + [text[0], text[1]] + text[2..] == token + text;
      esc := ScanOver(lx.(rest := lx.rest[2..]), token + [text[0], text[1]], text[2..], rest, kind, true);
    } else {
      ScanPlain(lx, token, kind, hasEscape);
      assert lx.rest[1..] == text[1..] + rest;
      assert token + [text[0]] + text[1..] == token + text;
      esc := ScanOver(lx.(rest := lx.rest[1..]), token + [text[0]], text[1..], rest, kind, hasEscape);
    }
  }

  /** The characters of a token, up to where it ends. */
  lemma ScanBare(lx: Lexer, token: Text, text: Text, rest: Text, kind: Kind, hasEscape: bool) returns (esc: bool)
    requires Bare(text, lx.quoting) && lx.rest == text + rest && (token + text != [] || kind == Quoted)
    requires if rest == [] then !lx.quoting else IsDelimiter(rest[0], lx.quoting)
    ensures Scan(lx, token, kind, hasEscape, false) == Ok((Token(kind, token + text, esc, None), lx.(rest := rest)))
    ensures esc <==> hasEscape || '\\' in text
  {
    hide Scan, IsDelimiter, Bare;
    esc := ScanOver(lx, token, text, rest, kind, hasEscape);
    ScanEnds(lx.(rest := rest), token + text, kind, esc);
  }

  // ---------------------------------------------------------------- what stands between fields

  /** White space, parentheses around several lines, and comments within them. */
  datatype Piece = Blank(c: Ascii) | Open | Close | Remark(text: Text)

  function PieceText(p: Piece): Text {
    match p
    case Blank(c) => [c]
    case Open => ['(']
    case Close => [')']
    case Remark(text) => [';'] + text + ['\n']
  }

  /** Outside parentheses a line feed or a comment ends the line. */
  predicate PieceOk(p: Piece, level: nat) {
    match p
    case Blank(c) => c == ' ' || c == '\t' || (c == '\n' && level > 0)
    case Open => true
    case Close => level > 0
    case Remark(text) => level > 0 && '\n' !in text
  }

  function LevelAfter(p: Piece, level: nat): nat
    requires PieceOk(p, level)
  {
    if p.Open? then level + 1 else if p.Close? then level - 1 else level
  }

  type Gap = seq<Piece>

  function GapText(g: Gap): Text {
    if g == [] then [] else PieceText(g[0]) + GapText(g[1..])
  }

  predicate GapOk(g: Gap, level: nat) {
    g != [] ==> PieceOk(g[0], level) && GapOk(g[1..], LevelAfter(g[0], level))
  }

  /** The level of parentheses behind a gap. */
  function Level(g: Gap, level: nat): nat
    requires GapOk(g, level)
  {
    if g == [] then level else Level(g[1..], LevelAfter(g[0], level))
  }

  /** The main loop of get, before any character of a token. */
  function Seek(rest: Text, level: nat): Result<(Token, Lexer), LexError> {
    Scan(Lexer(rest, level, false), [], Identifier, false, false)
  }

  lemma PieceScans(p: Piece, level: nat, rest: Text)
    requires PieceOk(p, level)
    ensures Seek(Skip(PieceText(p) + rest, level), level)
            == Seek(Skip(rest, LevelAfter(p, level)), LevelAfter(p, level))
  {
    hide Skip, CommentEnd;
    var all := PieceText(p) + rest;
    SkipStep(all, level);
    match p
    case Remark(text) =>
      assert all[1..] == text + ['\n'] + rest;
      CommentOf(text, rest);
    case _ => assert all[1..] == rest;
  }

  lemma {:induction false} CommentOf(text: Text, rest: Text)
    requires '\n' !in text
    ensures CommentEnd(text + ['\n'] + rest) == |text| && (text + ['\n'] + rest)[|text| + 1..] == rest
  {
    var all := text + ['\n'] + rest;
    if text != [] {
      CommentOf(text[1..], rest);
      assert all[1..] == text[1..] + ['\n'] + rest;
    }
  }

  lemma {:induction false} GapScans(g: Gap, level: nat, tail: Text)
    requires GapOk(g, level) && (tail == [] || !IsSpace(tail[0], Level(g, level)))
    ensures Seek(Skip(GapText(g) + tail, level), level) == Seek(tail, Level(g, level))
    decreases |g|
  {
    hide Skip, Seek, PieceText, PieceOk, LevelAfter;
    if g == [] {
      assert GapText(g) + tail == tail;
      SkipStep(tail, level);
    } else {
      var rest := GapText(g[1..]) + tail;
      assert GapText(g) + tail == PieceText(g[0]) + rest;
      PieceScans(g[0], level, rest);
      GapScans(g[1..], LevelAfter(g[0], level), tail);
    }
  }

  /** Before a gap: what is to come stands behind the closing quote of the field before, if that
      was a string. */
  predicate Between(lx: Lexer, rest: Text, level: nat) {
    lx.multiline == level && lx.rest == (if lx.quoting then ['"'] else []) + rest
  }

  /** get passes over the quote. */
  lemma GetScans(lx: Lexer, rest: Text, level: nat)
    requires Between(lx, rest, level)
    ensures NextToken(lx, false, false) == Seek(Skip(rest, level), level)
  {
    hide Skip;
    SkipStep(lx.rest, level);
    if lx.quoting {
      assert lx.rest[1..] == rest;
    } else {
      assert [] + rest == rest;
    }
  }

  /** One field is one token, which reads back as the field. */
  lemma FieldReads(lx: Lexer, g: Gap, f: Field, rest: Text, level: nat) returns (token: Token, after: Lexer)
    requires f.Valid() && GapOk(g, level) && (rest == [] || IsDelimiter(rest[0], false))
    requires Between(lx, GapText(g) + (FieldText(f) + rest), level)
    ensures NextToken(lx, false, false) == Ok((token, after))
    ensures ReadToken(token) == Ok(f) && Between(after, rest, Level(g, level))
    ensures token.hasEscape <==> '\\' in token.value
  {
    hide Skip, Scan, NextToken, GapText;
    var text, inner := FieldText(f), Level(g, level);
    GetScans(lx, GapText(g) + (text + rest), level);
    match f
    case NameField(n) =>
      NameWord(n);
      assert (text + rest)[0] == text[0];
      GapScans(g, level, text + rest);
      var esc := ScanBare(Lexer(text + rest, inner, false), [], text, rest, Identifier, false);
      assert [] + text == text;
      TextRoundTrip(n);
      token, after := Token(Identifier, text, esc, None), Lexer(rest, inner, false);
    case StringField(s) =>
      GapScans(g, level, text + rest);
      EscapedBare(s, QUOTED_SPECIAL, 0x20, true);
      OpenQuote(StringText(s), rest, inner);
      var quote := ['"'] + rest;
      var esc := ScanBare(Lexer(StringText(s) + quote, inner, true), [], StringText(s), quote, Quoted, false);
      assert [] + StringText(s) == StringText(s);
      StringRoundTrip(s);
      token, after := Token(Quoted, StringText(s), esc, None), Lexer(['"'] + rest, inner, true);
  }

  lemma OpenQuote(text: Text, rest: Text, level: nat)
    ensures Seek(['"'] + text + ['"'] + rest, level)
            == Scan(Lexer(text + (['"'] + rest), level, true), [], Quoted, false, false)
  {
    assert (['"'] + text + ['"'] + rest)[1..] == text + (['"'] + rest);
  }

  // ---------------------------------------------------------------- fields laid out over lines

  /** A gap before each field, and one behind the last. */
  function LayoutText(gaps: seq<Gap>, fs: seq<Field>): Text
    requires |gaps| == |fs| + 1
  {
    if fs == [] then GapText(gaps[0])
    else GapText(gaps[0]) + (FieldText(fs[0]) + LayoutText(gaps[1..], fs[1..]))
  }

  /** Fields are apart from each other, and every parenthesis opened is closed. */
  predicate LayoutOk(gaps: seq<Gap>, fs: seq<Field>, level: nat)
    requires |gaps| == |fs| + 1
    decreases |fs|
  {
    && GapOk(gaps[0], level)
    && if fs == [] then Level(gaps[0], level) == 0
       else (|fs| > 1 ==> gaps[1] != []) && LayoutOk(gaps[1..], fs[1..], Level(gaps[0], level))
  }

  /** Behind a field the line is over, or a delimiter follows. */
  lemma LayoutStart(gaps: seq<Gap>, fs: seq<Field>, level: nat)
    requires |gaps| == |fs| + 1 && LayoutOk(gaps, fs, level) && (fs != [] ==> gaps[0] != [])
    ensures var text := LayoutText(gaps, fs); text == [] || IsDelimiter(text[0], false)
  {
    var g := gaps[0];
    if g != [] {
      assert PieceOk(g[0], level) && IsDelimiter(PieceText(g[0])[0], false);
      assert GapText(g)[0] == PieceText(g[0])[0];
    }
  }

  lemma {:induction false} LayoutReads(lx: Lexer, gaps: seq<Gap>, fs: seq<Field>, level: nat)
    requires |gaps| == |fs| + 1 && LayoutOk(gaps, fs, level) && (forall f :: f in fs ==> f.Valid())
    requires Between(lx, LayoutText(gaps, fs), level)
    ensures ReadFields(lx, |fs|) == Ok(fs)
    decreases |fs|
  {
    hide Scan, NextToken, Between, FieldText, GapOk, GapText, Seek, Skip, IsDelimiter;
    if fs == [] {
      GetScans(lx, GapText(gaps[0]), level);
      assert GapText(gaps[0]) + [] == GapText(gaps[0]);
      GapScans(gaps[0], level, []);
      NothingLeft();
    } else {
      var rest := LayoutText(gaps[1..], fs[1..]);
      LayoutStart(gaps[1..], fs[1..], Level(gaps[0], level));
      var token, after := FieldReads(lx, gaps[0], fs[0], rest, level);
      LayoutReads(after, gaps[1..], fs[1..], Level(gaps[0], level));
      assert fs == [fs[0]] + fs[1..];
    }
  }

  lemma NothingLeft()
    ensures Seek([], 0) == Ok((Token(Eof, [], false, None), Lexer([], 0, false)))
  {
  }

  /** Names and strings read back as the very same names and octets, one token for each, and
      then the input ends, however they are laid out: with any white space between them, and
      with parentheses anywhere, within which there may be line feeds and comments. */
  lemma LayoutRoundTrip(gaps: seq<Gap>, fs: seq<Field>)
    requires |gaps| == |fs| + 1 && LayoutOk(gaps, fs, 0) && forall f :: f in fs ==> f.Valid()
    ensures ReadFields(Lexer(LayoutText(gaps, fs), 0, false), |fs|) == Ok(fs)
  {
    var text := LayoutText(gaps, fs);
    assert [] + text == text;
    LayoutReads(Lexer(text, 0, false), gaps, fs, 0);
  }

  /** Single spaces between fields. */
  function Single(n: nat): (gaps: seq<Gap>)
    ensures |gaps| == n + 1
  {
    seq(n + 1, i => if 0 < i < n then [Blank(' ')] else [])
  }

  lemma {:induction false} SpacedLayout(gaps: seq<Gap>, fs: seq<Field>)
    requires |gaps| == |fs| + 1 && gaps[|fs|] == [] && forall i :: 0 <= i < |fs| ==> gaps[i] == [Blank(' ')]
    ensures LayoutOk(gaps, fs, 0) && LayoutText(gaps, fs) == Spaced(fs)
    decreases |fs|
  {
    hide FieldText;
    OneBlank();
    if fs != [] {
      SpacedLayout(gaps[1..], fs[1..]);
      assert [' '] + (FieldText(fs[0]) + Spaced(fs[1..])) == Spaced(fs);
    }
  }

  lemma OneBlank()
    ensures GapOk([Blank(' ')], 0) && Level([Blank(' ')], 0) == 0 && GapText([Blank(' ')]) == [' ']
  {
    assert [Blank(' ')][1..] == [] && GapText([]) == [] && [' '] + [] == [' '];
  }

  /** A line of names and strings, written with single spaces between them, tokenizes to one
      identifier for each name and one quoted string for each string, which read back as the
      very same names and octets, and then to the end of the input. */
  lemma LineRoundTrip(fs: seq<Field>)
    requires forall f :: f in fs ==> f.Valid()
    ensures ReadFields(Lexer(Line(fs), 0, false), |fs|) == Ok(fs)
  {
    hide FieldText, ReadFields;
    var gaps := Single(|fs|);
    if fs != [] {
      SpacedLayout(gaps[1..], fs[1..]);
      assert [] + (FieldText(fs[0]) + Spaced(fs[1..])) == Line(fs);
    }
    LayoutRoundTrip(gaps, fs);
  }

  // ---------------------------------------------------------------- lines, and what is no line

  /** Behind a gap: the input ends, unless a parenthesis is open; a line ends with a line feed
      outside parentheses, and with its comment before that; and a closing parenthesis without
      an open one is an error. */
  lemma LineEnds(rest: Text, level: nat)
    ensures Seek([], level)
            == if level == 0 then Ok((Token(Eof, [], false, None), Lexer([], 0, false))) else Err(SyntaxError)
    ensures Seek([')'] + rest, 0) == Err(SyntaxError)
    ensures Seek(['\n'] + rest, 0) == Ok((Token(Eol, ['\n'], false, None), Lexer(rest, 0, false)))
  {
    assert (['\n'] + rest)[1..] == rest;
  }

  lemma CommentEnds(text: Text, rest: Text, level: nat)
    requires '\n' !in text
    ensures Seek([';'] + text + ['\n'] + rest, 0)
            == Ok((Token(Eol, ['\n'], false, Some(text)), Lexer(rest, 0, false)))
    ensures Seek([';'] + text, level)
            == if level == 0 then Ok((Token(Eof, [], false, Some(text)), Lexer([], 0, false))) else Err(SyntaxError)
  {
    hide CommentEnd;
    CommentOf(text, rest);
    assert ([';'] + text + ['\n'] + rest)[1..] == text + ['\n'] + rest;
    assert (text + ['\n'] + rest)[..|text|] == text;
    NoLineFeed(text);
    assert ([';'] + text)[1..] == text && text[..|text|] == text && text[|text|..] == [];
  }

  lemma {:induction false} NoLineFeed(text: Text)
    requires '\n' !in text
    ensures CommentEnd(text) == |text|
  {
    if text != [] {
      NoLineFeed(text[1..]);
    }
  }

  /** A quoted string must be closed on its own line, and an escape must escape something. */
  lemma QuoteOpen(text: Text, rest: Text, level: nat)
    requires Bare(text, true)
    ensures Seek(['"'] + text + ['\n'] + rest, level) == Err(SyntaxError)
    ensures Seek(['"'] + text, level) == Err(UnexpectedEnd)
    ensures Seek(['"'] + text + ['\\'], level) == Err(UnexpectedEnd)
  {
    hide Bare;
    assert (['"'] + text + ['\n'] + rest)[1..] == text + (['\n'] + rest);
    var _ := ScanOver(Lexer(text + (['\n'] + rest), level, true), [], text, ['\n'] + rest, Quoted, false);
    assert (['"'] + text)[1..] == text + [];
    var _ := ScanOver(Lexer(text + [], level, true), [], text, [], Quoted, false);
    assert (['"'] + text + ['\\'])[1..] == text + ['\\'];
    var _ := ScanOver(Lexer(text + ['\\'], level, true), [], text, ['\\'], Quoted, false);
  }

  /** To a caller that wants them, a comment is a token, with the line feed still to come, and
      white space before a token is one. */
  lemma WantedTokens(text: Text, rest: Text, c: Ascii, level: nat)
    requires '\n' !in text
    ensures NextToken(Lexer([';'] + text + ['\n'] + rest, level, false), false, true)
            == Ok((Token(Comment, text, false, None), Lexer(['\n'] + rest, level, false)))
    ensures c in {' ', '\t'} || (c == '\n' && level > 0) ==>
              NextToken(Lexer([c] + rest, level, false), true, false)
              == Ok((Token(Whitespace, [' '], false, None), Lexer(Skip(rest, level), level, false)))
  {
    hide CommentEnd, Skip;
    var all := [';'] + text + ['\n'] + rest;
    SkipStep(all, level);
    CommentOf(text, rest);
    assert all[1..] == text + ['\n'] + rest;
    assert (text + ['\n'] + rest)[..|text|] == text && (text + ['\n'] + rest)[|text|..] == ['\n'] + rest;
    SkipStep([c] + rest, level);
    assert ([c] + rest)[1..] == rest;
  }

  // ---------------------------------------------------------------- escapes, one by one

  /** What stands for an octet between quotes: itself from the space to the tilde, but a
      backslash before a quote or a backslash, and three digits for any other. */
  lemma QuotedOctet(b: Byte)
    ensures StringText([b]) == if b == '"' as int || b == '\\' as int then ['\\', b as char]
                               else if ' ' as int <= b <= '~' as int then [b as char]
                               else ThreeDigits(b)
  {
    assert [b][1..] == [] && Escape([], QUOTED_SPECIAL, 0x20) == [];
    DecimalDigits(b);
    var t := EscapeByte(b, QUOTED_SPECIAL, 0x20);
    assert t + [] == t;
  }

  /** What is no text of octets: a backslash at the end, fewer than three digits behind one, and
      three that come to more than 255. */
  lemma UnescapeErrors(a: Ascii, b: Ascii, c: Ascii)
    ensures Unescape(['\\']) == Err(UnexpectedEnd)
    ensures '0' <= a <= '9' ==> Unescape(['\\', a]) == Unescape(['\\', a, b]) == Err(UnexpectedEnd)
    ensures '0' <= a <= '9' && !('0' <= b <= '9' && '0' <= c <= '9') ==> Unescape(['\\', a, b, c]) == Err(SyntaxError)
    ensures '2' < a <= '9' && '0' <= b <= '9' && '0' <= c <= '9' ==> Unescape(['\\', a, b, c]) == Err(SyntaxError)
    ensures Unescape("\\255") == Ok([255]) && Unescape("\\256") == Err(SyntaxError)
  {
    var t: Text := "\\255";
    assert t[4..] == [] && Code(t[1], t[2], t[3]) == 255;
    assert Unescape([]) == Ok([]) && [255] + [] == [255];
    var u: Text := "\\256";
    assert Code(u[1], u[2], u[3]) == 256;
  }
}
