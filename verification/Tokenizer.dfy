/** The tokenizer of zone file text (dns/tokenizer.py). */
module Tokenizers {
  import opened Common
  import opened TokenText

  datatype Kind = Eof | Eol | Whitespace | Identifier | Quoted | Comment | Delimiter

  datatype Token = Token(kind: Kind, value: Text, hasEscape: bool, comment: Option<Text>)

  datatype LexError = UnexpectedEnd | SyntaxError

  predicate IsDelimiter(c: Ascii, quoting: bool) {
    c == '"' || (!quoting && c in {' ', '\t', '\n', ';', '(', ')'})
  }

  // ---------------------------------------------------------------- what a token is

  /** What is left to read, the level of parentheses, and whether a quoted string is open. */
  datatype Lexer = Lexer(rest: Text, multiline: nat, quoting: bool)

  predicate IsSpace(c: Ascii, multiline: nat) {
    c == ' ' || c == '\t' || (c == '\n' && multiline > 0)
  }

  function Skip(rest: Text, multiline: nat): (r: Text)
    ensures |r| <= |rest|
    decreases |rest|
  {
    if rest != [] && IsSpace(rest[0], multiline) then Skip(rest[1..], multiline) else rest
  }

  lemma SkipStep(rest: Text, multiline: nat)
    ensures Skip(rest, multiline)
            == if rest != [] && IsSpace(rest[0], multiline) then Skip(rest[1..], multiline) else rest
  {
  }

  function SkipIn(lx: Lexer): (r: Lexer)
    ensures |r.rest| <= |lx.rest|
  {
    lx.(rest := Skip(lx.rest, lx.multiline))
  }

  lemma SkipInParts(lx: Lexer)
    ensures SkipIn(lx) == Lexer(Skip(lx.rest, lx.multiline), lx.multiline, lx.quoting)
  {
  }

  /** A comment up to the end of its line, and what follows it. */
  function CommentEnd(rest: Text): (n: nat)
    ensures n <= |rest|
    ensures n < |rest| ==> rest[n] == '\n'
    ensures forall i :: 0 <= i < n ==> rest[i] != '\n'
  {
    if rest == [] || rest[0] == '\n' then 0 else 1 + CommentEnd(rest[1..])
  }

  /** A delimiter before any character of a token: it ends the search for a token, or the
      search goes on as `kind`. */
  datatype Turn = Done(r: Result<(Token, Lexer), LexError>) | More(lx: Lexer, kind: Kind)

  function Turning(c: Ascii, next: Lexer, kind: Kind, hasEscape: bool, wantComment: bool): (t: Turn)
    ensures t.More? ==> |t.lx.rest| <= |next.rest|
  {
    if c == '(' then More(SkipIn(next.(multiline := next.multiline + 1)), kind)
    else if c == ')' then
      if next.multiline == 0 then Done(Err(SyntaxError)) else More(SkipIn(next.(multiline := next.multiline - 1)), kind)
    else if c == '"' then
      if !next.quoting then More(next.(quoting := true), Quoted) else More(SkipIn(next.(quoting := false)), kind)
    else if c == '\n' then Done(Ok((Token(Eol, ['\n'], false, None), next)))
    else if c == ';' then
      var n := CommentEnd(next.rest);
      var text, after := next.rest[..n], next.(rest := next.rest[n..]);
      if wantComment then Done(Ok((Token(Comment, text, false, None), after)))
      else if n == |next.rest| then
        Done(if next.multiline > 0 then Err(SyntaxError) else Ok((Token(Eof, [], false, Some(text)), after)))
      else if next.multiline > 0 then More(SkipIn(next.(rest := next.rest[n + 1..])), kind)
      else Done(Ok((Token(Eol, ['\n'], false, Some(text)), next.(rest := next.rest[n + 1..]))))
    else Done(Ok((Token(Delimiter, [c], hasEscape, None), next)))
  }

  /** The main loop of get, from one character to the next. */
  function Scan(lx: Lexer, token: Text, kind: Kind, hasEscape: bool, wantComment: bool)
    : Result<(Token, Lexer), LexError>
    decreases |lx.rest|
  {
    var blank := token == [] && kind != Quoted;
    if lx.rest == [] then
      if lx.quoting then Err(UnexpectedEnd)
      else if !blank then Ok((Token(kind, token, hasEscape, None), lx))
      else if lx.multiline > 0 then Err(SyntaxError)
      else Ok((Token(Eof, [], hasEscape, None), lx))
    else
      var c, next := lx.rest[0], lx.(rest := lx.rest[1..]);
      if IsDelimiter(c, lx.quoting) then
        if !blank then Ok((Token(kind, token, hasEscape, None), lx))
        else
          match Turning(c, next, kind, hasEscape, wantComment)
          case Done(r) => r
          case More(lx1, kind1) => Scan(lx1, [], kind1, hasEscape, wantComment)
      else if lx.quoting && c == '\n' then Err(SyntaxError)
      else if c == '\\' then
        if next.rest == [] || (next.rest[0] == '\n' && !lx.quoting) then Err(UnexpectedEnd)
        else Scan(next.(rest := next.rest[1..]), token + [c] + [next.rest[0]], kind, true, wantComment)
      else Scan(next, token + [c], kind, hasEscape, wantComment)
  }

  /** get, with no token put back. */
  function NextToken(lx: Lexer, wantLeading: bool, wantComment: bool): Result<(Token, Lexer), LexError> {
    var start := SkipIn(lx);
    if wantLeading && |start.rest| < |lx.rest| then Ok((Token(Whitespace, [' '], false, None), start))
    else Scan(start, [], Identifier, false, wantComment)
  }

  lemma NextTokenParts(lx: Lexer, wantLeading: bool, wantComment: bool)
    ensures NextToken(lx, wantLeading, wantComment)
            == if wantLeading && |SkipIn(lx).rest| < |lx.rest|
               then Ok((Token(Whitespace, [' '], false, None), SkipIn(lx)))
               else Scan(SkipIn(lx), [], Identifier, false, wantComment)
  {
  }

  // ---------------------------------------------------------------- the object

  class Tokenizer {
    const file: Text
    var position: nat
    // a character put back; Some(None) is the end of input put back
    var ungottenChar: Option<Option<Ascii>>
    var ungottenToken: Option<Token>
    var multiline: nat
    var quoting: bool
    var eof: bool
    var lineNumber: nat

    ghost predicate Valid()
      reads this`position, this`eof, this`ungottenChar
    {
      && position <= |file| && (eof ==> position == |file|)
      && (ungottenChar == Some(None) ==> position == |file|)
    }

    /** The characters still to come. */
    ghost function Rest(): Text
      requires Valid()
      reads this`position, this`eof, this`ungottenChar
    {
      (if ungottenChar.Some? && ungottenChar.value.Some? then [ungottenChar.value.value] else []) + file[position..]
    }

    ghost function Now(): Lexer
      requires Valid()
      reads this`position, this`eof, this`ungottenChar, this`multiline, this`quoting
    {
      Lexer(Rest(), multiline, quoting)
    }

    constructor (text: Text)
      ensures Valid() && Now() == Lexer(text, 0, false) && ungottenToken == None
    {
      file, position, ungottenChar, ungottenToken, multiline, quoting, eof, lineNumber :=
        text, 0, None, None, 0, false, false, 1;
    }

    method GetChar() returns (c: Option<Ascii>)
      requires Valid()
      modifies this`position, this`ungottenChar, this`eof, this`lineNumber
      ensures Valid() && ungottenChar == None
      ensures if old(Rest()) == [] then c == None && Rest() == [] && position == |file|
              else c == Some(old(Rest())[0]) && Rest() == old(Rest())[1..]
    {
      if ungottenChar == None {
        if eof {
          c := None;
        } else if position == |file| {
          c, eof := None, true;
        } else {
          c, position := Some(file[position]), position + 1;
          if c.value == '\n' {
            lineNumber := lineNumber + 1;
          }
        }
      } else {
        c, ungottenChar := ungottenChar.value, None;
      }
    }

    /** _unget_char: the character, or the end of input, is the next to come; refused if one
        was put back already, where UngetBufferFull is raised. */
    method UngetChar(c: Option<Ascii>) returns (ok: bool)
      requires Valid() && (c == None ==> position == |file|)
      modifies this`ungottenChar
      ensures Valid() && ok == (old(ungottenChar) == None)
      ensures Rest() == (if ok && c.Some? then [c.value] else []) + old(Rest())
      ensures !ok ==> ungottenChar == old(ungottenChar)
    {
      if ungottenChar != None {
        return false;
      }
      ungottenChar := Some(c);
      ok := true;
    }

    /** skip_whitespace. */
    method SkipWhitespace() returns (skipped: nat)
      requires Valid()
      modifies this`position, this`ungottenChar, this`eof, this`lineNumber
      ensures Valid() && Rest() == Skip(old(Rest()), multiline) && skipped == |old(Rest())| - |Rest()|
    {
      hide Rest, Skip;
      skipped := 0;
      while true
        invariant Valid() && Skip(Rest(), multiline) == Skip(old(Rest()), multiline)
        invariant skipped == |old(Rest())| - |Rest()|
        decreases |Rest()|
      {
        ghost var before := Rest();
        SkipStep(before, multiline);
        var c := GetChar();
        if c == None || (c.value != ' ' && c.value != '\t' && (c.value != '\n' || multiline == 0)) {
          var _ := UngetChar(c);
          assert Rest() == before;
          return;
        }
        skipped := skipped + 1;
      }
    }

    /** The inner loop over a comment: its text, and the character that ended it. */
    method ReadComment(before: Text) returns (text: Text, c: Option<Ascii>)
      requires Valid()
      modifies this`position, this`ungottenChar, this`eof, this`lineNumber
      ensures Valid() && ungottenChar == None && (c == None ==> position == |file|)
      ensures var n := CommentEnd(old(Rest()));
              && text == before + old(Rest())[..n]
              && if n == |old(Rest())| then c == None && Rest() == []
                 else c == Some('\n') && Rest() == old(Rest())[n + 1..]
    {
      hide Rest;
      text := before;
      ghost var whole, read := Rest(), 0;
      while true
        invariant Valid() && read <= |whole| && Rest() == whole[read..] && text == before + whole[..read]
        invariant forall i :: 0 <= i < read ==> whole[i] != '\n'
        decreases |Rest()|
      {
        c := GetChar();
        if c == None || c.value == '\n' {
          return;
        }
        text := text + [c.value];
        read := read + 1;
      }
    }

    /** A token put back is returned again, unless it is white space or a comment and the
        caller wants none. */
    static predicate GivenBack(u: Option<Token>, wantLeading: bool, wantComment: bool) {
      u.Some? && (u.value.kind == Whitespace ==> wantLeading) && (u.value.kind == Comment ==> wantComment)
    }

    /** What get returns next, and where it leaves the text. */
    ghost function Coming(wantLeading: bool, wantComment: bool): Result<(Token, Lexer), LexError>
      requires Valid()
      reads this`position, this`eof, this`ungottenChar, this`multiline, this`quoting, this`ungottenToken
    {
      if GivenBack(ungottenToken, wantLeading, wantComment) then Ok((ungottenToken.value, Now()))
      else NextToken(Now(), wantLeading, wantComment)
    }

    /** The token put back, unless the caller wants none of its kind. */
    method TakeBack(wantLeading: bool, wantComment: bool) returns (given: bool, token: Option<Token>)
      modifies this`ungottenToken
      ensures ungottenToken == None
      ensures given == GivenBack(old(ungottenToken), wantLeading, wantComment) && token == old(ungottenToken)
      ensures given ==> token.Some?
    {
      token, ungottenToken := ungottenToken, None;
      given := false;
      if token.Some? {
        if token.value.kind == Whitespace {
          given := wantLeading;
        } else if token.value.kind == Comment {
          given := wantComment;
        } else {
          given := true;
        }
      }
    }

    method Get(wantLeading: bool, wantComment: bool) returns (r: Result<Token, LexError>)
      requires Valid()
      modifies this
      ensures ungottenToken == None
      ensures match old(Coming(wantLeading, wantComment))
              case Err(e) => r == Err(e)
              case Ok((token, lx)) => r == Ok(token) && Valid() && Now() == lx
    {
      hide Rest, Skip, Scan, GivenBack, SkipIn, NextToken, Valid;
      var given, token := TakeBack(wantLeading, wantComment);
      if given {
        return Ok(token.value);
      }
      ghost var start := Now();
      var skipped := SkipWhitespace();
      SkipInParts(start);
      NextTokenParts(start, wantLeading, wantComment);
      if wantLeading && skipped > 0 {
        return Ok(Token(Whitespace, [' '], false, None));
      }
      r := ScanToken(wantComment);
    }

    /** A delimiter was read before any character of a token. */
    method Turn(c: Ascii, kind: Kind, hasEscape: bool, wantComment: bool)
      returns (more: bool, newKind: Kind, r: Result<Token, LexError>)
      requires Valid() && ungottenChar == None
      modifies this`position, this`ungottenChar, this`eof, this`lineNumber, this`multiline, this`quoting
      ensures match Turning(c, old(Now()), kind, hasEscape, wantComment)
              case Done(Err(e)) => !more && r == Err(e)
              case Done(Ok((token, lx))) => !more && r == Ok(token) && Valid() && Now() == lx
              case More(lx, k) => more && Valid() && Now() == lx && newKind == k
    {
      hide Rest, Skip, CommentEnd;
      more, newKind, r := true, kind, Err(SyntaxError);
      if c == '(' || c == ')' {
        if c == ')' && multiline <= 0 {
          more := false;
          return;
        }
        multiline := if c == '(' then multiline + 1 else multiline - 1;
        var _ := SkipWhitespace();
      } else if c == '"' {
        if !quoting {
          quoting, newKind := true, Quoted;
        } else {
          quoting := false;
          var _ := SkipWhitespace();
        }
      } else if c == '\n' {
        more, r := false, Ok(Token(Eol, ['\n'], false, None));
      } else if c == ';' {
        more, r := SkipComment(wantComment);
      } else {
        more, r := false, Ok(Token(Delimiter, [c], hasEscape, None));
      }
    }

    /** A comment: it is returned, or ends the line or the input, or is passed over. */
    method SkipComment(wantComment: bool) returns (more: bool, r: Result<Token, LexError>)
      requires Valid() && ungottenChar == None
      modifies this`position, this`ungottenChar, this`eof, this`lineNumber
      ensures match Turning(';', old(Now()), Identifier, false, wantComment)
              case Done(Err(e)) => !more && r == Err(e)
              case Done(Ok((token, lx))) => !more && r == Ok(token) && Valid() && Now() == lx
              case More(lx, _) => more && Valid() && Now() == lx
    {
      hide Rest, Skip, CommentEnd;
      more, r := false, Err(SyntaxError);
      ghost var whole := Rest();
      var token, c := ReadComment([]);
      assert token == whole[..CommentEnd(whole)];
      if wantComment {
        var _ := UngetChar(c);
        assert Rest() == whole[CommentEnd(whole)..];
        r := Ok(Token(Comment, token, false, None));
      } else if c == None {
        if multiline == 0 {
          r := Ok(Token(Eof, [], false, Some(token)));
        }
      } else if multiline > 0 {
        var _ := SkipWhitespace();
        more := true;
      } else {
        r := Ok(Token(Eol, ['\n'], false, Some(token)));
      }
    }

    /** The main loop of get. */
    method ScanToken(wantComment: bool) returns (r: Result<Token, LexError>)
      requires Valid()
      modifies this`position, this`ungottenChar, this`eof, this`lineNumber, this`multiline, this`quoting
      ensures match Scan(old(Now()), [], Identifier, false, wantComment)
              case Err(e) => r == Err(e)
              case Ok((token, lx)) => r == Ok(token) && Valid() && Now() == lx
    {
      hide Rest, Skip, Turning, IsDelimiter;
      var token: Text, kind, hasEscape := [], Identifier, false;
      while true
        invariant Valid()
        invariant Scan(Now(), token, kind, hasEscape, wantComment)
          == Scan(old(Now()), [], Identifier, false, wantComment)
        decreases |Rest()|
      {
        ghost var before := Now();
        var c := GetChar();
        if c == None || IsDelimiter(c.value, quoting) {
          if c == None && quoting {
            return Err(UnexpectedEnd);
          }
          if |token| == 0 && kind != Quoted {
            if c.Some? {
              var more;
              more, kind, r := Turn(c.value, kind, hasEscape, wantComment);
              if more {
                continue;
              }
              return;
            }
            kind := Delimiter;
          } else {
            var _ := UngetChar(c);
          }
          assert Now() == before;
          break;
        } else if quoting && c == Some('\n') {
          return Err(SyntaxError);
        } else if c == Some('\\') {
          token, hasEscape := token + [c.value], true;
          c := GetChar();
          if c == None || (c == Some('\n') && !quoting) {
            return Err(UnexpectedEnd);
          }
        }
        token := token + [c.value];
      }
      if |token| == 0 && kind != Quoted {
        if multiline > 0 {
          return Err(SyntaxError);
        }
        kind := Eof;
      }
      r := Ok(Token(kind, token, hasEscape, None));
    }

    /** unget: get returns this token next and leaves the text as it is now, unless its caller
        wants none of its kind and gets what the text holds; refused if a token was put back
        already, where UngetBufferFull is raised. */
    method Unget(token: Token) returns (ok: bool)
      requires Valid()
      modifies this`ungottenToken
      ensures Valid() && ok == (old(ungottenToken) == None) && Now() == old(Now())
      ensures !ok ==> ungottenToken == old(ungottenToken)
      ensures ok ==> forall wantLeading, wantComment ::
        Coming(wantLeading, wantComment)
        == if (token.kind == Whitespace && !wantLeading) || (token.kind == Comment && !wantComment)
           then NextToken(Now(), wantLeading, wantComment) else Ok((token, Now()))
    {
      hide NextToken, Rest;
      if ungottenToken != None {
        return false;
      }
      ungottenToken := Some(token);
      ok := true;
    }
  }

  lemma {:induction false} ScanKinds(lx: Lexer, token: Text, kind: Kind, hasEscape: bool, wantComment: bool)
    requires kind == Identifier || kind == Quoted
    ensures var r := Scan(lx, token, kind, hasEscape, wantComment);
            r.Ok? ==> r.value.0.kind != Whitespace && (r.value.0.kind == Comment ==> wantComment)
    decreases |lx.rest|
  {
    hide SkipIn, CommentEnd, IsDelimiter;
    if lx.rest != [] {
      var c, next := lx.rest[0], lx.(rest := lx.rest[1..]);
      if IsDelimiter(c, lx.quoting) {
        if token == [] && kind != Quoted {
          var turn := Turning(c, next, kind, hasEscape, wantComment);
          if turn.More? {
            ScanKinds(turn.lx, [], turn.kind, hasEscape, wantComment);
          }
        }
      } else if c == '\\' {
        if next.rest != [] {
          ScanKinds(next.(rest := next.rest[1..]), token + [c] + [next.rest[0]], kind, true, wantComment);
        }
      } else {
        ScanKinds(next, token + [c], kind, hasEscape, wantComment);
      }
    }
  }

  /** A token that was got and put back is got again by the same call. */
  lemma GotAgain(lx: Lexer, wantLeading: bool, wantComment: bool)
    requires NextToken(lx, wantLeading, wantComment).Ok?
    ensures Tokenizer.GivenBack(Some(NextToken(lx, wantLeading, wantComment).value.0), wantLeading, wantComment)
  {
    hide Scan;
    ScanKinds(SkipIn(lx), [], Identifier, false, wantComment);
  }
}
