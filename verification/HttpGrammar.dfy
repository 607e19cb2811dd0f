/** Chunked bodies by the grammar of section 7.1 of RFC 9112, and how they compare with what
    the forwarder accepts. */
module HttpGrammar {
  import opened Common
  import opened HttpBody

  // ---------------------------------------------------------------- the grammar

  /** A tchar, section 5.6.2. */
  predicate TokenChar(b: Byte) {
    || 0x30 <= b <= 0x39 || 0x41 <= b <= 0x5A || 0x61 <= b <= 0x7A
    || b in [0x21, 0x23, 0x24, 0x25, 0x26, 0x27, 0x2A, 0x2B, 0x2D, 0x2E, 0x5E, 0x5F, 0x60, 0x7C, 0x7E]
  }

  predicate Token(s: Bytes) {
    s != [] && forall i :: 0 <= i < |s| ==> TokenChar(s[i])
  }

  /** SP or HTAB. */
  predicate Blank(b: Byte) {
    b == 0x20 || b == 0x09
  }

  /** BWS, section 5.6.3. */
  predicate Blanks(s: Bytes) {
    forall i :: 0 <= i < |s| ==> Blank(s[i])
  }

  /** SP, HTAB, VCHAR or obs-text. */
  predicate TextChar(b: Byte) {
    Blank(b) || 0x21 <= b <= 0x7E || b >= 0x80
  }

  /** What stands between the quotes of a quoted-string, section 5.6.4: qdtext and
      quoted-pairs. */
  predicate QuotedText(s: Bytes) {
    || s == []
    || (TextChar(s[0]) && s[0] != 0x22 && s[0] != 0x5C && QuotedText(s[1..]))
    || (|s| >= 2 && s[0] == 0x5C && TextChar(s[1]) && QuotedText(s[2..]))
  }

  predicate QuotedString(s: Bytes) {
    |s| >= 2 && s[0] == 0x22 && s[|s| - 1] == 0x22 && QuotedText(s[1..|s| - 1])
  }

  /** BWS "=" BWS chunk-ext-val, or nothing. */
  ghost predicate ExtensionValue(s: Bytes) {
    || s == []
    || exists before, after, value ::
         Blanks(before) && Blanks(after) && (Token(value) || QuotedString(value))
           && s == before + [0x3D] + after + value
  }

  /** BWS ";" BWS chunk-ext-name, and perhaps a value. */
  ghost predicate Extension(s: Bytes) {
    exists before, after, name, value ::
      Blanks(before) && Blanks(after) && Token(name) && ExtensionValue(value)
      && s == before + [0x3B] + after + name + value
  }

  /** chunk-ext, section 7.1.1. */
  ghost predicate Extensions(s: Bytes) {
    exists parts: seq<Bytes> :: (forall i :: 0 <= i < |parts| ==> Extension(parts[i])) && s == Lines(parts)
  }

  predicate HexDigits(s: Bytes) {
    s != [] && forall i :: 0 <= i < |s| ==> HexValue(s[i]).Some?
  }

  /** chunk-size [ chunk-ext ] CRLF. */
  ghost predicate SizeLine(line: Bytes, digits: Bytes) {
    HexDigits(digits) && exists ext :: Extensions(ext) && line == digits + ext + CRLF
  }

  ghost predicate RfcChunk(c: Chunk) {
    c.data != [] && exists digits :: SizeLine(c.line, digits) && Number(digits) == Some(|c.data|)
  }

  /** last-chunk: its size is written with zeros only. */
  ghost predicate LastLine(line: Bytes) {
    exists digits :: SizeLine(line, digits) && forall i :: 0 <= i < |digits| ==> digits[i] == 0x30
  }

  /** field-line CRLF, section 5: a name, a colon and a value with white space around it. */
  ghost predicate FieldLine(line: Bytes) {
    exists name, value: Bytes ::
      Token(name) && (forall i :: 0 <= i < |value| ==> TextChar(value[i])) && line == name + [0x3A] + value + CRLF
  }

  /** chunked-body, taken apart. */
  ghost predicate RfcBody(b: Body) {
    && (forall i :: 0 <= i < |b.chunks| ==> RfcChunk(b.chunks[i]))
    && LastLine(b.last) && (forall i :: 0 <= i < |b.trailers| ==> FieldLine(b.trailers[i]))
    && b.blank == CRLF
  }

  /** chunked-body. */
  ghost predicate IsRfcBody(text: Bytes) {
    exists b :: RfcBody(b) && BodyText(b) == text
  }

  /** The forwarder's two limits. */
  predicate WithinLimits(b: Body, limit: nat) {
    && (forall i :: 0 <= i < |b.chunks| ==> |b.chunks[i].line| <= MAX_LINE) && |b.last| <= MAX_LINE
    && |Lines(b.trailers)| + |b.blank| <= limit
  }

  // ---------------------------------------------------------------- the accepted form, limits aside

  predicate Shaped(b: Body) {
    && (forall i :: 0 <= i < |b.chunks| ==> b.chunks[i].data != [] && HeaderShape(b.chunks[i].line, |b.chunks[i].data|))
    && HeaderShape(b.last, 0)
    && (forall i :: 0 <= i < |b.trailers| ==> IsLine(b.trailers[i]) && !IsBlank(b.trailers[i]))
    && IsBlank(b.blank)
  }

  lemma BodyOkParts(b: Body, limit: nat)
    ensures BodyOk(b, limit) <==> Shaped(b) && WithinLimits(b, limit)
  {
    hide HeaderShape, IsLine, IsBlank, Lines;
    assert (forall i :: 0 <= i < |b.chunks| ==> ChunkOk(b.chunks[i]))
      <==> forall i :: 0 <= i < |b.chunks| ==>
             b.chunks[i].data != [] && HeaderShape(b.chunks[i].line, |b.chunks[i].data|)
               && |b.chunks[i].line| <= MAX_LINE;
  }

  /** Two streams that start alike start with the same line. */
  lemma SameLine(a: Bytes, x: Bytes, b: Bytes, y: Bytes)
    requires IsLine(a) && IsLine(b) && a + x == b + y
    ensures a == b && x == y
  {
    LineEndOf(a, x);
    LineEndOf(b, y);
    SplitAfter(a, x);
    SplitAfter(b, y);
  }

  lemma {:induction false} SameTrailers(a: seq<Bytes>, blankA: Bytes, x: Bytes, b: seq<Bytes>, blankB: Bytes, y: Bytes)
    requires forall i :: 0 <= i < |a| ==> IsLine(a[i]) && !IsBlank(a[i])
    requires forall i :: 0 <= i < |b| ==> IsLine(b[i]) && !IsBlank(b[i])
    requires IsBlank(blankA) && IsBlank(blankB) && Lines(a) + blankA + x == Lines(b) + blankB + y
    ensures a == b && blankA == blankB && x == y
    decreases |a|
  {
    hide IsLine, IsBlank;
    BlankLine(blankA);
    BlankLine(blankB);
    var firstA, restA := if a == [] then blankA else a[0], if a == [] then x else Lines(a[1..]) + blankA + x;
    var firstB, restB := if b == [] then blankB else b[0], if b == [] then y else Lines(b[1..]) + blankB + y;
    assert Lines(a) + blankA + x == firstA + restA;
    assert Lines(b) + blankB + y == firstB + restB;
    SameLine(firstA, restA, firstB, restB);
    if a != [] && b != [] {
      SameTrailers(a[1..], blankA, x, b[1..], blankB, y);
      assert a == [a[0]] + a[1..] && b == [b[0]] + b[1..];
    }
  }

  lemma SplitChunk(b: Body) returns (line: Bytes, rest: Bytes, tail: Body)
    ensures BodyText(b) == line + rest
    ensures if b.chunks == [] then line == b.last && rest == TrailersText(b) && tail == b
            else
              && line == b.chunks[0].line && tail == b.(chunks := b.chunks[1..])
              && rest == b.chunks[0].data + CRLF + BodyText(tail)
  {
    if b.chunks == [] {
      line, rest, tail := b.last, TrailersText(b), b;
    } else {
      tail := b.(chunks := b.chunks[1..]);
      line, rest := b.chunks[0].line, b.chunks[0].data + CRLF + BodyText(tail);
      BodyCons(b.chunks[0], tail);
      assert b == tail.(chunks := [b.chunks[0]] + tail.chunks);
    }
  }

  lemma ShapedTail(b: Body)
    requires Shaped(b) && b.chunks != []
    ensures Shaped(b.(chunks := b.chunks[1..]))
    ensures b.chunks[0].data != [] && HeaderShape(b.chunks[0].line, |b.chunks[0].data|)
  {
    hide HeaderShape, IsLine, IsBlank;
  }

  lemma ShapedLast(b: Body)
    requires Shaped(b)
    ensures HeaderShape(b.last, 0)
  {
  }

  lemma ShapeOfLine(line: Bytes, m: nat, n: nat)
    requires HeaderShape(line, m)
    ensures IsLine(line) && (HeaderShape(line, n) ==> m == n)
  {
  }

  /** A stream starts with at most one body of this form. */
  lemma {:induction false} SameBody(a: Body, x: Bytes, b: Body, y: Bytes)
    requires Shaped(a) && Shaped(b) && BodyText(a) + x == BodyText(b) + y
    ensures a == b && x == y
    decreases |a.chunks|
  {
    hide Shaped, HeaderShape, IsLine, BodyText, TrailersText;
    var lineA, restA, tailA := SplitChunk(a);
    var lineB, restB, tailB := SplitChunk(b);
    ShapedLast(a);
    ShapedLast(b);
    if a.chunks != [] {
      ShapedTail(a);
    }
    if b.chunks != [] {
      ShapedTail(b);
    }
    var sizeA := if a.chunks == [] then 0 else |a.chunks[0].data|;
    var sizeB := if b.chunks == [] then 0 else |b.chunks[0].data|;
    ShapeOfLine(lineA, sizeA, sizeB);
    ShapeOfLine(lineB, sizeB, sizeA);
    assert BodyText(a) + x == lineA + (restA + x) && BodyText(b) + y == lineB + (restB + y);
    SameLine(lineA, restA + x, lineB, restB + y);
    if a.chunks == [] {
      TrailersAlike(a, x, b, y);
    } else {
      assert restA + x == a.chunks[0].data + CRLF + (BodyText(tailA) + x);
      assert restB + y == b.chunks[0].data + CRLF + (BodyText(tailB) + y);
      DataAlike(a.chunks[0].data, BodyText(tailA) + x, b.chunks[0].data, BodyText(tailB) + y);
      SameBody(tailA, x, tailB, y);
      assert a.chunks == [a.chunks[0]] + tailA.chunks && b.chunks == [b.chunks[0]] + tailB.chunks;
    }
  }

  lemma TrailersAlike(a: Body, x: Bytes, b: Body, y: Bytes)
    requires Shaped(a) && Shaped(b) && TrailersText(a) + x == TrailersText(b) + y
    ensures a.trailers == b.trailers && a.blank == b.blank && x == y
  {
    hide HeaderShape;
    SameTrailers(a.trailers, a.blank, x, b.trailers, b.blank, y);
  }

  lemma DataAlike(a: Bytes, x: Bytes, b: Bytes, y: Bytes)
    requires |a| == |b| && a + CRLF + x == b + CRLF + y
    ensures a == b && x == y
  {
    var s := a + CRLF + x;
    assert s[..|a|] == a && s[|a| + 2..] == x;
    assert s == b + CRLF + y;
    assert s[..|b|] == b && s[|b| + 2..] == y;
  }

  // ---------------------------------------------------------------- lines of the grammar are lines

  predicate NoLf(s: Bytes) {
    LF !in s
  }

  lemma NoLfConcat(a: Bytes, b: Bytes)
    requires NoLf(a) && NoLf(b)
    ensures NoLf(a + b)
  {
  }

  lemma LineOf(text: Bytes)
    requires NoLf(text)
    ensures IsLine(text + CRLF) && EndsCrLf(text + CRLF)
  {
    assert text + CRLF == (text + [CR]) + [LF];
    assert (text + CRLF)[|text|..] == CRLF;
  }

  lemma {:induction false} QuotedNoLf(s: Bytes)
    requires QuotedText(s)
    ensures NoLf(s)
    decreases |s|
  {
    if s != [] {
      if s[0] != 0x5C {
        QuotedNoLf(s[1..]);
        assert s == [s[0]] + s[1..];
      } else {
        QuotedNoLf(s[2..]);
        assert s == [s[0], s[1]] + s[2..];
      }
    }
  }

  lemma ValueNoLf(s: Bytes)
    requires Token(s) || QuotedString(s)
    ensures NoLf(s)
  {
    if QuotedString(s) {
      var inner := s[1..|s| - 1];
      QuotedNoLf(inner);
      assert s == [s[0]] + inner + [s[|s| - 1]];
    }
  }

  lemma BlanksNoLf(s: Bytes)
    requires Blanks(s)
    ensures NoLf(s)
  {
  }

  lemma ExtensionValueNoLf(s: Bytes)
    requires ExtensionValue(s)
    ensures NoLf(s)
  {
    hide Token, QuotedString, Blanks;
    if s != [] {
      var b, a, v :| Blanks(b) && Blanks(a) && (Token(v) || QuotedString(v)) && s == b + [0x3D] + a + v;
      BlanksNoLf(b);
      BlanksNoLf(a);
      ValueNoLf(v);
    }
  }

  lemma ExtensionNoLf(s: Bytes) returns (before: Bytes, rest: Bytes)
    requires Extension(s)
    ensures NoLf(s) && Blanks(before) && s == before + [0x3B] + rest
  {
    hide Token, QuotedString, Blanks, ExtensionValue;
    var b, after, name, value :|
      Blanks(b) && Blanks(after) && Token(name) && ExtensionValue(value) && s == b + [0x3B] + after + name + value;
    BlanksNoLf(b);
    BlanksNoLf(after);
    ValueNoLf(name);
    ExtensionValueNoLf(value);
    before, rest := b, after + name + value;
    assert s == before + [0x3B] + rest;
  }

  /** Extensions hold no line feed, and begin, if there are any, with white space and a
      semicolon. */
  lemma {:induction false} ExtensionsNoLf(parts: seq<Bytes>) returns (before: Bytes, rest: Bytes)
    requires forall i :: 0 <= i < |parts| ==> Extension(parts[i])
    ensures NoLf(Lines(parts))
    ensures parts != [] ==> Blanks(before) && Lines(parts) == before + [0x3B] + rest
    decreases |parts|
  {
    before, rest := [], [];
    if parts != [] {
      var _, _ := ExtensionsNoLf(parts[1..]);
      before, rest := ExtensionNoLf(parts[0]);
      assert Lines(parts) == before + [0x3B] + (rest + Lines(parts[1..]));
      rest := rest + Lines(parts[1..]);
    }
  }

  lemma {:induction false} BeforeSemicolonOf(s: Bytes, rest: Bytes)
    requires 0x3B !in s && (rest == [] || rest[0] == 0x3B)
    ensures BeforeSemicolon(s + rest) == s
    decreases |s|
  {
    if s == [] {
      assert s + rest == rest;
    } else {
      assert (s + rest)[1..] == s[1..] + rest;
      BeforeSemicolonOf(s[1..], rest);
    }
  }

  lemma {:induction false} StripRightOf(digits: Bytes, blanks: Bytes)
    requires HexDigits(digits) && forall i :: 0 <= i < |blanks| ==> IsSpace(blanks[i])
    ensures StripRight(digits + blanks) == digits
    decreases |blanks|
  {
    if blanks == [] {
      assert digits + blanks == digits;
    } else {
      var all := digits + blanks;
      assert all[..|all| - 1] == digits + blanks[..|blanks| - 1];
      StripRightOf(digits, blanks[..|blanks| - 1]);
    }
  }

  lemma {:induction false} NumberDigits(s: Bytes)
    requires forall i :: 0 <= i < |s| ==> HexValue(s[i]).Some?
    ensures Number(s).Some?
    ensures (forall i :: 0 <= i < |s| ==> s[i] == 0x30) ==> Number(s) == Some(0)
    decreases |s|
  {
    if s != [] {
      NumberDigits(s[..|s| - 1]);
    }
  }

  /** A size line up to its first semicolon, or up to its end. */
  lemma SizeLineParts(line: Bytes, digits: Bytes) returns (blanks: Bytes, tail: Bytes)
    requires SizeLine(line, digits)
    ensures HexDigits(digits) && line == (digits + blanks) + tail && (tail == [] || tail[0] == 0x3B)
    ensures forall i :: 0 <= i < |blanks| ==> IsSpace(blanks[i])
    ensures IsLine(line) && EndsCrLf(line)
  {
    hide Extension, Blanks, HexDigits, IsLine, EndsCrLf, NoLf;
    var ext :| Extensions(ext) && line == digits + ext + CRLF;
    var parts: seq<Bytes> :| (forall i :: 0 <= i < |parts| ==> Extension(parts[i])) && ext == Lines(parts);
    var before, rest := ExtensionsNoLf(parts);
    if parts == [] {
      blanks, tail := CRLF, [];
    } else {
      BlanksAreSpace(before);
      blanks, tail := before, [0x3B] + rest + CRLF;
    }
    assert line == (digits + blanks) + tail;
    assert NoLf(digits) by { HexNoLf(digits); }
    NoLfConcat(digits, ext);
    LineOf(digits + ext);
  }

  lemma BlanksAreSpace(s: Bytes)
    requires Blanks(s)
    ensures forall i :: 0 <= i < |s| ==> IsSpace(s[i])
  {
  }

  lemma HexNoLf(s: Bytes)
    requires HexDigits(s)
    ensures NoLf(s)
  {
  }

  lemma SizeOf(digits: Bytes, blanks: Bytes, tail: Bytes)
    requires HexDigits(digits) && (forall i :: 0 <= i < |blanks| ==> IsSpace(blanks[i]))
    requires tail == [] || tail[0] == 0x3B
    ensures Number(digits).Some? && ChunkSize((digits + blanks) + tail) == Number(digits)
  {
    hide Number, StripRight, BeforeSemicolon;
    NumberDigits(digits);
    assert 0x3B !in digits + blanks;
    BeforeSemicolonOf(digits + blanks, tail);
    StripRightOf(digits, blanks);
    assert StripLeft(digits + blanks) == digits + blanks;
  }

  /** The forwarder reads the size of every size line of the grammar as what its digits say. */
  lemma SizeLineRead(line: Bytes, digits: Bytes)
    requires SizeLine(line, digits)
    ensures Number(digits).Some? && HeaderShape(line, Number(digits).value)
  {
    hide SizeLine, IsLine, EndsCrLf, ChunkSize, Number;
    var blanks, tail := SizeLineParts(line, digits);
    SizeOf(digits, blanks, tail);
  }

  lemma FieldLineRead(line: Bytes)
    requires FieldLine(line)
    ensures IsLine(line) && !IsBlank(line)
  {
    var name, value: Bytes :|
      Token(name) && (forall i :: 0 <= i < |value| ==> TextChar(value[i])) && line == name + [0x3A] + value + CRLF;
    ValueNoLf(name);
    LineOf(name + [0x3A] + value);
    assert line[0] == name[0];
  }

  lemma RfcChunkRead(c: Chunk)
    requires RfcChunk(c)
    ensures c.data != [] && HeaderShape(c.line, |c.data|)
  {
    hide SizeLine, HeaderShape, Number;
    var digits :| SizeLine(c.line, digits) && Number(digits) == Some(|c.data|);
    SizeLineRead(c.line, digits);
  }

  lemma LastLineRead(line: Bytes)
    requires LastLine(line)
    ensures HeaderShape(line, 0)
  {
    hide SizeLine, HeaderShape, Number, HexValue;
    var zeros :| SizeLine(line, zeros) && forall i :: 0 <= i < |zeros| ==> zeros[i] == 0x30;
    SizeLineRead(line, zeros);
    assert forall i :: 0 <= i < |zeros| ==> HexValue(zeros[i]).Some? by { Zero(); }
    NumberDigits(zeros);
  }

  lemma Zero()
    ensures HexValue(0x30).Some?
  {
  }

  /** A body of the grammar has the form the forwarder looks for. */
  lemma RfcShaped(b: Body)
    requires RfcBody(b)
    ensures Shaped(b)
  {
    hide RfcChunk, LastLine, FieldLine, HeaderShape, IsLine;
    forall i | 0 <= i < |b.chunks| ensures b.chunks[i].data != [] && HeaderShape(b.chunks[i].line, |b.chunks[i].data|) {
      RfcChunkRead(b.chunks[i]);
    }
    LastLineRead(b.last);
    forall i | 0 <= i < |b.trailers| ensures IsLine(b.trailers[i]) && !IsBlank(b.trailers[i]) {
      FieldLineRead(b.trailers[i]);
    }
  }

  // ---------------------------------------------------------------- the results

  /** A chunked body of RFC 9112, whatever follows it in the stream, is taken whole exactly
      when its chunk lines and its trailers are within the forwarder's limits; and when they
      are not, nothing else is taken for the body. */
  lemma RfcBodyTaken(b: Body, more: Bytes, limit: nat)
    requires RfcBody(b)
    ensures ChunkedEnd(BodyText(b) + more, limit).Ok? <==> WithinLimits(b, limit)
    ensures WithinLimits(b, limit) ==> ChunkedEnd(BodyText(b) + more, limit) == Ok(|BodyText(b)|)
  {
    hide RfcBody, WithinLimits, BodyOk, Shaped, BodyText, ChunkedEnd;
    RfcShaped(b);
    BodyOkParts(b, limit);
    if WithinLimits(b, limit) {
      BodyReads(b, more, limit);
    }
    if ChunkedEnd(BodyText(b) + more, limit).Ok? {
      var found, after := BodyFound(BodyText(b) + more, limit);
      BodyOkParts(found, limit);
      SameBody(b, more, found, after);
    }
  }

  /** What goes upstream of a body that is accepted, taken apart in the only way there is, is a
      chunked body of RFC 9112 exactly when its lines are what that grammar asks for: nothing
      but hexadecimal digits and chunk extensions in a chunk's line, only zeros in the last
      one's size, a field line in each trailer, and CRLF for the blank line. */
  lemma ForwardedIsRfcIff(s: Bytes, limit: nat, n: nat) returns (b: Body)
    requires ChunkedEnd(s, limit) == Ok(n)
    ensures BodyOk(b, limit) && BodyText(b) == s[..n]
    ensures IsRfcBody(s[..n]) <==> RfcBody(b)
  {
    hide RfcBody, WithinLimits, BodyOk, Shaped, BodyText, ChunkedEnd;
    var more;
    b, more := BodyFound(s, limit);
    SplitAfter(BodyText(b), more);
    BodyOkParts(b, limit);
    if IsRfcBody(s[..n]) {
      var c :| RfcBody(c) && BodyText(c) == s[..n];
      RfcShaped(c);
      assert BodyText(b) + [] == BodyText(c) + [];
      SameBody(b, [], c, []);
    }
  }

  /** The forwarder takes a bare line feed for the blank line, and forwards it. */
  lemma BareLineFeedAccepted(limit: nat)
    requires limit >= 1
    ensures var s: Bytes := [0x30, CR, LF, LF];
            ChunkedEnd(s, limit) == Ok(4) && !IsRfcBody(s)
  {
    hide ChunkedEnd, RfcBody;
    var s: Bytes := [0x30, CR, LF, LF];
    var b := Body([], [0x30, CR, LF], [], [LF]);
    ZeroLine();
    assert BodyOk(b, limit);
    assert BodyText(b) == s && s + [] == s;
    BodyReads(b, [], limit);
    BodyOkParts(b, limit);
    if IsRfcBody(s) {
      var c :| RfcBody(c) && BodyText(c) == s;
      RfcShaped(c);
      SameBody(b, [], c, []);
      EndsInCrLf(c);
    }
  }

  lemma ZeroLine()
    ensures HeaderOk([0x30, CR, LF], 0)
  {
    BeforeSemicolonOf([0x30, CR, LF], []);
    assert [0x30, CR, LF] + [] == [0x30, CR, LF];
    StripRightOf([0x30], [CR, LF]);
    assert [0x30] + [CR, LF] == [0x30, CR, LF];
    NumberDigits([0x30]);
  }

  lemma EndsInCrLf(b: Body)
    requires RfcBody(b)
    ensures b.blank == CRLF
  {
  }

  /** It takes white space on both sides of a chunk's size, a vertical tab for one, and forwards
      that too: here before the five octets of "hello". */
  lemma WhiteSpaceAccepted(limit: nat)
    requires limit >= 2
    ensures var s: Bytes := [0x0B, 0x35, 0x20, CR, LF] + [0x68, 0x65, 0x6C, 0x6C, 0x6F] + CRLF + [0x30, CR, LF] + CRLF;
            ChunkedEnd(s, limit) == Ok(17) && !IsRfcBody(s)
  {
    hide ChunkedEnd, RfcBody, HeaderOk;
    var line: Bytes, data: Bytes := [0x0B, 0x35, 0x20, CR, LF], [0x68, 0x65, 0x6C, 0x6C, 0x6F];
    var b := Body([Chunk(line, data)], [0x30, CR, LF], [], CRLF);
    var s := line + data + CRLF + [0x30, CR, LF] + CRLF;
    ZeroLine();
    SpacedLine();
    var end := Body([], [0x30, CR, LF], [], CRLF);
    BodyCons(Chunk(line, data), end);
    assert b == end.(chunks := [Chunk(line, data)] + end.chunks);
    assert BodyText(end) == [0x30, CR, LF] + CRLF;
    assert BodyText(b) == s && s + [] == s;
    BodyReads(b, [], limit);
    BodyOkParts(b, limit);
    if IsRfcBody(s) {
      var c :| RfcBody(c) && BodyText(c) == s;
      RfcShaped(c);
      SameBody(b, [], c, []);
      DigitsFirst(c);
    }
  }

  lemma SpacedLine()
    ensures HeaderOk([0x0B, 0x35, 0x20, CR, LF], 5)
  {
    var line: Bytes := [0x0B, 0x35, 0x20, CR, LF];
    BeforeSemicolonOf(line, []);
    assert line + [] == line;
    StripRightOf([0x35], [0x20, CR, LF]);
    assert line[1..] == [0x35] + [0x20, CR, LF];
    assert StripLeft(line) == line[1..];
    assert [0x35][..0] == [];
  }

  lemma DigitsFirst(b: Body)
    requires RfcBody(b) && b.chunks != []
    ensures b.chunks[0].line != [] && HexValue(b.chunks[0].line[0]).Some?
  {
    var digits :| SizeLine(b.chunks[0].line, digits) && Number(digits) == Some(|b.chunks[0].data|);
    var ext :| Extensions(ext) && b.chunks[0].line == digits + ext + CRLF;
    assert b.chunks[0].line[0] == digits[0];
  }

  // ---------------------------------------------------------------- a body of the grammar

  lemma NoExtensions()
    ensures Extensions([])
  {
    var parts: seq<Bytes> := [];
    assert Lines(parts) == [];
  }

  lemma OnePart(part: Bytes)
    requires Extension(part)
    ensures Extensions(part)
  {
    hide Extension;
    assert [part][1..] == [] && Lines([part]) == part + Lines([part][1..]) == part;
  }

  lemma ValueMade(before: Bytes, after: Bytes, value: Bytes)
    requires Blanks(before) && Blanks(after) && (Token(value) || QuotedString(value))
    ensures ExtensionValue(before + [0x3D] + after + value)
  {
    hide Blanks, Token, QuotedString;
  }

  lemma ExtensionMade(before: Bytes, after: Bytes, name: Bytes, value: Bytes)
    requires Blanks(before) && Blanks(after) && Token(name) && ExtensionValue(value)
    ensures Extension(before + [0x3B] + after + name + value)
  {
    hide Blanks, Token, ExtensionValue;
  }

  lemma SizeLineMade(digits: Bytes, ext: Bytes)
    requires HexDigits(digits) && Extensions(ext)
    ensures SizeLine(digits + ext + CRLF, digits)
  {
    hide HexDigits, Extensions;
  }

  lemma ChunkMade(digits: Bytes, ext: Bytes, data: Bytes)
    requires HexDigits(digits) && Extensions(ext) && data != [] && Number(digits) == Some(|data|)
    ensures RfcChunk(Chunk(digits + ext + CRLF, data))
  {
    hide HexDigits, Extensions, SizeLine, Number;
    SizeLineMade(digits, ext);
  }

  lemma LastMade(zeros: Bytes, ext: Bytes)
    requires zeros != [] && (forall i :: 0 <= i < |zeros| ==> zeros[i] == 0x30) && Extensions(ext)
    ensures LastLine(zeros + ext + CRLF)
  {
    hide Extensions, SizeLine;
    SizeLineMade(zeros, ext);
  }

  lemma FieldMade(name: Bytes, value: Bytes)
    requires Token(name) && forall i :: 0 <= i < |value| ==> TextChar(value[i])
    ensures FieldLine(name + [0x3A] + value + CRLF)
  {
    hide Token, TextChar;
  }

  /** ;a="b" is an extension: its name is a token, its value a quoted string. */
  lemma OneExtension()
    ensures Extensions([0x3B, 0x61, 0x3D, 0x22, 0x62, 0x22])
  {
    hide QuotedText, Extensions, Extension, ExtensionValue;
    var value: Bytes, part: Bytes := [0x22, 0x62, 0x22], [0x3B, 0x61, 0x3D, 0x22, 0x62, 0x22];
    OneQuoted(0x62);
    assert value[1..2] == [0x62];
    ValueMade([], [], value);
    ExtensionMade([], [], [0x61], [] + [0x3D] + [] + value);
    assert [] + [0x3B] + [] + [0x61] + ([] + [0x3D] + [] + value) == part;
    OnePart(part);
  }

  lemma OneQuoted(b: Byte)
    requires TextChar(b) && b != 0x22 && b != 0x5C
    ensures QuotedText([b])
  {
    assert [b][1..] == [];
  }

  /** "hello" in one chunk with an extension, and a trailer. */
  lemma SomeRfcBody() returns (b: Body)
    ensures RfcBody(b) && |b.chunks| == 1 && |b.trailers| == 1
    ensures b.chunks[0].line == [0x35] + [0x3B, 0x61, 0x3D, 0x22, 0x62, 0x22] + CRLF
    ensures b.chunks[0].data == [0x68, 0x65, 0x6C, 0x6C, 0x6F]
  {
    hide Extensions, RfcChunk, LastLine, FieldLine;
    var ext: Bytes, data: Bytes := [0x3B, 0x61, 0x3D, 0x22, 0x62, 0x22], [0x68, 0x65, 0x6C, 0x6C, 0x6F];
    OneExtension();
    NoExtensions();
    assert [0x35][..0] == [] && Number([0x35]) == Some(5);
    ChunkMade([0x35], ext, data);
    LastMade([0x30], []);
    FieldMade([0x58], [0x20, 0x79]);
    b := Body([Chunk([0x35] + ext + CRLF, data)], [0x30] + [] + CRLF, [[0x58] + [0x3A] + [0x20, 0x79] + CRLF], CRLF);
  }

  // ---------------------------------------------------------------- sizes in base sixteen

  /** The octets are digits of these values, in either case. */
  predicate Spells(s: Bytes, values: seq<nat>) {
    && |s| == |values|
    && forall i :: 0 <= i < |s| ==>
         && values[i] < 16
         && (s[i] == "0123456789abcdef"[values[i]] as int || s[i] == "0123456789ABCDEF"[values[i]] as int)
  }

  function Power(base: nat, n: nat): nat {
    if n == 0 then 1 else base * Power(base, n - 1)
  }

  /** Each digit times the power of sixteen of its place. */
  function Sum(values: seq<nat>): nat {
    if values == [] then 0 else values[0] * Power(16, |values| - 1) + Sum(values[1..])
  }

  lemma {:induction false} SumLast(values: seq<nat>, last: nat)
    ensures Sum(values + [last]) == 16 * Sum(values) + last
  {
    var all := values + [last];
    if values == [] {
      assert all[1..] == [];
    } else {
      assert all[1..] == values[1..] + [last];
      SumLast(values[1..], last);
      Times(values[0], Power(16, |values| - 1));
    }
  }

  lemma Times(a: nat, p: nat)
    ensures a * (16 * p) == 16 * (a * p)
  {
  }

  lemma {:induction false} NumberOf(s: Bytes, values: seq<nat>)
    requires Spells(s, values)
    ensures Number(s) == Some(Sum(values))
    decreases |s|
  {
    if s != [] {
      var last := |s| - 1;
      assert Spells(s[..last], values[..last]);
      NumberOf(s[..last], values[..last]);
      Common.HexDigits(s[last], values[last]);
      assert values == values[..last] + [values[last]];
      SumLast(values[..last], values[last]);
    }
  }

  lemma {:induction false} DigitsOf(s: Bytes) returns (values: seq<nat>)
    requires Number(s).Some?
    ensures Spells(s, values)
    decreases |s|
  {
    values := [];
    if s != [] {
      var last := |s| - 1;
      var before := DigitsOf(s[..last]);
      var v := HexValue(s[last]).value;
      Common.HexDigits(s[last], v);
      values := before + [v];
      forall i | 0 <= i < |s|
        ensures values[i] < 16
                && (s[i] == "0123456789abcdef"[values[i]] as int || s[i] == "0123456789ABCDEF"[values[i]] as int) {
        assert i < last ==> s[i] == s[..last][i] && values[i] == before[i];
      }
    }
  }

  /** What a chunk's size reads as: the number its digits spell in base sixteen, in upper or
      lower case and with zeros before them or without; anything else is no size. */
  lemma NumberIff(s: Bytes, n: nat)
    ensures Number(s) == Some(n) <==> exists values :: Spells(s, values) && Sum(values) == n
  {
    if Number(s) == Some(n) {
      var values := DigitsOf(s);
      NumberOf(s, values);
    }
    if values :| Spells(s, values) && Sum(values) == n {
      NumberOf(s, values);
    }
  }

  /** The digits of a number, the lowest last. */
  function Places(n: nat): (values: seq<nat>)
    ensures values != [] && forall i :: 0 <= i < |values| ==> values[i] < 16
  {
    if n < 16 then [n] else Places(n / 16) + [n % 16]
  }

  function Spelled(values: seq<nat>, digits: string): Bytes
    requires |digits| == 16 && (forall i :: 0 <= i < 16 ==> digits[i] as int < 0x100)
    requires forall i :: 0 <= i < |values| ==> values[i] < 16
  {
    seq(|values|, i requires 0 <= i < |values| => digits[values[i]] as int)
  }

  /** So every number reads back from its digits, in either case and behind any zeros. */
  lemma {:induction false} PlacesSum(n: nat)
    ensures Sum(Places(n)) == n
  {
    if n < 16 {
      assert [n][1..] == [] && Power(16, 0) == 1;
    } else {
      PlacesSum(n / 16);
      SumLast(Places(n / 16), n % 16);
    }
  }

  lemma {:induction false} ZerosBefore(zeros: nat, values: seq<nat>)
    ensures Sum(seq(zeros, _ => 0) + values) == Sum(values)
  {
    var all := seq(zeros, _ => 0) + values;
    if zeros == 0 {
      assert all == values;
    } else {
      assert all[1..] == seq(zeros - 1, _ => 0) + values;
      ZerosBefore(zeros - 1, values);
    }
  }

  lemma InLowerCase(values: seq<nat>)
    requires forall i :: 0 <= i < |values| ==> values[i] < 16
    ensures Spells(Spelled(values, "0123456789abcdef"), values)
  {
  }

  lemma InUpperCase(values: seq<nat>)
    requires forall i :: 0 <= i < |values| ==> values[i] < 16
    ensures Spells(Spelled(values, "0123456789ABCDEF"), values)
  {
  }

  lemma SizeRoundTrip(n: nat, zeros: nat)
    ensures var values: seq<nat> := seq(zeros, _ => 0) + Places(n);
            && Number(Spelled(values, "0123456789abcdef")) == Some(n)
            && Number(Spelled(values, "0123456789ABCDEF")) == Some(n)
  {
    hide Number, Sum, Spells, Spelled, Places;
    var values: seq<nat> := seq(zeros, _ => 0) + Places(n);
    PlacesSum(n);
    ZerosBefore(zeros, Places(n));
    InLowerCase(values);
    NumberOf(Spelled(values, "0123456789abcdef"), values);
    InUpperCase(values);
    NumberOf(Spelled(values, "0123456789ABCDEF"), values);
  }

  /** A chunk of sixteen octets, announced as "10", and the last chunk. */
  lemma SixteenOctets(data: Bytes, more: Bytes, limit: nat)
    requires |data| == 16 && limit >= 2
    ensures ChunkedEnd([0x31, 0x30, 0x0D, 0x0A] + data + [0x0D, 0x0A] + [0x30, 0x0D, 0x0A] + [0x0D, 0x0A] + more, limit)
            == Ok(27)
  {
    hide ChunkedEnd, HeaderOk, BodyText, ChunkOk;
    var line: Bytes := [0x31, 0x30, 0x0D, 0x0A];
    var b := Body([Chunk(line, data)], [0x30, 0x0D, 0x0A], [], [0x0D, 0x0A]);
    SixteenLine();
    ZeroLine();
    SixteenText(data);
    assert ChunkOk(Chunk(line, data)) by { SixteenChunk(data); }
    BodyReads(b, more, limit);
  }

  lemma SixteenChunk(data: Bytes)
    requires |data| == 16 && HeaderOk([0x31, 0x30, 0x0D, 0x0A], 16)
    ensures ChunkOk(Chunk([0x31, 0x30, 0x0D, 0x0A], data))
  {
    hide HeaderOk;
  }

  lemma SixteenText(data: Bytes)
    ensures BodyText(Body([Chunk([0x31, 0x30, 0x0D, 0x0A], data)], [0x30, 0x0D, 0x0A], [], [0x0D, 0x0A]))
            == [0x31, 0x30, 0x0D, 0x0A] + data + [0x0D, 0x0A] + [0x30, 0x0D, 0x0A] + [0x0D, 0x0A]
  {
    var line: Bytes := [0x31, 0x30, 0x0D, 0x0A];
    var end := Body([], [0x30, 0x0D, 0x0A], [], [0x0D, 0x0A]);
    BodyCons(Chunk(line, data), end);
    assert [Chunk(line, data)] + end.chunks == [Chunk(line, data)];
  }

  lemma SixteenLine()
    ensures HeaderOk([0x31, 0x30, 0x0D, 0x0A], 16)
  {
    hide Number;
    var line: Bytes := [0x31, 0x30, 0x0D, 0x0A];
    BeforeSemicolonOf(line, []);
    assert line + [] == line;
    StripRightOf([0x31, 0x30], [0x0D, 0x0A]);
    assert line == [0x31, 0x30] + [0x0D, 0x0A];
    SixteenSpelled();
  }

  lemma SixteenSpelled()
    ensures Number([0x31, 0x30]) == Some(16)
  {
    assert Spells([0x31, 0x30], [1, 0]);
    NumberOf([0x31, 0x30], [1, 0]);
    assert Power(16, 1) == 16 * Power(16, 0) && [1, 0][1..] == [0] && [0][1..] == [];
    assert Sum([0]) == 0 && Sum([1, 0]) == 16;
  }

  // ---------------------------------------------------------------- what is refused

  /** Why a stream is refused at a chunk, in this order: it is over; its header line is longer
      than 8192 octets, does not end in CR LF, or has no size; and for a chunk of some size,
      its data and two octets more are not there, or these are not CR LF. */
  lemma ChunkRefused(s: Bytes, limit: nat)
    ensures var n := LineEnd(s);
            var size := ChunkSize(s[..n]);
            if s == [] then ChunkedEnd(s, limit) == Err(Closed)
            else if n > 8192 then ChunkedEnd(s, limit) == Err(TooLarge)
            else if n < 2 || s[n - 2] != 0x0D || s[n - 1] != 0x0A || size.None?
            then ChunkedEnd(s, limit) == Err(Malformed)
            else if size.value > 0 then
              var end := n + size.value;
              if |s| < end + 2 then ChunkedEnd(s, limit) == Err(Incomplete)
              else s[end] != 0x0D || s[end + 1] != 0x0A ==> ChunkedEnd(s, limit) == Err(Malformed)
            else TrailersEnd(s[n..], 0, limit).Err? ==> ChunkedEnd(s, limit) == TrailersEnd(s[n..], 0, limit)
  {
    hide LineEnd, ChunkSize, TrailersEnd, ChunkedEnd;
    ChunkCases(s, limit);
    HeaderVerdict(s);
    var n := LineEnd(s);
    if HeaderOf(s).Size? {
      PayloadVerdict(s, n, HeaderOf(s).size);
    }
  }

  /** Why a stream is refused among the trailers, or where it ends: it is over; the trailers so
      far come to more than the limit; or a line is CR LF or LF alone, and the body is whole. */
  lemma TrailersMeans(s: Bytes, total: nat, limit: nat)
    ensures var n := LineEnd(s);
            TrailersEnd(s, total, limit)
            == if s == [] then Err(Closed)
               else if total + n > limit then Err(TooLarge)
               else if s[..n] == [0x0D, 0x0A] || s[..n] == [0x0A] then Ok(n)
               else match TrailersEnd(s[n..], total + n, limit) case Ok(m) => Ok(n + m) case Err(e) => Err(e)
  {
    hide LineEnd;
    TrailersCases(s, total, limit);
  }

  lemma HeaderVerdict(s: Bytes)
    ensures var n := LineEnd(s);
            var size := ChunkSize(s[..n]);
            HeaderOf(s)
            == if s == [] then Refused(Closed)
               else if n > 8192 then Refused(TooLarge)
               else if n < 2 || s[n - 2] != 0x0D || s[n - 1] != 0x0A || size.None? then Refused(Malformed)
               else Size(size.value)
  {
    hide LineEnd, ChunkSize;
    var n := LineEnd(s);
    if n >= 2 {
      assert s[..n][n - 2..] == [s[n - 2], s[n - 1]];
    }
  }

  lemma PayloadVerdict(s: Bytes, n: nat, size: nat)
    requires n <= |s|
    ensures PayloadFault(s[n..], size)
            == if |s| < n + size + 2 then Some(Incomplete)
               else if s[n + size] != 0x0D || s[n + size + 1] != 0x0A then Some(Malformed) else None
  {
    if n + size + 2 <= |s| {
      assert s[n..][size..size + 2] == [s[n + size], s[n + size + 1]];
    }
  }

  /** White space around a size: tab, line feed, vertical tab, form feed, carriage return and
      space. */
  lemma SpaceOctets(b: Byte)
    ensures IsSpace(b) <==> b in {0x09, 0x0A, 0x0B, 0x0C, 0x0D, 0x20}
  {
  }

  /** A size may have white space on both sides, and an extension may follow it. */
  lemma SizeInLine(before: Bytes, digits: Bytes, after: Bytes, tail: Bytes, values: seq<nat>)
    requires digits != [] && Spells(digits, values) && (tail == [] || tail[0] == 0x3B)
    requires forall i :: 0 <= i < |before| ==> before[i] in {0x09, 0x0A, 0x0B, 0x0C, 0x0D, 0x20}
    requires forall i :: 0 <= i < |after| ==> after[i] in {0x09, 0x0A, 0x0B, 0x0C, 0x0D, 0x20}
    ensures ChunkSize(before + digits + after + tail) == Some(Sum(values))
  {
    hide Number, StripRight, StripLeft, BeforeSemicolon, Sum;
    NumberOf(digits, values);
    SpelledHex(digits, values);
    BeforeSemicolonOf(before + digits + after, tail);
    StripLeftOf(before, digits + after);
    assert before + digits + after == before + (digits + after);
    StripRightOf(digits, after);
  }

  lemma SpelledHex(s: Bytes, values: seq<nat>)
    requires Spells(s, values) && s != []
    ensures HexDigits(s) && 0x3B !in s && !IsSpace(s[0])
  {
    forall i | 0 <= i < |s| ensures HexValue(s[i]).Some? {
      Common.HexDigits(s[i], values[i]);
    }
  }

  lemma {:induction false} StripLeftOf(blanks: Bytes, rest: Bytes)
    requires (forall i :: 0 <= i < |blanks| ==> IsSpace(blanks[i])) && rest != [] && !IsSpace(rest[0])
    ensures StripLeft(blanks + rest) == rest
    decreases |blanks|
  {
    if blanks == [] {
      assert blanks + rest == rest;
    } else {
      assert (blanks + rest)[1..] == blanks[1..] + rest;
      StripLeftOf(blanks[1..], rest);
    }
  }

  /** The characters of a token. */
  lemma TokenChars(b: Byte)
    ensures TokenChar(b) <==>
            || '0' as int <= b <= '9' as int || 'A' as int <= b <= 'Z' as int || 'a' as int <= b <= 'z' as int
            || b as char in "!#$%&'*+-.^_`|~"
  {
  }
}
