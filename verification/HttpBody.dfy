/** Forwarding the body of a request (lib/http_proxy_server.py, _forward_request_body): by
    Content-Length, or in chunks.  What the forwarder accepts as a chunked body is told here
    by its own tests; HttpGrammar says how that compares with section 7.1 of RFC 9112. */
module HttpBody {
  import opened Common

  const CR: Byte := 0x0D
  const LF: Byte := 0x0A
  const CRLF: Bytes := [CR, LF]
  const MAX_LINE := 8192
  const BLOCK := 65536

  datatype BodyError = Closed | Incomplete | TooLarge | Malformed

  // ---------------------------------------------------------------- lines and sizes

  /** The length of the first line, its line feed included. */
  function LineEnd(s: Bytes): (n: nat)
    ensures n <= |s| && (s != [] ==> n > 0)
    ensures forall i :: 0 <= i < n - 1 ==> s[i] != LF
    ensures n < |s| ==> s[n - 1] == LF
  {
    if s == [] then 0 else if s[0] == LF then 1 else 1 + LineEnd(s[1..])
  }

  predicate EndsCrLf(line: Bytes) {
    |line| >= 2 && line[|line| - 2..] == CRLF
  }

  /** bytes.isspace, of one octet. */
  predicate IsSpace(b: Byte) {
    b == 0x20 || 0x09 <= b <= 0x0D
  }

  function StripLeft(s: Bytes): Bytes {
    if s != [] && IsSpace(s[0]) then StripLeft(s[1..]) else s
  }

  function StripRight(s: Bytes): Bytes {
    if s != [] && IsSpace(s[|s| - 1]) then StripRight(s[..|s| - 1]) else s
  }

  function BeforeSemicolon(s: Bytes): Bytes {
    if s == [] || s[0] == 0x3B then [] else [s[0]] + BeforeSemicolon(s[1..])
  }

  /** int(text, 16), of hexadecimal digits. */
  function Number(s: Bytes): Option<nat> {
    if s == [] then Some(0)
    else
      var high, low := Number(s[..|s| - 1]), HexValue(s[|s| - 1]);
      if high.Some? && low.Some? then Some(high.value * 16 + low.value) else None
  }

  /** The size in a chunk header: what comes before any extension. */
  function ChunkSize(line: Bytes): Option<nat> {
    var text := StripRight(StripLeft(BeforeSemicolon(line)));
    if text == [] then None else Number(text)
  }

  predicate IsBlank(line: Bytes) {
    line == CRLF || line == [LF]
  }

  // ---------------------------------------------------------------- where a body ends

  function Add(n: nat, rest: Result<nat, BodyError>): Result<nat, BodyError> {
    match rest case Ok(m) => Ok(n + m) case Err(e) => Err(e)
  }

  function TrailersEnd(s: Bytes, total: nat, limit: nat): (r: Result<nat, BodyError>)
    ensures r.Ok? ==> r.value <= |s|
    decreases |s|
  {
    var n := LineEnd(s);
    if s == [] then Err(Closed)
    else if total + n > limit then Err(TooLarge)
    else if IsBlank(s[..n]) then Ok(n)
    else Add(n, TrailersEnd(s[n..], total + n, limit))
  }

  /** What a chunk header says, or why it is refused. */
  datatype Header = Refused(error: BodyError) | Size(size: nat)

  function HeaderOf(s: Bytes): Header {
    var line := s[..LineEnd(s)];
    var size := ChunkSize(line);
    if s == [] then Refused(Closed)
    else if |line| > MAX_LINE then Refused(TooLarge)
    else if !EndsCrLf(line) || size.None? then Refused(Malformed)
    else Size(size.value)
  }

  /** What is wrong with a chunk's data and the line end after it. */
  function PayloadFault(s: Bytes, size: nat): (r: Option<BodyError>)
    ensures r.None? ==> size + 2 <= |s|
  {
    if |s| < size + 2 then Some(Incomplete) else if s[size..size + 2] != CRLF then Some(Malformed) else None
  }

  /** The length of the chunked body a stream starts with. */
  function ChunkedEnd(s: Bytes, limit: nat): (r: Result<nat, BodyError>)
    ensures r.Ok? ==> r.value <= |s|
    decreases |s|
  {
    match HeaderOf(s)
    case Refused(e) => Err(e)
    case Size(size) =>
      var n, tail := LineEnd(s), s[LineEnd(s)..];
      if size == 0 then Add(n, TrailersEnd(tail, 0, limit))
      else
        match PayloadFault(tail, size)
        case Some(e) => Err(e)
        case None => Add(n + size + 2, ChunkedEnd(tail[size + 2..], limit))
  }

  // ---------------------------------------------------------------- what is accepted

  /** A chunk: its header line, and its data. */
  datatype Chunk = Chunk(line: Bytes, data: Bytes)

  /** A chunked body: chunks, the last chunk's line, trailer lines, and a blank line. */
  datatype Body = Body(chunks: seq<Chunk>, last: Bytes, trailers: seq<Bytes>, blank: Bytes)

  /** One line and no more. */
  predicate IsLine(line: Bytes) {
    line != [] && line[|line| - 1] == LF && forall i :: 0 <= i < |line| - 1 ==> line[i] != LF
  }

  predicate HeaderShape(line: Bytes, size: nat) {
    IsLine(line) && EndsCrLf(line) && ChunkSize(line) == Some(size)
  }

  predicate HeaderOk(line: Bytes, size: nat) {
    HeaderShape(line, size) && |line| <= MAX_LINE
  }

  predicate ChunkOk(c: Chunk) {
    c.data != [] && HeaderOk(c.line, |c.data|)
  }

  function Lines(lines: seq<Bytes>): Bytes {
    if lines == [] then [] else lines[0] + Lines(lines[1..])
  }

  function ChunksText(chunks: seq<Chunk>): Bytes {
    if chunks == [] then [] else chunks[0].line + chunks[0].data + CRLF + ChunksText(chunks[1..])
  }

  predicate BodyOk(b: Body, limit: nat) {
    && (forall i :: 0 <= i < |b.chunks| ==> ChunkOk(b.chunks[i]))
    && HeaderOk(b.last, 0)
    && (forall i :: 0 <= i < |b.trailers| ==> IsLine(b.trailers[i]) && !IsBlank(b.trailers[i]))
    && IsBlank(b.blank) && |Lines(b.trailers)| + |b.blank| <= limit
  }

  function TrailersText(b: Body): Bytes {
    Lines(b.trailers) + b.blank
  }

  function BodyText(b: Body): Bytes {
    ChunksText(b.chunks) + b.last + TrailersText(b)
  }

  /** A line is the first line of whatever it starts. */
  lemma {:induction false} LineEndOf(line: Bytes, more: Bytes)
    requires IsLine(line)
    ensures LineEnd(line + more) == |line|
  {
    var all := line + more;
    if |line| > 1 {
      assert all[1..] == line[1..] + more;
      assert all[0] == line[0];
      LineEndOf(line[1..], more);
    }
  }

  lemma BlankLine(line: Bytes)
    requires IsBlank(line)
    ensures IsLine(line)
  {
  }

  lemma SplitAfter(a: Bytes, b: Bytes)
    ensures (a + b)[..|a|] == a && (a + b)[|a|..] == b
  {
  }

  /** One trailer line, or the blank one. */
  lemma TrailerStep(line: Bytes, rest: Bytes, total: nat, limit: nat)
    requires IsLine(line) && total + |line| <= limit
    ensures TrailersEnd(line + rest, total, limit)
            == if IsBlank(line) then Ok(|line|) else Add(|line|, TrailersEnd(rest, total + |line|, limit))
  {
    hide LineEnd;
    LineEndOf(line, rest);
    SplitAfter(line, rest);
  }

  lemma {:induction false} TrailersRead(trailers: seq<Bytes>, blank: Bytes, more: Bytes, total: nat, limit: nat)
    requires forall i :: 0 <= i < |trailers| ==> IsLine(trailers[i]) && !IsBlank(trailers[i])
    requires IsBlank(blank) && total + |Lines(trailers)| + |blank| <= limit
    ensures TrailersEnd(Lines(trailers) + blank + more, total, limit) == Ok(|Lines(trailers)| + |blank|)
    decreases |trailers|
  {
    hide IsLine, IsBlank, TrailersEnd;
    if trailers == [] {
      BlankLine(blank);
      assert Lines(trailers) + blank + more == blank + more;
      TrailerStep(blank, more, total, limit);
    } else {
      var rest := Lines(trailers[1..]) + blank + more;
      assert Lines(trailers) + blank + more == trailers[0] + rest;
      TrailerStep(trailers[0], rest, total, limit);
      TrailersRead(trailers[1..], blank, more, total + |trailers[0]|, limit);
    }
  }

  lemma HeaderStep(line: Bytes, rest: Bytes, size: nat)
    requires HeaderOk(line, size)
    ensures HeaderOf(line + rest) == Size(size) && LineEnd(line + rest) == |line| && (line + rest)[|line|..] == rest
  {
    hide LineEnd, ChunkSize, EndsCrLf;
    LineEndOf(line, rest);
    SplitAfter(line, rest);
  }

  lemma LastStep(line: Bytes, rest: Bytes, limit: nat)
    requires HeaderOk(line, 0)
    ensures ChunkedEnd(line + rest, limit) == Add(|line|, TrailersEnd(rest, 0, limit))
  {
    hide LineEnd, HeaderOf, HeaderOk, TrailersEnd;
    HeaderStep(line, rest, 0);
  }

  lemma PayloadStep(data: Bytes, rest: Bytes)
    ensures PayloadFault(data + CRLF + rest, |data|) == None && (data + CRLF + rest)[|data| + 2..] == rest
  {
    assert (data + CRLF + rest)[|data|..|data| + 2] == CRLF;
  }

  lemma ChunkStep(c: Chunk, rest: Bytes, limit: nat)
    requires ChunkOk(c)
    ensures ChunkedEnd(c.line + (c.data + CRLF + rest), limit) == Add(|c.line| + |c.data| + 2, ChunkedEnd(rest, limit))
  {
    hide LineEnd, HeaderOf, HeaderOk, TrailersEnd, ChunkedEnd, PayloadFault;
    var tail := c.data + CRLF + rest;
    HeaderStep(c.line, tail, |c.data|);
    PayloadStep(c.data, rest);
    ChunkCases(c.line + tail, limit);
  }

  /** A well-formed chunked body, whatever follows it, is recognised as exactly that. */
  lemma {:induction false} BodyReads(b: Body, more: Bytes, limit: nat)
    requires BodyOk(b, limit)
    ensures ChunkedEnd(BodyText(b) + more, limit) == Ok(|BodyText(b)|)
    decreases |b.chunks|
  {
    hide IsLine, IsBlank, HeaderOk, TrailersEnd, ChunkedEnd, ChunkOk;
    if b.chunks == [] {
      var rest := Lines(b.trailers) + b.blank + more;
      assert BodyText(b) + more == b.last + rest;
      LastStep(b.last, rest, limit);
      TrailersRead(b.trailers, b.blank, more, 0, limit);
    } else {
      var c, shorter := b.chunks[0], b.(chunks := b.chunks[1..]);
      var rest := BodyText(shorter) + more;
      BodyCons(c, shorter);
      assert b == shorter.(chunks := [c] + shorter.chunks);
      assert BodyText(b) + more == c.line + (c.data + CRLF + rest);
      ChunkStep(c, rest, limit);
      BodyReads(shorter, more, limit);
    }
  }

  lemma BodyCons(c: Chunk, b: Body)
    ensures BodyText(b.(chunks := [c] + b.chunks)) == c.line + c.data + CRLF + BodyText(b)
  {
    assert ([c] + b.chunks)[1..] == b.chunks;
  }

  lemma FirstLine(s: Bytes)
    requires s != [] && s[LineEnd(s) - 1] == LF
    ensures IsLine(s[..LineEnd(s)]) && s == s[..LineEnd(s)] + s[LineEnd(s)..]
  {
  }

  lemma BlankFirst(s: Bytes)
    requires s != [] && IsBlank(s[..LineEnd(s)])
    ensures s[LineEnd(s) - 1] == LF
  {
    var line := s[..LineEnd(s)];
    assert line[|line| - 1] == LF;
  }

  lemma {:induction false} TrailersFound(s: Bytes, total: nat, limit: nat)
    returns (trailers: seq<Bytes>, blank: Bytes, more: Bytes)
    requires TrailersEnd(s, total, limit).Ok?
    ensures forall i :: 0 <= i < |trailers| ==> IsLine(trailers[i]) && !IsBlank(trailers[i])
    ensures IsBlank(blank) && total + |Lines(trailers)| + |blank| <= limit
    ensures s == Lines(trailers) + blank + more
    decreases |s|
  {
    hide IsBlank, IsLine, LineEnd;
    var n := LineEnd(s);
    if IsBlank(s[..n]) {
      BlankFirst(s);
      FirstLine(s);
      trailers, blank, more := [], s[..n], s[n..];
    } else {
      assert s[n..] != [] && s[n - 1] == LF by { NotLast(s, total, limit); }
      FirstLine(s);
      trailers, blank, more := TrailersFound(s[n..], total + n, limit);
      assert s == s[..n] + Lines(trailers) + blank + more;
      assert ([s[..n]] + trailers)[1..] == trailers;
      trailers := [s[..n]] + trailers;
    }
  }

  lemma NotLast(s: Bytes, total: nat, limit: nat)
    requires TrailersEnd(s, total, limit).Ok? && !IsBlank(s[..LineEnd(s)])
    ensures s != [] && s[LineEnd(s)..] != [] && s[LineEnd(s) - 1] == LF
  {
    hide IsBlank, LineEnd;
  }

  lemma HeaderFound(s: Bytes)
    requires HeaderOf(s).Size?
    ensures HeaderOk(s[..LineEnd(s)], HeaderOf(s).size) && s == s[..LineEnd(s)] + s[LineEnd(s)..]
  {
    hide ChunkSize, LineEnd;
    var n := LineEnd(s);
    var line := s[..n];
    assert line[n - 2..][1] == line[n - 1] == s[n - 1];
    FirstLine(s);
  }

  /** The first chunk of what is recognised, if it is not the last. */
  lemma ChunkFound(s: Bytes, limit: nat) returns (line: Bytes, data: Bytes, rest: Bytes)
    requires ChunkedEnd(s, limit).Ok?
    ensures HeaderOk(line, |data|) && |rest| < |s|
    ensures data == [] ==> s == line + rest && TrailersEnd(rest, 0, limit).Ok?
    ensures data != [] ==> s == line + data + CRLF + rest && ChunkedEnd(rest, limit).Ok?
  {
    hide HeaderOf, HeaderOk, TrailersEnd, LineEnd;
    HeaderFound(s);
    var tail, size := s[LineEnd(s)..], HeaderOf(s).size;
    line := s[..LineEnd(s)];
    if size == 0 {
      data, rest := [], tail;
      assert |line| > 0 by { LineNotEmpty(line, 0); }
    } else {
      data, rest := tail[..size], tail[size + 2..];
      assert tail == data + tail[size..size + 2] + rest;
      assert s == line + data + CRLF + rest;
    }
  }

  lemma LineNotEmpty(line: Bytes, size: nat)
    requires HeaderOk(line, size)
    ensures |line| > 0
  {
  }

  /** What is recognised is a well-formed chunked body. */
  lemma {:induction false} BodyFound(s: Bytes, limit: nat) returns (b: Body, more: Bytes)
    requires ChunkedEnd(s, limit).Ok?
    ensures BodyOk(b, limit) && s == BodyText(b) + more && ChunkedEnd(s, limit) == Ok(|BodyText(b)|)
    decreases |s|
  {
    hide HeaderOk, IsBlank, IsLine, TrailersEnd, ChunkedEnd;
    var line, data, rest := ChunkFound(s, limit);
    if data == [] {
      var trailers, blank;
      trailers, blank, more := TrailersFound(rest, 0, limit);
      b := Body([], line, trailers, blank);
      assert s == BodyText(b) + more;
    } else {
      b, more := BodyFound(rest, limit);
      BodyCons(Chunk(line, data), b);
      b := b.(chunks := [Chunk(line, data)] + b.chunks);
      assert s == BodyText(b) + more;
    }
    BodyReads(b, more, limit);
  }

  // ---------------------------------------------------------------- streams

  /** A client's stream: what is still to come, and how much of it each read finds, whatever
      that is. */
  class Reader {
    var rest: Bytes
    var splits: seq<nat>

    constructor (content: Bytes, splits: seq<nat>)
      ensures rest == content && this.splits == splits
    {
      rest, this.splits := content, splits;
    }

    /** read(n): what is there, at most n octets, and nothing only at the end. */
    method Read(n: nat) returns (data: Bytes)
      modifies this
      ensures |data| <= n && old(rest) == data + rest
      ensures n > 0 ==> (data == [] <==> old(rest) == [])
    {
      var found := Min(n, |rest|);
      if |splits| > 0 {
        found := Min(found, Max(splits[0], 1));
        splits := splits[1..];
      }
      data, rest := rest[..found], rest[found..];
    }

    /** readexactly(n); none where the stream ends before. */
    method ReadExactly(n: nat) returns (data: Option<Bytes>)
      modifies this
      ensures if |old(rest)| < n then data == None && rest == []
              else data.Some? && |data.value| == n && old(rest) == data.value + rest
    {
      if |rest| < n {
        rest := [];
        return None;
      }
      data, rest := Some(rest[..n]), rest[n..];
    }

    /** readline(). */
    method ReadLine() returns (line: Bytes)
      modifies this
      ensures line == old(rest)[..LineEnd(old(rest))] && rest == old(rest)[LineEnd(old(rest))..]
    {
      var n := LineEnd(rest);
      line, rest := rest[..n], rest[n..];
    }
  }

  /** The connection to the server, and the count of octets sent to servers. */
  class Upstream {
    var written: Bytes
    var outbound: nat

    constructor ()
      ensures written == [] && outbound == 0
    {
      written, outbound := [], 0;
    }

    method Forward(data: Bytes)
      modifies this
      ensures written == old(written) + data && outbound == old(outbound) + |data|
    {
      written, outbound := written + data, outbound + |data|;
    }
  }

  /** From `start` to `done` upstream: the octets added are the first `n` of the stream. */
  predicate Copied(before: Bytes, counted: nat, stream: Bytes, n: nat, written: Bytes, outbound: nat) {
    n <= |stream| && written == before + stream[..n] && outbound == counted + n
  }

  lemma CopiedMore(before: Bytes, counted: nat, stream: Bytes, n: nat, data: Bytes)
    requires n + |data| <= |stream| && stream[n..n + |data|] == data
    ensures before + stream[..n] + data == before + stream[..n + |data|]
  {
  }

  /** Exactly so many octets go from the client to the server, however reads split them. */
  method CopyLength(reader: Reader, upstream: Upstream, length: nat) returns (r: Result<(), BodyError>)
    modifies reader, upstream
    ensures r == if |old(reader.rest)| < length then Err(Closed) else Ok(())
    ensures var n := Min(length, |old(reader.rest)|);
            && Copied(old(upstream.written), old(upstream.outbound), old(reader.rest), n, upstream.written,
                      upstream.outbound)
            && reader.rest == old(reader.rest)[n..]
  {
    hide LineEnd;
    ghost var stream := reader.rest;
    var remaining := length;
    while remaining > 0
      invariant 0 <= remaining <= length && length - remaining <= |stream|
      invariant reader.rest == stream[length - remaining..]
      invariant Copied(old(upstream.written), old(upstream.outbound), stream, length - remaining, upstream.written,
                       upstream.outbound)
      decreases remaining
    {
      ghost var n := length - remaining;
      var chunk := reader.Read(Min(BLOCK, remaining));
      if |chunk| == 0 {
        return Err(Closed);
      }
      Taken(stream, n, chunk, reader.rest);
      CopiedMore(old(upstream.written), old(upstream.outbound), stream, n, chunk);
      remaining := remaining - |chunk|;
      upstream.Forward(chunk);
    }
    r := Ok(());
  }

  lemma Taken(stream: Bytes, n: nat, data: Bytes, rest: Bytes)
    requires n <= |stream| && stream[n..] == data + rest
    ensures n + |data| <= |stream| && stream[n..n + |data|] == data && rest == stream[n + |data|..]
  {
    assert |stream| == n + |data| + |rest|;
    assert (data + rest)[..|data|] == data && (data + rest)[|data|..] == rest;
    assert stream[n..][..|data|] == stream[n..n + |data|];
    assert stream[n..][|data|..] == stream[n + |data|..];
  }

  lemma AddTwice(m: nat, n: nat, rest: Result<nat, BodyError>)
    ensures Add(m, Add(n, rest)) == Add(m + n, rest)
  {
  }

  /** One more piece of the stream is read and forwarded. */
  lemma Further(before: Bytes, counted: nat, stream: Bytes, n: nat, data: Bytes, rest: Bytes, written: Bytes,
                outbound: nat)
    requires Copied(before, counted, stream, n, written, outbound) && stream[n..] == data + rest
    ensures Copied(before, counted, stream, n + |data|, written + data, outbound + |data|)
    ensures rest == stream[n + |data|..]
  {
    Taken(stream, n, data, rest);
    CopiedMore(before, counted, stream, n, data);
  }

  lemma LineTaken(s: Bytes)
    ensures s == s[..LineEnd(s)] + s[LineEnd(s)..]
  {
  }

  /** The data of one chunk. */
  method CopyData(reader: Reader, upstream: Upstream, size: nat) returns (ok: bool, ghost n: nat)
    modifies reader, upstream
    ensures Copied(old(upstream.written), old(upstream.outbound), old(reader.rest), n, upstream.written,
                   upstream.outbound)
    ensures ok == (size <= |old(reader.rest)|)
    ensures ok ==> n == size && reader.rest == old(reader.rest)[n..]
  {
    ghost var stream := reader.rest;
    var remaining := size;
    n := 0;
    while remaining > 0
      invariant n == size - remaining <= |stream| && remaining >= 0 && reader.rest == stream[n..]
      invariant Copied(old(upstream.written), old(upstream.outbound), stream, n, upstream.written, upstream.outbound)
      decreases remaining
    {
      var data := reader.ReadExactly(Min(BLOCK, remaining));
      if data.None? {
        ok := false;
        return;
      }
      Further(old(upstream.written), old(upstream.outbound), stream, n, data.value, reader.rest, upstream.written,
              upstream.outbound);
      remaining := remaining - |data.value|;
      n := n + |data.value|;
      upstream.Forward(data.value);
    }
    ok := true;
  }

  /** The trailer lines, up to and with the blank one. */
  method CopyTrailers(reader: Reader, upstream: Upstream, limit: nat) returns (r: Result<(), BodyError>, ghost n: nat)
    modifies reader, upstream
    ensures Copied(old(upstream.written), old(upstream.outbound), old(reader.rest), n, upstream.written,
                   upstream.outbound)
    ensures match TrailersEnd(old(reader.rest), 0, limit)
            case Ok(m) => r == Ok(()) && n == m && reader.rest == old(reader.rest)[n..]
            case Err(e) => r == Err(e)
  {
    hide LineEnd, IsBlank, Copied, TrailersEnd;
    ghost var stream := reader.rest;
    var trailerTotal := 0;
    n := 0;
    NothingCopied(upstream.written, upstream.outbound, stream);
    while true
      invariant n == trailerTotal <= |stream| && reader.rest == stream[n..]
      invariant Copied(old(upstream.written), old(upstream.outbound), stream, n, upstream.written, upstream.outbound)
      invariant TrailersEnd(stream, 0, limit) == Add(n, TrailersEnd(reader.rest, n, limit))
      decreases |reader.rest|
    {
      ghost var tail := reader.rest;
      LineTaken(tail);
      TrailersCases(tail, n, limit);
      var trailer := reader.ReadLine();
      if |trailer| == 0 {
        r := Err(Closed);
        return;
      }
      trailerTotal := trailerTotal + |trailer|;
      if trailerTotal > limit {
        r := Err(TooLarge);
        return;
      }
      AddTwice(n, |trailer|, TrailersEnd(reader.rest, n + |trailer|, limit));
      Further(old(upstream.written), old(upstream.outbound), stream, n, trailer, reader.rest, upstream.written,
              upstream.outbound);
      upstream.Forward(trailer);
      n := n + |trailer|;
      if IsBlank(trailer) {
        r := Ok(());
        return;
      }
    }
  }

  lemma TrailersCases(s: Bytes, total: nat, limit: nat)
    ensures var line := s[..LineEnd(s)];
            TrailersEnd(s, total, limit)
            == if line == [] then Err(Closed)
               else if total + |line| > limit then Err(TooLarge)
               else if IsBlank(line) then Ok(|line|)
               else Add(|line|, TrailersEnd(s[LineEnd(s)..], total + |line|, limit))
  {
    hide LineEnd;
  }

  lemma NothingCopied(before: Bytes, counted: nat, stream: Bytes)
    ensures Copied(before, counted, stream, 0, before, counted) && stream[0..] == stream
  {
    assert before + stream[..0] == before;
  }

  /** Two copies, one after the other. */
  lemma Chain(before: Bytes, counted: nat, stream: Bytes, n: nat, w: Bytes, c: nat, m: nat, written: Bytes,
              outbound: nat)
    requires Copied(before, counted, stream, n, w, c) && Copied(w, c, stream[n..], m, written, outbound)
    ensures Copied(before, counted, stream, n + m, written, outbound) && stream[n..][m..] == stream[n + m..]
  {
    assert stream[..n] + stream[n..][..m] == stream[..n + m];
  }

  method CopyHeader(reader: Reader, upstream: Upstream) returns (r: Header, ghost n: nat)
    modifies reader, upstream
    ensures Copied(old(upstream.written), old(upstream.outbound), old(reader.rest), n, upstream.written,
                   upstream.outbound)
    ensures r == HeaderOf(old(reader.rest))
    ensures r.Size? ==> n == LineEnd(old(reader.rest)) > 0 && reader.rest == old(reader.rest)[n..]
  {
    hide LineEnd, ChunkSize, EndsCrLf, Copied;
    ghost var stream := reader.rest;
    n := 0;
    NothingCopied(upstream.written, upstream.outbound, stream);
    LineTaken(stream);
    var line := reader.ReadLine();
    if |line| == 0 {
      r := Refused(Closed);
      return;
    }
    if |line| > MAX_LINE {
      r := Refused(TooLarge);
      return;
    }
    if !EndsCrLf(line) {
      r := Refused(Malformed);
      return;
    }
    var size := ChunkSize(line);
    if size.None? {
      r := Refused(Malformed);
      return;
    }
    Further(upstream.written, upstream.outbound, stream, 0, line, reader.rest, upstream.written, upstream.outbound);
    upstream.Forward(line);
    n := |line|;
    r := Size(size.value);
  }

  /** A chunk's data and the line end after it. */
  method CopyPayload(reader: Reader, upstream: Upstream, size: nat) returns (error: Option<BodyError>, ghost n: nat)
    modifies reader, upstream
    ensures Copied(old(upstream.written), old(upstream.outbound), old(reader.rest), n, upstream.written,
                   upstream.outbound)
    ensures error == PayloadFault(old(reader.rest), size)
    ensures error.None? ==> n == size + 2 && reader.rest == old(reader.rest)[n..]
  {
    ghost var stream, before, counted := reader.rest, upstream.written, upstream.outbound;
    var ok;
    ok, n := CopyData(reader, upstream, size);
    if !ok {
      error := Some(Incomplete);
      return;
    }
    ghost var tail := reader.rest;
    var terminator := reader.ReadExactly(2);
    if terminator.None? {
      error := Some(Incomplete);
      return;
    }
    Taken(stream, size, terminator.value, reader.rest);
    if terminator.value != CRLF {
      error := Some(Malformed);
      return;
    }
    Further(before, counted, stream, n, terminator.value, reader.rest, upstream.written, upstream.outbound);
    upstream.Forward(terminator.value);
    n := n + 2;
    error := None;
  }

  lemma ChunkCases(s: Bytes, limit: nat)
    ensures var tail := s[LineEnd(s)..];
            ChunkedEnd(s, limit)
            == match HeaderOf(s)
               case Refused(e) => Err(e)
               case Size(size) =>
                 if size == 0 then Add(LineEnd(s), TrailersEnd(tail, 0, limit))
                 else if PayloadFault(tail, size).Some? then Err(PayloadFault(tail, size).value)
                 else Add(LineEnd(s), Add(size + 2, ChunkedEnd(tail[size + 2..], limit)))
  {
    hide LineEnd, HeaderOf, PayloadFault, TrailersEnd;
  }

  /** One turn of the loop over the chunks: a chunk, after which there are more, or the end of
      the body, or what is wrong. */
  method CopyChunk(reader: Reader, upstream: Upstream, limit: nat)
    returns (more: bool, r: Result<(), BodyError>, ghost n: nat)
    modifies reader, upstream
    ensures Copied(old(upstream.written), old(upstream.outbound), old(reader.rest), n, upstream.written,
                   upstream.outbound)
    ensures more ==>
      && reader.rest == old(reader.rest)[n..] && |reader.rest| < |old(reader.rest)|
      && ChunkedEnd(old(reader.rest), limit) == Add(n, ChunkedEnd(reader.rest, limit))
    ensures !more ==>
      match ChunkedEnd(old(reader.rest), limit)
      case Ok(m) => r == Ok(()) && n == m && reader.rest == old(reader.rest)[n..]
      case Err(e) => r == Err(e)
  {
    hide HeaderOf, PayloadFault, TrailersEnd, ChunkedEnd, LineEnd, Copied;
    ghost var stream, before, counted := reader.rest, upstream.written, upstream.outbound;
    ChunkCases(stream, limit);
    more, r := false, Ok(());
    var header;
    header, n := CopyHeader(reader, upstream);
    if header.Refused? {
      r := Err(header.error);
      return;
    }
    ghost var w, c, m := upstream.written, upstream.outbound, 0;
    if header.size == 0 {
      r, m := CopyTrailers(reader, upstream, limit);
      Chain(before, counted, stream, n, w, c, m, upstream.written, upstream.outbound);
      n := n + m;
      return;
    }
    var error;
    error, m := CopyPayload(reader, upstream, header.size);
    Chain(before, counted, stream, n, w, c, m, upstream.written, upstream.outbound);
    if error.Some? {
      r := Err(error.value);
    } else {
      more := true;
      AddTwice(n, m, ChunkedEnd(reader.rest, limit));
    }
    n := n + m;
  }

  /** Chunk after chunk, up to and with the trailers. */
  method CopyChunked(reader: Reader, upstream: Upstream, limit: nat) returns (r: Result<(), BodyError>, ghost n: nat)
    modifies reader, upstream
    ensures Copied(old(upstream.written), old(upstream.outbound), old(reader.rest), n, upstream.written,
                   upstream.outbound)
    ensures match ChunkedEnd(old(reader.rest), limit)
            case Ok(m) => r == Ok(()) && n == m && reader.rest == old(reader.rest)[n..]
            case Err(e) => r == Err(e)
  {
    hide ChunkedEnd, Copied;
    ghost var stream, before, counted := reader.rest, upstream.written, upstream.outbound;
    n := 0;
    NothingCopied(before, counted, stream);
    while true
      invariant n <= |stream| && reader.rest == stream[n..]
      invariant Copied(before, counted, stream, n, upstream.written, upstream.outbound)
      invariant ChunkedEnd(stream, limit) == Add(n, ChunkedEnd(reader.rest, limit))
      decreases |reader.rest|
    {
      ghost var w, c, m := upstream.written, upstream.outbound, 0;
      var more;
      more, r, m := CopyChunk(reader, upstream, limit);
      Chain(before, counted, stream, n, w, c, m, upstream.written, upstream.outbound);
      if !more {
        n := n + m;
        return;
      }
      AddTwice(n, m, ChunkedEnd(reader.rest, limit));
      n := n + m;
    }
  }

  datatype Framing = Chunked | Length(n: nat) | NoBody

  /** _forward_request_body.  For every stream and every way its reads split it: on success
      what goes upstream is exactly one chunked body, or exactly as many octets as
      announced; even on failure it is a prefix of the stream, and counted. */
  method ForwardRequestBody(reader: Reader, upstream: Upstream, framing: Framing, limit: nat)
    returns (r: Result<(), BodyError>, ghost n: nat)
    modifies reader, upstream
    ensures Copied(old(upstream.written), old(upstream.outbound), old(reader.rest), n, upstream.written,
                   upstream.outbound)
    ensures r.Ok? ==> reader.rest == old(reader.rest)[n..]
    ensures match framing
            case NoBody => r == Ok(()) && n == 0
            case Length(length) => if |old(reader.rest)| < length then r == Err(Closed) else r == Ok(()) && n == length
            case Chunked =>
              match ChunkedEnd(old(reader.rest), limit)
              case Ok(m) => r == Ok(()) && n == m
              case Err(e) => r == Err(e)
  {
    hide ChunkedEnd;
    n := 0;
    NothingCopied(upstream.written, upstream.outbound, reader.rest);
    match framing
    case Chunked => r, n := CopyChunked(reader, upstream, limit);
    case Length(length) =>
      n := Min(length, |reader.rest|);
      r := CopyLength(reader, upstream, length);
    case NoBody => r := Ok(());
  }

  /** The stream starts with a well-formed chunked body exactly when the body is accepted,
      and then that body is what is taken from it. */
  lemma AcceptedIff(s: Bytes, limit: nat, n: nat)
    requires n <= |s|
    ensures ChunkedEnd(s, limit) == Ok(n) <==> exists b: Body :: BodyOk(b, limit) && BodyText(b) == s[..n]
  {
    hide BodyOk, BodyText, ChunkedEnd;
    if ChunkedEnd(s, limit) == Ok(n) {
      var b, more := BodyFound(s, limit);
      SplitAfter(BodyText(b), more);
    }
    if b: Body :| BodyOk(b, limit) && BodyText(b) == s[..n] {
      BodyReads(b, s[n..], limit);
      assert s == BodyText(b) + s[n..];
    }
  }
}
