/** IPv6 addresses as text (dns/ipv6.py), in the forms of section 2.2 of RFC 4291. */
module Ipv6 {
  import opened Common
  import opened TokenText
  import opened Splitting
  import Ipv4

  // ---------------------------------------------------------------- hexadecimal

  function HexDigit(d: nat): Ascii
    requires d < 16
  {
    if d < 10 then (d + '0' as int) as char else (d - 10 + 'a' as int) as char
  }

  lemma HexDigitRead(d: nat)
    requires d < 16
    ensures HexValue(HexDigit(d) as int) == Some(d) && (HexDigit(d) == '0' <==> d == 0)
    ensures HexDigit(d) != ':' && HexDigit(d) != '.' && HexDigit(d) != '%'
    ensures HexDigit(d) == "0123456789abcdef"[d]
  {
  }

  /** "%02x" of an octet. */
  function Hex(b: Byte): (t: Text)
    ensures |t| == 2
  {
    [HexDigit(b / 16), HexDigit(b % 16)]
  }

  function Hexlify(bs: Bytes): (t: Text)
    ensures |t| == 2 * |bs|
  {
    if bs == [] then [] else Hex(bs[0]) + Hexlify(bs[1..])
  }

  function Unhexlify(t: Text): (r: Option<Bytes>)
    ensures r.Some? ==> 2 * |r.value| == |t|
  {
    if t == [] then Some([])
    else if |t| == 1 then None
    else
      var hi, lo, rest := HexValue(t[0] as int), HexValue(t[1] as int), Unhexlify(t[2..]);
      if hi.Some? && lo.Some? && rest.Some? then Some([hi.value * 16 + lo.value] + rest.value) else None
  }

  lemma {:induction false} HexRoundTrip(bs: Bytes)
    ensures Unhexlify(Hexlify(bs)) == Some(bs)
  {
    if bs != [] {
      HexRoundTrip(bs[1..]);
      HexDigitRead(bs[0] / 16);
      HexDigitRead(bs[0] % 16);
      assert Hexlify(bs)[2..] == Hexlify(bs[1..]);
      assert bs == [bs[0]] + bs[1..];
    }
  }

  // ---------------------------------------------------------------- inet_ntoa

  /** Without leading zeros, but not without digits. */
  function Strip(c: Text): (r: Text)
    ensures c != [] ==> r != []
    ensures |r| <= |c|
  {
    if |c| > 1 && c[0] == '0' then Strip(c[1..]) else c
  }

  /** The four digits of one chunk. */
  function Quad(address: Bytes, i: nat): (t: Text)
    requires |address| == 16 && i < 8
    ensures |t| == 4
  {
    Hex(address[2 * i]) + Hex(address[2 * i + 1])
  }

  function Chunks(address: Bytes): (cs: seq<Text>)
    requires |address| == 16
    ensures |cs| == 8
  {
    seq(8, i requires 0 <= i < 8 => Strip(Quad(address, i)))
  }

  predicate Zero(cs: seq<Text>, i: nat)
    requires i < |cs|
  {
    cs[i] == ['0']
  }

  predicate Run(cs: seq<Text>, start: nat, len: nat) {
    start + len <= |cs| && forall i :: start <= i < start + len ==> Zero(cs, i)
  }

  /** The leftmost of the longest runs of zero chunks. */
  ghost predicate LongestRun(cs: seq<Text>, start: nat, len: nat) {
    && Run(cs, start, len) && (len == 0 ==> start == 0)
    && forall s: nat, l: nat :: Run(cs, s, l) ==> l <= len && (l == len && l > 0 ==> start <= s)
  }

  /** The zero chunks from one on. */
  function RunFrom(cs: seq<Text>, i: nat): (n: nat)
    requires i <= |cs|
    ensures Run(cs, i, n) && forall l: nat :: Run(cs, i, l) ==> l <= n
    decreases |cs| - i
  {
    if i == |cs| || !Zero(cs, i) then
      assert forall l: nat :: l > 0 && Run(cs, i, l) && i < |cs| ==> Zero(cs, i);
      0
    else
      assert forall l: nat :: l > 0 && Run(cs, i, l) ==> Run(cs, i + 1, l - 1);
      1 + RunFrom(cs, i + 1)
  }

  /** The leftmost longest run among those that start at `i` or later. */
  function BestRun(cs: seq<Text>, i: nat): (r: (nat, nat))
    requires i <= |cs|
    ensures Run(cs, r.0, r.1) && (r.1 == 0 ==> r.0 == 0)
    ensures forall s: nat, l: nat :: i <= s && Run(cs, s, l) ==> l <= r.1 && (l == r.1 && l > 0 ==> r.0 <= s)
    decreases |cs| - i
  {
    if i == |cs| then (0, 0)
    else
      var later, n := BestRun(cs, i + 1), RunFrom(cs, i);
      if n > 0 && n >= later.1 then (i, n) else later
  }

  lemma BestRunUnique(cs: seq<Text>, start: nat, len: nat)
    requires LongestRun(cs, start, len)
    ensures BestRun(cs, 0) == (start, len)
  {
    var best := BestRun(cs, 0);
    assert Run(cs, best.0, best.1);
  }

  /** The two loops' search for the run to compress. */
  method FindRun(cs: seq<Text>) returns (bestStart: nat, bestLen: nat)
    ensures LongestRun(cs, bestStart, bestLen)
  {
    bestStart, bestLen := 0, 0;
    var start := -1;
    var lastWasZero := false;
    var i := 0;
    while i < |cs|
      invariant 0 <= i <= |cs|
      invariant lastWasZero ==> 0 <= start < i && Run(cs, start, i - start) && (start > 0 ==> !Zero(cs, start - 1))
      invariant !lastWasZero && i > 0 ==> !Zero(cs, i - 1)
      invariant LongestRun(cs[..if lastWasZero then start else i], bestStart, bestLen)
    {
      if cs[i] != ['0'] {
        if lastWasZero {
          RunEnds(cs, start, i, bestStart, bestLen);
          var end := i;
          var currentLen := end - start;
          if currentLen > bestLen {
            bestStart, bestLen := start, currentLen;
          }
          lastWasZero := false;
        }
        NoRunEnds(cs, i, bestStart, bestLen);
      } else if !lastWasZero {
        start, lastWasZero := i, true;
      }
      i := i + 1;
    }
    if lastWasZero {
      RunEnds(cs, start, i, bestStart, bestLen);
      var end := i;
      var currentLen := end - start;
      if currentLen > bestLen {
        bestStart, bestLen := start, currentLen;
      }
    }
    assert cs[..i] == cs;
  }

  lemma RunEnds(cs: seq<Text>, start: nat, end: nat, bestStart: nat, bestLen: nat)
    requires start < end <= |cs| && Run(cs, start, end - start) && (start > 0 ==> !Zero(cs, start - 1))
    requires LongestRun(cs[..start], bestStart, bestLen)
    ensures if end - start > bestLen then LongestRun(cs[..end], start, end - start)
            else LongestRun(cs[..end], bestStart, bestLen)
  {
    var upTo := cs[..end];
    forall s: nat, l: nat | Run(upTo, s, l) ensures Run(cs[..start], s, l) || l == 0 || (start <= s && s + l <= end) {
      assert s <= start - 1 < s + l ==> Zero(upTo, start - 1);
      if s + l <= start {
        assert forall i :: s <= i < s + l ==> Zero(upTo, i) ==> Zero(cs[..start], i);
      }
    }
    assert forall i :: start <= i < end ==> Zero(cs, i) ==> Zero(upTo, i);
    assert forall i: nat :: i < start ==> (Zero(upTo, i) <==> Zero(cs[..start], i));
  }

  lemma NoRunEnds(cs: seq<Text>, i: nat, bestStart: nat, bestLen: nat)
    requires i < |cs| && !Zero(cs, i) && LongestRun(cs[..i], bestStart, bestLen)
    ensures LongestRun(cs[..i + 1], bestStart, bestLen)
  {
    var upTo := cs[..i + 1];
    assert forall j: nat :: j < i ==> (Zero(upTo, j) <==> Zero(cs[..i], j));
    forall s: nat, l: nat | Run(upTo, s, l) && l > 0 ensures Run(cs[..i], s, l) {
      assert s <= i < s + l ==> Zero(upTo, i);
    }
  }

  const MAPPED := ['f', 'f', 'f', 'f']

  /** The address with one run of chunks compressed. */
  function Compressed(address: Bytes, start: nat, len: nat): Text
    requires |address| == 16 && start + len <= 8
  {
    var cs := Chunks(address);
    if len <= 1 then Join(cs, ':')
    else if start == 0 && (len == 6 || (len == 5 && cs[5] == MAPPED)) then
      (if len == 6 then [':', ':'] else [':', ':'] + MAPPED + [':']) + Ipv4.Ntoa(address[12..])
    else Join(cs[..start], ':') + [':', ':'] + Join(cs[start + len..], ':')
  }

  function Ntoa(address: Bytes): Text
    requires |address| == 16
  {
    var run := BestRun(Chunks(address), 0);
    Compressed(address, run.0, run.1)
  }

  method MakeChunks(address: Bytes) returns (chunks: seq<Text>)
    requires |address| == 16
    ensures chunks == Chunks(address)
  {
    var hex := Hexlify(address);
    chunks := [];
    var i := 0;
    while i < |hex|
      invariant 0 <= i <= 32 && i % 4 == 0 && |chunks| == i / 4
      invariant forall k :: 0 <= k < |chunks| ==> chunks[k] == Chunks(address)[k]
    {
      HexSlice(address, i / 4);
      var chunk := Strip(hex[i..i + 4]);
      chunks := chunks + [chunk];
      i := i + 4;
    }
  }

  /** The end of inet_ntoa: the text put together from the chunks and the run to compress. */
  method Assemble(address: Bytes, chunks: seq<Text>, bestStart: nat, bestLen: nat) returns (thex: Text)
    requires |address| == 16 && chunks == Chunks(address) && bestStart + bestLen <= 8
    ensures thex == Compressed(address, bestStart, bestLen)
  {
    if bestLen > 1 {
      if bestStart == 0 && (bestLen == 6 || (bestLen == 5 && chunks[5] == MAPPED)) {
        var prefix := if bestLen == 6 then [':', ':'] else [':', ':'] + MAPPED + [':'];
        thex := prefix + Ipv4.Ntoa(address[12..]);
      } else {
        thex := Join(chunks[..bestStart], ':') + [':', ':'] + Join(chunks[bestStart + bestLen..], ':');
      }
    } else {
      thex := Join(chunks, ':');
    }
  }

  /** inet_ntoa; none for the ValueError of an address that is not 16 octets. */
  method InetNtoa(address: Bytes) returns (r: Option<Text>)
    ensures r == if |address| == 16 then Some(Ntoa(address)) else None
  {
    if |address| != 16 {
      return None;
    }
    var chunks := MakeChunks(address);
    var bestStart, bestLen := FindRun(chunks);
    BestRunUnique(chunks, bestStart, bestLen);
    hide BestRun, LongestRun, Chunks, Compressed;
    var thex := Assemble(address, chunks, bestStart, bestLen);
    r := Some(thex);
  }

  lemma {:induction false} HexlifyAt(bs: Bytes, i: nat)
    requires i < |bs|
    ensures Hexlify(bs)[2 * i..2 * i + 2] == Hex(bs[i])
  {
    if i == 0 {
      assert Hexlify(bs)[..2] == Hex(bs[0]);
    } else {
      HexlifyAt(bs[1..], i - 1);
      assert Hexlify(bs)[2..] == Hexlify(bs[1..]);
      assert Hexlify(bs)[2 * i..2 * i + 2] == Hexlify(bs)[2..][2 * i - 2..2 * i];
    }
  }

  lemma HexSlice(address: Bytes, i: nat)
    requires |address| == 16 && i < 8
    ensures Hexlify(address)[4 * i..4 * i + 4] == Quad(address, i)
  {
    HexlifyAt(address, 2 * i);
    HexlifyAt(address, 2 * i + 1);
    var h := Hexlify(address);
    assert h[4 * i..4 * i + 4] == h[4 * i..4 * i + 2] + h[4 * i + 2..4 * i + 4];
  }

  // ---------------------------------------------------------------- inet_aton

  function Repeat(t: Text, n: nat): seq<Text> {
    seq(n, _ => t)
  }

  function Zeros(n: nat): Text {
    seq(n, _ => '0')
  }

  /** The loop over the chunks: an empty chunk stands for as many zero chunks as are missing. */
  function Canonical(chunks: seq<Text>, l: nat, seenEmpty: bool): Option<seq<Text>>
    requires l <= 8
  {
    if chunks == [] then Some([])
    else if chunks[0] == [] then
      if seenEmpty then None
      else
        var rest := Canonical(chunks[1..], l, true);
        if rest.None? then None else Some(Repeat(Zeros(4), 8 - l + 1) + rest.value)
    else if |chunks[0]| > 4 then None
    else
      var rest := Canonical(chunks[1..], l, seenEmpty);
      if rest.None? then None else Some([Zeros(4 - |chunks[0]|) + chunks[0]] + rest.value)
  }

  function Concat(parts: seq<Text>): Text {
    if parts == [] then [] else parts[0] + Concat(parts[1..])
  }

  predicate StartsWith(t: Text, p: Text) {
    |p| <= |t| && t[..|p|] == p
  }

  predicate EndsWith(t: Text, p: Text) {
    |p| <= |t| && t[|t| - |p|..] == p
  }

  /** What "$" lets a pattern end before: a final newline. */
  function Line(t: Text): Text {
    if t != [] && t[|t| - 1] == '\n' then t[..|t| - 1] else t
  }

  function LastColon(t: Text): (i: int)
    ensures -1 <= i < |t|
    ensures i >= 0 ==> t[i] == ':'
    ensures forall j :: i < j < |t| ==> t[j] != ':'
  {
    if t == [] then -1
    else if t[|t| - 1] == ':' then |t| - 1
    else LastColon(t[..|t| - 1])
  }

  predicate DottedQuad(t: Text) {
    var parts := Split(t, '.');
    |parts| == 4 && forall i :: 0 <= i < 4 ==> Ipv4.AllDigits(parts[i])
  }

  /** The dotted quad that ends an address, if there is one, as two chunks. */
  function WithoutQuad(t: Text): Option<Text> {
    var at := LastColon(Line(t));
    if at >= 0 && '\n' !in t[..at] && DottedQuad(Line(t)[at + 1..]) then
      var b := Ipv4.Aton(Line(t)[at + 1..]);
      if b.None? then None
      else Some(t[..at] + [':'] + Hex(b.value[0]) + Hex(b.value[1]) + [':'] + Hex(b.value[2]) + Hex(b.value[3]))
    else Some(t)
  }

  /** A leading "::" or else a final one loses a colon. */
  function WithoutColon(t: Text): Text {
    if StartsWith(t, [':', ':']) then t[1..]
    else if EndsWith(Line(t), [':', ':']) && '\n' !in Line(t) then t[..|t| - 1]
    else t
  }

  /** Eight chunks of four digits, as 16 octets. */
  function FromChunks(chunks: seq<Text>): Option<Bytes> {
    if |chunks| > 8 then None
    else
      var canonical := Canonical(chunks, |chunks|, false);
      if canonical.None? || (|chunks| < 8 && [] !in chunks) then None else Unhexlify(Concat(canonical.value))
  }

  function Aton(text: Text): Option<Bytes> {
    if text == [] then None
    else if EndsWith(text, [':']) && !EndsWith(text, [':', ':']) then None
    else if StartsWith(text, [':']) && !StartsWith(text, [':', ':']) then None
    else
      var t := WithoutQuad(if text == [':', ':'] then ['0', ':', ':'] else text);
      if t.None? then None else FromChunks(Split(WithoutColon(t.value), ':'))
  }

  /** A scope, where it is to be ignored. */
  function WithoutScope(text: Text, ignoreScope: bool): Option<Text> {
    var parts := Split(text, '%');
    if !ignoreScope || |parts| == 1 then Some(text) else if |parts| == 2 then Some(parts[0]) else None
  }

  /** inet_aton; none for a SyntaxError. */
  method InetAton(text: Text, ignoreScope: bool) returns (r: Option<Bytes>)
    ensures r == match WithoutScope(text, ignoreScope) case None => None case Some(t) => Aton(t)
  {
    var btext := text;
    if ignoreScope {
      var parts := Split(btext, '%');
      if |parts| == 2 {
        btext := parts[0];
      } else if |parts| > 2 {
        return None;
      }
    }
    if btext == [] {
      return None;
    } else if EndsWith(btext, [':']) && !EndsWith(btext, [':', ':']) {
      return None;
    } else if StartsWith(btext, [':']) && !StartsWith(btext, [':', ':']) {
      return None;
    } else if btext == [':', ':'] {
      btext := ['0', ':', ':'];
    }
    var unquad := WithoutQuad(btext);
    if unquad.None? {
      return None;
    }
    r := CanonicalChunks(Split(WithoutColon(unquad.value), ':'));
  }

  /** The loop that makes eight chunks of four digits, and the way to binary. */
  method CanonicalChunks(chunks: seq<Text>) returns (r: Option<Bytes>)
    ensures r == FromChunks(chunks)
  {
    var l := |chunks|;
    if l > 8 {
      return None;
    }
    var seenEmpty := false;
    var canonical: seq<Text> := [];
    var i := 0;
    assert chunks[0..] == chunks;
    OntoNothing(Canonical(chunks, l, false));
    while i < l
      invariant 0 <= i <= l
      invariant seenEmpty == ([] in chunks[..i])
      invariant Canonical(chunks, l, false) == Onto(canonical, Canonical(chunks[i..], l, seenEmpty))
    {
      var c := chunks[i];
      assert chunks[i..][0] == c && chunks[i..][1..] == chunks[i + 1..];
      assert chunks[..i + 1] == chunks[..i] + [c];
      ghost var rest := Canonical(chunks[i + 1..], l, seenEmpty || c == []);
      if c == [] {
        if seenEmpty {
          return None;
        }
        seenEmpty := true;
        OntoMore(canonical, Repeat(Zeros(4), 8 - l + 1), rest);
        canonical := canonical + Repeat(Zeros(4), 8 - l + 1);
      } else {
        if |c| > 4 {
          return None;
        }
        OntoMore(canonical, [Zeros(4 - |c|) + c], rest);
        canonical := canonical + [Zeros(4 - |c|) + c];
      }
      i := i + 1;
    }
    assert chunks[..l] == chunks && canonical + [] == canonical;
    if l < 8 && !seenEmpty {
      return None;
    }
    r := Unhexlify(Concat(canonical));
  }

  function Onto(done: seq<Text>, rest: Option<seq<Text>>): Option<seq<Text>> {
    if rest.None? then None else Some(done + rest.value)
  }

  lemma OntoNothing(rest: Option<seq<Text>>)
    ensures Onto([], rest) == rest
  {
    if rest.Some? {
      assert [] + rest.value == rest.value;
    }
  }

  lemma OntoMore(done: seq<Text>, more: seq<Text>, rest: Option<seq<Text>>)
    ensures Onto(done, Onto(more, rest)) == Onto(done + more, rest)
  {
    if rest.Some? {
      assert done + (more + rest.value) == done + more + rest.value;
    }
  }

  // ---------------------------------------------------------------- round trip

  /** Up to four hexadecimal digits, at least one. */
  predicate ChunkOk(c: Text) {
    0 < |c| <= 4 && forall i :: 0 <= i < |c| ==> HexValue(c[i] as int).Some?
  }

  function Padded(c: Text): Text
    requires |c| <= 4
  {
    Zeros(4 - |c|) + c
  }

  lemma {:induction false} StripPads(c: Text)
    requires c != []
    ensures Zeros(|c| - |Strip(c)|) + Strip(c) == c
    decreases |c|
  {
    if |c| > 1 && c[0] == '0' {
      StripPads(c[1..]);
      assert Zeros(|c| - |Strip(c)|) == ['0'] + Zeros(|c| - 1 - |Strip(c)|);
      assert c == ['0'] + c[1..];
    } else {
      assert Zeros(0) == [];
    }
  }

  lemma {:induction false} StripDigits(c: Text)
    requires ChunkOk(c)
    ensures ChunkOk(Strip(c))
    decreases |c|
  {
    if |c| > 1 && c[0] == '0' {
      StripDigits(c[1..]);
    }
  }

  lemma QuadOk(address: Bytes, i: nat)
    requires |address| == 16 && i < 8
    ensures ChunkOk(Quad(address, i))
  {
    HexDigitRead(address[2 * i] / 16);
    HexDigitRead(address[2 * i] % 16);
    HexDigitRead(address[2 * i + 1] / 16);
    HexDigitRead(address[2 * i + 1] % 16);
  }

  /** Chunks that stand for those of an address from one on, stripped of zeros or not. */
  ghost predicate Spells(address: Bytes, chunks: seq<Text>, from: nat) {
    && |address| == 16 && from + |chunks| <= 8
    && forall i :: 0 <= i < |chunks| ==> ChunkOk(chunks[i]) && Padded(chunks[i]) == Quad(address, from + i)
  }

  lemma ChunksSpell(address: Bytes, from: nat, to: nat)
    requires |address| == 16 && from <= to <= 8
    ensures Spells(address, Chunks(address)[from..to], from)
  {
    hide Quad;
    forall i | from <= i < to ensures ChunkOk(Chunks(address)[i]) && Padded(Chunks(address)[i]) == Quad(address, i) {
      QuadOk(address, i);
      StripPads(Quad(address, i));
      StripDigits(Quad(address, i));
    }
  }

  /** A zero chunk stands for four zeros. */
  lemma ZeroQuad(address: Bytes, i: nat)
    requires |address| == 16 && i < 8 && Zero(Chunks(address), i)
    ensures Quad(address, i) == Zeros(4)
  {
    ChunksSpell(address, i, i + 1);
    assert Chunks(address)[i..i + 1][0] == ['0'];
    assert Zeros(3) + ['0'] == Zeros(4);
  }

  function Quads(address: Bytes, from: nat, to: nat): (r: seq<Text>)
    requires |address| == 16 && from <= to <= 8
    ensures |r| == to - from
  {
    seq(to - from, i requires 0 <= i < to - from => Quad(address, from + i))
  }

  /** Chunks of an address become its digits again. */
  lemma {:induction false} CanonicalOf(address: Bytes, chunks: seq<Text>, from: nat, l: nat, seenEmpty: bool)
    requires Spells(address, chunks, from) && l <= 8
    ensures Canonical(chunks, l, seenEmpty) == Some(Quads(address, from, from + |chunks|))
    decreases |chunks|
  {
    hide Quad;
    if chunks == [] {
      assert Quads(address, from, from) == [];
    } else {
      CanonicalOf(address, chunks[1..], from + 1, l, seenEmpty);
      assert Quads(address, from, from + |chunks|) == [Padded(chunks[0])] + Quads(address, from + 1, from + |chunks|);
    }
  }

  lemma {:induction false} CanonicalConcat(a: seq<Text>, b: seq<Text>, l: nat)
    requires l <= 8 && [] !in a
    ensures Canonical(a + b, l, false)
            == if Canonical(a, l, false).None? then None else Onto(Canonical(a, l, false).value, Canonical(b, l, false))
    decreases |a|
  {
    hide Zeros;
    if a == [] {
      assert a + b == b;
      OntoNothing(Canonical(b, l, false));
    } else {
      assert (a + b)[1..] == a[1..] + b;
      assert a[0] in a;
      CanonicalConcat(a[1..], b, l);
      if |a[0]| <= 4 && Canonical(a[1..], l, false).Some? {
        OntoMore([Zeros(4 - |a[0]|) + a[0]], Canonical(a[1..], l, false).value, Canonical(b, l, false));
      }
    }
  }

  lemma HexlifyTwo(bs: Bytes)
    requires |bs| >= 2
    ensures Hexlify(bs) == Hex(bs[0]) + Hex(bs[1]) + Hexlify(bs[1..][1..])
  {
    hide Hex;
    assert Hexlify(bs) == Hex(bs[0]) + (Hex(bs[1]) + Hexlify(bs[1..][1..]));
  }

  lemma {:induction false} ConcatQuads(address: Bytes, from: nat)
    requires |address| == 16 && from <= 8
    ensures Concat(Quads(address, from, 8)) == Hexlify(address[2 * from..])
    decreases 8 - from
  {
    if from < 8 {
      ConcatQuads(address, from + 1);
      var qs, tail := Quads(address, from, 8), address[2 * from..];
      assert qs == [Quad(address, from)] + Quads(address, from + 1, 8);
      assert tail[1..][1..] == address[2 * (from + 1)..];
      HexlifyTwo(tail);
    } else {
      assert Quads(address, 8, 8) == [] && address[16..] == [];
    }
  }

  lemma QuadsRead(address: Bytes)
    requires |address| == 16
    ensures Unhexlify(Concat(Quads(address, 0, 8))) == Some(address)
  {
    ConcatQuads(address, 0);
    HexRoundTrip(address);
    assert address[0..] == address;
  }

  /** All eight chunks. */
  lemma FromAllChunks(address: Bytes, chunks: seq<Text>)
    requires Spells(address, chunks, 0) && |chunks| == 8
    ensures FromChunks(chunks) == Some(address)
  {
    hide Canonical, Unhexlify;
    CanonicalOf(address, chunks, 0, 8, false);
    QuadsRead(address);
  }

  /** An empty chunk for a run of zero chunks. */
  lemma FromCompressedChunks(address: Bytes, left: seq<Text>, right: seq<Text>, len: nat)
    requires |address| == 16 && len >= 2 && |left| + len + |right| == 8
    requires Spells(address, left, 0) && Spells(address, right, |left| + len) && Run(Chunks(address), |left|, len)
    ensures FromChunks(left + [[]] + right) == Some(address)
  {
    hide Canonical, Unhexlify, Quad, ChunkOk;
    var start, all := |left|, left + [[]] + right;
    var l := |all|;
    NoneEmpty(address, left, 0);
    CanonicalOf(address, left, 0, l, false);
    CanonicalOf(address, right, start + len, l, true);
    assert all == left + ([[]] + right);
    CanonicalConcat(left, [[]] + right, l);
    EmptyChunk(right, l);
    var qs := Quads(address, 0, start) + (Repeat(Zeros(4), len) + Quads(address, start + len, 8));
    forall i | start <= i < start + len ensures Quad(address, i) == Zeros(4) {
      ZeroQuad(address, i);
    }
    assert qs == Quads(address, 0, 8);
    assert all[start] == [];
    QuadsRead(address);
  }

  lemma NoneEmpty(address: Bytes, chunks: seq<Text>, from: nat)
    requires Spells(address, chunks, from)
    ensures [] !in chunks
  {
  }

  lemma EmptyChunk(right: seq<Text>, l: nat)
    requires l <= 8
    ensures Canonical([[]] + right, l, false) == Onto(Repeat(Zeros(4), 8 - l + 1), Canonical(right, l, true))
  {
    assert ([[]] + right)[1..] == right;
  }

  // The text of chunks, and where its colons are.

  predicate AllOk(chunks: seq<Text>) {
    forall i :: 0 <= i < |chunks| ==> ChunkOk(chunks[i])
  }

  lemma OkCharacters(c: Text)
    requires ChunkOk(c)
    ensures ':' !in c && '.' !in c && '\n' !in c
  {
  }

  /** Digits at both ends, and nothing but digits and colons. */
  predicate Word(t: Text) {
    t != [] && t[0] != ':' && t[|t| - 1] != ':' && '.' !in t && '\n' !in t
  }

  lemma {:induction false} JoinWord(chunks: seq<Text>)
    requires AllOk(chunks) && chunks != []
    ensures Word(Join(chunks, ':'))
  {
    OkCharacters(chunks[0]);
    if |chunks| > 1 {
      JoinWord(chunks[1..]);
    }
  }

  /** The pieces around an empty chunk. */
  function Pieces(left: seq<Text>, right: seq<Text>): seq<Text> {
    left + [[]] + right
  }

  lemma PiecesSplit(left: seq<Text>, right: seq<Text>)
    requires AllOk(left) && AllOk(right)
    ensures Split(Join(Pieces(left, right), ':'), ':') == Pieces(left, right)
  {
    hide ChunkOk;
    var pieces := Pieces(left, right);
    forall p | p in pieces ensures ':' !in p {
      var i :| 0 <= i < |pieces| && pieces[i] == p;
      if i < |left| {
        OkCharacters(left[i]);
      } else if i > |left| {
        OkCharacters(right[i - |left| - 1]);
      }
    }
    SplitJoin(pieces, ':');
  }

  lemma PiecesText(left: seq<Text>, right: seq<Text>)
    ensures left == [] && right != [] ==> Join(Pieces(left, right), ':') == [':'] + Join(right, ':')
    ensures left != [] && right == [] ==> Join(Pieces(left, right), ':') == Join(left, ':') + [':']
    ensures left != [] && right != [] ==>
      Join(Pieces(left, right), ':') == Join(left, ':') + [':', ':'] + Join(right, ':')
  {
    var empty: seq<Text> := [[]];
    assert Join(empty, ':') == [];
    if left == [] && right != [] {
      assert Pieces(left, right) == empty + right;
      JoinConcat(empty, right, ':');
    } else if left != [] && right == [] {
      assert Pieces(left, right) == left + empty;
      JoinConcat(left, empty, ':');
    } else if left != [] {
      JoinConcat(left, empty, ':');
      JoinConcat(left + empty, right, ':');
    }
  }

  lemma NoQuad(t: Text)
    requires '.' !in t
    ensures WithoutQuad(t) == Some(t)
  {
    var at := LastColon(Line(t));
    if at >= 0 {
      SplitWord(Line(t)[at + 1..], '.');
    }
  }

  /** Text that passes the first tests, has no dotted quad, and loses a colon or not. */
  lemma AtonOf(t: Text, u: Text)
    requires t != [] && t != [':', ':'] && '.' !in t && WithoutColon(t) == u
    requires t[|t| - 1] == ':' ==> |t| >= 2 && t[|t| - 2] == ':'
    requires t[0] == ':' ==> |t| >= 2 && t[1] == ':'
    ensures Aton(t) == FromChunks(Split(u, ':'))
  {
    hide FromChunks, WithoutColon;
    NoQuad(t);
  }

  lemma LeadingColons(t: Text)
    requires |t| >= 2 && t[0] == ':' && t[1] == ':'
    ensures WithoutColon(t) == t[1..]
  {
  }

  lemma FinalColons(t: Text)
    requires |t| >= 3 && t[0] != ':' && '\n' !in t && t[|t| - 2] == ':' && t[|t| - 1] == ':'
    ensures WithoutColon(t) == t[..|t| - 1]
  {
  }

  lemma NoColons(t: Text)
    requires t != [] && t[0] != ':' && t[|t| - 1] != ':' && t[|t| - 1] != '\n'
    ensures WithoutColon(t) == t
  {
  }

  /** Chunks without an empty one are left as they are. */
  lemma AtonPlain(chunks: seq<Text>)
    requires AllOk(chunks) && chunks != []
    ensures Aton(Join(chunks, ':')) == FromChunks(chunks)
  {
    hide ChunkOk, FromChunks, Aton, WithoutColon;
    var t := Join(chunks, ':');
    JoinWord(chunks);
    forall p | p in chunks ensures ':' !in p {
      var i :| 0 <= i < |chunks| && chunks[i] == p;
      OkCharacters(chunks[i]);
    }
    SplitJoin(chunks, ':');
    NoColons(t);
    AtonOf(t, t);
  }

  lemma AtonLeftOpen(right: seq<Text>)
    requires AllOk(right) && right != []
    ensures Aton([':', ':'] + Join(right, ':')) == FromChunks(Pieces([], right))
  {
    hide ChunkOk, FromChunks, Aton, WithoutColon, Join;
    JoinWord(right);
    var t := [':', ':'] + Join(right, ':');
    assert t[1..] == [':'] + Join(right, ':');
    PiecesText([], right);
    PiecesSplit([], right);
    LeadingColons(t);
    AtonOf(t, t[1..]);
  }

  lemma AtonRightOpen(left: seq<Text>)
    requires AllOk(left) && left != []
    ensures Aton(Join(left, ':') + [':', ':']) == FromChunks(Pieces(left, []))
  {
    hide ChunkOk, FromChunks, Aton, WithoutColon, Join;
    JoinWord(left);
    var t := Join(left, ':') + [':', ':'];
    assert t[..|t| - 1] == Join(left, ':') + [':'];
    PiecesText(left, []);
    PiecesSplit(left, []);
    FinalColons(t);
    AtonOf(t, t[..|t| - 1]);
  }

  lemma AtonMiddle(left: seq<Text>, right: seq<Text>)
    requires AllOk(left) && left != [] && AllOk(right) && right != []
    ensures Aton(Join(left, ':') + [':', ':'] + Join(right, ':')) == FromChunks(Pieces(left, right))
  {
    hide ChunkOk, FromChunks, Aton, WithoutColon, Join;
    JoinWord(left);
    JoinWord(right);
    var t := Join(left, ':') + [':', ':'] + Join(right, ':');
    PiecesText(left, right);
    PiecesSplit(left, right);
    NoColons(t);
    AtonOf(t, t);
  }

  /** Every chunk zero: "::" is read as "0::". */
  lemma AtonNothing()
    ensures Aton([':', ':']) == FromChunks(Pieces([['0']], []))
  {
    hide FromChunks, WithoutColon;
    var t := ['0', ':', ':'];
    NoQuad(t);
    FinalColons(t);
    assert t[..2] == Join([['0']], ':') + [':'];
    assert ChunkOk(['0']);
    PiecesText([['0']], []);
    PiecesSplit([['0']], []);
  }

  // The dotted quad.

  lemma {:induction false} LastColonAt(a: Text, b: Text)
    requires ':' !in b
    ensures LastColon(a + [':'] + b) == |a|
    decreases |b|
  {
    var t := a + [':'] + b;
    if b == [] {
      assert t[|t| - 1] == ':';
    } else {
      var shorter := b[..|b| - 1];
      LastColonAt(a, shorter);
      assert t[..|t| - 1] == a + [':'] + shorter;
      assert t[|t| - 1] == b[|b| - 1];
    }
  }

  lemma QuadText(before: Text, b: Bytes)
    requires |b| == 4 && '\n' !in before
    ensures WithoutQuad(before + [':'] + Ipv4.Ntoa(b))
            == Some(before + [':'] + Hex(b[0]) + Hex(b[1]) + [':'] + Hex(b[2]) + Hex(b[3]))
  {
    hide Hex;
    var quad := Ipv4.Ntoa(b);
    var t := before + [':'] + quad;
    Ipv4.RoundTrip(b);
    QuadDigits(b);
    LastColonAt(before, quad);
    assert Line(t) == t;
    assert t[|before| + 1..] == quad && t[..|before|] == before;
  }

  lemma QuadDigits(b: Bytes)
    requires |b| == 4
    ensures Ipv4.Ntoa(b) != [] && Ipv4.Ntoa(b)[|Ipv4.Ntoa(b)| - 1] != ':' && DottedQuad(Ipv4.Ntoa(b))
  {
    Ipv4.RoundTrip(b);
    Ipv4.DigitsRead(b[0]);
    Ipv4.DigitsRead(b[1]);
    Ipv4.DigitsRead(b[2]);
    Ipv4.DigitsRead(b[3]);
  }

  /** An embedded IPv4 address after "::" or "::ffff:". */
  lemma AtonEmbedded(address: Bytes, first: seq<Text>)
    requires |address| == 16 && (first == [] || first == [MAPPED])
    ensures Aton([':', ':'] + (if first == [] then [] else MAPPED + [':']) + Ipv4.Ntoa(address[12..]))
            == FromChunks(Pieces([], first + [Quad(address, 6), Quad(address, 7)]))
  {
    hide FromChunks, WithoutColon, WithoutQuad, Hex, Split, Join, Ipv4.Ntoa;
    var b := address[12..];
    var before: Text := if first == [] then [':'] else [':', ':'] + MAPPED;
    var t := before + [':'] + Ipv4.Ntoa(b);
    assert t == [':', ':'] + (if first == [] then [] else MAPPED + [':']) + Ipv4.Ntoa(b);
    QuadText(before, b);
    QuadDigits(b);
    var right := first + [Quad(address, 6), Quad(address, 7)];
    var u := [':', ':'] + Join(right, ':');
    assert u == before + [':'] + Hex(b[0]) + Hex(b[1]) + [':'] + Hex(b[2]) + Hex(b[3]) by { RightText(address, first); }
    LeadingColons(u);
    assert u[1..] == [':'] + Join(right, ':');
    RightOk(address, first);
    PiecesText([], right);
    PiecesSplit([], right);
  }

  lemma RightText(address: Bytes, first: seq<Text>)
    requires |address| == 16 && (first == [] || first == [MAPPED])
    ensures Join(first + [Quad(address, 6), Quad(address, 7)], ':')
            == (if first == [] then [] else MAPPED + [':']) + Quad(address, 6) + [':'] + Quad(address, 7)
  {
    hide Quad;
    var two := [Quad(address, 6), Quad(address, 7)];
    assert Join(two, ':') == Quad(address, 6) + [':'] + Quad(address, 7) by { assert two[1..] == [Quad(address, 7)]; }
    if first == [] {
      assert first + two == two;
    } else {
      JoinConcat(first, two, ':');
    }
  }

  lemma RightOk(address: Bytes, first: seq<Text>)
    requires |address| == 16 && (first == [] || first == [MAPPED])
    ensures AllOk(first + [Quad(address, 6), Quad(address, 7)])
  {
    QuadOk(address, 6);
    QuadOk(address, 7);
    assert ChunkOk(MAPPED);
  }

  lemma EmbeddedReads(address: Bytes, len: nat)
    requires |address| == 16 && Run(Chunks(address), 0, len) && (len == 6 || (len == 5 && Chunks(address)[5] == MAPPED))
    ensures Aton(Compressed(address, 0, len)) == Some(address)
  {
    hide FromChunks, Aton, Quad, Join, Ipv4.Ntoa;
    var first: seq<Text> := if len == 6 then [] else [MAPPED];
    var right := first + [Quad(address, 6), Quad(address, 7)];
    AtonEmbedded(address, first);
    assert [':', ':'] + [] + Ipv4.Ntoa(address[12..]) == [':', ':'] + Ipv4.Ntoa(address[12..]);
    assert [':', ':'] + (MAPPED + [':']) == [':', ':'] + MAPPED + [':'];
    ChunksSpell(address, 5, 6);
    assert Chunks(address)[5..6][0] == Chunks(address)[5];
    RightOk(address, first);
    forall i | 0 <= i < |right| ensures Padded(right[i]) == Quad(address, len + i) {
      assert Zeros(0) == [];
    }
    FromCompressedChunks(address, [], right, len);
  }

  lemma CompressedReads(address: Bytes, start: nat, len: nat)
    requires |address| == 16 && len >= 2 && Run(Chunks(address), start, len)
    requires !(start == 0 && (len == 6 || (len == 5 && Chunks(address)[5] == MAPPED)))
    ensures Aton(Compressed(address, start, len)) == Some(address)
  {
    hide FromChunks, Aton, Quad, Join, Chunks, Spells;
    var cs := Chunks(address);
    var left, right := cs[0..start], cs[start + len..8];
    assert cs[..start] == left && cs[start + len..] == right;
    ChunksSpell(address, 0, start);
    ChunksSpell(address, start + len, 8);
    SpellsOk(address, left, 0);
    SpellsOk(address, right, start + len);
    assert Join([], ':') == [] by { JoinNothing(); }
    if len == 8 {
      assert Zero(cs, 0);
      assert cs[0..1] == [['0']];
      ChunksSpell(address, 0, 1);
      ChunksSpell(address, 8, 8);
      assert cs[8..8] == [];
      FromCompressedChunks(address, [['0']], [], 7);
      AtonNothing();
      assert [] + [':', ':'] + [] == [':', ':'];
    } else {
      FromCompressedChunks(address, left, right, len);
      if left == [] {
        AtonLeftOpen(right);
        assert [] + [':', ':'] + Join(right, ':') == [':', ':'] + Join(right, ':');
      } else if right == [] {
        AtonRightOpen(left);
        assert Join(left, ':') + [':', ':'] + [] == Join(left, ':') + [':', ':'];
      } else {
        AtonMiddle(left, right);
      }
    }
  }

  lemma JoinNothing()
    ensures Join([], ':') == []
  {
  }

  lemma SpellsOk(address: Bytes, chunks: seq<Text>, from: nat)
    requires Spells(address, chunks, from)
    ensures AllOk(chunks)
  {
  }

  /** Every address, written as text and read back, is the same address: with and without a
      run of zero chunks compressed, and in both forms with an embedded IPv4 address. */
  lemma RoundTrip(address: Bytes)
    requires |address| == 16
    ensures Aton(Ntoa(address)) == Some(address)
  {
    hide FromChunks, Aton, Quad, Join, Chunks, Spells, BestRun;
    var (start, len) := BestRun(Chunks(address), 0);
    if len <= 1 {
      var cs := Chunks(address);
      assert cs[0..8] == cs;
      ChunksSpell(address, 0, 8);
      SpellsOk(address, cs, 0);
      AtonPlain(cs);
      FromAllChunks(address, cs);
    } else if start == 0 && (len == 6 || (len == 5 && Chunks(address)[5] == MAPPED)) {
      EmbeddedReads(address, len);
    } else {
      CompressedReads(address, start, len);
    }
  }

  // ---------------------------------------------------------------- groups of digits

  /** The two octets that up to four digits stand for. */
  function GroupOctets(c: Text): (r: Bytes)
    requires ChunkOk(c)
    ensures |r| == 2
  {
    var padded := Padded(c);
    PaddedDigits(c);
    [16 * HexValue(padded[0] as int).value + HexValue(padded[1] as int).value,
     16 * HexValue(padded[2] as int).value + HexValue(padded[3] as int).value]
  }

  lemma PaddedDigits(c: Text)
    requires ChunkOk(c)
    ensures |Padded(c)| == 4 && forall i :: 0 <= i < 4 ==> HexValue(Padded(c)[i] as int).Some?
    ensures forall i :: 0 <= i < 4 ==> HexValue(Padded(c)[i] as int).value < 16
  {
  }

  /** In digits: the last one of a group counts once and each other one sixteen times as much
      as the next. */
  lemma GroupMeans(c: Text, values: seq<nat>)
    requires 0 < |c| <= 4 && |values| == |c|
    requires forall i :: 0 <= i < |c| ==>
      values[i] < 16 && (c[i] == "0123456789abcdef"[values[i]] || c[i] == "0123456789ABCDEF"[values[i]])
    ensures ChunkOk(c)
    ensures GroupOctets(c) == if |c| == 1 then [0, values[0]]
                              else if |c| == 2 then [0, 16 * values[0] + values[1]]
                              else if |c| == 3 then [values[0], 16 * values[1] + values[2]]
                              else [16 * values[0] + values[1], 16 * values[2] + values[3]]
  {
    forall i | 0 <= i < |c| ensures HexValue(c[i] as int) == Some(values[i]) {
      HexDigits(c[i] as int, values[i]);
    }
    assert HexValue('0' as int) == Some(0);
    GroupValues(c, values);
  }

  lemma GroupValues(c: Text, values: seq<nat>)
    requires ChunkOk(c) && |values| == |c| && HexValue('0' as int) == Some(0)
    requires forall i :: 0 <= i < |c| ==> values[i] < 16 && HexValue(c[i] as int) == Some(values[i])
    ensures GroupOctets(c) == if |c| == 1 then [0, values[0]]
                              else if |c| == 2 then [0, 16 * values[0] + values[1]]
                              else if |c| == 3 then [values[0], 16 * values[1] + values[2]]
                              else [16 * values[0] + values[1], 16 * values[2] + values[3]]
  {
    hide HexValue;
    var padded := Padded(c);
    assert forall i :: 0 <= i < |c| ==> padded[4 - |c| + i] == c[i];
  }

  function Octs(chunks: seq<Text>): (r: Bytes)
    requires AllOk(chunks)
    ensures |r| == 2 * |chunks|
  {
    if chunks == [] then [] else GroupOctets(chunks[0]) + Octs(chunks[1..])
  }

  function Pads(chunks: seq<Text>): (r: seq<Text>)
    requires AllOk(chunks)
    ensures |r| == |chunks|
  {
    seq(|chunks|, i requires 0 <= i < |chunks| => Padded(chunks[i]))
  }

  lemma {:induction false} PadsRead(chunks: seq<Text>)
    requires AllOk(chunks)
    ensures Unhexlify(Concat(Pads(chunks))) == Some(Octs(chunks))
  {
    hide GroupOctets, Padded, Unhexlify;
    if chunks == [] {
      NoDigits();
    } else {
      PadsRead(chunks[1..]);
      assert Pads(chunks) == [Padded(chunks[0])] + Pads(chunks[1..]);
      GroupReads(chunks[0], Concat(Pads(chunks[1..])));
    }
  }

  lemma NoDigits()
    ensures Unhexlify([]) == Some([])
  {
  }

  lemma GroupReads(c: Text, rest: Text)
    requires ChunkOk(c)
    ensures Unhexlify(Padded(c) + rest)
            == if Unhexlify(rest).Some? then Some(GroupOctets(c) + Unhexlify(rest).value) else None
  {
    PaddedDigits(c);
    var t := Padded(c) + rest;
    assert t[2..][2..] == rest && t[2..][0] == t[2] && t[2..][1] == t[3];
    if Unhexlify(rest).Some? {
      var o := GroupOctets(c);
      assert [o[0]] + ([o[1]] + Unhexlify(rest).value) == o + Unhexlify(rest).value;
    }
  }

  lemma {:induction false} CanonicalPads(chunks: seq<Text>, l: nat, seenEmpty: bool)
    requires AllOk(chunks) && l <= 8
    ensures Canonical(chunks, l, seenEmpty) == Some(Pads(chunks))
    decreases |chunks|
  {
    if chunks != [] {
      assert ChunkOk(chunks[0]);
      CanonicalPads(chunks[1..], l, seenEmpty);
      assert Pads(chunks) == [Padded(chunks[0])] + Pads(chunks[1..]);
    }
  }

  /** Groups of zero. */
  function ZeroGroups(n: nat): (r: seq<Text>)
    ensures AllOk(r) && |r| == n
  {
    seq(n, _ => ['0'])
  }

  lemma PiecesPadded(left: seq<Text>, right: seq<Text>)
    requires AllOk(left) && AllOk(right) && |left| + |right| <= 7
    ensures Canonical(Pieces(left, right), |left| + |right| + 1, false)
            == Some(Pads(left) + (Repeat(Zeros(4), 8 - |left| - |right|) + Pads(right)))
  {
    hide Canonical, ChunkOk, Pads, Zeros;
    var l := |left| + |right| + 1;
    NoEmptyGroup(left);
    assert Pieces(left, right) == left + ([[]] + right);
    CanonicalConcat(left, [[]] + right, l);
    CanonicalPads(left, l, false);
    CanonicalPads(right, l, true);
    EmptyChunk(right, l);
  }

  lemma PadsThree(left: seq<Text>, n: nat, right: seq<Text>)
    requires AllOk(left) && AllOk(right)
    ensures AllOk(left + ZeroGroups(n) + right)
    ensures Pads(left + ZeroGroups(n) + right) == Pads(left) + (Repeat(Zeros(4), n) + Pads(right))
  {
    hide ChunkOk, Pads, Zeros, Repeat, ZeroGroups;
    PadsConcat(left, ZeroGroups(n));
    PadsConcat(left + ZeroGroups(n), right);
    PadsZero(n);
    assert Pads(left) + Repeat(Zeros(4), n) + Pads(right) == Pads(left) + (Repeat(Zeros(4), n) + Pads(right));
  }

  lemma PiecesRead(left: seq<Text>, right: seq<Text>, n: nat)
    requires AllOk(left) && AllOk(right) && n >= 1 && |left| + n + |right| == 8
    ensures AllOk(left + ZeroGroups(n) + right)
    ensures FromChunks(Pieces(left, right)) == Some(Octs(left + ZeroGroups(n) + right))
  {
    hide *;
    PiecesPadded(left, right);
    PadsThree(left, n, right);
    PiecesCount(left, right);
    FromPadded(Pieces(left, right), left + ZeroGroups(n) + right);
  }

  lemma PiecesCount(left: seq<Text>, right: seq<Text>)
    ensures |Pieces(left, right)| == |left| + |right| + 1 && [] in Pieces(left, right)
  {
    assert Pieces(left, right)[|left|] == [];
  }

  lemma FromPadded(chunks: seq<Text>, all: seq<Text>)
    requires |chunks| <= 8 && [] in chunks && AllOk(all) && Canonical(chunks, |chunks|, false) == Some(Pads(all))
    ensures FromChunks(chunks) == Some(Octs(all))
  {
    hide Canonical, Unhexlify, ChunkOk, Octs, Pads, Concat;
    PadsRead(all);
  }

  lemma PadsConcat(a: seq<Text>, b: seq<Text>)
    requires AllOk(a) && AllOk(b)
    ensures AllOk(a + b) && Pads(a + b) == Pads(a) + Pads(b)
  {
    hide Padded;
  }

  lemma PadsZero(n: nat)
    ensures Pads(ZeroGroups(n)) == Repeat(Zeros(4), n)
  {
    assert Zeros(3) + ['0'] == Zeros(4);
  }

  lemma NoEmptyGroup(chunks: seq<Text>)
    requires AllOk(chunks)
    ensures [] !in chunks
  {
  }

  /** Eight groups of up to four digits are the sixteen octets they stand for, one group after
      another; and fewer groups with "::" between them, or before or behind them all, are the
      same with as many groups of zero in its place as are missing. */
  lemma GroupsRead(left: seq<Text>, right: seq<Text>)
    requires AllOk(left) && AllOk(right)
    ensures |left| == 8 ==> Aton(Join(left, ':')) == Some(Octs(left))
    ensures |left| + |right| <= 7 ==>
              && AllOk(left + ZeroGroups(8 - |left| - |right|) + right)
              && Aton(Join(left, ':') + [':', ':'] + Join(right, ':'))
                 == Some(Octs(left + ZeroGroups(8 - |left| - |right|) + right))
  {
    hide Canonical, Unhexlify, ChunkOk, Octs, Aton, Join, FromChunks;
    if |left| == 8 {
      AtonPlain(left);
      AllEight(left);
    }
    if |left| + |right| <= 7 {
      PiecesRead(left, right, 8 - |left| - |right|);
      JoinNothing();
      var t := Join(left, ':') + [':', ':'] + Join(right, ':');
      if left == [] && right == [] {
        assert t == [':', ':'];
        AtonNothing();
        ZeroOk();
        PiecesRead([['0']], [], 7);
        assert [['0']] + ZeroGroups(7) + [] == [] + ZeroGroups(8) + [];
      } else if left == [] {
        assert t == [':', ':'] + Join(right, ':');
        AtonLeftOpen(right);
      } else if right == [] {
        assert t == Join(left, ':') + [':', ':'];
        AtonRightOpen(left);
      } else {
        AtonMiddle(left, right);
      }
    }
  }

  lemma ZeroOk()
    ensures AllOk([['0']])
  {
  }

  lemma AllEight(chunks: seq<Text>)
    requires AllOk(chunks) && |chunks| == 8
    ensures FromChunks(chunks) == Some(Octs(chunks))
  {
    hide Canonical, Unhexlify, ChunkOk;
    CanonicalPads(chunks, 8, false);
    PadsRead(chunks);
  }

  // ---------------------------------------------------------------- exactly which texts

  predicate AllHex(t: Text) {
    forall i :: 0 <= i < |t| ==> HexValue(t[i] as int).Some?
  }

  lemma {:induction false} HexParts(a: Text, b: Text)
    requires Unhexlify(a + b).Some? && |a| % 2 == 0
    ensures AllHex(a) && Unhexlify(b).Some?
    decreases |a|
  {
    if a == [] {
      assert a + b == b;
    } else {
      assert (a + b)[2..] == a[2..] + b && (a + b)[0] == a[0] && (a + b)[1] == a[1];
      HexParts(a[2..], b);
      forall i | 0 <= i < |a| ensures HexValue(a[i] as int).Some? {
        assert i >= 2 ==> a[i] == a[2..][i - 2];
      }
    }
  }

  lemma {:induction false} ConcatSplit(a: seq<Text>, b: seq<Text>)
    ensures Concat(a + b) == Concat(a) + Concat(b)
  {
    if a == [] {
      assert a + b == b;
    } else {
      assert (a + b)[1..] == a[1..] + b;
      ConcatSplit(a[1..], b);
    }
  }

  lemma {:induction false} ZerosEven(n: nat)
    ensures |Concat(Repeat(Zeros(4), n))| % 2 == 0
  {
    if n > 0 {
      assert Repeat(Zeros(4), n)[1..] == Repeat(Zeros(4), n - 1);
      ZerosEven(n - 1);
    }
  }

  /** Where the loop over the chunks and the way to binary succeed, one chunk at most is empty,
      and every other is a group of digits. */
  lemma {:induction false} ChunksFound(chunks: seq<Text>, l: nat, seenEmpty: bool)
    requires l <= 8 && Canonical(chunks, l, seenEmpty).Some?
    requires Unhexlify(Concat(Canonical(chunks, l, seenEmpty).value)).Some?
    ensures seenEmpty ==> AllOk(chunks)
    ensures forall i :: 0 <= i < |chunks| && chunks[i] == [] ==> AllOk(chunks[..i]) && AllOk(chunks[i + 1..])
    ensures [] !in chunks ==> AllOk(chunks)
    decreases |chunks|
  {
    hide Unhexlify, Concat, HexValue;
    if chunks != [] {
      var rest := chunks[1..];
      if chunks[0] == [] {
        var more := Canonical(rest, l, true).value;
        ConcatSplit(Repeat(Zeros(4), 8 - l + 1), more);
        ZerosEven(8 - l + 1);
        HexParts(Concat(Repeat(Zeros(4), 8 - l + 1)), Concat(more));
        ChunksFound(rest, l, true);
        NoneEmptyIn(rest);
      } else {
        var more := Canonical(rest, l, seenEmpty).value;
        var group := Zeros(4 - |chunks[0]|) + chunks[0];
        ConcatOne(group, more);
        HexParts(group, Concat(more));
        ChunksFound(rest, l, seenEmpty);
        GroupFound(chunks[0]);
        GroupsFound(chunks);
      }
    }
  }

  lemma ConcatOne(group: Text, more: seq<Text>)
    ensures Concat([group] + more) == group + Concat(more)
  {
    assert ([group] + more)[1..] == more;
  }

  lemma NoneEmptyIn(chunks: seq<Text>)
    requires AllOk(chunks)
    ensures forall i :: 0 <= i < |chunks| ==> chunks[i] != []
  {
  }

  lemma GroupFound(c: Text)
    requires 0 < |c| <= 4 && AllHex(Zeros(4 - |c|) + c)
    ensures ChunkOk(c)
  {
    var padded := Zeros(4 - |c|) + c;
    forall i | 0 <= i < |c| ensures HexValue(c[i] as int).Some? {
      assert padded[4 - |c| + i] == c[i];
    }
  }

  lemma GroupsFound(chunks: seq<Text>)
    requires chunks != [] && ChunkOk(chunks[0])
    ensures AllOk(chunks[1..]) ==> AllOk(chunks)
    ensures forall i :: 0 < i < |chunks| && AllOk(chunks[1..][..i - 1]) ==> AllOk(chunks[..i])
  {
    hide ChunkOk;
    forall i | 0 < i < |chunks| && AllOk(chunks[1..][..i - 1]) ensures AllOk(chunks[..i]) {
      forall j | 0 <= j < i ensures ChunkOk(chunks[..i][j]) {
        assert j > 0 ==> chunks[..i][j] == chunks[1..][..i - 1][j - 1];
      }
    }
  }

  /** The colon that is taken away was one of two at the start or at the end. */
  lemma ColonBack(t: Text, u: Text)
    requires t != [] && WithoutColon(t) == u && u != []
    requires EndsWith(t, [':']) ==> EndsWith(t, [':', ':'])
    requires StartsWith(t, [':']) ==> StartsWith(t, [':', ':'])
    ensures u[0] == ':' && u[|u| - 1] != ':' ==> t == [':'] + u
    ensures u[0] != ':' && u[|u| - 1] == ':' && (|u| >= 2 ==> u[|u| - 2] != ':') ==> t == u + [':']
    ensures u[0] != ':' && u[|u| - 1] != ':' ==> t == u
  {
    if StartsWith(t, [':', ':']) {
      assert t[0] == t[..2][0] == ':' && t[1] == t[..2][1] == ':';
      assert u[0] == ':' && t == [':'] + u;
    } else if EndsWith(Line(t), [':', ':']) && '\n' !in Line(t) {
      var line := Line(t);
      assert line[|line| - 1] == line[|line| - 2..][1] == ':' && line[|line| - 2] == line[|line| - 2..][0] == ':';
      assert t == u + [t[|t| - 1]];
    } else {
      OneColon(t);
      if EndsWith(t, [':', ':']) {
        EndsTwo(t);
      }
    }
  }

  lemma OneColon(t: Text)
    requires t != []
    ensures StartsWith(t, [':']) <==> t[0] == ':'
    ensures EndsWith(t, [':']) <==> t[|t| - 1] == ':'
  {
    assert t[..1] == [t[0]] && t[|t| - 1..] == [t[|t| - 1]];
  }

  lemma EndsTwo(t: Text)
    requires EndsWith(t, [':', ':'])
    ensures |t| >= 2 && t[|t| - 1] == ':' && t[|t| - 2] == ':'
  {
    assert t[|t| - 2..][0] == ':' && t[|t| - 2..][1] == ':';
  }

  /** The groups in front of "::" and those behind it; or all eight, and none behind. */
  predicate Groups(text: Text, left: seq<Text>, right: seq<Text>) {
    && AllOk(left) && AllOk(right)
    && ((|left| == 8 && right == [] && text == Join(left, ':'))
        || (|left| + |right| <= 7 && text == Join(left, ':') + [':', ':'] + Join(right, ':')))
  }

  lemma EightFound(t: Text, chunks: seq<Text>)
    requires t != [] && WithoutColon(t) == Join(chunks, ':') && AllOk(chunks) && |chunks| == 8
    requires EndsWith(t, [':']) ==> EndsWith(t, [':', ':'])
    requires StartsWith(t, [':']) ==> StartsWith(t, [':', ':'])
    ensures Groups(t, chunks, [])
  {
    hide ChunkOk, WithoutColon, Join, EndsWith, StartsWith;
    JoinWord(chunks);
    ColonBack(t, Join(chunks, ':'));
  }

  lemma FewerFound(t: Text, left: seq<Text>, right: seq<Text>)
    requires t != [] && WithoutColon(t) == Join(Pieces(left, right), ':') && AllOk(left) && AllOk(right)
    requires |left| + |right| <= 7
    requires EndsWith(t, [':']) ==> EndsWith(t, [':', ':'])
    requires StartsWith(t, [':']) ==> StartsWith(t, [':', ':'])
    ensures Groups(t, left, right)
  {
    hide ChunkOk, WithoutColon, Join, EndsWith, StartsWith, Pieces;
    var u := WithoutColon(t);
    PiecesText(left, right);
    JoinNothing();
    if left == [] && right == [] {
      SomethingLeft(t);
      NoPieces();
      assert false;
    } else if left == [] {
      JoinWord(right);
      assert u[|u| - 1] == Join(right, ':')[|Join(right, ':')| - 1];
      ColonBack(t, u);
      assert [':'] + ([':'] + Join(right, ':')) == [] + [':', ':'] + Join(right, ':');
    } else if right == [] {
      JoinWord(left);
      assert u[0] == Join(left, ':')[0];
      ColonBack(t, u);
      assert Join(left, ':') + [':'] + [':'] == Join(left, ':') + [':', ':'] + [];
    } else {
      JoinWord(left);
      JoinWord(right);
      assert u[0] == Join(left, ':')[0] && u[|u| - 1] == Join(right, ':')[|Join(right, ':')| - 1];
      ColonBack(t, u);
    }
  }

  /** Taking a colon away leaves something. */
  lemma SomethingLeft(t: Text)
    requires t != []
    ensures WithoutColon(t) != []
  {
  }

  lemma NoPieces()
    ensures Join(Pieces([], []), ':') == []
  {
    assert Pieces([], []) == [[]];
    assert Join([[]], ':') == [];
  }

  /** Exactly which texts without a dot are read as addresses: eight groups of one to four
      digits, or fewer with "::" once in place of all that are missing. */
  lemma AtonIff(text: Text)
    requires '.' !in text
    ensures Aton(text).Some? <==> exists left, right :: Groups(text, left, right)
  {
    hide Canonical, ChunkOk, Aton, WithoutColon, Join, FromChunks, Octs;
    if Aton(text).Some? {
      var left, right := GroupsFoundIn(text);
    }
    if left, right :| Groups(text, left, right) {
      GroupsRead(left, right);
    }
  }

  lemma GroupsFoundIn(text: Text) returns (left: seq<Text>, right: seq<Text>)
    requires '.' !in text && Aton(text).Some?
    ensures Groups(text, left, right)
  {
    hide Canonical, ChunkOk, WithoutColon, Join, Split, EndsWith, StartsWith, WithoutQuad, Unhexlify, Concat;
    NoQuad(text);
    if text == [':', ':'] {
      JoinNothing();
      left, right := [], [];
      assert [] + [':', ':'] + [] == text;
    } else {
      var u := WithoutColon(text);
      var chunks := Split(u, ':');
      JoinSplit(u, ':');
      ChunksFound(chunks, |chunks|, false);
      if [] in chunks {
        var k :| 0 <= k < |chunks| && chunks[k] == [];
        left, right := chunks[..k], chunks[k + 1..];
        assert chunks == Pieces(left, right);
        FewerFound(text, left, right);
      } else {
        left, right := chunks, [];
        EightFound(text, chunks);
      }
    }
  }

  /** A dotted quad behind the last colon stands for two groups. */
  lemma QuadRead(before: Text, b: Bytes)
    requires |b| == 4 && '\n' !in before && '.' !in before
    requires StartsWith(before + [':'], [':']) ==> StartsWith(before + [':'], [':', ':'])
    ensures Aton(before + [':'] + Ipv4.Ntoa(b))
            == Aton(before + [':'] + Hex(b[0]) + Hex(b[1]) + [':'] + Hex(b[2]) + Hex(b[3]))
  {
    hide FromChunks, WithoutColon, WithoutQuad, Hex, Split, Ipv4.Ntoa;
    QuadText(before, b);
    QuadDigits(b);
    var t := before + [':'] + Ipv4.Ntoa(b);
    var u := before + [':'] + Hex(b[0]) + Hex(b[1]) + [':'] + Hex(b[2]) + Hex(b[3]);
    HexEnds(b[0]);
    HexEnds(b[3]);
    HexPlain(b);
    NoQuad(u);
    Ipv4.RoundTrip(b);
    assert t[|before| + 1] == Ipv4.Ntoa(b)[0] && u[|before| + 1] == Hex(b[0])[0];
    assert t[|t| - 1] != ':' && u[|u| - 1] == Hex(b[3])[1];
    SameStart(before, t, u);
  }

  lemma HexEnds(b: Byte)
    ensures Hex(b)[0] != ':' && Hex(b)[1] != ':' && '.' !in Hex(b)
  {
    HexDigitRead(b / 16);
    HexDigitRead(b % 16);
  }

  lemma HexPlain(b: Bytes)
    requires |b| == 4
    ensures '.' !in Hex(b[0]) && '.' !in Hex(b[1]) && '.' !in Hex(b[2]) && '.' !in Hex(b[3])
  {
    hide Hex;
    HexEnds(b[0]);
    HexEnds(b[1]);
    HexEnds(b[2]);
    HexEnds(b[3]);
  }

  lemma SameStart(before: Text, t: Text, u: Text)
    requires before + [':'] <= t && before + [':'] <= u && |t| > |before| + 1 && |u| > |before| + 1
    requires t[|before| + 1] != ':' && u[|before| + 1] != ':'
    ensures StartsWith(t, [':']) <==> StartsWith(u, [':'])
    ensures StartsWith(t, [':', ':']) <==> StartsWith(u, [':', ':'])
    ensures StartsWith(t, [':', ':']) <==> StartsWith(before + [':'], [':', ':'])
  {
  }

  /** A scope: where it is to be ignored, one percent sign and what follows it are, and two are
      an error; otherwise it is part of the text. */
  lemma ScopeMeans(a: Text, b: Text, c: Text)
    requires '%' !in a && '%' !in b
    ensures WithoutScope(a, true) == Some(a) && WithoutScope(a + ['%'] + b, true) == Some(a)
    ensures WithoutScope(a + ['%'] + (b + ['%'] + c), true) == None
    ensures forall t :: WithoutScope(t, false) == Some(t)
  {
    SplitWord(a, '%');
    SplitWord(b, '%');
    SplitFirst(a, b, '%');
    SplitFirst(a, b + ['%'] + c, '%');
    SplitFirst(b, c, '%');
  }

  // ---------------------------------------------------------------- which text is written

  /** The number of a chunk. */
  function Number(hi: int, lo: int): int {
    0x100 * hi + lo
  }

  lemma Nibbles(hi: Byte, lo: Byte)
    ensures var n := Number(hi, lo);
            n / 0x1000 == hi / 16 && n / 0x100 % 0x10 == hi % 16 && n / 0x10 % 0x10 == lo / 16 && n % 0x10 == lo % 16
  {
    var n := Number(hi, lo);
    assert n / 0x10 == 0x10 * hi + lo / 16;
    assert n / 0x100 == hi;
    assert n / 0x1000 == hi / 16;
  }

  /** In lower case, with no more digits than it takes. */
  function Shortest(n: int): Text
    requires 0 <= n < 0x1_0000
  {
    if n < 0x10 then [Sixteenth(n)]
    else if n < 0x100 then [Sixteenth(n / 0x10), Sixteenth(n % 0x10)]
    else if n < 0x1000 then [Sixteenth(n / 0x100), Sixteenth(n / 0x10 % 0x10), Sixteenth(n % 0x10)]
    else [Sixteenth(n / 0x1000), Sixteenth(n / 0x100 % 0x10), Sixteenth(n / 0x10 % 0x10), Sixteenth(n % 0x10)]
  }

  function Sixteenth(d: int): Ascii
    requires 0 <= d < 0x10
  {
    "0123456789abcdef"[d]
  }

  lemma ChunkMeans(address: Bytes, i: nat)
    requires |address| == 16 && i < 8
    ensures Chunks(address)[i] == Shortest(Number(address[2 * i], address[2 * i + 1]))
    ensures Zero(Chunks(address), i) <==> Number(address[2 * i], address[2 * i + 1]) == 0
  {
    var a, b := address[2 * i], address[2 * i + 1];
    Nibbles(a, b);
    QuadStripped(a / 16, a % 16, b / 16, b % 16, Number(a, b));
  }

  lemma QuadStripped(p: nat, q: nat, r: nat, s: nat, n: int)
    requires p < 16 && q < 16 && r < 16 && s < 16 && 0 <= n < 0x1_0000
    requires n / 0x1000 == p && n / 0x100 % 0x10 == q && n / 0x10 % 0x10 == r && n % 0x10 == s
    ensures Strip([HexDigit(p), HexDigit(q)] + [HexDigit(r), HexDigit(s)]) == Shortest(n)
    ensures Shortest(n) == ['0'] <==> n == 0
  {
    hide Strip, HexDigit, HexValue;
    HexDigitRead(p);
    HexDigitRead(q);
    HexDigitRead(r);
    HexDigitRead(s);
    var quad: Text := [HexDigit(p), HexDigit(q), HexDigit(r), HexDigit(s)];
    assert [HexDigit(p), HexDigit(q)] + [HexDigit(r), HexDigit(s)] == quad;
    StripFour(quad);
    assert quad[1..] == [quad[1], quad[2], quad[3]] && quad[2..] == [quad[2], quad[3]] && quad[3..] == [quad[3]];
    Places(n, p, q, r, s);
  }

  lemma Places(n: int, p: nat, q: nat, r: nat, s: nat)
    requires p < 16 && q < 16 && r < 16 && s < 16 && 0 <= n < 0x1_0000
    requires n / 0x1000 == p && n / 0x100 % 0x10 == q && n / 0x10 % 0x10 == r && n % 0x10 == s
    ensures n == 0x1000 * p + 0x100 * q + 0x10 * r + s
    ensures n < 0x1000 ==> n / 0x100 == q
    ensures n < 0x100 ==> n / 0x10 == r
  {
    assert n / 0x10 == n / 0x100 * 0x10 + r;
    assert n / 0x100 == p * 0x10 + q;
  }

  lemma StripFour(q: Text)
    requires |q| == 4
    ensures Strip(q) == if q[0] != '0' then q
                        else if q[1] != '0' then q[1..] else if q[2] != '0' then q[2..] else q[3..]
  {
    assert q[1..][1..] == q[2..] && q[2..][1..] == q[3..];
    assert Strip(q[3..]) == q[3..];
    assert Strip(q[2..]) == if q[2] != '0' then q[2..] else q[3..];
    assert Strip(q[1..]) == if q[1] != '0' then q[1..] else Strip(q[2..]);
  }

  /** The text of an address: its eight chunks, of which the leftmost of the longest runs of
      zero chunks, if it is of two at least, gives way to "::". */
  lemma NtoaMeans(address: Bytes, start: nat, len: nat)
    requires |address| == 16 && LongestRun(Chunks(address), start, len)
    ensures len <= 1 ==> Ntoa(address) == Join(Chunks(address), ':')
    ensures len >= 2 && !(start == 0 && (len == 6 || (len == 5 && Chunks(address)[5] == "ffff"))) ==>
              Ntoa(address) == Join(Chunks(address)[..start], ':') + "::" + Join(Chunks(address)[start + len..], ':')
    ensures len == 6 && start == 0 ==> Ntoa(address) == "::" + Ipv4.Ntoa(address[12..])
    ensures len == 5 && start == 0 && Chunks(address)[5] == "ffff" ==>
              Ntoa(address) == "::ffff:" + Ipv4.Ntoa(address[12..])
  {
    hide Chunks, Join, Ipv4.Ntoa;
    BestRunUnique(Chunks(address), start, len);
    assert [':', ':'] + MAPPED + [':'] == "::ffff:";
  }

  /** An IPv4 address mapped to one of IPv6 is written with its own text at the end. */
  lemma MappedText(address: Bytes)
    requires |address| == 16 && (forall i :: 0 <= i < 10 ==> address[i] == 0) && address[10] == address[11] == 0xFF
    ensures Ntoa(address) == "::ffff:" + Ipv4.Ntoa(address[12..])
  {
    hide Chunks, Ipv4.Ntoa, Ntoa;
    var cs := Chunks(address);
    forall i | 0 <= i < 8 ensures Zero(cs, i) <==> address[2 * i] == 0 && address[2 * i + 1] == 0 {
      ChunkMeans(address, i);
    }
    assert cs[5] == "ffff" by {
      ChunkMeans(address, 5);
    }
    assert !Zero(cs, 5);
    assert Run(cs, 0, 5);
    NoLonger(cs, 5);
    NtoaMeans(address, 0, 5);
  }

  /** A run that ends in the latter half is the longest. */
  lemma NoLonger(cs: seq<Text>, len: nat)
    requires |cs| == 8 && 4 < len < 8 && Run(cs, 0, len) && !Zero(cs, len)
    ensures LongestRun(cs, 0, len)
  {
    forall s: nat, l: nat | Run(cs, s, l) ensures l <= len {}
  }

  /** The unspecified address, and the loopback address. */
  lemma ZerosText(address: Bytes)
    requires |address| == 16 && forall i :: 0 <= i < 15 ==> address[i] == 0
    ensures address[15] == 0 ==> Ntoa(address) == "::"
    ensures address[15] == 1 ==> Ntoa(address) == "::1"
  {
    hide Chunks, Ipv4.Ntoa, Ntoa;
    var cs := Chunks(address);
    forall i | 0 <= i < 8 ensures Zero(cs, i) <==> address[2 * i] == 0 && address[2 * i + 1] == 0 {
      ChunkMeans(address, i);
    }
    JoinNothing();
    if address[15] == 0 {
      assert Run(cs, 0, 8);
      NtoaMeans(address, 0, 8);
      assert cs[..0] == [] && cs[8..] == [];
      assert [] + "::" + [] == "::";
    } else if address[15] == 1 {
      ChunkMeans(address, 7);
      assert !Zero(cs, 7) && Run(cs, 0, 7);
      NoLonger(cs, 7);
      NtoaMeans(address, 0, 7);
      assert cs[..0] == [] && cs[7..] == ["1"];
      assert Join(["1"], ':') == "1" && [] + "::" + "1" == "::1";
    }
  }

  // ---------------------------------------------------------------- any text

  predicate AllFour(parts: seq<Text>) {
    forall i :: 0 <= i < |parts| ==> |parts[i]| == 4
  }

  lemma {:induction false} CanonicalSize(chunks: seq<Text>, l: nat, seenEmpty: bool)
    requires l <= 8 && Canonical(chunks, l, seenEmpty).Some?
    ensures var parts := Canonical(chunks, l, seenEmpty).value;
            AllFour(parts) && |parts| == if [] in chunks then |chunks| + 8 - l else |chunks|
    ensures [] in chunks ==> !seenEmpty
  {
    if chunks != [] {
      CanonicalSize(chunks[1..], l, seenEmpty || chunks[0] == []);
      assert [] in chunks <==> chunks[0] == [] || [] in chunks[1..];
    }
  }

  lemma {:induction false} ConcatSize(parts: seq<Text>)
    requires AllFour(parts)
    ensures |Concat(parts)| == 4 * |parts|
  {
    if parts != [] {
      ConcatSize(parts[1..]);
    }
  }

  /** Whatever text is read as an address gives 16 octets. */
  lemma AtonSize(text: Text)
    requires Aton(text).Some?
    ensures |Aton(text).value| == 16
  {
    hide WithoutQuad, WithoutColon, Split, Canonical, Unhexlify, Concat;
    var t := WithoutQuad(if text == [':', ':'] then ['0', ':', ':'] else text);
    var chunks := Split(WithoutColon(t.value), ':');
    CanonicalSize(chunks, |chunks|, false);
    ConcatSize(Canonical(chunks, |chunks|, false).value);
  }
}
