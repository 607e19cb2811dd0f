/** What stands where in a message, octet by octet, by the numbers of RFC 1035: the fixed
    places of a header, a question and a record, and which types hold names. */
module WireOctets {
  import opened Common
  import opened Names
  import opened NameWire
  import opened Records
  import opened Rendering
  import opened Renderers
  import opened Messages

  /** The number in two octets, and in four. */
  function Number16(hi: int, lo: int): int {
    0x100 * hi + lo
  }

  function Number32(a: int, b: int, c: int, d: int): int {
    0x100_0000 * a + 0x1_0000 * b + 0x100 * c + d
  }

  lemma Unpacked(d: Bytes, at: nat)
    ensures at + 2 <= |d| ==> Unpack16(d[at..at + 2]) == Number16(d[at], d[at + 1])
    ensures at + 4 <= |d| ==> Unpack32(d[at..at + 4]) == Number32(d[at], d[at + 1], d[at + 2], d[at + 3])
  {
    if at + 4 <= |d| {
      var four := d[at..at + 4];
      assert four[..2][0] == d[at] && four[..2][1] == d[at + 1];
      assert four[2..][0] == d[at + 2] && four[2..][1] == d[at + 3];
    }
  }

  // ---------------------------------------------------------------- rdata by type

  /** Rdata of a type that lies in [start, end) is read, and reads as `rd`. */
  predicate RdataReads(wire: Bytes, rdtype: U16, start: nat, end: nat, rd: Rdata)
    requires start <= end <= |wire|
  {
    ReadFields(wire[..end], start, Layout(rdtype)) == Ok((rd, end))
  }

  lemma OneField(data: Bytes, pos: nat, kind: Kind)
    requires pos <= |data|
    ensures var f := ReadField(data, pos, kind);
            ReadFields(data, pos, [kind]) == if f.Ok? then Ok(([f.value.0], f.value.1)) else Err(f.error)
  {
    hide ReadField;
    assert [kind][1..] == [];
    var f := ReadField(data, pos, kind);
    if f.Ok? {
      assert ReadFields(data, f.value.1, []) == Ok(([], f.value.1)) && [f.value.0] + [] == [f.value.0];
    }
  }

  lemma MoreFields(data: Bytes, pos: nat, kind: Kind, kinds: seq<Kind>)
    requires pos <= |data|
    ensures var f, r := ReadField(data, pos, kind), ReadFields(data, pos, [kind] + kinds);
            if f.Err? then r == Err(f.error)
            else
              var rest := ReadFields(data, f.value.1, kinds);
              r == if rest.Ok? then Ok(([f.value.0] + rest.value.0, rest.value.1)) else rest
  {
    hide ReadField;
    assert ([kind] + kinds)[1..] == kinds;
  }

  /** NS (2), CNAME (5) and PTR (12): one name, which may be compressed. */
  lemma NameRdata(wire: Bytes, rdtype: U16, start: nat, end: nat, rd: Rdata)
    requires start <= end <= |wire| && rdtype in {2, 5, 12}
    ensures RdataReads(wire, rdtype, start, end, rd) <==>
            && start < end
            && var target := ReadName(wire[..end], start);
               target.Good? && target.next == end && rd == [NameItem(target.labels)]
  {
    hide ReadName;
    OneField(wire[..end], start, NameField);
  }

  /** MX (15): two octets and a name. */
  lemma MxRdata(wire: Bytes, start: nat, end: nat, rd: Rdata)
    requires start <= end <= |wire|
    ensures RdataReads(wire, 15, start, end, rd) <==>
            && start + 2 < end
            && var exchange := ReadName(wire[..end], start + 2);
               && exchange.Good? && exchange.next == end
               && rd == [Octets(wire[start..start + 2]), NameItem(exchange.labels)]
  {
    hide ReadName;
    assert Layout(15) == [FixedField(2)] + [NameField];
    MoreFields(wire[..end], start, FixedField(2), [NameField]);
    if start + 2 <= end {
      OneField(wire[..end], start + 2, NameField);
      assert wire[..end][start..start + 2] == wire[start..start + 2];
      var exchange := ReadField(wire[..end], start + 2, NameField);
      if exchange.Ok? {
        var preference := Octets(wire[start..start + 2]);
        assert [preference] + [exchange.value.0] == [preference, exchange.value.0];
      }
    }
  }

  /** SOA (6): two names and twenty octets. */
  lemma SoaRdata(wire: Bytes, start: nat, end: nat, rd: Rdata)
    requires start <= end <= |wire|
    ensures RdataReads(wire, 6, start, end, rd) <==>
            && start < end
            && var mname := ReadName(wire[..end], start);
               && mname.Good? && mname.next < end
               && var rname := ReadName(wire[..end], mname.next);
                  && rname.Good? && rname.next + 20 == end
                  && rd == [NameItem(mname.labels), NameItem(rname.labels), Octets(wire[rname.next..end])]
  {
    hide ReadName;
    var data := wire[..end];
    assert Layout(6) == [NameField] + ([NameField] + [FixedField(20)]);
    MoreFields(data, start, NameField, [NameField] + [FixedField(20)]);
    if start < end && ReadName(data, start).Good? {
      var second := ReadName(data, start).next;
      MoreFields(data, second, NameField, [FixedField(20)]);
      if second < end && ReadName(data, second).Good? {
        var numbers := ReadName(data, second).next;
        OneField(data, numbers, FixedField(20));
        if numbers + 20 <= end {
          assert data[numbers..numbers + 20] == wire[numbers..numbers + 20];
          var m, r := NameItem(ReadName(data, start).labels), NameItem(ReadName(data, second).labels);
          var last := Octets(wire[numbers..numbers + 20]);
          assert [m] + ([r] + [last]) == [m, r, last];
        }
      }
    }
  }

  /** RRSIG (46): eighteen octets, and the rest as it is; any other type as it is. */
  lemma OctetRdata(wire: Bytes, rdtype: U16, start: nat, end: nat, rd: Rdata)
    requires start <= end <= |wire| && rdtype !in {2, 5, 6, 12, 15}
    ensures RdataReads(wire, rdtype, start, end, rd) <==>
            if rdtype == 46 then
              start + 18 <= end && rd == [Octets(wire[start..start + 18]), Octets(wire[start + 18..end])]
            else rd == [Octets(wire[start..end])]
  {
    var data := wire[..end];
    assert data[start..] == wire[start..end];
    if rdtype == 46 {
      assert Layout(46) == [FixedField(18)] + [RestField];
      MoreFields(data, start, FixedField(18), [RestField]);
      if start + 18 <= end {
        OneField(data, start + 18, RestField);
        var head, rest := Octets(wire[start..start + 18]), Octets(wire[start + 18..end]);
        assert data[start..start + 18] == head.bytes && data[start + 18..] == rest.bytes;
        assert [head] + [rest] == [head, rest];
      }
    } else {
      OneField(data, start, RestField);
    }
  }

  /** A CNAME whose target is C0 0C, in a message whose question is for a name, is that name. */
  lemma TargetIsQuestion(wire: Bytes, start: nat)
    requires start + 2 <= |wire| && wire[start] == 0xC0 && wire[start + 1] == 0x0C
    requires 12 <= start && ReadName(wire, 12).Good? && ReadName(wire, 12).next <= start
    ensures RdataReads(wire, 5, start, start + 2, [NameItem(ReadName(wire, 12).labels)])
  {
    var data := wire[..start + 2];
    var d := Decode(wire, 12, 12);
    assert d.low >= 0 && wire[0..d.next] == data[0..d.next];
    DecodeLocal(wire, data, 12, 12, 0, d.next);
    assert data[start] == 0xC0 && data[start + 1] == 0x0C;
    DecodeJump(data, start, start);
    assert PointsTo(0xC0, 0x0C) == 12;
    NameRdata(wire, 5, start, start + 2, [NameItem(d.labels)]);
  }

  // ---------------------------------------------------------------- records

  /** A record is read exactly when a name stands there, two octets each of type and class,
      four of TTL and two of length, and rdata of that type fills that length. */
  lemma RecordReads(wire: Bytes, pos: nat, rr: Record, end: nat)
    requires pos <= |wire|
    ensures ReadRecord(wire, pos) == Ok((rr, end)) <==>
            && pos < |wire| && ReadName(wire, pos).Good? && rr.name == ReadName(wire, pos).labels
            && var at := ReadName(wire, pos).next;
               && at + 10 <= |wire|
               && rr.rdtype == Number16(wire[at], wire[at + 1])
               && rr.rdclass == Number16(wire[at + 2], wire[at + 3])
               && rr.ttl == Number32(wire[at + 4], wire[at + 5], wire[at + 6], wire[at + 7])
               && end == at + 10 + Number16(wire[at + 8], wire[at + 9]) <= |wire|
               && RdataReads(wire, rr.rdtype, at + 10, end, rr.rdata)
  {
    hide ReadName, ReadFields, Layout, Unpack16, Unpack32;
    if pos < |wire| && ReadName(wire, pos).Good? && ReadName(wire, pos).next + 10 <= |wire| {
      var at := ReadName(wire, pos).next;
      HeadOctets(wire, at);
    }
  }

  lemma HeadOctets(wire: Bytes, at: nat)
    requires at + 10 <= |wire|
    ensures var fixed := wire[at..at + 10];
            && Unpack16(fixed[..2]) == Number16(wire[at], wire[at + 1])
            && Unpack16(fixed[2..4]) == Number16(wire[at + 2], wire[at + 3])
            && Unpack32(fixed[4..8]) == Number32(wire[at + 4], wire[at + 5], wire[at + 6], wire[at + 7])
            && Unpack16(fixed[8..]) == Number16(wire[at + 8], wire[at + 9])
  {
    var fixed := wire[at..at + 10];
    Unpacked(fixed, 0);
    Unpacked(fixed, 2);
    Unpacked(fixed, 4);
    Unpacked(fixed, 8);
    assert fixed[0..2] == fixed[..2] && fixed[8..10] == fixed[8..];
    assert forall i :: 0 <= i < 10 ==> fixed[i] == wire[at + i];
  }

  /** The ten octets between owner and rdata. */
  function FixedOctets(rdtype: U16, rdclass: U16, ttl: U32, rdlen: U16): Bytes {
    [rdtype / 0x100, rdtype % 0x100, rdclass / 0x100, rdclass % 0x100,
     ttl / 0x100_0000, ttl / 0x1_0000 % 0x100, ttl / 0x100 % 0x100, ttl % 0x100, rdlen / 0x100, rdlen % 0x100]
  }

  lemma FixedPartOctets(rdtype: U16, rdclass: U16, ttl: U32, rdlen: U16)
    ensures FixedPart(rdtype, rdclass, ttl, rdlen) == FixedOctets(rdtype, rdclass, ttl, rdlen)
  {
    BigEndian(rdtype, ttl);
    BigEndian(rdclass, ttl);
    BigEndian(rdlen, ttl);
  }

  /** A record as it is written: its owner through the table, type, class, TTL, the number of
      octets its rdata takes, and that rdata; it is refused when that is more than 65535. */
  lemma RecordOctets(data: Bytes, table: Table, rr: Record)
    requires rr.Valid()
    ensures var owner, out := Emit(data, Some(table), rr.name, false), EmitRecord(data, table, rr);
            if out.Oversize? then
              var start := owner.0 + FixedOctets(rr.rdtype, rr.rdclass, rr.ttl, 0);
              |EmitItems(start, owner.1, rr.rdata, false).0| - |start| > 65535
            else
            var rdlen := |out.data| - |owner.0| - 10;
            && 0 <= rdlen <= 0xFFFF
            && owner.0 + FixedOctets(rr.rdtype, rr.rdclass, rr.ttl, rdlen) <= out.data
            && (out.data, Some(out.table))
               == EmitItems(owner.0 + FixedOctets(rr.rdtype, rr.rdclass, rr.ttl, rdlen), owner.1, rr.rdata, false)
  {
    hide Emit, EmitItems, FixedPart, FixedOctets;
    var owner := Emit(data, Some(table), rr.name, false);
    var rdlen := RdLength(owner.0, owner.1, rr);
    FixedPartOctets(rr.rdtype, rr.rdclass, rr.ttl, 0);
    if rdlen < 0x1_0000 {
      RdLengthKnown(owner.0, owner.1, rr);
      FixedPartOctets(rr.rdtype, rr.rdclass, rr.ttl, rdlen);
    }
  }

  /** Rdata that is one name shares its suffixes with what was written before it: it takes the
      labels before the longest suffix in the table, and two octets. */
  lemma TargetCompressed(data: Bytes, t: Table, n: Name, i: nat)
    requires WritableItem(NameItem(n)) && i < |n| && NoneBefore(t, n, i) && Fold(n[i..]) in t
    ensures |EmitItems(data, Some(t), [NameItem(n)], false).0| == |data| + WireLength(n[..i]) + 2
  {
    hide Emit;
    assert [NameItem(n)][1..] == [];
    CompressedLength(data, t, n, i, false);
    var first := EmitItem(data, Some(t), NameItem(n), false);
    assert EmitItems(first.0, first.1, [], false) == first;
  }

  /** An empty set is one record without rdata or TTL, of the class of a deletion if it is
      one. */
  lemma EmptySetOctets(data: Bytes, table: Table, owner: Name, rrset: RRset, origin: Option<Name>)
    requires ValidName(owner) && IsAbsolute(owner) && ValidOrigin(origin)
    ensures var out := Emit(data, Some(table), owner, false);
            var rdclass := if rrset.deleting.Some? then rrset.deleting.value else rrset.rdclass;
            EmitSet(data, table, owner, rrset, [], origin)
            == Ok((out.0 + (Pack16(rrset.rdtype) + Pack16(rdclass) + [0, 0, 0, 0, 0, 0]), out.1.value))
  {
    hide Emit;
    var proto := Proto(owner, rrset, 0);
    var out := Emit(data, Some(table), owner, false);
    var written := EmitRecord(data, table, proto);
    assert proto.(rdata := []) == proto && CompleteRdata([], origin) == Ok([]);
    RecordOctets(data, table, proto);
    assert FixedOctets(rrset.rdtype, proto.rdclass, 0, 0)
      == Pack16(rrset.rdtype) + Pack16(proto.rdclass) + [0, 0, 0, 0, 0, 0];
    assert EmitEach(written.data, written.table, proto, [], origin) == Ok((written.data, written.table));
  }

  // ---------------------------------------------------------------- a compressed response

  /** Records under a name that is in the table, each of `size` octets of plain rdata, take
      twelve octets more than those. */
  lemma {:induction false} RepeatedOwner(data: Bytes, t: Table, proto: Record, order: seq<Rdata>, size: nat,
                                         origin: Option<Name>)
    requires proto.Valid() && ValidOrigin(origin) && Fold(proto.name) in t && size <= 0xFFFF
    requires forall i :: 0 <= i < |order| ==> |order[i]| == 1 && order[i][0].Octets? && |order[i][0].bytes| == size
    ensures var out := EmitEach(data, t, proto, order, origin);
            out.Ok? && out.value.1 == t && |out.value.0| == |data| + (12 + size) * |order|
    decreases |order|
  {
    hide EmitRecord, Fold, ValidOrigin;
    if order != [] {
      var rr := proto.(rdata := order[0]);
      assert Writable(order[0]);
      OneMore(data, t, rr, size);
      assert |order| == 1 + |order[1..]|;
      RepeatedOwner(EmitRecord(data, t, rr).data, t, proto, order[1..], size, origin);
    }
  }

  lemma OneMore(data: Bytes, t: Table, rr: Record, size: nat)
    requires rr.Valid() && Fold(rr.name) in t && size <= 0xFFFF
    requires |rr.rdata| == 1 && rr.rdata[0].Octets? && |rr.rdata[0].bytes| == size
    ensures var out := EmitRecord(data, t, rr);
            out.Done? && out.table == t && |out.data| == |data| + 12 + size
  {
    hide Fold;
    var owner := Emit(data, Some(t), rr.name, false);
    assert |owner.0| == |data| + 2 && owner.1 == Some(t);
    OneItem(Head(owner.0, rr, 0), owner.1, rr.rdata);
    assert RdLength(owner.0, owner.1, rr) == size;
    OneItem(Head(owner.0, rr, size), owner.1, rr.rdata);
  }

  lemma OneItem(data: Bytes, table: Option<Table>, rd: Rdata)
    requires |rd| == 1 && rd[0].Octets? && Writable(rd)
    ensures EmitItems(data, table, rd, false) == (data + rd[0].bytes, table)
  {
    assert rd[1..] == [];
    assert EmitItems(data + rd[0].bytes, table, [], false) == (data + rd[0].bytes, table);
  }

  /** The response with a question for www.example. and twenty addresses of that name: 12
      octets of header, 17 of question and 16 for each address fit a limit of 349 octets and
      not one of 348. */
  lemma TwentyAddresses(s: State, rrset: RRset, order: seq<Rdata>, limit: nat)
    requires s == State(seq(12, _ => 0), map[], [0, 0, 0, 0]) && limit >= 348
    requires rrset.name == [[0x77, 0x77, 0x77], [0x65, 0x78, 0x61, 0x6D, 0x70, 0x6C, 0x65], []] && rrset.items == order
    requires |order| == 20
    requires forall i :: 0 <= i < 20 ==> |order[i]| == 1 && order[i][0].Octets? && |order[i][0].bytes| == 4
    ensures rrset.Valid() && Question(rrset.name, 1, 1).Valid() && Answers(1, rrset, order).Valid()
    ensures var asked := AddBlock(s, limit, None, Question(rrset.name, 1, 1));
            && asked.Ok?
            && var answered := AddBlock(asked.value, limit, None, Answers(1, rrset, order));
               if limit == 348 then answered == Err(TooBig)
               else answered.Ok? && |answered.value.data| == 349 && answered.value.counts == [1, 20, 0, 0]
  {
    var n := rrset.name;
    QuestionLength(s, n, limit);
    var asked := AddBlock(s, limit, None, Question(n, 1, 1)).value;
    var proto := Proto(n, rrset, rrset.ttl);
    RepeatedOwner(asked.data, asked.table, proto, order, 4, None);
  }

  lemma QuestionLength(s: State, n: Name, limit: nat)
    requires limit >= 29 && |s.data| == 12 && s.table == map[] && s.counts == [0, 0, 0, 0]
    requires n == [[0x77, 0x77, 0x77], [0x65, 0x78, 0x61, 0x6D, 0x70, 0x6C, 0x65], []]
    ensures ValidName(n) && IsAbsolute(n)
    ensures var asked := AddBlock(s, limit, None, Question(n, 1, 1));
            && asked.Ok? && |asked.value.data| == 29 && Fold(n) in asked.value.table
            && asked.value.counts == [1, 0, 0, 0]
  {
    assert WireLength(n) == 13 by {
      assert n == [n[0]] + ([n[1]] + [n[2]]);
      WireLengthConcat([n[0]], [n[1]] + [n[2]]);
      WireLengthConcat([n[1]], [n[2]]);
      OneLabel(n[0]);
      OneLabel(n[1]);
      OneLabel(n[2]);
    }
    hide Emit, Fold, WireLength;
    FirstWritten(s.data, n);
  }

  lemma OneLabel(l: Label)
    ensures WireLength([l]) == |l| + 1
  {
    assert [l][1..] == [];
  }

  lemma FirstWritten(data: Bytes, n: Name)
    requires |data| == 12 && ValidName(n) && |n| == 3 && WireLength(n) == 13
    ensures NoneBefore(map[], n, 3)
    ensures |Emit(data, Some(map[]), n, false).0| == 25 && Fold(n) in Emit(data, Some(map[]), n, false).1.value
  {
    assert n[..3] == n && n[0..] == n && n[..0] == [];
    EmitOctets(data, map[], n, 3, false);
    PlainLength(n);
    EmitEntries(data, map[], n, 3, false);
    assert InReach(12, n, 0);
  }

  // ---------------------------------------------------------------- header and question

  lemma HeaderOctets(id: U16, flags: U16, counts: seq<U16>)
    requires |counts| == 4
    ensures HeaderBytes(id, flags, counts)
      == [id / 0x100, id % 0x100, flags / 0x100, flags % 0x100, counts[0] / 0x100, counts[0] % 0x100,
          counts[1] / 0x100, counts[1] % 0x100, counts[2] / 0x100, counts[2] % 0x100,
          counts[3] / 0x100, counts[3] % 0x100]
  {
  }

  /** A question: its name, and two octets each of type and class. */
  lemma QuestionOctets(data: Bytes, t: Table, owner: Name, origin: Option<Name>, q: Query)
    requires ValidName(owner) && IsAbsolute(owner) && ValidName(q.name) && ValidOrigin(origin)
    ensures var out := Emit(data, Some(t), owner, false);
            Question(q.name, q.rdtype, q.rdclass).Written(data, t, owner, origin)
            == Ok((out.0 + (Pack16(q.rdtype) + Pack16(q.rdclass)), out.1.value))
  {
    hide Emit;
  }

  lemma QuestionReads(wire: Bytes, pos: nat, q: Query, end: nat)
    requires pos <= |wire|
    ensures ReadQuestion(wire, pos) == Ok((q, end)) <==>
            && pos < |wire| && ReadName(wire, pos).Good? && q.name == ReadName(wire, pos).labels
            && var at := ReadName(wire, pos).next;
               && end == at + 4 <= |wire|
               && q.rdtype == Number16(wire[at], wire[at + 1]) && q.rdclass == Number16(wire[at + 2], wire[at + 3])
  {
    hide ReadName;
    if pos < |wire| && ReadName(wire, pos).Good? {
      var at := ReadName(wire, pos).next;
      Unpacked(wire, at);
      Unpacked(wire, at + 2);
    }
  }

  /** A message as it is read: identifier, flags and four counts in twelve octets, and then as
      many questions, answers, authority and additional records as counted, in this order. */
  lemma MessageReads(wire: Bytes, questionOnly: bool, oneRrPerRrset: bool, ignoreTrailing: bool)
    ensures var r := Parse(wire, questionOnly, oneRrPerRrset, ignoreTrailing);
            && (r == Err(ShortHeader) <==> |wire| < 12)
            && (r == Err(UnknownOpcode) <==> |wire| >= 12 && wire[2] / 8 % 16 !in {0, 1, 2, 4, 5})
            && (|wire| >= 12 && wire[2] / 8 % 16 == 5 ==> r == Err(NotModelled))
            && (r.Ok? ==>
                  && |wire| >= 12
                  && r.value.id == Number16(wire[0], wire[1]) && r.value.flags == Number16(wire[2], wire[3])
                  && var q := ReadQuestions(wire, 12, Number16(wire[4], wire[5]));
                     && q.Ok? && r.value.question == q.value.0
                     && if questionOnly then r.value.answer == r.value.authority == r.value.additional == [] else
                        SectionsStand(wire, q.value.1, oneRrPerRrset, ignoreTrailing, r.value))
  {
    hide ReadQuestions, ReadSection, Unpack16;
    if |wire| >= 12 {
      forall i | 0 <= i < 6 ensures HeaderField(wire, i) == Number16(wire[2 * i], wire[2 * i + 1]) {
        Unpacked(wire, 2 * i);
      }
      FlagBits(wire[2], wire[3]);
      NamedErrors(wire, 12, HeaderField(wire, 2));
      forall at, n, one | 0 <= at <= |wire| && 0 <= n
        ensures var r := ReadSection(wire, at, n, [], one);
                r.Err? ==> r.error.Malformed? || r.error.DifferingCovers? || r.error.NotModelled? {
        SectionErrors(wire, at, n, [], one);
      }
    }
  }

  predicate SectionsStand(wire: Bytes, at: nat, oneRrPerRrset: bool, ignoreTrailing: bool, m: Message)
    requires |wire| >= 12 && at <= |wire|
  {
    var answer := ReadSection(wire, at, Number16(wire[6], wire[7]), [], oneRrPerRrset);
    && answer.Ok? && m.answer == answer.value.0
    && var authority := ReadSection(wire, answer.value.1, Number16(wire[8], wire[9]), [], oneRrPerRrset);
       && authority.Ok? && m.authority == authority.value.0
       && var additional := ReadSection(wire, authority.value.1, Number16(wire[10], wire[11]), [], oneRrPerRrset);
          && additional.Ok? && m.additional == additional.value.0
          && (ignoreTrailing || additional.value.1 == |wire|)
  }

  lemma FlagBits(hi: Byte, lo: Byte)
    ensures Opcode(Number16(hi, lo)) == hi / 8 % 16
  {
    assert Number16(hi, lo) / 0x800 == hi / 8;
  }

  /** The errors of the header are not those of a section. */
  lemma {:induction false} NamedErrors(wire: Bytes, pos: nat, n: nat)
    requires pos <= |wire|
    ensures ReadQuestions(wire, pos, n).Err? ==> ReadQuestions(wire, pos, n).error.Malformed?
    decreases n
  {
    hide ReadQuestion;
    if n > 0 && ReadQuestion(wire, pos).Ok? {
      NamedErrors(wire, ReadQuestion(wire, pos).value.1, n - 1);
    }
  }

  /** Nor are those of the sections of records. */
  lemma {:induction false} SectionErrors(wire: Bytes, pos: nat, n: nat, sets: seq<RRset>, oneRrPerRrset: bool)
    requires pos <= |wire| && DigestableSets(sets)
    ensures var r := ReadSection(wire, pos, n, sets, oneRrPerRrset);
            r.Err? ==> r.error.Malformed? || r.error.DifferingCovers? || r.error.NotModelled?
    decreases n
  {
    hide ReadInto;
    if n > 0 {
      var first := ReadInto(wire, pos, sets, oneRrPerRrset);
      assert first.Err? ==> first.error.Malformed? || first.error.DifferingCovers? || first.error.NotModelled? by {
        IntoErrors(wire, pos, sets, oneRrPerRrset);
      }
      if first.Ok? {
        SectionErrors(wire, first.value.1, n - 1, first.value.0, oneRrPerRrset);
      }
    }
  }

  lemma IntoErrors(wire: Bytes, pos: nat, sets: seq<RRset>, oneRrPerRrset: bool)
    requires pos <= |wire| && DigestableSets(sets)
    ensures var r := ReadInto(wire, pos, sets, oneRrPerRrset);
            r.Err? ==> r.error.Malformed? || r.error.DifferingCovers? || r.error.NotModelled?
  {
    hide ReadHead, ReadRecord, Insert;
  }

  // ---------------------------------------------------------------- numbers of the protocol

  /** Of SOA (6), NXT (30), DNAME (39), NSEC (47) and CNAME (5) a set holds one rdata; OPT (41)
      and TSIG (250) are read elsewhere; an RRSIG (46) covers the type in its first two octets
      and no other type covers any; and a TTL with its first bit set is read as 0. */
  lemma TypeNumbers(rdtype: U16, rd: Rdata, ttl: U32)
    ensures Singleton(rdtype) <==> rdtype in {5, 6, 30, 39, 47}
    ensures Special(rdtype) <==> rdtype in {41, 250}
    ensures rdtype != 46 ==> Covers(rdtype, rd) == 0
    ensures rdtype == 46 && |rd| == 2 && rd[0].Octets? && |rd[0].bytes| == 18 ==>
              Covers(rdtype, rd) == Number16(rd[0].bytes[0], rd[0].bytes[1])
    ensures ReadTtl(ttl) == if ttl < 0x8000_0000 then ttl else 0
  {
  }

  /** A record joins a set of the same name, case aside, class, type and covered type that is
      no deletion, or is one of the same class. */
  lemma SameKeyMeans(a: RRset, b: RRset)
    ensures SameKey(a, b) <==>
            && SameName(a.name, b.name) && a.rdclass == b.rdclass && a.rdtype == b.rdtype && a.covers == b.covers
            && a.deleting == b.deleting
  {
  }

  /** The limit to render to: what was asked for, the payload of the request when nothing was,
      and 65535 without either; but never below 512 or above 65535. */
  lemma LimitMeans(maxSize: int, payload: nat)
    ensures 512 <= maxSize <= 65535 ==> Limit(maxSize, payload) == maxSize
    ensures maxSize == 0 && 512 <= payload <= 65535 ==> Limit(maxSize, payload) == payload
    ensures maxSize == 0 && payload == 0 ==> Limit(maxSize, payload) == 65535
    ensures (maxSize != 0 && maxSize < 512) || (maxSize == 0 && 0 < payload < 512) ==> Limit(maxSize, payload) == 512
    ensures maxSize > 65535 || (maxSize == 0 && payload > 65535) ==> Limit(maxSize, payload) == 65535
  {
  }
}
