/** Message.to_wire and the wire reader (dns/message.py) as the loops they are. */
module MessageObjects {
  import opened Common
  import opened Names
  import opened NameWire
  import opened Wire
  import opened Records
  import opened Rendering
  import opened Renderers
  import opened Messages
  import RoundTrip = MessageRoundTrips

  // ---------------------------------------------------------------- writing

  method RenderQuestions(renderer: Renderer, qs: seq<Query>) returns (r: Result<(), RenderError>)
    requires renderer.Valid() && renderer.section == QUESTION && ValidBlocks(QuestionBlocks(qs))
    modifies renderer`section, renderer`counts, renderer.output, renderer.compress
    ensures r.Ok? ==> renderer.Valid() && renderer.section == QUESTION
    ensures var out := AddBlocks(old(renderer.Contents()), renderer.maxSize, renderer.origin, QuestionBlocks(qs));
            if out.Ok? then r == Ok(()) && renderer.Contents() == out.value else r == Err(out.error)
  {
    hide AddBlock, TableOk;
    ghost var bs := QuestionBlocks(qs);
    ghost var final := AddBlocks(renderer.Contents(), renderer.maxSize, renderer.origin, bs);
    var i := 0;
    while i < |qs|
      invariant 0 <= i <= |qs| && renderer.Valid() && renderer.section == QUESTION
      invariant AddBlocks(renderer.Contents(), renderer.maxSize, renderer.origin, bs[i..]) == final
    {
      assert bs[i..][0] == Question(qs[i].name, qs[i].rdtype, qs[i].rdclass) && bs[i..][1..] == bs[i + 1..];
      assert bs[i].Valid();
      r := renderer.AddQuestion(qs[i].name, qs[i].rdtype, qs[i].rdclass);
      if r.Err? {
        return;
      }
      i := i + 1;
    }
    r := Ok(());
  }

  method RenderSection(renderer: Renderer, section: nat, sets: seq<RRset>, orders: seq<seq<Rdata>>)
    returns (r: Result<(), RenderError>)
    requires renderer.Valid() && renderer.section <= section < 4 && |orders| == |sets|
    requires ValidBlocks(SectionBlocks(section, sets, orders))
    modifies renderer`section, renderer`counts, renderer.output, renderer.compress
    ensures r.Ok? ==> renderer.Valid() && renderer.section <= section
    ensures var out := AddBlocks(old(renderer.Contents()), renderer.maxSize, renderer.origin,
                                 SectionBlocks(section, sets, orders));
            if out.Ok? then r == Ok(()) && renderer.Contents() == out.value else r == Err(out.error)
  {
    hide AddBlock, TableOk;
    ghost var bs := SectionBlocks(section, sets, orders);
    ghost var final := AddBlocks(renderer.Contents(), renderer.maxSize, renderer.origin, bs);
    var i := 0;
    while i < |sets|
      invariant 0 <= i <= |sets| && renderer.Valid() && renderer.section <= section
      invariant AddBlocks(renderer.Contents(), renderer.maxSize, renderer.origin, bs[i..]) == final
    {
      assert bs[i..][0] == Answers(section, sets[i], orders[i]) && bs[i..][1..] == bs[i + 1..];
      assert bs[i].Valid();
      r := renderer.AddRRset(section, sets[i], orders[i]);
      if r.Err? {
        return;
      }
      i := i + 1;
    }
    r := Ok(());
  }

  /** Message.to_wire. */
  method ToWire(m: Message, shuffle: Shuffle, maxSize: int, requestPayload: nat, origin: Option<Name>)
    returns (r: Result<Bytes, RenderError>)
    requires m.Valid() && Matches(m, shuffle) && ValidOrigin(origin)
    ensures r == Render(m, shuffle, maxSize, requestPayload, origin)
  {
    hide AddBlocks, QuestionBlocks, SectionBlocks, TableOk;
    var limit := Limit(maxSize, requestPayload);
    var renderer := new Renderer(m.id, m.flags, limit, origin);
    var reservedForOpt := renderer.Reserve(0);
    var reservedForTsig := renderer.Reserve(0);
    ghost var s0 := renderer.Contents();
    ghost var q, a := QuestionBlocks(m.question), SectionBlocks(ANSWER, m.answer, shuffle.answer);
    ghost var u, d := SectionBlocks(AUTHORITY, m.authority, shuffle.authority),
      SectionBlocks(ADDITIONAL, m.additional, shuffle.additional);
    ValidSections(m, shuffle);
    RoundTrip.BlocksConcat(s0, limit, origin, q, a);
    RoundTrip.BlocksConcat(s0, limit, origin, q + a, u);
    RoundTrip.BlocksConcat(s0, limit, origin, q + a + u, d);
    var done := RenderQuestions(renderer, m.question);
    if done.Err? {
      return Err(done.error);
    }
    done := RenderSection(renderer, ANSWER, m.answer, shuffle.answer);
    if done.Err? {
      return Err(done.error);
    }
    done := RenderSection(renderer, AUTHORITY, m.authority, shuffle.authority);
    if done.Err? {
      return Err(done.error);
    }
    done := RenderSection(renderer, ADDITIONAL, m.additional, shuffle.additional);
    if done.Err? {
      return Err(done.error);
    }
    renderer.ReleaseReserved();
    CountsBound(s0, limit, origin, AllBlocks(m, shuffle));
    var packed := renderer.WriteHeader();
    r := Ok(renderer.output.data);
  }

  // ---------------------------------------------------------------- reading

  /** restrict_to and the rdata reader of a type: fields that must end where the record
      says its rdata ends. */
  method GetFields(parser: Parser, kinds: seq<Kind>) returns (r: Result<Rdata, WireError>)
    requires parser.InStep()
    modifies parser`current, parser`furthest
    ensures parser.Valid()
    ensures var spec := ReadFields(parser.wire[..parser.end], old(parser.current), kinds);
            && (r.Ok? <==> spec.Ok?)
            && (r.Ok? ==> parser.InStep() && spec.value == (r.value, parser.current))
            && (r.Err? ==> r.error == spec.error)
  {
    hide ReadName;
    ghost var data := parser.wire[..parser.end];
    ghost var spec := ReadFields(data, parser.current, kinds);
    var rd: Rdata := [];
    assert kinds[0..] == kinds;
    assert spec.Ok? ==> [] + spec.value.0 == spec.value.0;
    var i := 0;
    while i < |kinds|
      invariant 0 <= i <= |kinds| && parser.InStep() && data == parser.wire[..parser.end]
      invariant var rest := ReadFields(data, parser.current, kinds[i..]);
                && (rest.Ok? <==> spec.Ok?) && (rest.Err? ==> rest == spec)
                && (rest.Ok? ==> spec.value == (rd + rest.value.0, rest.value.1))
    {
      assert kinds[i..][0] == kinds[i] && kinds[i..][1..] == kinds[i + 1..];
      var item := GetField(parser, kinds[i]);
      if item.Err? {
        return Err(item.error);
      }
      ghost var rest := ReadFields(data, parser.current, kinds[i + 1..]);
      assert rest.Ok? ==> rd + ([item.value] + rest.value.0) == (rd + [item.value]) + rest.value.0;
      rd := rd + [item.value];
      i := i + 1;
    }
    assert rd + [] == rd;
    r := Ok(rd);
  }

  method GetField(parser: Parser, kind: Kind) returns (r: Result<Item, WireError>)
    requires parser.InStep()
    modifies parser`current, parser`furthest
    ensures parser.Valid()
    ensures var spec := ReadField(parser.wire[..parser.end], old(parser.current), kind);
            && (r.Ok? <==> spec.Ok?)
            && (r.Ok? ==> parser.InStep() && spec.value == (r.value, parser.current))
            && (r.Err? ==> r.error == spec.error)
  {
    hide ReadName;
    ghost var start := parser.current;
    match kind {
      case NameField =>
        var name := parser.GetName();
        r := if name.Ok? then Ok(NameItem(name.value)) else Err(name.error);
      case FixedField(size) =>
        var bytes := parser.GetBytes(size);
        if bytes.Ok? {
          SliceOfPrefix(parser.wire, parser.end, start, start + size);
        }
        r := if bytes.Ok? then Ok(Octets(bytes.value)) else Err(bytes.error);
      case RestField =>
        var bytes := parser.GetBytes(parser.end - parser.current);
        assert parser.wire[..parser.end][start..] == parser.wire[start..parser.end];
        r := Ok(Octets(bytes.value));
    }
  }

  /** The owner name and fixed part of a record. */
  method GetHead(parser: Parser) returns (r: Result<(Record, U16), WireError>)
    requires parser.InStep() && parser.end == |parser.wire|
    modifies parser`current, parser`furthest
    ensures parser.Valid()
    ensures var spec := ReadHead(parser.wire, old(parser.current));
            && (r.Ok? <==> spec.Ok?)
            && (r.Ok? ==> parser.InStep() && spec.value == (r.value.0, parser.current, r.value.1))
            && (r.Err? ==> r.error == spec.error)
  {
    hide ReadName, ValidName;
    assert parser.wire[..parser.end] == parser.wire;
    var name := parser.GetName();
    if name.Err? {
      return Err(name.error);
    }
    var bytes := parser.GetBytes(10);
    if bytes.Err? {
      return Err(bytes.error);
    }
    var fixed := bytes.value;
    r := Ok((Record(name.value, Unpack16(fixed[..2]), Unpack16(fixed[2..4]), Unpack32(fixed[4..8]), []),
             Unpack16(fixed[8..])));
  }

  /** The rdata of a record, read with the parser restricted to its length; the restriction
      is lifted whatever happens. */
  method GetRdata(parser: Parser, kinds: seq<Kind>, rdlen: nat) returns (r: Result<Rdata, WireError>)
    requires parser.InStep()
    modifies parser`current, parser`furthest, parser`end
    ensures parser.end == old(parser.end) && parser.Valid()
    ensures r.Ok? ==> parser.InStep()
    ensures var stop := old(parser.current) + rdlen;
            if stop > parser.end then r == Err(FormError)
            else
              var spec := ReadFields(parser.wire[..stop], old(parser.current), kinds);
              if spec.Err? then r == Err(spec.error)
              else if spec.value.1 != stop then r == Err(FormError)
              else r == Ok(spec.value.0) && parser.current == stop
  {
    hide ReadFields;
    if rdlen > parser.Remaining() {
      return Err(FormError);
    }
    var savedEnd := parser.end;
    parser.end := parser.current + rdlen;
    r := GetFields(parser, kinds);
    if r.Ok? && parser.current != parser.end {
      r := Err(FormError);
    }
    parser.end := savedEnd;
  }

  /** _WireReader with the message it fills: sections are lists of sets, and the index says
      where in its section each set is. */
  class WireReader {
    const parser: Parser
    const oneRrPerRrset: bool
    var question: seq<Query>
    var sections: seq<seq<RRset>>
    var index: map<Key, nat>

    ghost predicate Valid()
      reads this, parser
    {
      && parser.InStep() && parser.end == |parser.wire|
      && |sections| == 4 && (forall s :: 0 <= s < 4 ==> DigestableSets(sections[s]))
      && (!oneRrPerRrset ==> Indexed(sections, index))
    }

    constructor (wire: Bytes, oneRrPerRrset: bool)
      ensures Valid() && fresh(parser) && parser.wire == wire && parser.current == 0
      ensures this.oneRrPerRrset == oneRrPerRrset
      ensures question == [] && sections == [[], [], [], []] && index == map[]
    {
      parser := new Parser(wire);
      this.oneRrPerRrset := oneRrPerRrset;
      question, sections, index := [], [[], [], [], []], map[];
    }

    /** find_rrset with create: the position of the set with these attributes, made if there
        is none or if sets are not to be shared. */
    method FindRrset(section: nat, started: RRset) returns (i: nat)
      requires Valid() && section < 4 && started.items == []
      modifies this`sections, this`index
      ensures Valid()
      ensures i == if oneRrPerRrset then |old(sections)[section]| else Place(old(sections)[section], started)
      ensures sections == if i < |old(sections)[section]| then old(sections)
                          else old(sections)[section := old(sections)[section] + [started]]
    {
      var key := KeyOf(section, started);
      if !oneRrPerRrset {
        IndexedPlace(sections, index, section, started);
        if key in index {
          return index[key];
        }
      }
      i := |sections[section]|;
      IndexedAppend(sections, index, section, started);
      sections := sections[section := sections[section] + [started]];
      index := index[key := i];
    }

    /** The body of the loop in _get_section. */
    method GetRecord(section: nat) returns (r: Result<(), ReadError>)
      requires Valid() && section < 4
      modifies this`sections, this`index, parser
      ensures r.Ok? ==> Valid()
      ensures var spec := ReadInto(parser.wire, old(parser.current), old(sections[section]), oneRrPerRrset);
              if spec.Err? then r == Err(spec.error)
              else r == Ok(()) && (sections, parser.current) == (old(sections)[section := spec.value.0], spec.value.1)
    {
      hide ReadHead, ReadFields, Layout, Insert, DigestableSets, Indexed;
      ghost var wire, start := parser.wire, parser.current;
      var head := GetHead(parser);
      if head.Err? {
        return Err(Malformed(head.error));
      }
      var rr, rdlen := head.value.0, head.value.1;
      if Special(rr.rdtype) {
        return Err(NotModelled);
      }
      var rdata := GetRdata(parser, Layout(rr.rdtype), rdlen);
      if rdata.Err? {
        return Err(Malformed(rdata.error));
      }
      assert ReadRecord(wire, start) == Ok((rr.(rdata := rdata.value), parser.current));
      r := InsertRecord(section, rr.(rdata := rdata.value));
    }

    /** find_rrset and add, for one record. */
    method InsertRecord(section: nat, rr: Record) returns (r: Result<(), ReadError>)
      requires Valid() && section < 4 && Writable(rr.rdata)
      modifies this`sections, this`index
      ensures r.Ok? ==> Valid()
      ensures var spec := Insert(old(sections)[section], rr, oneRrPerRrset);
              if spec.None? then r == Err(DifferingCovers)
              else r == Ok(()) && sections == old(sections)[section := spec.value]
    {
      hide Digest, Indexed;
      var started := Fresh(rr);
      var i := FindRrset(section, started);
      var sets := sections[section];
      var added := AddRdata(sets[i], rr.rdata, ReadTtl(rr.ttl));
      if added.None? {
        return Err(DifferingCovers);
      }
      AddKeepsKey(section, sets[i], started, rr, ReadTtl(rr.ttl));
      if !oneRrPerRrset {
        IndexedUpdate(sections, index, section, i, added.value);
      }
      ghost var was := old(sections)[section];
      assert i == |was| ==> sets[i := added.value] == was + [added.value];
      assert sections[section := sets[i := added.value]] == old(sections)[section := sets[i := added.value]];
      sections := sections[section := sets[i := added.value]];
      assert Some(sections[section]) == Insert(was, rr, oneRrPerRrset);
      r := Ok(());
    }

    /** _get_section. */
    method GetSection(section: nat, count: nat) returns (r: Result<(), ReadError>)
      requires Valid() && section < 4
      modifies this`sections, this`index, parser
      ensures r.Ok? ==> Valid()
      ensures var spec := ReadSection(parser.wire, old(parser.current), count, old(sections)[section], oneRrPerRrset);
              if spec.Err? then r == Err(spec.error)
              else r == Ok(()) && (sections, parser.current) == (old(sections)[section := spec.value.0], spec.value.1)
    {
      hide ReadInto, Indexed;
      ghost var spec := ReadSection(parser.wire, parser.current, count, sections[section], oneRrPerRrset);
      var n := 0;
      while n < count
        invariant 0 <= n <= count && Valid()
        invariant forall s :: 0 <= s < 4 && s != section ==> sections[s] == old(sections)[s]
        invariant ReadSection(parser.wire, parser.current, count - n, sections[section], oneRrPerRrset) == spec
      {
        var one := GetRecord(section);
        if one.Err? {
          return one;
        }
        n := n + 1;
      }
      assert sections == old(sections)[section := sections[section]];
      r := Ok(());
    }

    /** _get_question. */
    method GetQuestion(count: nat) returns (r: Result<(), ReadError>)
      requires Valid() && question == []
      modifies this`question, parser
      ensures r.Ok? ==> Valid()
      ensures var spec := ReadQuestions(parser.wire, old(parser.current), count);
              if spec.Err? then r == Err(spec.error)
              else r == Ok(()) && (question, parser.current) == spec.value
    {
      hide ReadQuestion, Indexed, DigestableSets;
      ghost var spec := ReadQuestions(parser.wire, parser.current, count);
      assert spec.Ok? ==> [] + spec.value.0 == spec.value.0;
      var n := 0;
      while n < count
        invariant 0 <= n <= count && Valid()
        invariant sections == old(sections) && index == old(index)
        invariant var rest := ReadQuestions(parser.wire, parser.current, count - n);
                  if rest.Err? then spec == rest
                  else spec == Ok((question + rest.value.0, rest.value.1))
      {
        ghost var before := question;
        var one := GetQuery(parser);
        if one.Err? {
          return Err(Malformed(one.error));
        }
        ghost var rest := ReadQuestions(parser.wire, parser.current, count - n - 1);
        assert rest.Ok? ==> before + ([one.value] + rest.value.0) == (before + [one.value]) + rest.value.0;
        question := question + [one.value];
        n := n + 1;
      }
      assert question + [] == question;
      r := Ok(());
    }

    /** read. */
    method Read(questionOnly: bool, ignoreTrailing: bool) returns (r: Result<Message, ReadError>)
      requires Valid() && parser.current == 0
      requires question == [] && sections == [[], [], [], []]
      modifies this, parser
      ensures r == Parse(parser.wire, questionOnly, oneRrPerRrset, ignoreTrailing)
    {
      hide ReadQuestions, ReadSection, Indexed, DigestableSets;
      if parser.Remaining() < HEADER_SIZE {
        return Err(ShortHeader);
      }
      var header := parser.GetBytes(HEADER_SIZE);
      var wire := parser.wire;
      HeaderSlices(wire, header.value);
      var flags := HeaderField(header.value, 1);
      if !KnownOpcode(flags) {
        return Err(UnknownOpcode);
      }
      if Opcode(flags) == UPDATE {
        return Err(NotModelled);
      }
      var m := Message(HeaderField(header.value, 0), flags, [], [], [], []);
      var done := GetQuestion(HeaderField(header.value, 2));
      if done.Err? {
        return Err(done.error);
      }
      if questionOnly {
        return Ok(m.(question := question));
      }
      done := GetSection(ANSWER, HeaderField(header.value, 3));
      if done.Err? {
        return Err(done.error);
      }
      done := GetSection(AUTHORITY, HeaderField(header.value, 4));
      if done.Err? {
        return Err(done.error);
      }
      done := GetSection(ADDITIONAL, HeaderField(header.value, 5));
      if done.Err? {
        return Err(done.error);
      }
      if !ignoreTrailing && parser.Remaining() != 0 {
        return Err(TrailingJunk);
      }
      r := Ok(m.(question := question, answer := sections[ANSWER], authority := sections[AUTHORITY],
                 additional := sections[ADDITIONAL]));
    }
  }

  lemma HeaderSlices(wire: Bytes, header: Bytes)
    requires |wire| >= HEADER_SIZE && header == wire[0..HEADER_SIZE]
    ensures forall i :: 0 <= i < 6 ==> HeaderField(header, i) == HeaderField(wire, i)
  {
    forall i | 0 <= i < 6 ensures HeaderField(header, i) == HeaderField(wire, i) {
      assert header[2 * i..2 * i + 2] == wire[2 * i..2 * i + 2];
    }
  }

  method GetQuery(parser: Parser) returns (r: Result<Query, WireError>)
    requires parser.InStep() && parser.end == |parser.wire|
    modifies parser`current, parser`furthest
    ensures parser.Valid()
    ensures var spec := ReadQuestion(parser.wire, old(parser.current));
            && (r.Ok? <==> spec.Ok?)
            && (r.Ok? ==> parser.InStep() && spec.value == (r.value, parser.current))
            && (r.Err? ==> r.error == spec.error)
  {
    hide ReadName;
    assert parser.wire[..parser.end] == parser.wire;
    var name := parser.GetName();
    if name.Err? {
      return Err(name.error);
    }
    ghost var at := parser.current;
    var bytes := parser.GetBytes(4);
    if bytes.Err? {
      return Err(bytes.error);
    }
    assert bytes.value[..2] == parser.wire[at..at + 2] && bytes.value[2..] == parser.wire[at + 2..at + 4];
    r := Ok(Query(name.value, Unpack16(bytes.value[..2]), Unpack16(bytes.value[2..])));
  }

  lemma AddKeepsKey(section: nat, s: RRset, started: RRset, rr: Record, ttl: U32)
    requires Digestable(s.items) && Writable(rr.rdata) && started == Fresh(rr) && KeyOf(0, s) == KeyOf(0, started)
    requires AddRdata(s, rr.rdata, ttl).Some?
    ensures KeyOf(section, AddRdata(s, rr.rdata, ttl).value) == KeyOf(section, s)
  {
  }

  lemma IndexedUpdate(sections: seq<seq<RRset>>, index: map<Key, nat>, section: nat, i: nat, s: RRset)
    requires |sections| == 4 && section < 4 && i < |sections[section]| && Indexed(sections, index)
    requires KeyOf(section, s) == KeyOf(section, sections[section][i])
    ensures Indexed(sections[section := sections[section][i := s]], index)
  {
  }

  /** Section and key determine the position of a set, and every set is indexed. */
  ghost predicate Indexed(sections: seq<seq<RRset>>, index: map<Key, nat>)
    requires |sections| == 4
  {
    && (forall s, i :: 0 <= s < 4 && 0 <= i < |sections[s]| ==>
          KeyOf(s, sections[s][i]) in index && index[KeyOf(s, sections[s][i])] == i)
    && (forall k :: k in index ==>
          k.section < 4 && index[k] < |sections[k.section]| && KeyOf(k.section, sections[k.section][index[k]]) == k)
  }

  /** The index finds what a search of the section would. */
  lemma IndexedPlace(sections: seq<seq<RRset>>, index: map<Key, nat>, section: nat, started: RRset)
    requires |sections| == 4 && Indexed(sections, index) && section < 4
    ensures Place(sections[section], started)
            == if KeyOf(section, started) in index then index[KeyOf(section, started)] else |sections[section]|
  {
    var sets := sections[section];
    var i := Place(sets, started);
    var key := KeyOf(section, started);
    assert forall j :: 0 <= j < |sets| ==> (KeyOf(0, sets[j]) == KeyOf(0, started) <==> KeyOf(section, sets[j]) == key);
  }

  lemma IndexedAppend(sections: seq<seq<RRset>>, index: map<Key, nat>, section: nat, started: RRset)
    requires |sections| == 4 && section < 4
    ensures Indexed(sections, index) && KeyOf(section, started) !in index ==>
      Indexed(sections[section := sections[section] + [started]], index[KeyOf(section, started) := |sections[section]|])
  {
  }
}
