/** Whole messages (dns/message.py): rendering one section after another, reading them
    back, and the round trip between the two. */
module Messages {
  import opened Common
  import opened Names
  import opened NameWire
  import opened Records
  import opened Rendering
  import opened Renderers

  const UPDATE := 5
  const MAX_SIGNED_TTL: U32 := 0x7FFF_FFFF

  datatype Query = Query(name: Name, rdtype: U16, rdclass: U16)

  /** A message without EDNS or TSIG. */
  datatype Message = Message(id: U16, flags: U16, question: seq<Query>, answer: seq<RRset>, authority: seq<RRset>,
                             additional: seq<RRset>)
  {
    function Section(i: nat): seq<RRset>
      requires 1 <= i < 4
    {
      if i == ANSWER then answer else if i == AUTHORITY then authority else additional
    }

    predicate Valid() {
      && (forall i :: 0 <= i < |question| ==> ValidName(question[i].name))
      && forall s, i :: 1 <= s < 4 && 0 <= i < |Section(s)| ==> Section(s)[i].Valid()
    }
  }

  function Opcode(flags: U16): nat {
    (flags / 0x800) % 0x10
  }

  /** The opcodes that have a name; Opcode() raises for the others. */
  predicate KnownOpcode(flags: U16) {
    Opcode(flags) in {0, 1, 2, 4, 5}
  }

  // ---------------------------------------------------------------- record sets

  /** Rdataset.update_ttl. */
  function MinTtl(rs: RRset, ttl: U32): U32 {
    if rs.items == [] || ttl < rs.ttl then ttl else rs.ttl
  }

  predicate Holds(items: seq<Rdata>, rd: Rdata)
    requires Writable(rd) && forall i :: 0 <= i < |items| ==> Writable(items[i])
  {
    exists i :: 0 <= i < |items| && Digest(items[i]) == Digest(rd)
  }

  predicate Digestable(items: seq<Rdata>) {
    forall i :: 0 <= i < |items| ==> Writable(items[i])
  }

  /** Rdataset.add: the set keeps the lowest TTL and one copy of equal rdata, and a
      singleton type keeps only the last.  A signature of another type is refused. */
  function AddRdata(rs: RRset, rd: Rdata, ttl: U32): (r: Option<RRset>)
    requires Writable(rd) && Digestable(rs.items)
    ensures r.Some? ==> Digestable(r.value.items)
  {
    var covers := Covers(rs.rdtype, rd);
    if (rs.rdtype == RRSIG || rs.rdtype == SIG) && !(rs.items == [] && rs.covers == 0) && rs.covers != covers
    then None
    else
      var kept := if Singleton(rs.rdtype) then [] else rs.items;
      var items := if Holds(kept, rd) then kept else kept + [rd];
      Some(rs.(ttl := MinTtl(rs, ttl), items := items,
                 covers := if rs.rdtype == RRSIG || rs.rdtype == SIG then covers else rs.covers))
  }

  datatype Key = Key(section: nat, name: Name, rdclass: U16, rdtype: U16, covers: U16, deleting: Option<U16>)

  function KeyOf(section: nat, s: RRset): Key {
    Key(section, Fold(s.name), s.rdclass, s.rdtype, s.covers, s.deleting)
  }

  /** The set find_rrset makes for a record when it finds none. */
  function Fresh(rr: Record): RRset {
    RRset(rr.name, rr.rdclass, rr.rdtype, Covers(rr.rdtype, rr.rdata), None, 0, [])
  }

  /** Where in a section a record belongs, or the end when it starts a new set. */
  function Place(sets: seq<RRset>, started: RRset): (i: nat)
    ensures i <= |sets|
    ensures i < |sets| ==> KeyOf(0, sets[i]) == KeyOf(0, started)
    ensures forall j :: 0 <= j < i ==> KeyOf(0, sets[j]) != KeyOf(0, started)
  {
    if sets == [] then 0
    else if KeyOf(0, sets[0]) == KeyOf(0, started) then 0
    else 1 + Place(sets[1..], started)
  }

  predicate DigestableSets(sets: seq<RRset>) {
    forall i :: 0 <= i < |sets| ==> Digestable(sets[i].items)
  }

  function ReadTtl(ttl: U32): U32 {
    if ttl > MAX_SIGNED_TTL then 0 else ttl
  }

  /** What reading one record does to its section. */
  function Insert(sets: seq<RRset>, rr: Record, oneRrPerRrset: bool): (r: Option<seq<RRset>>)
    requires DigestableSets(sets) && Writable(rr.rdata)
    ensures r.Some? ==> DigestableSets(r.value)
  {
    var started := Fresh(rr);
    var i := if oneRrPerRrset then |sets| else Place(sets, started);
    var added := AddRdata(if i < |sets| then sets[i] else started, rr.rdata, ReadTtl(rr.ttl));
    if added.None? then None
    else if i < |sets| then Some(sets[i := added.value])
    else Some(sets + [added.value])
  }

  predicate SameKey(a: RRset, b: RRset) {
    KeyOf(0, a) == KeyOf(0, b)
  }

  /** A record is never refused.  It joins the first set of its section with its name (up to
      case), class, type and covered type that is not one being deleted, unless each record
      is to have a set of its own; that set takes the lower TTL and holds the record and,
      unless the type allows but one, what it held, equal rdata once, and no other set
      changes.  If there is no such set, the record starts one at the end. */
  lemma InsertJoins(sets: seq<RRset>, rr: Record, oneRrPerRrset: bool) returns (i: nat)
    requires DigestableSets(sets) && Writable(rr.rdata)
    ensures i <= |sets| && Insert(sets, rr, oneRrPerRrset).Some?
    ensures i == |sets| <==> oneRrPerRrset || forall j :: 0 <= j < |sets| ==> !SameKey(sets[j], Fresh(rr))
    ensures i < |sets| ==> SameKey(sets[i], Fresh(rr)) && forall j :: 0 <= j < i ==> !SameKey(sets[j], Fresh(rr))
    ensures var after, ttl := Insert(sets, rr, oneRrPerRrset).value, ReadTtl(rr.ttl);
            if i == |sets| then after == sets + [Fresh(rr).(ttl := ttl, items := [rr.rdata])]
            else
              && |after| == |sets| && (forall j :: 0 <= j < |sets| && j != i ==> after[j] == sets[j])
              && after[i] == sets[i].(ttl := after[i].ttl, items := after[i].items)
              && after[i].ttl == (if sets[i].items == [] then ttl else Min(ttl, sets[i].ttl))
              && (forall rd :: Writable(rd) ==>
                   (Holds(after[i].items, rd) <==>
                     Digest(rd) == Digest(rr.rdata) || (!Singleton(rr.rdtype) && Holds(sets[i].items, rd))))
  {
    hide Holds, Covers, Digest, Singleton, Place;
    var started := Fresh(rr);
    i := if oneRrPerRrset then |sets| else Place(sets, started);
    if i < |sets| {
      AddHolds(sets[i], rr.rdata, ReadTtl(rr.ttl));
    } else {
      AddFirst(rr, ReadTtl(rr.ttl));
    }
  }

  lemma AddFirst(rr: Record, ttl: U32)
    requires Writable(rr.rdata)
    ensures AddRdata(Fresh(rr), rr.rdata, ttl) == Some(Fresh(rr).(ttl := ttl, items := [rr.rdata]))
  {
    var started := Fresh(rr);
    var r := AddRdata(started, rr.rdata, ttl).value;
    assert !Holds([], rr.rdata) && r.items == [rr.rdata] && r.covers == started.covers;
  }

  lemma AddHolds(rs: RRset, rd: Rdata, ttl: U32)
    requires Writable(rd) && Digestable(rs.items) && AddRdata(rs, rd, ttl).Some?
    ensures var items := AddRdata(rs, rd, ttl).value.items;
            forall x :: Writable(x) ==>
              (Holds(items, x) <==> Digest(x) == Digest(rd) || (!Singleton(rs.rdtype) && Holds(rs.items, x)))
  {
    var kept := if Singleton(rs.rdtype) then [] else rs.items;
    var items := AddRdata(rs, rd, ttl).value.items;
    forall x | Writable(x) ensures Holds(items, x) <==> Digest(x) == Digest(rd) || Holds(kept, x) {
      if Holds(kept, rd) {
        var j :| 0 <= j < |kept| && Digest(kept[j]) == Digest(rd);
      } else {
        assert items == kept + [rd];
        assert items[|kept|] == rd;
        if Holds(kept, x) {
          var j :| 0 <= j < |kept| && Digest(kept[j]) == Digest(x);
          assert items[j] == kept[j];
        }
      }
    }
  }

  // ---------------------------------------------------------------- rendering

  /** The order a shuffle leaves the rdata of a set in; a set that is being deleted by
      class is not shuffled. */
  ghost predicate IsOrder(s: RRset, order: seq<Rdata>) {
    multiset(order) == multiset(s.items) && (s.deleting.Some? ==> order == s.items)
  }

  ghost predicate IsShuffle(sets: seq<RRset>, orders: seq<seq<Rdata>>) {
    |orders| == |sets| && forall i :: 0 <= i < |sets| ==> IsOrder(sets[i], orders[i])
  }

  /** The order in which the rdata of every set of a message is emitted. */
  datatype Shuffle = Shuffle(answer: seq<seq<Rdata>>, authority: seq<seq<Rdata>>, additional: seq<seq<Rdata>>)

  predicate MatchesSection(sets: seq<RRset>, orders: seq<seq<Rdata>>) {
    |orders| == |sets| && forall i, j :: 0 <= i < |orders| && 0 <= j < |orders[i]| ==> NamedRdata(orders[i][j])
  }

  predicate Matches(m: Message, shuffle: Shuffle) {
    && MatchesSection(m.answer, shuffle.answer)
    && MatchesSection(m.authority, shuffle.authority)
    && MatchesSection(m.additional, shuffle.additional)
  }

  function QuestionBlocks(qs: seq<Query>): (r: seq<Block>)
    ensures |r| == |qs|
  {
    seq(|qs|, i requires 0 <= i < |qs| => Question(qs[i].name, qs[i].rdtype, qs[i].rdclass))
  }

  function SectionBlocks(section: nat, sets: seq<RRset>, orders: seq<seq<Rdata>>): (r: seq<Block>)
    requires |orders| == |sets|
    ensures |r| == |sets|
  {
    seq(|sets|, i requires 0 <= i < |sets| => Answers(section, sets[i], orders[i]))
  }

  function AddBlocks(s: State, maxSize: int, origin: Option<Name>, bs: seq<Block>): (r: Result<State, RenderError>)
    requires ValidBlocks(bs) && |s.counts| == 4 && ValidOrigin(origin)
    ensures r.Ok? ==> |r.value.counts| == 4 && s.data <= r.value.data
    decreases |bs|
  {
    if bs == [] then Ok(s)
    else
      var first := AddBlock(s, maxSize, origin, bs[0]);
      if first.Err? then first else AddBlocks(first.value, maxSize, origin, bs[1..])
  }

  /** The size limit to_wire works to. */
  function Limit(maxSize: int, requestPayload: nat): (r: int)
    ensures 512 <= r <= 65535
  {
    var size := if maxSize != 0 then maxSize else if requestPayload != 0 then requestPayload else 65535;
    if size < 512 then 512 else if size > 65535 then 65535 else size
  }

  function AllBlocks(m: Message, shuffle: Shuffle): (r: seq<Block>)
    requires m.Valid() && Matches(m, shuffle)
    ensures ValidBlocks(r)
  {
    ValidSections(m, shuffle);
    QuestionBlocks(m.question) + SectionBlocks(ANSWER, m.answer, shuffle.answer)
    + SectionBlocks(AUTHORITY, m.authority, shuffle.authority)
    + SectionBlocks(ADDITIONAL, m.additional, shuffle.additional)
  }

  lemma ValidSections(m: Message, shuffle: Shuffle)
    requires m.Valid() && Matches(m, shuffle)
    ensures ValidBlocks(QuestionBlocks(m.question))
    ensures ValidBlocks(SectionBlocks(ANSWER, m.answer, shuffle.answer))
    ensures ValidBlocks(SectionBlocks(AUTHORITY, m.authority, shuffle.authority))
    ensures ValidBlocks(SectionBlocks(ADDITIONAL, m.additional, shuffle.additional))
  {
    assert m.Section(ANSWER) == m.answer && m.Section(AUTHORITY) == m.authority
      && m.Section(ADDITIONAL) == m.additional;
  }

  /** Message.to_wire: twelve octets for the header, every section in turn, and then the
      header over the octets left for it. */
  function Render(m: Message, shuffle: Shuffle, maxSize: int, requestPayload: nat, origin: Option<Name>)
    : (r: Result<Bytes, RenderError>)
    requires m.Valid() && Matches(m, shuffle) && ValidOrigin(origin)
  {
    var start := State(seq(HEADER_SIZE, _ => 0), map[], [0, 0, 0, 0]);
    var done := AddBlocks(start, Limit(maxSize, requestPayload), origin, AllBlocks(m, shuffle));
    if done.Err? then Err(done.error)
    else
      assert Packable(done.value.counts) by {
        CountsBound(start, Limit(maxSize, requestPayload), origin, AllBlocks(m, shuffle));
      }
      Ok(HeaderBytes(m.id, m.flags, done.value.counts) + done.value.data[HEADER_SIZE..])
  }

  /** Every record takes at least five octets, so a size limit bounds the counts. */
  lemma {:induction false} CountsBound(s: State, maxSize: int, origin: Option<Name>, bs: seq<Block>)
    requires ValidBlocks(bs) && |s.counts| == 4 && ValidOrigin(origin) && |s.data| <= Max(HEADER_SIZE, maxSize)
    requires forall i :: 0 <= i < 4 ==> 5 * s.counts[i] <= |s.data|
    requires AddBlocks(s, maxSize, origin, bs).Ok?
    ensures var t := AddBlocks(s, maxSize, origin, bs).value;
            |t.data| <= Max(HEADER_SIZE, maxSize) && forall i :: 0 <= i < 4 ==> 5 * t.counts[i] <= |t.data|
    decreases |bs|
  {
    if bs != [] {
      CountsBound(AddBlock(s, maxSize, origin, bs[0]).value, maxSize, origin, bs[1..]);
    }
  }

  // ---------------------------------------------------------------- reading

  datatype ReadError =
    | ShortHeader
    | UnknownOpcode
    | Malformed(error: WireError)
    | DifferingCovers
    | TrailingJunk
    | NotModelled

  /** _get_question: each question becomes an entry of its own. */
  function ReadQuestions(wire: Bytes, pos: nat, n: nat): (r: Result<(seq<Query>, nat), ReadError>)
    requires pos <= |wire|
    ensures r.Ok? ==> |r.value.0| == n && pos <= r.value.1 <= |wire|
    decreases n
  {
    if n == 0 then Ok(([], pos))
    else
      var first := ReadQuestion(wire, pos);
      if first.Err? then Err(Malformed(first.error))
      else
        var rest := ReadQuestions(wire, first.value.1, n - 1);
        if rest.Err? then rest else Ok(([first.value.0] + rest.value.0, rest.value.1))
  }

  function ReadQuestion(wire: Bytes, pos: nat): (r: Result<(Query, nat), WireError>)
    requires pos <= |wire|
    ensures r.Ok? ==> pos < r.value.1 <= |wire|
  {
    if pos == |wire| then Err(FormError)
    else
      var owner := ReadName(wire, pos);
      if owner.Bad? then Err(owner.error)
      else if owner.next + 4 > |wire| then Err(FormError)
      else Ok((Query(owner.labels, Unpack16(wire[owner.next..owner.next + 2]),
                     Unpack16(wire[owner.next + 2..owner.next + 4])), owner.next + 4))
  }

  /** OPT and TSIG records take paths of their own. */
  predicate Special(rdtype: U16) {
    rdtype == OPT || rdtype == TSIG
  }

  /** One record read and put into its section. */
  function ReadInto(wire: Bytes, pos: nat, sets: seq<RRset>, oneRrPerRrset: bool)
    : (r: Result<(seq<RRset>, nat), ReadError>)
    requires pos <= |wire| && DigestableSets(sets)
    ensures r.Ok? ==> pos < r.value.1 <= |wire| && DigestableSets(r.value.0)
  {
    var head := ReadHead(wire, pos);
    if head.Err? then Err(Malformed(head.error))
    else if Special(head.value.0.rdtype) then Err(NotModelled)
    else
      var rr := ReadRecord(wire, pos);
      if rr.Err? then Err(Malformed(rr.error))
      else
        var inserted := Insert(sets, rr.value.0, oneRrPerRrset);
        if inserted.None? then Err(DifferingCovers) else Ok((inserted.value, rr.value.1))
  }

  /** _get_section, adding to `sets`. */
  function ReadSection(wire: Bytes, pos: nat, n: nat, sets: seq<RRset>, oneRrPerRrset: bool)
    : (r: Result<(seq<RRset>, nat), ReadError>)
    requires pos <= |wire| && DigestableSets(sets)
    ensures r.Ok? ==> pos <= r.value.1 <= |wire|
    decreases n
  {
    if n == 0 then Ok((sets, pos))
    else
      var first := ReadInto(wire, pos, sets, oneRrPerRrset);
      if first.Err? then first else ReadSection(wire, first.value.1, n - 1, first.value.0, oneRrPerRrset)
  }

  function HeaderField(wire: Bytes, i: nat): U16
    requires i < 6 && |wire| >= HEADER_SIZE
  {
    Unpack16(wire[2 * i..2 * i + 2])
  }

  /** _WireReader.read.  Messages with the UPDATE opcode are read by another class. */
  function Parse(wire: Bytes, questionOnly: bool, oneRrPerRrset: bool, ignoreTrailing: bool)
    : Result<Message, ReadError>
  {
    if |wire| < HEADER_SIZE then Err(ShortHeader)
    else
      var flags := HeaderField(wire, 1);
      if !KnownOpcode(flags) then Err(UnknownOpcode)
      else if Opcode(flags) == UPDATE then Err(NotModelled)
      else
        var m := Message(HeaderField(wire, 0), flags, [], [], [], []);
        var question := ReadQuestions(wire, HEADER_SIZE, HeaderField(wire, 2));
        if question.Err? then Err(question.error)
        else if questionOnly then Ok(m.(question := question.value.0))
        else
          var answer := ReadSection(wire, question.value.1, HeaderField(wire, 3), [], oneRrPerRrset);
          if answer.Err? then Err(answer.error)
          else
            var authority := ReadSection(wire, answer.value.1, HeaderField(wire, 4), [], oneRrPerRrset);
            if authority.Err? then Err(authority.error)
            else
              var additional := ReadSection(wire, authority.value.1, HeaderField(wire, 5), [], oneRrPerRrset);
              if additional.Err? then Err(additional.error)
              else if !ignoreTrailing && additional.value.1 != |wire| then Err(TrailingJunk)
              else Ok(m.(question := question.value.0, answer := answer.value.0, authority := authority.value.0,
                         additional := additional.value.0))
  }
}
