/** The Renderer object of dns/renderer.py. */
module Renderers {
  import opened Common
  import opened Names
  import opened NameWire
  import opened Wire
  import opened Records
  import opened Rendering

  /** The table without the entries at or beyond `where`. */
  function Before(table: Table, where: nat): Table {
    map k | k in table && table[k] < where :: table[k]
  }

  /** Cutting the buffer back to where it stood, and dropping the entries beyond the cut,
      restores the table exactly. */
  lemma RollbackRestores(floor: nat, d0: Bytes, t0: Table, d1: Bytes, t1: Table)
    requires TableOk(d0, floor, t0) && Extends(floor, d0, t0, d1, t1)
    ensures Before(t1, |d0|) == t0
  {
    forall k ensures k in Before(t1, |d0|) <==> k in t0 {
      if k in t0 {
        assert Spelled(d0, floor, k, t0[k]);
      }
    }
  }

  function HeaderBytes(id: U16, flags: U16, counts: seq<U16>): (r: Bytes)
    requires |counts| == 4
    ensures |r| == HEADER_SIZE
  {
    Pack16(id) + Pack16(flags) + Pack16(counts[0]) + Pack16(counts[1]) + Pack16(counts[2]) + Pack16(counts[3])
  }

  predicate Packable(counts: seq<nat>) {
    forall i :: 0 <= i < |counts| ==> counts[i] < 0x1_0000
  }

  // ---------------------------------------------------------------- runs of adds

  /** A run of adds whose caller carries on whatever came of each. */
  function AddSome(s: State, maxSize: int, origin: Option<Name>, blocks: seq<Block>): (r: State)
    requires |s.counts| == 4 && ValidOrigin(origin) && ValidBlocks(blocks)
    ensures |r.counts| == 4 && s.data <= r.data
    decreases |blocks|
  {
    if blocks == [] then s else AddSome(AddLeft(s, maxSize, origin, blocks[0]), maxSize, origin, blocks[1..])
  }

  /** Over any run of adds, however each of them failed: what was there stays, and every entry
      of the table still decodes to its key. */
  lemma {:induction false} RunKeepsTable(s: State, maxSize: int, origin: Option<Name>, blocks: seq<Block>)
    requires s.Valid() && ValidOrigin(origin) && ValidBlocks(blocks)
    ensures var r := AddSome(s, maxSize, origin, blocks);
            s.data <= r.data && forall k :: k in r.table ==> |k| >= 2 && Spelled(r.data, HEADER_SIZE, k, r.table[k])
    decreases |blocks|
  {
    hide Spelled, AddLeft;
    if blocks != [] {
      AddLeftValid(s, maxSize, origin, blocks[0]);
      RunKeepsTable(AddLeft(s, maxSize, origin, blocks[0]), maxSize, origin, blocks[1..]);
    }
  }

  predicate Within(s: State, maxSize: int) {
    |s.data| <= Max(HEADER_SIZE, maxSize)
  }

  /** In a run of adds, none of those that fail over their rdata leaves octets beyond the
      limit. */
  predicate NoneLeftBeyond(s: State, maxSize: int, origin: Option<Name>, blocks: seq<Block>)
    requires |s.counts| == 4 && ValidOrigin(origin) && ValidBlocks(blocks)
    decreases |blocks|
  {
    blocks != [] ==>
      && (Unwritable(AddBlock(s, maxSize, origin, blocks[0]))
          ==> Within(AddLeft(s, maxSize, origin, blocks[0]), maxSize))
      && NoneLeftBeyond(AddLeft(s, maxSize, origin, blocks[0]), maxSize, origin, blocks[1..])
  }

  /** Any other outcome of an add keeps the limit. */
  lemma AddLimit(s: State, maxSize: int, origin: Option<Name>, b: Block)
    requires b.Valid() && |s.counts| == 4 && ValidOrigin(origin) && !Unwritable(AddBlock(s, maxSize, origin, b))
    ensures Within(s, maxSize) ==> Within(AddLeft(s, maxSize, origin, b), maxSize)
  {
  }

  /** From a given state, the limit holds at the end of a run exactly when it held before and
      no add that failed over its rdata left octets beyond it: such an add is not undone, and
      what it leaves is not compared with the limit. */
  lemma {:induction false} RunLimitIff(s: State, maxSize: int, origin: Option<Name>, blocks: seq<Block>)
    requires |s.counts| == 4 && ValidOrigin(origin) && ValidBlocks(blocks)
    ensures Within(AddSome(s, maxSize, origin, blocks), maxSize)
            <==> Within(s, maxSize) && NoneLeftBeyond(s, maxSize, origin, blocks)
    decreases |blocks|
  {
    hide AddBlock, AddLeft;
    if blocks != [] {
      var left := AddLeft(s, maxSize, origin, blocks[0]);
      RunLimitIff(left, maxSize, origin, blocks[1..]);
      if !Unwritable(AddBlock(s, maxSize, origin, blocks[0])) {
        AddLimit(s, maxSize, origin, blocks[0]);
      }
    }
  }

  // ---------------------------------------------------------------- rdata that can be written

  /** The octets of rdata with none of its names compressed. */
  function FullSize(rd: Rdata): nat {
    if rd == [] then 0
    else (match rd[0] case NameItem(name) => WireLength(name) case Octets(bytes) => |bytes|) + FullSize(rd[1..])
  }

  /** Every rdata can be completed, and is less than 64 KiB then; or the owner name is refused
      before any is looked at. */
  predicate CanWrite(origin: Option<Name>, b: Block)
    requires b.Valid() && ValidOrigin(origin)
  {
    b.Answers? && Complete(b.Owner(), origin).Ok? ==> forall i :: 0 <= i < |b.order| ==> Completes(origin, b.order[i])
  }

  predicate Completes(origin: Option<Name>, rd: Rdata)
    requires NamedRdata(rd) && ValidOrigin(origin)
  {
    CompleteRdata(rd, origin).Ok? && FullSize(CompleteRdata(rd, origin).value) < 0x1_0000
  }

  lemma {:induction false} EmitSize(data: Bytes, table: Option<Table>, labels: Name, canonicalize: bool)
    requires ShortLabels(labels) && (table.Some? ==> forall k :: k in table.value ==> |k| >= 2)
    ensures |Emit(data, table, labels, canonicalize).0| <= |data| + WireLength(labels)
    ensures var t := Emit(data, table, labels, canonicalize).1; t.Some? ==> forall k :: k in t.value ==> |k| >= 2
    decreases |labels|
  {
    if labels != [] {
      if table.Some? && Fold(labels) in table.value {
        assert WireLength(labels) >= |labels| >= 2;
      } else {
        EmitSize(data + LabelBytes(labels[0], canonicalize), Recorded(data, table, labels), labels[1..], canonicalize);
      }
    }
  }

  lemma {:induction false} ItemsSize(data: Bytes, table: Option<Table>, rd: Rdata)
    requires Writable(rd) && (table.Some? ==> forall k :: k in table.value ==> |k| >= 2)
    ensures |EmitItems(data, table, rd, false).0| <= |data| + FullSize(rd)
    decreases |rd|
  {
    hide Emit;
    if rd != [] {
      if rd[0].NameItem? {
        EmitSize(data, table, rd[0].name, false);
      }
      var out := EmitItem(data, table, rd[0], false);
      ItemsSize(out.0, out.1, rd[1..]);
    }
  }

  lemma {:induction false} EachWritten(data: Bytes, table: Table, proto: Record, order: seq<Rdata>,
                                       origin: Option<Name>)
    requires |data| >= HEADER_SIZE && proto.Valid() && ValidOrigin(origin) && TableOk(data, HEADER_SIZE, table)
    requires forall i :: 0 <= i < |order| ==> NamedRdata(order[i]) && Completes(origin, order[i])
    ensures EmitEach(data, table, proto, order, origin).Ok?
    decreases |order|
  {
    hide Emit, EmitItems, EmitRecord, TableOk, FullSize, CompleteRdata;
    if order != [] {
      var rr := proto.(rdata := CompleteRdata(order[0], origin).value);
      RecordWritten(data, table, rr);
      RecordTable(HEADER_SIZE, data, table, rr);
      var out := EmitRecord(data, table, rr);
      EachWritten(out.data, out.table, proto, order[1..], origin);
    }
  }

  lemma RecordWritten(data: Bytes, table: Table, rr: Record)
    requires |data| >= HEADER_SIZE && rr.Valid() && TableOk(data, HEADER_SIZE, table) && FullSize(rr.rdata) < 0x1_0000
    ensures EmitRecord(data, table, rr).Done?
  {
    hide Emit, EmitItems, FixedPart, Spelled;
    var owner := Emit(data, Some(table), rr.name, false);
    EmitSize(data, Some(table), rr.name, false);
    ItemsSize(Head(owner.0, rr, 0), owner.1, rr.rdata);
  }

  lemma WrittenWhole(s: State, maxSize: int, origin: Option<Name>, b: Block)
    requires s.Valid() && b.Valid() && ValidOrigin(origin) && CanWrite(origin, b)
    ensures !Unwritable(AddBlock(s, maxSize, origin, b))
  {
    hide Emit, EmitEach, TableOk;
    var owner := Complete(b.Owner(), origin);
    if owner.Ok? && b.Answers? {
      if b.order == [] {
        EachWritten(s.data, s.table, Proto(owner.value, b.rrset, 0), [[]], origin);
      } else {
        EachWritten(s.data, s.table, Proto(owner.value, b.rrset, b.rrset.ttl), b.order, origin);
      }
    }
  }

  lemma {:induction false} NoneFails(s: State, maxSize: int, origin: Option<Name>, blocks: seq<Block>)
    requires s.Valid() && ValidOrigin(origin) && ValidBlocks(blocks)
    requires forall i :: 0 <= i < |blocks| ==> CanWrite(origin, blocks[i])
    ensures NoneLeftBeyond(s, maxSize, origin, blocks)
    decreases |blocks|
  {
    hide AddBlock, AddLeft, CanWrite;
    if blocks != [] {
      WrittenWhole(s, maxSize, origin, blocks[0]);
      AddLeftValid(s, maxSize, origin, blocks[0]);
      NoneFails(AddLeft(s, maxSize, origin, blocks[0]), maxSize, origin, blocks[1..]);
    }
  }

  // ---------------------------------------------------------------- rdata that cannot

  /** With no table and beyond the reach of a pointer, nothing is compressed. */
  lemma {:induction false} EmitFar(data: Bytes, labels: Name)
    requires ShortLabels(labels) && |data| > MAX_OFFSET
    ensures var out := Emit(data, Some(map[]), labels, false);
            |out.0| == |data| + WireLength(labels) && out.1 == Some(map[])
    decreases |labels|
  {
    hide Fold;
    if labels != [] {
      EmitFar(data + LabelBytes(labels[0], false), labels[1..]);
    }
  }

  lemma {:induction false} ItemsFar(data: Bytes, rd: Rdata)
    requires Writable(rd) && |data| > MAX_OFFSET
    ensures var out := EmitItems(data, Some(map[]), rd, false);
            |out.0| == |data| + FullSize(rd) && out.1 == Some(map[])
    decreases |rd|
  {
    hide Emit;
    if rd != [] {
      if rd[0].NameItem? {
        EmitFar(data, rd[0].name);
      }
      ItemsFar(EmitItem(data, Some(map[]), rd[0], false).0, rd[1..]);
    }
  }

  lemma RecordFar(data: Bytes, rr: Record)
    requires rr.Valid() && |data| > MAX_OFFSET
    ensures var out := EmitRecord(data, map[], rr);
            (out.Oversize? <==> FullSize(rr.rdata) >= 0x1_0000) && (out.Done? ==> out.table == map[])
  {
    hide Emit, EmitItems, FixedPart;
    var owner := Emit(data, Some(map[]), rr.name, false);
    EmitFar(data, rr.name);
    var start := Head(owner.0, rr, 0);
    ItemsFar(start, rr.rdata);
    if FullSize(rr.rdata) < 0x1_0000 {
      ItemsFar(Head(owner.0, rr, FullSize(rr.rdata)), rr.rdata);
    }
  }

  /** There one rdata that cannot be written is enough for its set to fail. */
  lemma {:induction false} EachFails(data: Bytes, proto: Record, order: seq<Rdata>, origin: Option<Name>, i: nat)
    requires |data| > MAX_OFFSET && proto.Valid() && ValidOrigin(origin) && i < |order|
    requires (forall k :: 0 <= k < |order| ==> NamedRdata(order[k])) && !Completes(origin, order[i])
    ensures EmitEach(data, map[], proto, order, origin).Err?
    decreases |order|
  {
    hide EmitRecord, CompleteRdata, FullSize;
    var rd := CompleteRdata(order[0], origin);
    if rd.Ok? {
      var rr := proto.(rdata := rd.value);
      RecordFar(data, rr);
      var out := EmitRecord(data, map[], rr);
      if out.Done? {
        EachFails(out.data, proto, order[1..], origin, i - 1);
      }
    }
  }

  /** What a failed set leaves is at least the fixed part of a record. */
  lemma {:induction false} LeftSize(data: Bytes, table: Table, proto: Record, order: seq<Rdata>, origin: Option<Name>)
    requires proto.Valid() && ValidOrigin(origin) && forall i :: 0 <= i < |order| ==> NamedRdata(order[i])
    requires EmitEach(data, table, proto, order, origin).Err?
    ensures |EachLeft(data, table, proto, order, origin).0| >= |data| + 10
    decreases |order|
  {
    hide EmitRecord, CompleteRdata, RecordLeft;
    RecordLeftSize(data, table, proto, order[0], origin);
    var rd := CompleteRdata(order[0], origin);
    if rd.Ok? {
      var out := EmitRecord(data, table, proto.(rdata := rd.value));
      if out.Done? {
        LeftSize(out.data, out.table, proto, order[1..], origin);
      }
    }
  }

  lemma RecordLeftSize(data: Bytes, table: Table, proto: Record, rd: Rdata, origin: Option<Name>)
    requires proto.Valid() && NamedRdata(rd) && ValidOrigin(origin)
    ensures |RecordLeft(data, table, proto, rd, origin).0| >= |data| + 10
  {
    hide Emit, FieldsLeft;
  }

  /** A renderer that is full to its limit, beyond the reach of a pointer. */
  function Full(): (s: State)
    ensures s.Valid() && |s.data| == MAX_OFFSET + 1 && s.table == map[]
  {
    State(seq(MAX_OFFSET + 1, _ => 0), map[], [0, 0, 0, 0])
  }

  lemma FullSpills(origin: Option<Name>, b: Block)
    requires b.Valid() && ValidOrigin(origin) && !CanWrite(origin, b)
    ensures !Within(AddLeft(Full(), MAX_OFFSET + 1, origin, b), MAX_OFFSET + 1)
  {
    hide EmitEach, EachLeft, Complete, Completes, Full;
    var s := Full();
    var proto := Proto(Complete(b.Owner(), origin).value, b.rrset, b.rrset.ttl);
    var i :| 0 <= i < |b.order| && !Completes(origin, b.order[i]);
    EachFails(s.data, proto, b.order, origin, i);
    LeftSize(s.data, s.table, proto, b.order, origin);
  }

  /** Any other add is undone there, or refused. */
  lemma FullStays(origin: Option<Name>, b: Block)
    requires b.Valid() && ValidOrigin(origin) && CanWrite(origin, b)
    ensures AddLeft(Full(), MAX_OFFSET + 1, origin, b) == Full()
  {
    hide Block.Written, Complete, CanWrite, Full;
    WrittenWhole(Full(), MAX_OFFSET + 1, origin, b);
  }

  lemma {:induction false} FullRunSpills(origin: Option<Name>, blocks: seq<Block>, i: nat)
    requires ValidOrigin(origin) && ValidBlocks(blocks) && i < |blocks| && !CanWrite(origin, blocks[i])
    ensures !Within(AddSome(Full(), MAX_OFFSET + 1, origin, blocks), MAX_OFFSET + 1)
    decreases |blocks|
  {
    hide AddBlock, AddLeft, CanWrite, Full;
    if CanWrite(origin, blocks[0]) {
      FullStays(origin, blocks[0]);
      FullRunSpills(origin, blocks[1..], i - 1);
    } else {
      FullSpills(origin, blocks[0]);
      RunLimitIff(AddLeft(Full(), MAX_OFFSET + 1, origin, blocks[0]), MAX_OFFSET + 1, origin, blocks[1..]);
    }
  }

  // ---------------------------------------------------------------- the limit

  /** A run of adds keeps every limit, in whatever state it begins, exactly when in each of
      them the owner name is refused, or every rdata can be completed and is less than 64 KiB
      then; however many of the adds are too big. */
  lemma RunKeepsLimitIff(origin: Option<Name>, blocks: seq<Block>)
    requires ValidOrigin(origin) && ValidBlocks(blocks)
    ensures (forall s: State, maxSize: int :: s.Valid() && Within(s, maxSize) ==>
               Within(AddSome(s, maxSize, origin, blocks), maxSize))
            <==> forall i :: 0 <= i < |blocks| ==> CanWrite(origin, blocks[i])
  {
    hide CanWrite, AddSome, NoneLeftBeyond, Full;
    if forall i :: 0 <= i < |blocks| ==> CanWrite(origin, blocks[i]) {
      forall s: State, maxSize: int | s.Valid() && Within(s, maxSize)
        ensures Within(AddSome(s, maxSize, origin, blocks), maxSize)
      {
        NoneFails(s, maxSize, origin, blocks);
        RunLimitIff(s, maxSize, origin, blocks);
      }
    } else {
      var i :| 0 <= i < |blocks| && !CanWrite(origin, blocks[i]);
      FullRunSpills(origin, blocks, i);
      assert Within(Full(), MAX_OFFSET + 1);
    }
  }

  /** One add likewise. */
  lemma AddKeepsLimitIff(origin: Option<Name>, b: Block)
    requires ValidOrigin(origin) && b.Valid()
    ensures (forall s: State, maxSize: int :: s.Valid() && Within(s, maxSize) ==>
               Within(AddLeft(s, maxSize, origin, b), maxSize))
            <==> CanWrite(origin, b)
  {
    hide CanWrite, AddLeft, AddBlock, Full;
    if CanWrite(origin, b) {
      forall s: State, maxSize: int | s.Valid() && Within(s, maxSize)
        ensures Within(AddLeft(s, maxSize, origin, b), maxSize)
      {
        WrittenWhole(s, maxSize, origin, b);
        AddLimit(s, maxSize, origin, b);
      }
    } else {
      FullSpills(origin, b);
      assert Within(Full(), MAX_OFFSET + 1);
    }
  }

  /** The limit can be passed otherwise: ten octets below it, an NS record of the root whose
      target is relative, with no origin, fails, and leaves the eleven octets of its owner and
      its fixed part. */
  lemma LeftBeyondLimit(s: State)
    requires s.Valid() && |s.data| == 502
    ensures var rd := [NameItem([[0x61]])];
            var b := Answers(ANSWER, RRset(ROOT, 1, NS, 0, None, 300, [rd]), [rd]);
            && b.Valid() && Unwritable(AddBlock(s, 512, None, b)) && |AddLeft(s, 512, None, b).data| == 513
  {
    hide Spelled, FixedPart;
    var rd := [NameItem([[0x61]])];
    var rrset := RRset(ROOT, 1, NS, 0, None, 300, [rd]);
    assert WireLength([[0x61]]) == 2 + WireLength([]);
    assert ValidName([[0x61]]) && ValidName(ROOT);
    assert Complete(ROOT, None) == Ok(ROOT);
    assert CompleteRdata(rd, None).Err?;
    RootEmitted(s.data, s.table);
    var proto := Proto(ROOT, rrset, 300);
    assert FieldsLeft(Head(Emit(s.data, Some(s.table), ROOT, false).0, proto, 0), Some(s.table), rd, None).0
      == Head(Emit(s.data, Some(s.table), ROOT, false).0, proto, 0);
  }

  /** The root is never compressed. */
  lemma RootEmitted(data: Bytes, table: Table)
    requires |data| >= HEADER_SIZE && TableOk(data, HEADER_SIZE, table)
    ensures Emit(data, Some(table), ROOT, false) == (data + [0], Some(table))
  {
    hide Emit, Spelled, Fold;
    RootKey(table);
    EmitStep(data, Some(table), ROOT, false);
    RootWritten(data, table);
    EmitNothing(data + [0], Some(table), false);
  }

  lemma RootWritten(data: Bytes, table: Table)
    ensures ROOT[1..] == [] && LabelBytes(ROOT[0], false) == [0] && Recorded(data, Some(table), ROOT) == Some(table)
  {
    hide Fold;
  }

  lemma RootKey(table: Table)
    requires forall k :: k in table ==> |k| >= 2
    ensures Fold(ROOT) !in table
  {
  }

  lemma QuestionWritten(data: Bytes, table: Table, owner: Name, origin: Option<Name>, name: Name, rdtype: U16,
                        rdclass: U16)
    requires ValidName(name) && ValidName(owner) && IsAbsolute(owner) && ValidOrigin(origin)
    ensures var out := Emit(data, Some(table), owner, false);
            Question(name, rdtype, rdclass).Written(data, table, owner, origin)
            == Ok((out.0 + (Pack16(rdtype) + Pack16(rdclass)), out.1.value))
  {
    hide Emit, Pack16;
  }

  /** Adding a question, case by case. */
  lemma QuestionCases(s: State, maxSize: int, origin: Option<Name>, b: Block)
    requires b.Valid() && b.Question? && |s.counts| == 4 && ValidOrigin(origin)
    ensures var owner := Complete(b.Owner(), origin);
            if owner.Err? then AddBlock(s, maxSize, origin, b) == Err(BadOwner(owner.error))
            else
              var out := b.Written(s.data, s.table, owner.value, origin);
              && out.Ok?
              && AddBlock(s, maxSize, origin, b)
                 == if |out.value.0| > maxSize then Err(TooBig)
                    else Ok(State(out.value.0, out.value.1, s.counts[QUESTION := s.counts[QUESTION] + 1]))
  {
    hide Emit, Complete, Pack16;
  }

  class Renderer {
    const id: U16
    const flags: U16
    const origin: Option<Name>
    const output: File
    const compress: Compression
    var section: nat
    var counts: seq<nat>
    var maxSize: int
    var reserved: nat

    function Contents(): State
      reads this, output, compress
    {
      State(output.data, compress.entries, counts)
    }

    ghost predicate Valid()
      reads this, output, compress
    {
      output.AtEnd() && Contents().Valid() && section < 4 && ValidOrigin(origin)
    }

    /** The size limit, what was set aside included. */
    ghost predicate InLimit()
      reads this, output, compress
    {
      Within(Contents(), maxSize + reserved)
    }

    constructor (id: U16, flags: U16, maxSize: int, origin: Option<Name>)
      requires ValidOrigin(origin)
      ensures Valid() && InLimit() && fresh(output) && fresh(compress)
      ensures this.id == id && this.flags == flags && this.origin == origin
      ensures this.maxSize == maxSize && reserved == 0 && section == QUESTION
      ensures Contents() == State(seq(HEADER_SIZE, _ => 0), map[], [0, 0, 0, 0])
    {
      this.id, this.flags, this.origin, this.maxSize := id, flags, origin, maxSize;
      output := new File();
      compress := new Compression();
      section, counts, reserved := QUESTION, [0, 0, 0, 0], 0;
      new;
      output.Write(seq(HEADER_SIZE, _ => 0));
    }

    /** _rollback: cut the output at `where` and forget the names beyond it. */
    method Rollback(where: nat)
      requires where <= |output.data|
      modifies output, compress
      ensures output.AtEnd() && output.data == old(output.data)[..where]
      ensures compress.entries == Before(old(compress.entries), where)
    {
      output.Seek(where);
      output.Truncate();
      var keysToDelete: set<Name> := {};
      var toVisit := compress.entries.Keys;
      while toVisit != {}
        invariant toVisit <= compress.entries.Keys && compress.entries == old(compress.entries)
        invariant keysToDelete == set k | k in compress.entries.Keys - toVisit && compress.entries[k] >= where
        decreases toVisit
        modifies {}
      {
        var k :| k in toVisit;
        toVisit := toVisit - {k};
        if compress.entries[k] >= where {
          keysToDelete := keysToDelete + {k};
        }
      }
      ghost var deleted: set<Name> := {};
      while keysToDelete != {}
        invariant deleted + keysToDelete == set k | k in old(compress.entries) && old(compress.entries)[k] >= where
        invariant compress.entries == old(compress.entries) - deleted
        decreases keysToDelete
        modifies compress
      {
        var k :| k in keysToDelete;
        keysToDelete, deleted := keysToDelete - {k}, deleted + {k};
        compress.entries := compress.entries - {k};
      }
    }

    /** _set_section: sections must come in order. */
    method SetSection(section: nat) returns (r: Result<(), RenderError>)
      requires section < 4
      modifies this`section
      ensures r == if section < old(this.section) then Err(SectionOrder) else Ok(())
      ensures this.section == Max(old(this.section), section)
    {
      if this.section != section {
        if this.section > section {
          return Err(SectionOrder);
        }
        this.section := section;
      }
      r := Ok(());
    }

    /** The end of _track_size: undo what was added since `start` if it is too big. */
    method TrackSize(start: nat, ghost before: State) returns (tooBig: bool)
      requires output.AtEnd() && start == |before.data| && before.data <= output.data
      requires TableOk(before.data, HEADER_SIZE, before.table)
      requires Extends(HEADER_SIZE, before.data, before.table, output.data, compress.entries)
      modifies output, compress
      ensures output.AtEnd() && tooBig == (|old(output.data)| > maxSize)
      ensures tooBig ==> output.data == before.data && compress.entries == before.table
      ensures !tooBig ==> output.data == old(output.data) && compress.entries == old(compress.entries)
    {
      tooBig := output.pos > maxSize;
      if tooBig {
        RollbackRestores(HEADER_SIZE, before.data, before.table, output.data, compress.entries);
        Rollback(start);
      }
    }

    method AddQuestion(qname: Name, rdtype: U16, rdclass: U16) returns (r: Result<(), RenderError>)
      requires Valid() && ValidName(qname)
      modifies this`section, this`counts, output, compress
      ensures Valid() && section == Max(old(section), QUESTION) && (old(InLimit()) ==> InLimit())
      ensures old(section) > QUESTION ==> r == Err(SectionOrder)
      ensures r.Err? ==> Contents() == old(Contents())
      ensures old(section) == QUESTION ==>
        var added := AddBlock(old(Contents()), maxSize, origin, Question(qname, rdtype, rdclass));
        if added.Ok? then r == Ok(()) && Contents() == added.value else r == Err(added.error)
    {
      hide Emit, TableOk, Extends, Spelled, Complete, Pack16, AddBlock, Block.Written;
      ghost var b := Question(qname, rdtype, rdclass);
      ghost var before := Contents();
      var inOrder := SetSection(QUESTION);
      if inOrder.Err? {
        return inOrder;
      }
      var start := output.pos;
      QuestionCases(before, maxSize, origin, b);
      var named := NameToWire(qname, output, compress, origin, false);
      if named.Err? {
        return Err(BadOwner(named.error));
      }
      output.Write(Pack16(rdtype) + Pack16(rdclass));
      assert (output.data, compress.entries) == b.Written(before.data, before.table, named.value, origin).value by {
        QuestionWritten(before.data, before.table, named.value, origin, qname, rdtype, rdclass);
      }
      WrittenKeepsTable(before.data, before.table, named.value, origin, b);
      var tooBig := TrackSize(start, before);
      if tooBig {
        return Err(TooBig);
      }
      counts := counts[QUESTION := counts[QUESTION] + 1];
      r := Ok(());
    }

    method AddRRset(section: nat, rrset: RRset, order: seq<Rdata>) returns (r: Result<(), RenderError>)
      requires Valid() && Answers(section, rrset, order).Valid()
      modifies this`section, this`counts, output, compress
      ensures Valid() && this.section == Max(old(this.section), section)
      ensures old(this.section) > section ==> r == Err(SectionOrder) && Contents() == old(Contents())
      ensures old(this.section) <= section ==>
        var b := Answers(section, rrset, order);
        var added := AddBlock(old(Contents()), maxSize, origin, b);
        && r == (if added.Ok? then Ok(()) else Err(added.error))
        && Contents() == AddLeft(old(Contents()), maxSize, origin, b)
        && (!Unwritable(added) && r.Err? ==> Contents() == old(Contents()))
        && (!Unwritable(added) && old(InLimit()) ==> InLimit())
    {
      hide EmitSet, SetLeft, Complete, TableOk, Extends, Spelled;
      ghost var b := Answers(section, rrset, order);
      ghost var before := Contents();
      AddLeftValid(before, maxSize, origin, b);
      var inOrder := SetSection(section);
      if inOrder.Err? {
        return inOrder;
      }
      var start := output.pos;
      var n := RRsetToWire(rrset, order, output, compress, origin);
      if n.Err? {
        return Err(n.error);
      }
      WrittenKeepsTable(before.data, before.table, Complete(rrset.name, origin).value, origin, b);
      var tooBig := TrackSize(start, before);
      if tooBig {
        return Err(TooBig);
      }
      counts := counts[section := counts[section] + n.value];
      r := Ok(());
    }

    /** write_header, over the twelve octets left for it; a count that does not fit in
        sixteen bits cannot be packed, and then the file is left at its start. */
    method WriteHeader() returns (ok: bool)
      requires Valid()
      modifies output
      ensures ok <==> Packable(counts)
      ensures ok ==> Valid() && (old(InLimit()) ==> InLimit())
      ensures ok ==> output.data == HeaderBytes(id, flags, counts) + old(output.data)[HEADER_SIZE..]
      ensures !ok ==> output.data == old(output.data) && output.pos == 0
    {
      hide TableOk, Spelled, HeaderBytes;
      output.Seek(0);
      if exists i :: 0 <= i < 4 && counts[i] >= 0x1_0000 {
        return false;
      }
      var header := HeaderBytes(id, flags, counts);
      output.Write(header);
      output.SeekEnd();
      assert output.data == header + old(output.data)[HEADER_SIZE..];
      TableKept(old(output.data), output.data, HEADER_SIZE, compress.entries);
      ok := true;
    }

    /** reserve and release_reserved: set octets aside and give them back. */
    method Reserve(size: int) returns (ok: bool)
      requires Valid()
      modifies this`reserved, this`maxSize
      ensures Valid() && ok == (0 <= size <= old(maxSize)) && (old(InLimit()) ==> InLimit())
      ensures ok ==> reserved == old(reserved) + size && maxSize == old(maxSize) - size
      ensures !ok ==> reserved == old(reserved) && maxSize == old(maxSize)
    {
      if size < 0 || size > maxSize {
        return false;
      }
      reserved := reserved + size;
      maxSize := maxSize - size;
      ok := true;
    }

    method ReleaseReserved()
      requires Valid()
      modifies this`reserved, this`maxSize
      ensures Valid() && reserved == 0 && maxSize == old(maxSize) + old(reserved) && (old(InLimit()) ==> InLimit())
    {
      maxSize := maxSize + reserved;
      reserved := 0;
    }
  }
}
