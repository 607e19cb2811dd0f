/** Building a message within a size limit (dns/renderer.py, dns/rdataset.py): each add
    either takes effect in full or, when the result would be too big, is undone. */
module Rendering {
  import opened Common
  import opened Names
  import opened NameWire
  import opened Wire
  import opened Records

  const HEADER_SIZE := 12
  const QUESTION := 0
  const ANSWER := 1
  const AUTHORITY := 2
  const ADDITIONAL := 3

  datatype RRset = RRset(name: Name, rdclass: U16, rdtype: U16, covers: U16, deleting: Option<U16>, ttl: U32,
                         items: seq<Rdata>)
  {
    /** Names are valid, though they may be relative, and rdata has the layout of its type. */
    predicate Valid() {
      ValidName(name) && forall i :: 0 <= i < |items| ==> NamedRdata(items[i])
    }
  }

  predicate NamedRdata(rd: Rdata) {
    forall i :: 0 <= i < |rd| && rd[i].NameItem? ==> ValidName(rd[i].name)
  }

  predicate ValidOrigin(origin: Option<Name>) {
    origin.Some? ==> ValidName(origin.value)
  }

  datatype RenderError =
    | SectionOrder | BadOwner(error: NameError) | BadRdata(error: NameError) | AssertionFailed | TooBig

  // ---------------------------------------------------------------- completing names

  function CompleteItem(item: Item, origin: Option<Name>): (r: Result<Item, NameError>)
    requires (item.NameItem? ==> ValidName(item.name)) && ValidOrigin(origin)
    ensures r.Ok? ==> WritableItem(r.value)
    ensures WritableItem(item) ==> r == Ok(item)
  {
    if item.Octets? then Ok(item)
    else
      var n := Complete(item.name, origin);
      if n.Ok? then Ok(NameItem(n.value)) else Err(n.error)
  }

  function CompleteRdata(rd: Rdata, origin: Option<Name>): (r: Result<Rdata, NameError>)
    requires NamedRdata(rd) && ValidOrigin(origin)
    ensures r.Ok? ==> Writable(r.value) && |r.value| == |rd|
    ensures Writable(rd) ==> r == Ok(rd)
    decreases |rd|
  {
    if rd == [] then Ok([])
    else
      assert Writable(rd) ==> Writable(rd[1..]);
      var first := CompleteItem(rd[0], origin);
      if first.Err? then Err(first.error)
      else
        var rest := CompleteRdata(rd[1..], origin);
        assert rd == [rd[0]] + rd[1..];
        if rest.Err? then rest else Ok([first.value] + rest.value)
  }

  // ---------------------------------------------------------------- a set of records

  /** The loop of Rdataset.to_wire: a record like `proto` for each rdata in turn, stopping
      at the first that cannot be written. */
  function EmitEach(data: Bytes, table: Table, proto: Record, order: seq<Rdata>, origin: Option<Name>)
    : (r: Result<(Bytes, Table), RenderError>)
    requires proto.Valid() && ValidOrigin(origin) && (forall i :: 0 <= i < |order| ==> NamedRdata(order[i]))
    ensures r.Ok? ==> data <= r.value.0 && |r.value.0| >= |data| + 11 * |order|
    ensures r.Err? ==> r.error.BadRdata? || r.error.AssertionFailed?
    decreases |order|
  {
    if order == [] then Ok((data, table))
    else
      var rd := CompleteRdata(order[0], origin);
      if rd.Err? then Err(BadRdata(rd.error))
      else
        var out := EmitRecord(data, table, proto.(rdata := rd.value));
        if out.Oversize? then Err(AssertionFailed) else EmitEach(out.data, out.table, proto, order[1..], origin)
  }

  /** RRset.to_wire for a set whose owner name is `owner`, its rdata in the order the
      shuffle left them; an empty set gives one record without rdata or TTL. */
  function EmitSet(data: Bytes, table: Table, owner: Name, rrset: RRset, order: seq<Rdata>, origin: Option<Name>)
    : (r: Result<(Bytes, Table), RenderError>)
    requires ValidName(owner) && IsAbsolute(owner) && ValidOrigin(origin)
    requires forall i :: 0 <= i < |order| ==> NamedRdata(order[i])
    ensures r.Ok? ==> data <= r.value.0 && |r.value.0| >= |data| + 11 * RecordCount(order)
    ensures r.Err? ==> r.error.BadRdata? || r.error.AssertionFailed?
  {
    if order == [] then EmitEach(data, table, Proto(owner, rrset, 0), [[]], origin)
    else EmitEach(data, table, Proto(owner, rrset, rrset.ttl), order, origin)
  }

  function RecordCount(order: seq<Rdata>): nat {
    if order == [] then 1 else |order|
  }

  function Proto(owner: Name, rrset: RRset, ttl: U32): Record {
    Record(owner, rrset.rdtype, if rrset.deleting.Some? then rrset.deleting.value else rrset.rdclass, ttl, [])
  }

  // ---------------------------------------------------------------- the value-level account

  /** What a renderer has accumulated: its buffer, its table and its section counts. */
  datatype State = State(data: Bytes, table: Table, counts: seq<nat>)
  {
    ghost predicate Valid() {
      |counts| == 4 && |data| >= HEADER_SIZE && TableOk(data, HEADER_SIZE, table)
    }
  }

  datatype Block =
    | Question(name: Name, rdtype: U16, rdclass: U16)
    | Answers(section: nat, rrset: RRset, order: seq<Rdata>)
  {
    predicate Valid() {
      match this
      case Question(name, _, _) => ValidName(name)
      case Answers(section, rrset, order) =>
        1 <= section < 4 && rrset.Valid() && forall i :: 0 <= i < |order| ==> NamedRdata(order[i])
    }

    function Owner(): Name {
      if Question? then name else rrset.name
    }

    function Section(): nat {
      if Question? then QUESTION else section
    }

    function Count(): nat {
      if Question? then 1 else RecordCount(order)
    }

    /** What the add writes, whatever its size. */
    function Written(data: Bytes, table: Table, owner: Name, origin: Option<Name>)
      : (r: Result<(Bytes, Table), RenderError>)
      requires Valid() && ValidName(owner) && IsAbsolute(owner) && ValidOrigin(origin)
      ensures r.Ok? ==> data <= r.value.0 && |r.value.0| >= |data| + 5 * Count()
      ensures r.Err? ==> r.error.BadRdata? || r.error.AssertionFailed?
    {
      match this
      case Question(_, rdtype, rdclass) =>
        var out := Emit(data, Some(table), owner, false);
        EmitNonEmpty(data, Some(table), owner, false);
        Ok((out.0 + (Pack16(rdtype) + Pack16(rdclass)), out.1.value))
      case Answers(_, rrset, order) => EmitSet(data, table, owner, rrset, order, origin)
    }
  }

  predicate ValidBlocks(bs: seq<Block>) {
    forall i :: 0 <= i < |bs| ==> bs[i].Valid()
  }

  /** One add under a size limit: all of it or none of it. */
  function AddBlock(s: State, maxSize: int, origin: Option<Name>, b: Block): (r: Result<State, RenderError>)
    requires b.Valid() && |s.counts| == 4 && ValidOrigin(origin)
    ensures r.Ok? ==> |r.value.counts| == 4 && s.data <= r.value.data && |r.value.data| <= maxSize
  {
    var owner := Complete(b.Owner(), origin);
    if owner.Err? then Err(BadOwner(owner.error))
    else
      var out := b.Written(s.data, s.table, owner.value, origin);
      if out.Err? then Err(out.error)
      else if |out.value.0| > maxSize then Err(TooBig)
      else Ok(State(out.value.0, out.value.1, s.counts[b.Section() := s.counts[b.Section()] + b.Count()]))
  }

  lemma {:induction false} EachTable(floor: nat, data: Bytes, table: Table, proto: Record, order: seq<Rdata>,
                                     origin: Option<Name>)
    requires floor <= |data| && proto.Valid() && ValidOrigin(origin) && TableOk(data, floor, table)
    requires forall i :: 0 <= i < |order| ==> NamedRdata(order[i])
    requires EmitEach(data, table, proto, order, origin).Ok?
    ensures var out := EmitEach(data, table, proto, order, origin).value;
            TableOk(out.0, floor, out.1) && Extends(floor, data, table, out.0, out.1)
    decreases |order|
  {
    hide Emit, EmitItems, Spelled, EmitRecord;
    if order != [] {
      var rr := proto.(rdata := CompleteRdata(order[0], origin).value);
      var first := EmitRecord(data, table, rr);
      RecordTable(floor, data, table, rr);
      EachTable(floor, first.data, first.table, proto, order[1..], origin);
      var out := EmitEach(first.data, first.table, proto, order[1..], origin).value;
      ExtendsTrans(floor, data, table, first.data, first.table, out.0, out.1);
    }
  }

  /** Whatever is added, every table entry still leads to its key, and the entries added
      all point into what was added. */
  lemma WrittenKeepsTable(data: Bytes, table: Table, owner: Name, origin: Option<Name>, b: Block)
    requires |data| >= HEADER_SIZE && TableOk(data, HEADER_SIZE, table)
    requires b.Valid() && ValidName(owner) && IsAbsolute(owner) && ValidOrigin(origin)
    requires b.Written(data, table, owner, origin).Ok?
    ensures var out := b.Written(data, table, owner, origin).value;
            TableOk(out.0, HEADER_SIZE, out.1) && Extends(HEADER_SIZE, data, table, out.0, out.1)
  {
    hide Emit, EmitEach;
    match b {
      case Question(_, rdtype, rdclass) =>
        NameRoundTrip(HEADER_SIZE, data, Some(table), owner, false);
        var name := Emit(data, Some(table), owner, false);
        var out := b.Written(data, table, owner, origin).value;
        TableKept(name.0, out.0, HEADER_SIZE, name.1.value);
        assert Extends(HEADER_SIZE, name.0, name.1.value, out.0, out.1);
        ExtendsTrans(HEADER_SIZE, data, table, name.0, name.1.value, out.0, out.1);
      case Answers(_, rrset, order) =>
        if order == [] {
          EachTable(HEADER_SIZE, data, table, Proto(owner, rrset, 0), [[]], origin);
        } else {
          EachTable(HEADER_SIZE, data, table, Proto(owner, rrset, rrset.ttl), order, origin);
        }
    }
  }

  // ---------------------------------------------------------------- what a failed add leaves behind

  /** The fields up to one that cannot be completed; all of them if there is none. */
  function FieldsLeft(data: Bytes, table: Option<Table>, rd: Rdata, origin: Option<Name>): (r: (Bytes, Option<Table>))
    requires NamedRdata(rd) && ValidOrigin(origin)
    ensures data <= r.0 && r.1.Some? == table.Some?
    decreases |rd|
  {
    if rd == [] then (data, table)
    else
      var first := CompleteItem(rd[0], origin);
      if first.Err? then (data, table)
      else
        var out := EmitItem(data, table, first.value, false);
        FieldsLeft(out.0, out.1, rd[1..], origin)
  }

  /** A record that could not be finished: its owner, its fixed part with a length of zero,
      and the fields written. */
  function RecordLeft(data: Bytes, table: Table, proto: Record, rd: Rdata, origin: Option<Name>): (r: (Bytes, Table))
    requires proto.Valid() && NamedRdata(rd) && ValidOrigin(origin)
    ensures data <= r.0
  {
    var owner := Emit(data, Some(table), proto.name, false);
    var out := FieldsLeft(Head(owner.0, proto, 0), owner.1, rd, origin);
    (out.0, out.1.value)
  }

  /** Where the loop over a set's rdata leaves buffer and table, at its end or at a record that
      cannot be finished. */
  function EachLeft(data: Bytes, table: Table, proto: Record, order: seq<Rdata>, origin: Option<Name>)
    : (r: (Bytes, Table))
    requires proto.Valid() && ValidOrigin(origin) && (forall i :: 0 <= i < |order| ==> NamedRdata(order[i]))
    ensures data <= r.0
    decreases |order|
  {
    if order == [] then (data, table)
    else
      var rd := CompleteRdata(order[0], origin);
      if rd.Err? then RecordLeft(data, table, proto, order[0], origin)
      else
        var out := EmitRecord(data, table, proto.(rdata := rd.value));
        if out.Oversize? then RecordLeft(data, table, proto, order[0], origin)
        else EachLeft(out.data, out.table, proto, order[1..], origin)
  }

  function SetLeft(data: Bytes, table: Table, owner: Name, rrset: RRset, order: seq<Rdata>, origin: Option<Name>)
    : (r: (Bytes, Table))
    requires ValidName(owner) && IsAbsolute(owner) && ValidOrigin(origin)
    requires forall i :: 0 <= i < |order| ==> NamedRdata(order[i])
    ensures data <= r.0
  {
    if order == [] then EachLeft(data, table, Proto(owner, rrset, 0), [[]], origin)
    else EachLeft(data, table, Proto(owner, rrset, rrset.ttl), order, origin)
  }

  /** The add fails over rdata: it holds a relative name and there is no origin for it, or it
      comes to 64 KiB.  This alone is not undone. */
  predicate Unwritable(r: Result<State, RenderError>) {
    r.Err? && (r.error.BadRdata? || r.error.AssertionFailed?)
  }

  /** The state after one add, whatever came of it. */
  function AddLeft(s: State, maxSize: int, origin: Option<Name>, b: Block): (r: State)
    requires b.Valid() && |s.counts| == 4 && ValidOrigin(origin)
    ensures |r.counts| == 4 && s.data <= r.data
  {
    var added := AddBlock(s, maxSize, origin, b);
    if added.Ok? then added.value
    else if Unwritable(added) && b.Answers? then
      var left := SetLeft(s.data, s.table, Complete(b.Owner(), origin).value, b.rrset, b.order, origin);
      State(left.0, left.1, s.counts)
    else s
  }

  lemma {:induction false} FieldsLeftOk(data: Bytes, table: Option<Table>, rd: Rdata, origin: Option<Name>)
    requires NamedRdata(rd) && ValidOrigin(origin) && CompleteRdata(rd, origin).Ok?
    ensures FieldsLeft(data, table, rd, origin) == EmitItems(data, table, CompleteRdata(rd, origin).value, false)
    decreases |rd|
  {
    hide EmitItem, CompleteItem;
    if rd != [] {
      var whole := CompleteRdata(rd, origin).value;
      var out := EmitItem(data, table, whole[0], false);
      FieldsLeftOk(out.0, out.1, rd[1..], origin);
      assert whole[1..] == CompleteRdata(rd[1..], origin).value;
    }
  }

  lemma {:induction false} EachLeftOk(data: Bytes, table: Table, proto: Record, order: seq<Rdata>, origin: Option<Name>)
    requires proto.Valid() && ValidOrigin(origin) && (forall i :: 0 <= i < |order| ==> NamedRdata(order[i]))
    requires EmitEach(data, table, proto, order, origin).Ok?
    ensures EachLeft(data, table, proto, order, origin) == EmitEach(data, table, proto, order, origin).value
    decreases |order|
  {
    hide EmitRecord, CompleteRdata, RecordLeft;
    if order != [] {
      var out := EmitRecord(data, table, proto.(rdata := CompleteRdata(order[0], origin).value));
      EachLeftOk(out.data, out.table, proto, order[1..], origin);
    }
  }

  // ---------------------------------------------------------------- what is left keeps the table

  lemma {:induction false} FieldsLeftTable(floor: nat, data: Bytes, table: Table, rd: Rdata, origin: Option<Name>)
    requires floor <= |data| && NamedRdata(rd) && ValidOrigin(origin) && TableOk(data, floor, table)
    ensures var out := FieldsLeft(data, Some(table), rd, origin);
            TableOk(out.0, floor, out.1.value) && Extends(floor, data, table, out.0, out.1.value)
    decreases |rd|
  {
    hide EmitItem, CompleteItem, Spelled;
    if rd != [] {
      var first := CompleteItem(rd[0], origin);
      if first.Ok? {
        var mid := EmitItem(data, Some(table), first.value, false);
        EmitItemTable(floor, data, Some(table), first.value, false);
        FieldsLeftTable(floor, mid.0, mid.1.value, rd[1..], origin);
        var out := FieldsLeft(mid.0, mid.1, rd[1..], origin);
        ExtendsTrans(floor, data, table, mid.0, mid.1.value, out.0, out.1.value);
      }
    }
  }

  lemma RecordLeftTable(floor: nat, data: Bytes, table: Table, proto: Record, rd: Rdata, origin: Option<Name>)
    requires floor <= |data| && proto.Valid() && NamedRdata(rd) && ValidOrigin(origin) && TableOk(data, floor, table)
    ensures var out := RecordLeft(data, table, proto, rd, origin);
            TableOk(out.0, floor, out.1) && Extends(floor, data, table, out.0, out.1)
  {
    hide Emit, Spelled, TableOk, Extends, FieldsLeft, FixedPart;
    var owner := Emit(data, Some(table), proto.name, false);
    NameRoundTrip(floor, data, Some(table), proto.name, false);
    assert data <= owner.0;
    var start := Head(owner.0, proto, 0);
    TableKept(owner.0, start, floor, owner.1.value);
    FieldsLeftTable(floor, start, owner.1.value, rd, origin);
    var out := RecordLeft(data, table, proto, rd, origin);
    ExtendsOctets(floor, data, table, owner.0, owner.1.value, start, out.0, out.1);
  }

  lemma {:induction false} EachLeftTable(floor: nat, data: Bytes, table: Table, proto: Record, order: seq<Rdata>,
                                         origin: Option<Name>)
    requires floor <= |data| && proto.Valid() && ValidOrigin(origin) && TableOk(data, floor, table)
    requires forall i :: 0 <= i < |order| ==> NamedRdata(order[i])
    ensures var out := EachLeft(data, table, proto, order, origin);
            TableOk(out.0, floor, out.1) && Extends(floor, data, table, out.0, out.1)
    decreases |order|
  {
    hide Emit, EmitItems, Spelled, EmitRecord, RecordLeft, CompleteRdata;
    if order != [] {
      var rd := CompleteRdata(order[0], origin);
      RecordLeftTable(floor, data, table, proto, order[0], origin);
      if rd.Ok? {
        var rr := proto.(rdata := rd.value);
        var first := EmitRecord(data, table, rr);
        if first.Done? {
          RecordTable(floor, data, table, rr);
          EachLeftTable(floor, first.data, first.table, proto, order[1..], origin);
          var out := EachLeft(first.data, first.table, proto, order[1..], origin);
          ExtendsTrans(floor, data, table, first.data, first.table, out.0, out.1);
        }
      }
    }
  }

  /** One add, whatever came of it: what was written before stays, and every entry of the
      table leads to its key. */
  lemma AddLeftValid(s: State, maxSize: int, origin: Option<Name>, b: Block)
    requires s.Valid() && b.Valid() && ValidOrigin(origin)
    ensures AddLeft(s, maxSize, origin, b).Valid() && s.data <= AddLeft(s, maxSize, origin, b).data
  {
    hide Emit, EmitEach, EachLeft, Spelled, TableOk;
    var added := AddBlock(s, maxSize, origin, b);
    if added.Ok? {
      WrittenKeepsTable(s.data, s.table, Complete(b.Owner(), origin).value, origin, b);
    } else if Unwritable(added) && b.Answers? {
      var owner := Complete(b.Owner(), origin).value;
      if b.order == [] {
        EachLeftTable(HEADER_SIZE, s.data, s.table, Proto(owner, b.rrset, 0), [[]], origin);
      } else {
        EachLeftTable(HEADER_SIZE, s.data, s.table, Proto(owner, b.rrset, b.rrset.ttl), b.order, origin);
      }
    }
  }

  // ---------------------------------------------------------------- the objects

  /** One field more, or the one that cannot be completed. */
  lemma FieldStep(data: Bytes, table: Option<Table>, rd: Rdata, origin: Option<Name>)
    requires NamedRdata(rd) && ValidOrigin(origin) && rd != []
    ensures NamedRdata(rd[1..])
    ensures var first, rest := CompleteItem(rd[0], origin), CompleteRdata(rd[1..], origin);
            if first.Err? then
              CompleteRdata(rd, origin) == Err(first.error) && FieldsLeft(data, table, rd, origin) == (data, table)
            else
              var out := EmitItem(data, table, first.value, false);
              && FieldsLeft(data, table, rd, origin) == FieldsLeft(out.0, out.1, rd[1..], origin)
              && (CompleteRdata(rd, origin).Ok? <==> rest.Ok?) && (rest.Err? ==> CompleteRdata(rd, origin) == rest)
  {
    hide EmitItem, CompleteItem;
  }

  /** rd.to_wire: the fields of one rdata, up to one that cannot be completed. */
  method FieldsToWire(rd: Rdata, file: File, compress: Compression, origin: Option<Name>)
    returns (r: Result<(), NameError>)
    requires NamedRdata(rd) && ValidOrigin(origin) && file.AtEnd()
    modifies file, compress
    ensures file.AtEnd()
    ensures r == if CompleteRdata(rd, origin).Ok? then Ok(()) else Err(CompleteRdata(rd, origin).error)
    ensures (file.data, Some(compress.entries)) == FieldsLeft(old(file.data), Some(old(compress.entries)), rd, origin)
  {
    hide Emit, Complete, FieldsLeft, CompleteRdata, NamedRdata;
    ghost var whole := CompleteRdata(rd, origin);
    ghost var final := FieldsLeft(file.data, Some(compress.entries), rd, origin);
    assert rd[0..] == rd;
    var i := 0;
    while i < |rd|
      invariant 0 <= i <= |rd| && file.AtEnd() && NamedRdata(rd[i..])
      invariant CompleteRdata(rd[i..], origin).Ok? <==> whole.Ok?
      invariant whole.Err? ==> CompleteRdata(rd[i..], origin) == whole
      invariant FieldsLeft(file.data, Some(compress.entries), rd[i..], origin) == final
    {
      assert rd[i..][0] == rd[i] && rd[i..][1..] == rd[i + 1..];
      FieldStep(file.data, Some(compress.entries), rd[i..], origin);
      ItemNamed(rd, i);
      if rd[i].NameItem? {
        var named := NameToWire(rd[i].name, file, compress, origin, false);
        if named.Err? {
          return Err(named.error);
        }
      } else {
        file.Write(rd[i].bytes);
      }
      i := i + 1;
    }
    NoFields(file.data, Some(compress.entries), rd[i..], origin);
    r := Ok(());
  }

  lemma ItemNamed(rd: Rdata, i: nat)
    requires NamedRdata(rd) && i < |rd|
    ensures rd[i].NameItem? ==> ValidName(rd[i].name)
  {
  }

  lemma NoFields(data: Bytes, table: Option<Table>, rd: Rdata, origin: Option<Name>)
    requires rd == [] && ValidOrigin(origin)
    ensures NamedRdata(rd) && FieldsLeft(data, table, rd, origin) == (data, table) && CompleteRdata(rd, origin).Ok?
  {
  }

  /** What follows the owner name: the fixed part with a length of zero, the rdata, and then
      the length over the two octets left for it; a length that does not fit, or rdata that
      cannot be completed, leaves the zero and what was written after it. */
  method BodyToWire(rdtype: U16, rdclass: U16, ttl: U32, rd: Rdata, file: File, compress: Compression,
                    origin: Option<Name>)
    returns (r: Result<(), RenderError>)
    requires NamedRdata(rd) && ValidOrigin(origin) && file.AtEnd()
    modifies file, compress
    ensures file.AtEnd()
    ensures CompleteRdata(rd, origin).Err? ==> r == Err(BadRdata(CompleteRdata(rd, origin).error))
    ensures CompleteRdata(rd, origin).Ok? ==>
      var rr := Record([], rdtype, rdclass, ttl, CompleteRdata(rd, origin).value);
      var rdlen := RdLength(old(file.data), Some(old(compress.entries)), rr);
      && (rdlen >= 0x1_0000 ==> r == Err(AssertionFailed))
      && (rdlen < 0x1_0000 ==>
            && r == Ok(())
            && (file.data, Some(compress.entries)) ==
               EmitItems(Head(old(file.data), rr, rdlen), Some(old(compress.entries)), rr.rdata, false))
    ensures r.Err? ==>
      (file.data, Some(compress.entries))
      == FieldsLeft(Head(old(file.data), Record([], rdtype, rdclass, ttl, []), 0), Some(old(compress.entries)), rd,
                    origin)
  {
    hide EmitItems, FixedPart, Complete, Pack16, CompleteRdata, FieldsLeft;
    ghost var owner := file.data;
    ghost var table := compress.entries;
    file.Write(FixedPart(rdtype, rdclass, ttl, 0));
    var start := file.pos;
    assert file.data == Head(owner, Record([], rdtype, rdclass, ttl, []), 0);
    var fields := FieldsToWire(rd, file, compress, origin);
    if fields.Err? {
      return Err(BadRdata(fields.error));
    }
    ghost var rr := Record([], rdtype, rdclass, ttl, CompleteRdata(rd, origin).value);
    FieldsLeftOk(Head(owner, rr, 0), Some(table), rd, origin);
    assert owner + FixedPart(rdtype, rdclass, ttl, 0) == Head(owner, rr, 0);
    var end := file.pos;
    assert end - start == RdLength(owner, Some(table), rr);
    if end - start >= 0x1_0000 {
      return Err(AssertionFailed);
    }
    PatchedLength(owner, Some(table), rr);
    ghost var placeholder := file.data;
    file.Seek(start - 2);
    file.Write(Pack16(end - start));
    assert file.data == placeholder[..|owner| + 8] + Pack16(end - start) + placeholder[|owner| + 10..];
    file.SeekEnd();
    r := Ok(());
  }

  /** One pass of the loop in Rdataset.to_wire. */
  method RecordToWire(name: Name, rdtype: U16, rdclass: U16, ttl: U32, rd: Rdata,
                      file: File, compress: Compression, origin: Option<Name>)
    returns (r: Result<(), RenderError>)
    requires ValidName(name) && NamedRdata(rd) && ValidOrigin(origin) && file.AtEnd()
    modifies file, compress
    ensures file.AtEnd()
    ensures Complete(name, origin).Err? ==>
      && r == Err(BadOwner(Complete(name, origin).error))
      && file.data == old(file.data) && compress.entries == old(compress.entries)
    ensures Complete(name, origin).Ok? && CompleteRdata(rd, origin).Err? ==>
      r == Err(BadRdata(CompleteRdata(rd, origin).error))
    ensures Complete(name, origin).Ok? && CompleteRdata(rd, origin).Ok? ==>
      var rr := Record(Complete(name, origin).value, rdtype, rdclass, ttl, CompleteRdata(rd, origin).value);
      var out := EmitRecord(old(file.data), old(compress.entries), rr);
      && (out.Oversize? ==> r == Err(AssertionFailed))
      && (out.Done? ==> r == Ok(()) && file.data == out.data && compress.entries == out.table)
    ensures Complete(name, origin).Ok? && r.Err? ==>
      var proto := Record(Complete(name, origin).value, rdtype, rdclass, ttl, []);
      (file.data, compress.entries) == RecordLeft(old(file.data), old(compress.entries), proto, rd, origin)
  {
    hide Emit, EmitItems, FixedPart, Complete, CompleteRdata, FieldsLeft;
    var named := NameToWire(name, file, compress, origin, false);
    if named.Err? {
      return Err(BadOwner(named.error));
    }
    r := BodyToWire(rdtype, rdclass, ttl, rd, file, compress, origin);
  }

  /** The loop of Rdataset.to_wire. */
  method EachToWire(name: Name, rrset: RRset, ttl: U32, order: seq<Rdata>, file: File, compress: Compression,
                    origin: Option<Name>)
    returns (r: Result<(), RenderError>)
    requires ValidName(name) && ValidOrigin(origin) && file.AtEnd() && order != []
    requires forall i :: 0 <= i < |order| ==> NamedRdata(order[i])
    modifies file, compress
    ensures file.AtEnd()
    ensures Complete(name, origin).Err? ==>
      && r == Err(BadOwner(Complete(name, origin).error))
      && file.data == old(file.data) && compress.entries == old(compress.entries)
    ensures Complete(name, origin).Ok? ==>
      var proto := Proto(Complete(name, origin).value, rrset, ttl);
      var out := EmitEach(old(file.data), old(compress.entries), proto, order, origin);
      && r == (if out.Ok? then Ok(()) else Err(out.error))
      && (file.data, compress.entries) == EachLeft(old(file.data), old(compress.entries), proto, order, origin)
  {
    hide EmitRecord, Complete, CompleteRdata, RecordLeft;
    ghost var owner := Complete(name, origin);
    ghost var proto := if owner.Ok? then Proto(owner.value, rrset, ttl) else Record([], 0, 0, 0, []);
    ghost var final :=
      if owner.Ok? then EmitEach(file.data, compress.entries, proto, order, origin) else Err(BadOwner(owner.error));
    ghost var left := if owner.Ok? then EachLeft(file.data, compress.entries, proto, order, origin) else ([], map[]);
    var rdclass := if rrset.deleting.Some? then rrset.deleting.value else rrset.rdclass;
    assert order[0..] == order;
    var i := 0;
    while i < |order|
      invariant 0 <= i <= |order| && file.AtEnd()
      invariant i > 0 ==> owner.Ok?
      invariant i == 0 ==> file.data == old(file.data) && compress.entries == old(compress.entries)
      invariant owner.Ok? ==> EmitResult(EmitEach(file.data, compress.entries, proto, order[i..], origin), final)
      invariant owner.Ok? ==> EachLeft(file.data, compress.entries, proto, order[i..], origin) == left
    {
      assert order[i..][0] == order[i] && order[i..][1..] == order[i + 1..];
      var one := RecordToWire(name, rrset.rdtype, rdclass, ttl, order[i], file, compress, origin);
      if one.Err? {
        return Err(one.error);
      }
      i := i + 1;
    }
    r := Ok(());
  }

  predicate EmitResult(a: Result<(Bytes, Table), RenderError>, b: Result<(Bytes, Table), RenderError>) {
    a.Ok? == b.Ok? && (a.Err? ==> a == b)
  }

  /** RRset.to_wire. */
  method RRsetToWire(rrset: RRset, order: seq<Rdata>, file: File, compress: Compression, origin: Option<Name>)
    returns (r: Result<nat, RenderError>)
    requires rrset.Valid() && ValidOrigin(origin) && file.Valid()
    requires forall i :: 0 <= i < |order| ==> NamedRdata(order[i])
    modifies file, compress
    ensures file.AtEnd()
    ensures Complete(rrset.name, origin).Err? ==>
      && r == Err(BadOwner(Complete(rrset.name, origin).error))
      && file.data == old(file.data) && compress.entries == old(compress.entries)
    ensures Complete(rrset.name, origin).Ok? ==>
      var owner := Complete(rrset.name, origin).value;
      var out := EmitSet(old(file.data), old(compress.entries), owner, rrset, order, origin);
      && r == (if out.Ok? then Ok(RecordCount(order)) else Err(out.error))
      && (out.Ok? ==> (file.data, compress.entries) == out.value)
      && (file.data, compress.entries) == SetLeft(old(file.data), old(compress.entries), owner, rrset, order, origin)
  {
    hide EmitEach, EachLeft, Complete;
    ghost var data, table := file.data, compress.entries;
    file.SeekEnd();
    var each;
    if |order| == 0 {
      each := EachToWire(rrset.name, rrset, 0, [[]], file, compress, origin);
    } else {
      each := EachToWire(rrset.name, rrset, rrset.ttl, order, file, compress, origin);
    }
    if each.Ok? {
      SetLeftOk(data, table, Complete(rrset.name, origin).value, rrset, order, origin);
    }
    r := if each.Err? then Err(each.error) else Ok(RecordCount(order));
  }

  lemma SetLeftOk(data: Bytes, table: Table, owner: Name, rrset: RRset, order: seq<Rdata>, origin: Option<Name>)
    requires ValidName(owner) && IsAbsolute(owner) && ValidOrigin(origin)
    requires forall i :: 0 <= i < |order| ==> NamedRdata(order[i])
    requires EmitSet(data, table, owner, rrset, order, origin).Ok?
    ensures SetLeft(data, table, owner, rrset, order, origin) == EmitSet(data, table, owner, rrset, order, origin).value
  {
    hide EmitEach, EachLeft;
    if order == [] {
      EachLeftOk(data, table, Proto(owner, rrset, 0), [[]], origin);
    } else {
      EachLeftOk(data, table, Proto(owner, rrset, rrset.ttl), order, origin);
    }
  }
}
