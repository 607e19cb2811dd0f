/** Resource records on the wire: rdata whose names may be compressed, the RDLENGTH that
    is filled in afterwards (dns/rdataset.py), and reading a record back (dns/message.py). */
module Records {
  import opened Common
  import opened Names
  import opened NameWire

  /** Rdata as the fields its type writes. */
  type Rdata = seq<Item>

  datatype Kind = NameField | FixedField(size: nat) | RestField

  const NS: U16 := 2
  const CNAME: U16 := 5
  const SOA: U16 := 6
  const PTR: U16 := 12
  const MX: U16 := 15
  const SIG: U16 := 24
  const NXT: U16 := 30
  const DNAME: U16 := 39
  const OPT: U16 := 41
  const RRSIG: U16 := 46
  const NSEC: U16 := 47
  const TSIG: U16 := 250

  /** Types of which a set holds at most one rdata. */
  predicate Singleton(rdtype: U16) {
    rdtype == SOA || rdtype == NXT || rdtype == DNAME || rdtype == NSEC || rdtype == CNAME
  }

  /** The wire layout of the types whose names are compressed, and of RRSIG, whose first
      field says which type it covers; every other type is carried as plain octets. */
  function Layout(rdtype: U16): seq<Kind> {
    if rdtype == NS || rdtype == CNAME || rdtype == PTR then [NameField]
    else if rdtype == MX then [FixedField(2), NameField]
    else if rdtype == SOA then [NameField, NameField, FixedField(20)]
    else if rdtype == RRSIG then [FixedField(18), RestField]
    else [RestField]
  }

  predicate FitsKind(item: Item, kind: Kind) {
    match kind
    case NameField => item.NameItem? && WritableItem(item)
    case FixedField(size) => item.Octets? && |item.bytes| == size
    case RestField => item.Octets?
  }

  predicate Fits(rd: Rdata, kinds: seq<Kind>) {
    |rd| == |kinds| && forall i :: 0 <= i < |rd| ==> FitsKind(rd[i], kinds[i])
  }

  /** A field that takes the rest of the rdata can only come last. */
  predicate RestLast(kinds: seq<Kind>) {
    forall i :: 0 <= i < |kinds| - 1 ==> !kinds[i].RestField?
  }

  predicate ValidRdata(rdtype: U16, rd: Rdata) {
    Fits(rd, Layout(rdtype))
  }

  /** The digestable form, by which rdata compare: uncompressed, names in lower case. */
  function Digest(rd: Rdata): Bytes
    requires Writable(rd)
  {
    EmitItems([], None, rd, true).0
  }

  /** Rdata.covers(): the type an RRSIG covers, NONE for any other type. */
  function Covers(rdtype: U16, rd: Rdata): U16 {
    if rdtype == RRSIG && |rd| > 0 && rd[0].Octets? && |rd[0].bytes| >= 2
    then Unpack16(rd[0].bytes[..2]) else 0
  }

  predicate SameItem(a: Item, b: Item) {
    match a
    case NameItem(n) => b.NameItem? && SameName(n, b.name)
    case Octets(_) => a == b
  }

  /** Equal field by field, names ignoring case. */
  predicate SameRdata(a: Rdata, b: Rdata) {
    |a| == |b| && forall i :: 0 <= i < |a| ==> SameItem(a[i], b[i])
  }

  datatype Record = Record(name: Name, rdtype: U16, rdclass: U16, ttl: U32, rdata: Rdata)
  {
    predicate Valid() {
      ValidName(name) && IsAbsolute(name) && Writable(rdata)
    }
  }

  predicate SameRecord(a: Record, b: Record) {
    && SameName(a.name, b.name) && a.rdtype == b.rdtype && a.rdclass == b.rdclass && a.ttl == b.ttl
    && SameRdata(a.rdata, b.rdata)
  }

  // ---------------------------------------------------------------- writing

  /** Type, class, TTL and length: struct.pack("!HHIH", ...). */
  function FixedPart(rdtype: U16, rdclass: U16, ttl: U32, rdlen: U16): (r: Bytes)
    ensures |r| == 10
  {
    Pack16(rdtype) + Pack16(rdclass) + Pack32(ttl) + Pack16(rdlen)
  }

  datatype Emitted = Done(data: Bytes, table: Table) | Oversize

  /** The length the rdata of `rr` comes out at, written after `owner`. */
  function RdLength(owner: Bytes, table: Option<Table>, rr: Record): (n: nat)
    requires Writable(rr.rdata)
  {
    var start := owner + FixedPart(rr.rdtype, rr.rdclass, rr.ttl, 0);
    |EmitItems(start, table, rr.rdata, false).0| - |start|
  }

  function Head(owner: Bytes, rr: Record, rdlen: U16): (r: Bytes)
    ensures owner <= r && |r| == |owner| + 10
  {
    owner + FixedPart(rr.rdtype, rr.rdclass, rr.ttl, rdlen)
  }

  /** One record: owner name, fixed part and rdata, with the length of the rdata as it came
      out.  Rdata of 64 KiB or more trips the assertion in Rdataset.to_wire. */
  function EmitRecord(data: Bytes, table: Table, rr: Record): (r: Emitted)
    requires rr.Valid()
    ensures r.Done? ==> data <= r.data && |r.data| >= |data| + 11
  {
    var owner := Emit(data, Some(table), rr.name, false);
    EmitNonEmpty(data, Some(table), rr.name, false);
    var rdlen := RdLength(owner.0, owner.1, rr);
    if rdlen >= 0x1_0000 then Oversize
    else
      var out := EmitItems(Head(owner.0, rr, rdlen), owner.1, rr.rdata, false);
      Done(out.0, out.1.value)
  }

  lemma EmitNonEmpty(data: Bytes, table: Option<Table>, labels: Name, canonicalize: bool)
    requires ShortLabels(labels) && labels != []
    ensures |Emit(data, table, labels, canonicalize).0| > |data|
  {
  }

  function EmitRecords(data: Bytes, table: Table, rrs: seq<Record>): (r: Emitted)
    requires forall i :: 0 <= i < |rrs| ==> rrs[i].Valid()
    ensures r.Done? ==> data <= r.data && |r.data| >= |data| + 11 * |rrs|
    decreases |rrs|
  {
    if rrs == [] then Done(data, table)
    else
      var first := EmitRecord(data, table, rrs[0]);
      if first.Oversize? then Oversize else EmitRecords(first.data, first.table, rrs[1..])
  }

  // ---------------------------------------------------------------- reading

  /** The fields of rdata that ends where `data` ends. */
  function ReadFields(data: Bytes, pos: nat, kinds: seq<Kind>): (r: Result<(Rdata, nat), WireError>)
    requires pos <= |data|
    ensures r.Ok? ==> pos <= r.value.1 <= |data| && |r.value.0| == |kinds|
    decreases |kinds|
  {
    if kinds == [] then Ok(([], pos))
    else
      var first := ReadField(data, pos, kinds[0]);
      if first.Err? then Err(first.error)
      else
        var rest := ReadFields(data, first.value.1, kinds[1..]);
        if rest.Err? then rest else Ok(([first.value.0] + rest.value.0, rest.value.1))
  }

  function ReadField(data: Bytes, pos: nat, kind: Kind): (r: Result<(Item, nat), WireError>)
    requires pos <= |data|
    ensures r.Ok? ==> pos <= r.value.1 <= |data|
    ensures r.Ok? ==> FitsKind(r.value.0, kind)
  {
    match kind
    case NameField =>
      if pos == |data| then Err(FormError)
      else
        var d := ReadName(data, pos);
        if d.Good? then Ok((NameItem(d.labels), d.next)) else Err(d.error)
    case FixedField(size) =>
      if pos + size > |data| then Err(FormError) else Ok((Octets(data[pos..pos + size]), pos + size))
    case RestField => Ok((Octets(data[pos..]), |data|))
  }

  lemma {:induction false} ReadFieldsFit(data: Bytes, pos: nat, kinds: seq<Kind>)
    requires pos <= |data| && ReadFields(data, pos, kinds).Ok?
    ensures Fits(ReadFields(data, pos, kinds).value.0, kinds)
    decreases |kinds|
  {
    if kinds != [] {
      ReadFieldsFit(data, ReadField(data, pos, kinds[0]).value.1, kinds[1..]);
    }
  }

  /** The owner name and fixed part of a record, as a record still without rdata, and
      where that rdata begins. */
  function ReadHead(wire: Bytes, pos: nat): (r: Result<(Record, nat, U16), WireError>)
    requires pos <= |wire|
    ensures r.Ok? ==> pos < r.value.1 <= |wire| && r.value.0.Valid()
  {
    if pos == |wire| then Err(FormError)
    else
      var owner := ReadName(wire, pos);
      if owner.Bad? then Err(owner.error)
      else if owner.next + 10 > |wire| then Err(FormError)
      else
        var fixed := wire[owner.next..owner.next + 10];
        Ok((Record(owner.labels, Unpack16(fixed[..2]), Unpack16(fixed[2..4]), Unpack32(fixed[4..8]), []),
            owner.next + 10, Unpack16(fixed[8..])))
  }

  /** One record from `pos`: _WireReader._get_section up to the insertion.  The rdata must
      fill exactly the length announced for it. */
  function ReadRecord(wire: Bytes, pos: nat): (r: Result<(Record, nat), WireError>)
    requires pos <= |wire|
    ensures r.Ok? ==> pos < r.value.1 <= |wire|
    ensures r.Ok? ==> r.value.0.Valid() && ValidRdata(r.value.0.rdtype, r.value.0.rdata)
  {
    var head := ReadHead(wire, pos);
    if head.Err? then Err(head.error)
    else
      var (rr, start, rdlen) := head.value;
      var end := start + rdlen;
      if end > |wire| then Err(FormError)
      else
        var fields := ReadFields(wire[..end], start, Layout(rr.rdtype));
        if fields.Err? then Err(fields.error)
        else if fields.value.1 != end then Err(FormError)
        else
          ReadFieldsFit(wire[..end], start, Layout(rr.rdtype));
          FitsWritable(fields.value.0, Layout(rr.rdtype));
          Ok((rr.(rdata := fields.value.0), end))
  }

  lemma FitsWritable(rd: Rdata, kinds: seq<Kind>)
    requires Fits(rd, kinds)
    ensures Writable(rd)
  {
    forall i | 0 <= i < |rd| ensures WritableItem(rd[i]) {
      assert FitsKind(rd[i], kinds[i]);
    }
  }

  // ---------------------------------------------------------------- round trip

  /** Rdata fields written with a shared table read back, names up to case, and reading
      them ends where writing them ended. */
  lemma {:induction false} FieldsRoundTrip(data: Bytes, table: Option<Table>, rd: Rdata, kinds: seq<Kind>)
    requires table.Some? ==> TableOk(data, 0, table.value)
    requires Fits(rd, kinds) && RestLast(kinds) && Writable(rd)
    ensures var out := EmitItems(data, table, rd, false).0;
            var back := ReadFields(out, |data|, kinds);
            back.Ok? && back.value.1 == |out| && SameRdata(back.value.0, rd)
    decreases |rd|
  {
    hide ReadName, Emit, Spelled;
    if rd != [] {
      var first := EmitItem(data, table, rd[0], false);
      EmitItemTable(0, data, table, rd[0], false);
      FieldsRoundTrip(first.0, first.1, rd[1..], kinds[1..]);
      var out := EmitItems(first.0, first.1, rd[1..], false).0;
      FieldRoundTrip(data, table, rd[0], kinds[0], out, |kinds| == 1);
    }
  }

  lemma FieldRoundTrip(data: Bytes, table: Option<Table>, item: Item, kind: Kind, out: Bytes, last: bool)
    requires table.Some? ==> TableOk(data, 0, table.value)
    requires FitsKind(item, kind) && WritableItem(item)
    requires EmitItem(data, table, item, false).0 <= out
    requires kind.RestField? ==> out == EmitItem(data, table, item, false).0
    ensures var back := ReadField(out, |data|, kind);
            && back.Ok? && back.value.1 == |EmitItem(data, table, item, false).0|
            && SameItem(back.value.0, item)
  {
    var first := EmitItem(data, table, item, false).0;
    match kind {
      case NameField =>
        NameRoundTrip(0, data, table, item.name, false);
        ReadNameKept(0, first, out, |data|);
        EmitNonEmpty(data, table, item.name, false);
      case FixedField(size) => assert out[|data|..|first|] == item.bytes;
      case RestField => assert out[|data|..] == item.bytes;
    }
  }

  lemma FixedPartReads(rdtype: U16, rdclass: U16, ttl: U32, rdlen: U16)
    ensures var fixed := FixedPart(rdtype, rdclass, ttl, rdlen);
            && Unpack16(fixed[..2]) == rdtype && Unpack16(fixed[2..4]) == rdclass
            && Unpack32(fixed[4..8]) == ttl && Unpack16(fixed[8..]) == rdlen
  {
    var fixed := FixedPart(rdtype, rdclass, ttl, rdlen);
    assert fixed[..2] == Pack16(rdtype) && fixed[2..4] == Pack16(rdclass);
    assert fixed[4..8] == Pack32(ttl) && fixed[8..] == Pack16(rdlen);
    UnpackPack32(ttl);
  }

  lemma RdLengthKnown(owner: Bytes, table: Option<Table>, rr: Record)
    requires Writable(rr.rdata) && RdLength(owner, table, rr) < 0x1_0000
    ensures var rdlen := RdLength(owner, table, rr);
            |EmitItems(Head(owner, rr, rdlen), table, rr.rdata, false).0| == |owner| + 10 + rdlen
  {
    EmitItemsShift(Head(owner, rr, 0), Head(owner, rr, RdLength(owner, table, rr)), table, rr.rdata, false);
  }

  /** Writing a record keeps the table good. */
  lemma RecordTable(floor: nat, data: Bytes, table: Table, rr: Record)
    requires floor <= |data| && rr.Valid() && TableOk(data, floor, table) && EmitRecord(data, table, rr).Done?
    ensures var out := EmitRecord(data, table, rr);
            TableOk(out.data, floor, out.table) && Extends(floor, data, table, out.data, out.table)
  {
    hide ReadName, Emit, Spelled, TableOk, EmitItems, Extends, FixedPart;
    var out := EmitRecord(data, table, rr);
    var owner := Emit(data, Some(table), rr.name, false);
    NameRoundTrip(floor, data, Some(table), rr.name, false);
    var start := Head(owner.0, rr, RdLength(owner.0, owner.1, rr));
    TableKept(owner.0, start, floor, owner.1.value);
    EmitItemsTable(floor, start, owner.1, rr.rdata, false);
    ExtendsOctets(floor, data, table, owner.0, owner.1.value, start, out.data, out.table);
  }

  lemma HeadRoundTrip(data: Bytes, table: Table, rr: Record, rdlen: U16, wire: Bytes)
    requires rr.Valid() && TableOk(data, 0, table)
    requires Head(Emit(data, Some(table), rr.name, false).0, rr, rdlen) <= wire
    ensures var head := ReadHead(wire, |data|);
            && head.Ok? && SameRecord(head.value.0, rr.(rdata := []))
            && head.value.1 == |Emit(data, Some(table), rr.name, false).0| + 10
            && head.value.2 == rdlen
  {
    hide ReadName, Emit, Spelled, TableOk, Extends, FixedPart;
    var owner := Emit(data, Some(table), rr.name, false);
    NameRoundTrip(0, data, Some(table), rr.name, false);
    EmitNonEmpty(data, Some(table), rr.name, false);
    ReadNameKept(0, owner.0, wire, |data|);
    assert wire[|owner.0|..|owner.0| + 10] == FixedPart(rr.rdtype, rr.rdclass, rr.ttl, rdlen);
    FixedPartReads(rr.rdtype, rr.rdclass, rr.ttl, rdlen);
  }

  /** A record written with a good table reads back from where it began, whatever follows
      it, and reading it ends where writing it ended. */
  lemma RecordRoundTrip(data: Bytes, table: Table, rr: Record, wire: Bytes)
    requires rr.Valid() && ValidRdata(rr.rdtype, rr.rdata) && TableOk(data, 0, table)
    requires EmitRecord(data, table, rr).Done? && EmitRecord(data, table, rr).data <= wire
    ensures var back := ReadRecord(wire, |data|);
            back.Ok? && back.value.1 == |EmitRecord(data, table, rr).data| && SameRecord(back.value.0, rr)
  {
    hide Emit, Spelled, TableOk, Layout, EmitItems, Extends, FixedPart, ReadHead, ReadRecord, ReadFields, Fits;
    var out := EmitRecord(data, table, rr).data;
    var owner := Emit(data, Some(table), rr.name, false);
    NameRoundTrip(0, data, Some(table), rr.name, false);
    var rdlen := RdLength(owner.0, owner.1, rr);
    RdLengthKnown(owner.0, owner.1, rr);
    var start := Head(owner.0, rr, rdlen);
    TableKept(owner.0, start, 0, owner.1.value);
    HeadRoundTrip(data, table, rr, rdlen, wire);
    assert wire[..|out|] == out;
    LayoutRestLast(rr.rdtype);
    FieldsRoundTrip(start, owner.1, rr.rdata, Layout(rr.rdtype));
    assert ReadHead(wire, |data|).value.1 == |start| && |start| + rdlen == |out|;
    RecordParts(wire, |data|, |out|);
  }

  lemma RecordParts(wire: Bytes, pos: nat, end: nat)
    requires pos <= |wire| && ReadHead(wire, pos).Ok?
    requires var head := ReadHead(wire, pos).value;
             && head.1 + head.2 == end <= |wire|
             && ReadFields(wire[..end], head.1, Layout(head.0.rdtype)).Ok?
             && ReadFields(wire[..end], head.1, Layout(head.0.rdtype)).value.1 == end
    ensures var head := ReadHead(wire, pos).value;
            ReadRecord(wire, pos) ==
            Ok((head.0.(rdata := ReadFields(wire[..end], head.1, Layout(head.0.rdtype)).value.0), end))
  {
  }

  lemma LayoutRestLast(rdtype: U16)
    ensures RestLast(Layout(rdtype))
  {
  }

  /** A name, some octets, then more writing. */
  lemma ExtendsOctets(floor: nat, d0: Bytes, t0: Table, d1: Bytes, t1: Table, d2: Bytes, d3: Bytes, t3: Table)
    requires Extends(floor, d0, t0, d1, t1) && d1 <= d2 && TableOk(d2, floor, t1)
    requires Extends(floor, d2, t1, d3, t3) && TableOk(d3, floor, t3)
    ensures Extends(floor, d0, t0, d3, t3)
  {
    assert Extends(floor, d0, t0, d2, t1) by {
      forall k | k in t1 && k !in t0 ensures |k| >= 2 && t1[k] >= |d0| && Spelled(d2, floor, k, t1[k]) {}
    }
    ExtendsTrans(floor, d0, t0, d2, t1, d3, t3);
  }

  /** Filling in RDLENGTH afterwards gives the octets that would have come from knowing it
      beforehand, and leaves the table as it was. */
  lemma PatchedLength(owner: Bytes, table: Option<Table>, rr: Record)
    requires Writable(rr.rdata) && RdLength(owner, table, rr) < 0x1_0000
    ensures var rdlen := RdLength(owner, table, rr);
            var placeholder := EmitItems(Head(owner, rr, 0), table, rr.rdata, false);
            var known := EmitItems(Head(owner, rr, rdlen), table, rr.rdata, false);
            && known.1 == placeholder.1
            && known.0 == placeholder.0[..|owner| + 8] + Pack16(rdlen) + placeholder.0[|owner| + 10..]
  {
    hide EmitItems, Pack16, Pack32;
    var rdlen := RdLength(owner, table, rr);
    var before, after := Head(owner, rr, 0), Head(owner, rr, rdlen);
    var placeholder := EmitItems(before, table, rr.rdata, false);
    var known := EmitItems(after, table, rr.rdata, false);
    EmitItemsShift(before, after, table, rr.rdata, false);
    assert known.0 == after + known.0[|after|..];
    assert placeholder.0 == before + placeholder.0[|before|..];
    var fixed := Pack16(rr.rdtype) + Pack16(rr.rdclass) + Pack32(rr.ttl);
    assert after == owner + fixed + Pack16(rdlen);
    assert placeholder.0[..|owner| + 8] == owner + fixed;
  }
}
