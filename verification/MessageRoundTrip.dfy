/** Reading back what was rendered: the octets Message.to_wire produces parse to the same
    message, names up to case, with nothing left over. */
module MessageRoundTrips {
  import opened Common
  import opened Names
  import opened NameWire
  import opened Records
  import opened Rendering
  import opened Renderers
  import opened Messages

  // ---------------------------------------------------------------- what comes back

  /** A record set comes back with its rdata in the order they were emitted. */
  ghost predicate SameSet(back: RRset, s: RRset, order: seq<Rdata>) {
    && SameName(back.name, s.name)
    && back.rdclass == s.rdclass && back.rdtype == s.rdtype && back.covers == s.covers
    && back.deleting == s.deleting && back.ttl == s.ttl
    && SameItems(back.items, order)
  }

  ghost predicate SameItems(back: seq<Rdata>, order: seq<Rdata>) {
    |back| == |order| && forall i :: 0 <= i < |back| ==> SameRdata(back[i], order[i])
  }

  ghost predicate SameSets(back: seq<RRset>, sets: seq<RRset>, orders: seq<seq<Rdata>>)
    requires |orders| == |sets|
  {
    |back| == |sets| && forall i :: 0 <= i < |sets| ==> SameSet(back[i], sets[i], orders[i])
  }

  ghost predicate SameQuestions(back: seq<Query>, qs: seq<Query>) {
    |back| == |qs| && forall i :: 0 <= i < |qs| ==>
      SameName(back[i].name, qs[i].name) && back[i].rdtype == qs[i].rdtype && back[i].rdclass == qs[i].rdclass
  }

  // ---------------------------------------------------------------- what goes out

  /** A set as it can be built with Rdataset.add: absolute names, at least one rdata and no
      two alike, rdata of the set's own type and covered type, and a TTL below 2^31. */
  ghost predicate WellFormedSet(s: RRset) {
    && ValidName(s.name) && IsAbsolute(s.name) && s.deleting.None? && s.ttl <= MAX_SIGNED_TTL
    && !Special(s.rdtype) && s.items != [] && (Singleton(s.rdtype) ==> |s.items| == 1)
    && (forall i :: 0 <= i < |s.items| ==> GoodItem(s, s.items[i]))
    && Distinct(s.items)
  }

  ghost predicate GoodItem(s: RRset, rd: Rdata) {
    ValidRdata(s.rdtype, rd) && Writable(rd) && Covers(s.rdtype, rd) == s.covers
  }

  ghost predicate Distinct(items: seq<Rdata>) {
    forall i, j :: 0 <= i < j < |items| && Writable(items[i]) && Writable(items[j])
      ==> Digest(items[i]) != Digest(items[j])
  }

  ghost predicate WellFormedSection(sets: seq<RRset>) {
    && (forall i :: 0 <= i < |sets| ==> WellFormedSet(sets[i]))
    && forall i, j :: 0 <= i < j < |sets| ==> KeyOf(0, sets[i]) != KeyOf(0, sets[j])
  }

  ghost predicate WellFormed(m: Message) {
    && KnownOpcode(m.flags) && Opcode(m.flags) != UPDATE
    && (forall i :: 0 <= i < |m.question| ==> ValidName(m.question[i].name) && IsAbsolute(m.question[i].name))
    && WellFormedSection(m.answer) && WellFormedSection(m.authority) && WellFormedSection(m.additional)
  }

  // ---------------------------------------------------------------- rdata compare by digest

  /** What is emitted in canonical form depends on the folded name alone. */
  lemma {:induction false} CanonicalEmit(data: Bytes, a: Name, b: Name)
    requires ShortLabels(a) && ShortLabels(b) && SameName(a, b)
    ensures Emit(data, None, a, true) == Emit(data, None, b, true)
    decreases |a|
  {
    assert |Fold(a)| == |Fold(b)|;
    if a != [] {
      FoldTail(a);
      FoldTail(b);
      assert Lower(a[0]) == Fold(a)[0] == Fold(b)[0] == Lower(b[0]);
      assert Fold(a)[1..] == Fold(b)[1..];
      assert LabelBytes(a[0], true) == LabelBytes(b[0], true);
      CanonicalEmit(data + LabelBytes(a[0], true), a[1..], b[1..]);
    }
  }

  lemma {:induction false} CanonicalItems(data: Bytes, a: Rdata, b: Rdata)
    requires Writable(a) && Writable(b) && SameRdata(a, b)
    ensures EmitItems(data, None, a, true) == EmitItems(data, None, b, true)
    decreases |a|
  {
    hide Emit;
    if a != [] {
      assert SameItem(a[0], b[0]);
      if a[0].NameItem? {
        CanonicalEmit(data, a[0].name, b[0].name);
      }
      assert forall i :: 0 <= i < |a| - 1 ==> SameItem(a[1..][i], b[1..][i]);
      CanonicalItems(EmitItem(data, None, a[0], true).0, a[1..], b[1..]);
    }
  }

  lemma SameDigest(a: Rdata, b: Rdata)
    requires Writable(a) && Writable(b) && SameRdata(a, b)
    ensures Digest(a) == Digest(b)
  {
    CanonicalItems([], a, b);
  }

  lemma SameCovers(rdtype: U16, a: Rdata, b: Rdata)
    requires SameRdata(a, b)
    ensures Covers(rdtype, a) == Covers(rdtype, b)
  {
    if |a| > 0 {
      assert SameItem(a[0], b[0]);
    }
  }

  /** Sharing out the same rdata keeps them well formed and distinct. */
  lemma OrderedItems(s: RRset, order: seq<Rdata>)
    requires WellFormedSet(s) && IsOrder(s, order)
    ensures |order| == |s.items| && Distinct(order) && forall i :: 0 <= i < |order| ==> GoodItem(s, order[i])
  {
    assert |order| == |multiset(order)| == |multiset(s.items)| == |s.items|;
    forall i | 0 <= i < |order| ensures GoodItem(s, order[i]) {
      assert order[i] in multiset(order) && order[i] in s.items;
    }
    forall i, j | 0 <= i < j < |order| ensures Digest(order[i]) != Digest(order[j]) {
      var x, y := order[i], order[j];
      assert x in multiset(order) && y in multiset(order);
      if x == y {
        TwiceInOrder(order, i, j);
        DistinctOnce(s.items, x);
      } else {
        var k :| 0 <= k < |s.items| && s.items[k] == x;
        var l :| 0 <= l < |s.items| && s.items[l] == y;
        assert k != l;
      }
    }
  }

  lemma TwiceInOrder<T>(xs: seq<T>, i: nat, j: nat)
    requires i < j < |xs| && xs[i] == xs[j]
    ensures multiset(xs)[xs[i]] >= 2
  {
    assert xs == xs[..j] + [xs[j]] + xs[j + 1..];
    assert xs[i] in xs[..j];
  }

  lemma {:induction false} DistinctOnce(items: seq<Rdata>, x: Rdata)
    requires Distinct(items) && Writable(x)
    ensures multiset(items)[x] <= 1
  {
    if items != [] {
      assert items == [items[0]] + items[1..];
      DistinctOnce(items[1..], x);
      assert items[0] == x ==> x !in items[1..];
    }
  }

  // ---------------------------------------------------------------- one set

  /** The set being read, once the first `k` rdata are in. */
  ghost predicate Partial(p: RRset, s: RRset, order: seq<Rdata>, k: nat)
    requires k <= |order|
  {
    && SameName(p.name, s.name) && p.rdclass == s.rdclass && p.rdtype == s.rdtype && p.covers == s.covers
    && p.deleting.None? && (k > 0 ==> p.ttl == s.ttl)
    && Digestable(p.items) && SameItems(p.items, order[..k])
  }

  /** `sets` as reading finds them: earlier sets, and last the one being read. */
  ghost predicate Reading(sets: seq<RRset>, before: seq<RRset>, s: RRset, order: seq<Rdata>, k: nat)
    requires k <= |order|
  {
    if k == 0 then sets == before
    else |sets| == |before| + 1 && sets[..|before|] == before && Partial(sets[|before|], s, order, k)
  }

  ghost predicate Absent(before: seq<RRset>, s: RRset) {
    DigestableSets(before) && forall i :: 0 <= i < |before| ==> KeyOf(0, before[i]) != KeyOf(0, s)
  }

  lemma {:induction false} PlaceOf(sets: seq<RRset>, before: seq<RRset>, started: RRset)
    requires Absent(before, started) && before <= sets
    requires |sets| > |before| ==> KeyOf(0, sets[|before|]) == KeyOf(0, started)
    ensures Place(sets, started) == |before|
    decreases |before|
  {
    if before != [] {
      assert KeyOf(0, before[0]) != KeyOf(0, started);
      assert sets[0] == before[0];
      PlaceOf(sets[1..], before[1..], started);
    }
  }

  /** Adding the next rdata, which is like none of those before it. */
  lemma AddNext(p: RRset, s: RRset, order: seq<Rdata>, k: nat, rd: Rdata)
    requires WellFormedSet(s) && IsOrder(s, order) && k < |order|
    requires Partial(p, s, order, k)
    requires Writable(rd) && SameRdata(rd, order[k])
    ensures AddRdata(p, rd, s.ttl).Some? && Partial(AddRdata(p, rd, s.ttl).value, s, order, k + 1)
  {
    hide SameRdata, Digest, Writable;
    OrderedItems(s, order);
    assert GoodItem(s, order[k]);
    SameCovers(s.rdtype, rd, order[k]);
    SameDigest(rd, order[k]);
    assert |p.items| == k;
    assert Singleton(s.rdtype) ==> k == 0;
    forall i | 0 <= i < k ensures Digest(p.items[i]) != Digest(rd) {
      assert SameRdata(p.items[i], order[..k][i]);
      assert GoodItem(s, order[i]);
      SameDigest(p.items[i], order[i]);
    }
    assert !Holds(p.items, rd);
    SameItemsSnoc(p.items, order, k, rd);
  }

  lemma SameItemsSnoc(items: seq<Rdata>, order: seq<Rdata>, k: nat, rd: Rdata)
    requires k < |order| && SameItems(items, order[..k]) && SameRdata(rd, order[k])
    ensures SameItems(items + [rd], order[..k + 1])
  {
    hide SameRdata;
    forall i | 0 <= i < k + 1 ensures SameRdata((items + [rd])[i], order[..k + 1][i]) {
      if i < k {
        assert SameRdata(items[i], order[..k][i]);
      }
    }
  }

  /** Reading the next record of a set puts it where the set is. */
  lemma ReadNext(data: Bytes, table: Table, s: RRset, order: seq<Rdata>, k: nat, wire: Bytes,
                 sets: seq<RRset>, before: seq<RRset>) returns (next: seq<RRset>)
    requires WellFormedSet(s) && IsOrder(s, order) && k < |order| && Absent(before, s)
    requires Reading(sets, before, s, order, k) && TableOk(data, 0, table) && DigestableSets(sets)
    requires Writable(order[k]) && EmitRecord(data, table, Proto(s.name, s, s.ttl).(rdata := order[k])).Done?
    requires EmitRecord(data, table, Proto(s.name, s, s.ttl).(rdata := order[k])).data <= wire
    ensures ReadInto(wire, |data|, sets, false)
            == Ok((next, |EmitRecord(data, table, Proto(s.name, s, s.ttl).(rdata := order[k])).data|))
    ensures Reading(next, before, s, order, k + 1) && DigestableSets(next)
  {
    hide EmitRecord, Spelled, TableOk, SameRdata, ReadRecord, ReadHead, Digest, Layout, Distinct;
    var rr := Proto(s.name, s, s.ttl).(rdata := order[k]);
    OrderedItems(s, order);
    assert GoodItem(s, order[k]);
    RecordRoundTrip(data, table, rr, wire);
    var back := ReadRecord(wire, |data|).value.0;
    HeadOfRecord(wire, |data|);
    SameCovers(s.rdtype, back.rdata, order[k]);
    var started := Fresh(back);
    assert KeyOf(0, started) == KeyOf(0, s);
    PlaceOf(sets, before, started);
    var p := if k == 0 then started else sets[|before|];
    AddNext(p, s, order, k, back.rdata);
    next := before + [AddRdata(p, back.rdata, s.ttl).value];
    if k > 0 {
      assert sets[|before| := next[|before|]] == next;
    }
  }

  lemma HeadOfRecord(wire: Bytes, pos: nat)
    requires pos <= |wire| && ReadRecord(wire, pos).Ok?
    ensures ReadHead(wire, pos).Ok? && ReadHead(wire, pos).value.0.rdtype == ReadRecord(wire, pos).value.0.rdtype
  {
  }

  /** Writing the rdata of a set from the k-th on. */
  ghost function WriteFrom(data: Bytes, table: Table, s: RRset, order: seq<Rdata>, k: nat, origin: Option<Name>)
    : Result<(Bytes, Table), RenderError>
    requires ValidName(s.name) && IsAbsolute(s.name) && ValidOrigin(origin) && Digestable(order) && k <= |order|
  {
    DigestableNamed(order[k..]);
    EmitEach(data, table, Proto(s.name, s, s.ttl), order[k..], origin)
  }

  lemma DigestableNamed(order: seq<Rdata>)
    requires Digestable(order)
    ensures forall i :: 0 <= i < |order| ==> NamedRdata(order[i])
  {
    forall i | 0 <= i < |order| ensures NamedRdata(order[i]) {
      assert Writable(order[i]);
      assert forall j :: 0 <= j < |order[i]| ==> WritableItem(order[i][j]);
    }
  }

  lemma WriteNext(data: Bytes, table: Table, s: RRset, order: seq<Rdata>, k: nat, origin: Option<Name>)
    requires ValidName(s.name) && IsAbsolute(s.name) && ValidOrigin(origin) && Digestable(order) && k < |order|
    requires WriteFrom(data, table, s, order, k, origin).Ok?
    ensures var rr := Proto(s.name, s, s.ttl).(rdata := order[k]);
            var first := EmitRecord(data, table, rr);
            && rr.Valid() && first.Done?
            && WriteFrom(data, table, s, order, k, origin)
               == WriteFrom(first.data, first.table, s, order, k + 1, origin)
            && first.data <= WriteFrom(data, table, s, order, k, origin).value.0
  {
    assert order[k..][0] == order[k] && order[k..][1..] == order[k + 1..];
    assert Writable(order[k]);
    DigestableNamed(order[k..]);
    DigestableNamed(order[k + 1..]);
  }

  /** Reading the records of a set, from the k-th on, completes that set. */
  lemma {:induction false} ReadSet(data: Bytes, table: Table, s: RRset, order: seq<Rdata>, k: nat, wire: Bytes,
                                   sets: seq<RRset>, before: seq<RRset>, more: nat, origin: Option<Name>)
    returns (full: RRset)
    requires ValidOrigin(origin)
    requires WellFormedSet(s) && IsOrder(s, order) && Digestable(order) && k <= |order| && Absent(before, s)
    requires Reading(sets, before, s, order, k) && TableOk(data, 0, table) && DigestableSets(sets)
    requires WriteFrom(data, table, s, order, k, origin).Ok?
    requires WriteFrom(data, table, s, order, k, origin).value.0 <= wire
    ensures SameSet(full, s, order) && Digestable(full.items)
    ensures |data| <= |wire| && DigestableSets(before + [full])
    ensures ReadSection(wire, |data|, |order| - k + more, sets, false)
            == ReadSection(wire, |WriteFrom(data, table, s, order, k, origin).value.0|, more, before + [full], false)
    decreases |order| - k
  {
    hide EmitRecord, Spelled, TableOk, SameRdata, ReadInto, Digest, Absent, WellFormedSet, WriteFrom;
    NonEmpty(s);
    if k == |order| {
      full := ReadWhole(s, order, sets, before);
      WriteNothing(data, table, s, order, origin);
    } else {
      WriteNext(data, table, s, order, k, origin);
      var rr := Proto(s.name, s, s.ttl).(rdata := order[k]);
      var first := EmitRecord(data, table, rr);
      RecordTable(0, data, table, rr);
      var next := ReadNext(data, table, s, order, k, wire, sets, before);
      full := ReadSet(first.data, first.table, s, order, k + 1, wire, next, before, more, origin);
    }
  }

  lemma WriteNothing(data: Bytes, table: Table, s: RRset, order: seq<Rdata>, origin: Option<Name>)
    requires ValidName(s.name) && IsAbsolute(s.name) && ValidOrigin(origin) && Digestable(order)
    ensures WriteFrom(data, table, s, order, |order|, origin) == Ok((data, table))
  {
  }

  lemma ReadWhole(s: RRset, order: seq<Rdata>, sets: seq<RRset>, before: seq<RRset>) returns (full: RRset)
    requires WellFormedSet(s) && IsOrder(s, order) && Reading(sets, before, s, order, |order|) && DigestableSets(sets)
    ensures SameSet(full, s, order) && Digestable(full.items) && sets == before + [full]
  {
    OrderedItems(s, order);
    assert order[..|order|] == order;
    full := sets[|before|];
  }

  lemma NonEmpty(s: RRset)
    requires WellFormedSet(s)
    ensures s.items != [] && ValidName(s.name) && IsAbsolute(s.name) && s.deleting.None?
  {
  }

  // ---------------------------------------------------------------- one section

  function Total(orders: seq<seq<Rdata>>): nat {
    if orders == [] then 0 else |orders[0]| + Total(orders[1..])
  }

  ghost predicate AllAbsent(before: seq<RRset>, sets: seq<RRset>) {
    forall i :: 0 <= i < |sets| ==> Absent(before, sets[i])
  }

  lemma AddKeepsState(s: State, maxSize: int, origin: Option<Name>, b: Block)
    requires s.Valid() && b.Valid() && ValidOrigin(origin) && AddBlock(s, maxSize, origin, b).Ok?
    ensures AddBlock(s, maxSize, origin, b).value.Valid()
  {
    WrittenKeepsTable(s.data, s.table, Complete(b.Owner(), origin).value, origin, b);
  }

  lemma TableFloor(data: Bytes, floor: nat, table: Table)
    requires TableOk(data, floor, table)
    ensures TableOk(data, 0, table)
  {
    hide Decode;
    forall k | k in table ensures |k| >= 2 && Spelled(data, 0, k, table[k]) {
      assert Spelled(data, floor, k, table[k]);
    }
  }

  /** Adding one well-formed set writes its rdata in order and counts them. */
  lemma AddSet(s: State, maxSize: int, origin: Option<Name>, section: nat, rs: RRset, order: seq<Rdata>)
    requires |s.counts| == 4 && ValidOrigin(origin) && Answers(section, rs, order).Valid()
    requires WellFormedSet(rs) && IsOrder(rs, order)
    requires AddBlock(s, maxSize, origin, Answers(section, rs, order)).Ok?
    ensures Digestable(order) && order != []
    ensures var out := AddBlock(s, maxSize, origin, Answers(section, rs, order)).value;
            && WriteFrom(s.data, s.table, rs, order, 0, origin) == Ok((out.data, out.table))
            && out.counts == s.counts[section := s.counts[section] + |order|]
  {
    OrderedItems(rs, order);
    NonEmpty(rs);
    forall i | 0 <= i < |order| ensures Writable(order[i]) {
      assert GoodItem(rs, order[i]);
    }
    assert order[0..] == order;
  }

  lemma {:induction false} BlocksKeepState(s: State, maxSize: int, origin: Option<Name>, bs: seq<Block>)
    requires s.Valid() && ValidOrigin(origin) && ValidBlocks(bs) && AddBlocks(s, maxSize, origin, bs).Ok?
    ensures AddBlocks(s, maxSize, origin, bs).value.Valid()
    decreases |bs|
  {
    hide AddBlock, TableOk;
    if bs != [] {
      AddKeepsState(s, maxSize, origin, bs[0]);
      BlocksKeepState(AddBlock(s, maxSize, origin, bs[0]).value, maxSize, origin, bs[1..]);
    }
  }

  /** The counts of a rendered section are the records emitted for it. */
  lemma {:induction false} SectionCounts(section: nat, s: State, maxSize: int, origin: Option<Name>, sets: seq<RRset>,
                                         orders: seq<seq<Rdata>>)
    requires |s.counts| == 4 && ValidOrigin(origin) && 1 <= section < 4
    requires WellFormedSection(sets) && IsShuffle(sets, orders)
    requires ValidBlocks(SectionBlocks(section, sets, orders))
    requires AddBlocks(s, maxSize, origin, SectionBlocks(section, sets, orders)).Ok?
    ensures AddBlocks(s, maxSize, origin, SectionBlocks(section, sets, orders)).value.counts
            == s.counts[section := s.counts[section] + Total(orders)]
    decreases |sets|
  {
    hide AddBlock, WellFormedSet, SectionBlocks, ValidBlocks, IsOrder;
    if sets == [] {
      NoBlocks(section, sets, orders);
    } else {
      var bs := SectionBlocks(section, sets, orders);
      FirstBlock(section, sets, orders);
      AddSet(s, maxSize, origin, section, sets[0], orders[0]);
      SectionCounts(section, AddBlock(s, maxSize, origin, bs[0]).value, maxSize, origin, sets[1..], orders[1..]);
    }
  }

  lemma NoBlocks(section: nat, sets: seq<RRset>, orders: seq<seq<Rdata>>)
    requires |orders| == |sets| == 0
    ensures SectionBlocks(section, sets, orders) == []
  {
  }

  lemma FirstBlock(section: nat, sets: seq<RRset>, orders: seq<seq<Rdata>>)
    requires |orders| == |sets| > 0 && ValidBlocks(SectionBlocks(section, sets, orders))
    ensures var bs := SectionBlocks(section, sets, orders);
            && bs != [] && bs[0] == Answers(section, sets[0], orders[0]) && bs[0].Valid()
            && bs[1..] == SectionBlocks(section, sets[1..], orders[1..]) && ValidBlocks(bs[1..])
  {
  }

  /** A section about to be written and read: nothing read so far is one of its sets. */
  ghost predicate Ready(section: nat, s: State, origin: Option<Name>, sets: seq<RRset>, orders: seq<seq<Rdata>>,
                        before: seq<RRset>)
  {
    && s.Valid() && ValidOrigin(origin) && DigestableSets(before)
    && WellFormedSection(sets) && IsShuffle(sets, orders) && AllAbsent(before, sets)
    && ValidBlocks(SectionBlocks(section, sets, orders))
  }

  /** The first set of a section is read back, and the rest of the section is ready. */
  lemma ReadFirstSet(section: nat, s: State, maxSize: int, origin: Option<Name>, sets: seq<RRset>,
                     orders: seq<seq<Rdata>>, wire: Bytes, before: seq<RRset>)
    returns (full: RRset, first: State)
    requires Ready(section, s, origin, sets, orders, before) && sets != []
    requires AddBlocks(s, maxSize, origin, SectionBlocks(section, sets, orders)).Ok?
    requires AddBlocks(s, maxSize, origin, SectionBlocks(section, sets, orders)).value.data <= wire
    ensures SameSet(full, sets[0], orders[0])
    ensures Ready(section, first, origin, sets[1..], orders[1..], before + [full])
    ensures AddBlocks(s, maxSize, origin, SectionBlocks(section, sets, orders))
            == AddBlocks(first, maxSize, origin, SectionBlocks(section, sets[1..], orders[1..]))
    ensures |s.data| <= |wire| && |first.data| <= |wire|
    ensures ReadSection(wire, |s.data|, Total(orders), before, false)
            == ReadSection(wire, |first.data|, Total(orders[1..]), before + [full], false)
  {
    hide AddBlock, TableOk, Absent, WellFormedSet, WellFormedSection, WriteFrom;
    hide ReadSection, SameSet, DigestableSets, AllAbsent;
    var bs := SectionBlocks(section, sets, orders);
    assert bs[1..] == SectionBlocks(section, sets[1..], orders[1..]);
    assert bs[0] == Answers(section, sets[0], orders[0]) && bs[0].Valid();
    FirstAbsent(before, sets);
    AddSet(s, maxSize, origin, section, sets[0], orders[0]);
    AddKeepsState(s, maxSize, origin, bs[0]);
    TableFloor(s.data, HEADER_SIZE, s.table);
    ReadingNone(before, sets[0], orders[0]);
    first := AddBlock(s, maxSize, origin, bs[0]).value;
    assert first.data <= AddBlocks(first, maxSize, origin, bs[1..]).value.data;
    full := ReadSet(s.data, s.table, sets[0], orders[0], 0, wire, before, before, Total(orders[1..]), origin);
    assert Total(orders) == |orders[0]| - 0 + Total(orders[1..]);
    AbsentAfter(before, full, sets, orders[0]);
  }

  /** The sets of a section, written one after another, are read back one after another. */
  lemma {:induction false} ReadSets(section: nat, s: State, maxSize: int, origin: Option<Name>, sets: seq<RRset>,
                                    orders: seq<seq<Rdata>>, wire: Bytes, before: seq<RRset>)
    returns (back: seq<RRset>)
    requires Ready(section, s, origin, sets, orders, before) && |orders| == |sets|
    requires AddBlocks(s, maxSize, origin, SectionBlocks(section, sets, orders)).Ok?
    requires AddBlocks(s, maxSize, origin, SectionBlocks(section, sets, orders)).value.data <= wire
    ensures |s.data| <= |wire| && SameSets(back, sets, orders)
    ensures ReadSection(wire, |s.data|, Total(orders), before, false)
            == Ok((before + back, |AddBlocks(s, maxSize, origin, SectionBlocks(section, sets, orders)).value.data|))
    decreases |sets|
  {
    hide AddBlocks, ReadSection, SameSet, SameSets, Ready, Total;
    if sets == [] {
      back := [];
      ReadNoSets(section, s, maxSize, origin, sets, orders, wire, before);
      assert before + back == before;
    } else {
      var full, first := ReadFirstSet(section, s, maxSize, origin, sets, orders, wire, before);
      var others := ReadSets(section, first, maxSize, origin, sets[1..], orders[1..], wire, before + [full]);
      back := [full] + others;
      assert before + [full] + others == before + back;
      SameSetsCons(full, others, sets, orders);
    }
  }

  lemma ReadNoSets(section: nat, s: State, maxSize: int, origin: Option<Name>, sets: seq<RRset>,
                   orders: seq<seq<Rdata>>, wire: Bytes, before: seq<RRset>)
    requires Ready(section, s, origin, sets, orders, before) && sets == []
    requires AddBlocks(s, maxSize, origin, SectionBlocks(section, sets, orders)).Ok?
    requires AddBlocks(s, maxSize, origin, SectionBlocks(section, sets, orders)).value.data <= wire
    ensures SameSets([], sets, orders) && |s.data| <= |wire|
    ensures AddBlocks(s, maxSize, origin, SectionBlocks(section, sets, orders)) == Ok(s)
    ensures ReadSection(wire, |s.data|, Total(orders), before, false) == Ok((before, |s.data|))
  {
  }

  lemma ReadingNone(before: seq<RRset>, s: RRset, order: seq<Rdata>)
    ensures Reading(before, before, s, order, 0)
  {
  }

  lemma FirstAbsent(before: seq<RRset>, sets: seq<RRset>)
    requires AllAbsent(before, sets) && WellFormedSection(sets) && sets != []
    ensures Absent(before, sets[0]) && WellFormedSet(sets[0]) && DigestableSets(before)
  {
  }

  lemma SameSetsCons(full: RRset, others: seq<RRset>, sets: seq<RRset>, orders: seq<seq<Rdata>>)
    requires sets != [] && |orders| == |sets| && SameSet(full, sets[0], orders[0])
    requires SameSets(others, sets[1..], orders[1..])
    ensures SameSets([full] + others, sets, orders)
  {
    forall i | 0 <= i < |sets| ensures SameSet(([full] + others)[i], sets[i], orders[i]) {
      if i > 0 {
        assert SameSet(others[i - 1], sets[1..][i - 1], orders[1..][i - 1]);
      }
    }
  }

  lemma AbsentAfter(before: seq<RRset>, full: RRset, sets: seq<RRset>, order: seq<Rdata>)
    requires WellFormedSection(sets) && sets != [] && AllAbsent(before, sets)
    requires SameSet(full, sets[0], order) && Digestable(full.items) && DigestableSets(before)
    ensures AllAbsent(before + [full], sets[1..]) && WellFormedSection(sets[1..]) && DigestableSets(before + [full])
  {
    hide WellFormedSet, SameItems;
    assert KeyOf(0, full) == KeyOf(0, sets[0]);
    forall i | 0 <= i < |sets| - 1 ensures Absent(before + [full], sets[1..][i]) {
      assert sets[1..][i] == sets[i + 1];
      assert Absent(before, sets[i + 1]);
      assert KeyOf(0, sets[0]) != KeyOf(0, sets[i + 1]);
    }
    forall i, j | 0 <= i < j < |sets[1..]| ensures KeyOf(0, sets[1..][i]) != KeyOf(0, sets[1..][j]) {
      assert KeyOf(0, sets[i + 1]) != KeyOf(0, sets[j + 1]);
    }
  }

  // ---------------------------------------------------------------- the question section

  lemma {:induction false} ReadQueries(s: State, maxSize: int, origin: Option<Name>, qs: seq<Query>, wire: Bytes)
    returns (back: seq<Query>)
    requires s.Valid() && ValidOrigin(origin) && ValidBlocks(QuestionBlocks(qs))
    requires forall i :: 0 <= i < |qs| ==> IsAbsolute(qs[i].name)
    requires AddBlocks(s, maxSize, origin, QuestionBlocks(qs)).Ok?
    requires AddBlocks(s, maxSize, origin, QuestionBlocks(qs)).value.data <= wire
    ensures |s.data| <= |wire| && SameQuestions(back, qs)
    ensures var out := AddBlocks(s, maxSize, origin, QuestionBlocks(qs)).value;
            && ReadQuestions(wire, |s.data|, |qs|) == Ok((back, |out.data|))
            && out.counts == s.counts[QUESTION := s.counts[QUESTION] + |qs|]
    decreases |qs|
  {
    hide ReadQuestion, TableOk, AddBlock, SameQuestions;
    if qs == [] {
      back := [];
      assert SameQuestions([], []) by { SameNoQuestions(); }
    } else {
      var first := ReadFirstQuery(s, maxSize, origin, qs, wire);
      var others := ReadQueries(first, maxSize, origin, qs[1..], wire);
      var q := ReadQuestion(wire, |s.data|).value.0;
      back := [q] + others;
      SameQuestionsCons(q, others, qs);
    }
  }

  lemma SameNoQuestions()
    ensures SameQuestions([], [])
  {
  }

  lemma ReadFirstQuery(s: State, maxSize: int, origin: Option<Name>, qs: seq<Query>, wire: Bytes) returns (first: State)
    requires s.Valid() && ValidOrigin(origin) && ValidBlocks(QuestionBlocks(qs)) && qs != []
    requires forall i :: 0 <= i < |qs| ==> IsAbsolute(qs[i].name)
    requires AddBlocks(s, maxSize, origin, QuestionBlocks(qs)).Ok?
    requires AddBlocks(s, maxSize, origin, QuestionBlocks(qs)).value.data <= wire
    ensures first.Valid() && first.counts == s.counts[QUESTION := s.counts[QUESTION] + 1]
    ensures ValidBlocks(QuestionBlocks(qs[1..]))
    ensures AddBlocks(s, maxSize, origin, QuestionBlocks(qs))
      == AddBlocks(first, maxSize, origin, QuestionBlocks(qs[1..]))
    ensures |s.data| <= |wire|
    ensures var back := ReadQuestion(wire, |s.data|);
            back.Ok? && SameQuestions([back.value.0], [qs[0]]) && back.value.1 == |first.data|
  {
    hide ReadQuestion, TableOk, AddBlock, SameQuestions;
    var bs := QuestionBlocks(qs);
    assert bs[1..] == QuestionBlocks(qs[1..]);
    assert bs[0] == Question(qs[0].name, qs[0].rdtype, qs[0].rdclass) && bs[0].Valid();
    AddKeepsState(s, maxSize, origin, bs[0]);
    first := AddBlock(s, maxSize, origin, bs[0]).value;
    assert first.data <= AddBlocks(first, maxSize, origin, bs[1..]).value.data;
    ReadQuery(s, maxSize, origin, qs[0], wire);
  }

  lemma SameQuestionsCons(q: Query, others: seq<Query>, qs: seq<Query>)
    requires qs != [] && SameQuestions([q], [qs[0]]) && SameQuestions(others, qs[1..])
    ensures SameQuestions([q] + others, qs)
  {
    hide SameName;
    assert [q][0] == q && [qs[0]][0] == qs[0];
    assert forall i :: 0 < i < |qs| ==> ([q] + others)[i] == others[i - 1] && qs[i] == qs[1..][i - 1];
  }

  lemma ReadQuery(s: State, maxSize: int, origin: Option<Name>, q: Query, wire: Bytes)
    requires s.Valid() && ValidOrigin(origin) && ValidName(q.name) && IsAbsolute(q.name)
    requires AddBlock(s, maxSize, origin, Question(q.name, q.rdtype, q.rdclass)).Ok?
    requires AddBlock(s, maxSize, origin, Question(q.name, q.rdtype, q.rdclass)).value.data <= wire
    ensures |s.data| <= |wire|
    ensures var back := ReadQuestion(wire, |s.data|);
            && back.Ok? && SameQuestions([back.value.0], [q])
            && back.value.1 == |AddBlock(s, maxSize, origin, Question(q.name, q.rdtype, q.rdclass)).value.data|
    ensures AddBlock(s, maxSize, origin, Question(q.name, q.rdtype, q.rdclass)).value.counts
            == s.counts[QUESTION := s.counts[QUESTION] + 1]
  {
    hide Emit, ReadName, TableOk, Pack16, AddBlock, ReadQuestion;
    NameRoundTrip(HEADER_SIZE, s.data, Some(s.table), q.name, false);
    EmitNonEmpty(s.data, Some(s.table), q.name, false);
    var owner := Emit(s.data, Some(s.table), q.name, false).0;
    QuestionAdded(s, maxSize, origin, q);
    ReadNameKept(HEADER_SIZE, owner, wire, |s.data|);
    QuestionAt(owner, |s.data|, q, wire);
  }

  lemma QuestionAt(owner: Bytes, start: nat, q: Query, wire: Bytes)
    requires start < |owner| && owner + (Pack16(q.rdtype) + Pack16(q.rdclass)) <= wire
    requires ReadName(wire, start).Good? && ReadName(wire, start).next == |owner|
    ensures ReadQuestion(wire, start) == Ok((Query(ReadName(wire, start).labels, q.rdtype, q.rdclass), |owner| + 4))
  {
    hide ReadName;
    FixedFields(owner, Pack16(q.rdtype), Pack16(q.rdclass), wire);
    UnpackPack16(q.rdtype);
    UnpackPack16(q.rdclass);
  }

  lemma QuestionAdded(s: State, maxSize: int, origin: Option<Name>, q: Query)
    requires |s.counts| == 4 && ValidOrigin(origin) && ValidName(q.name) && IsAbsolute(q.name)
    requires AddBlock(s, maxSize, origin, Question(q.name, q.rdtype, q.rdclass)).Ok?
    ensures var out := AddBlock(s, maxSize, origin, Question(q.name, q.rdtype, q.rdclass)).value;
            && out.data == Emit(s.data, Some(s.table), q.name, false).0 + (Pack16(q.rdtype) + Pack16(q.rdclass))
            && out.counts == s.counts[QUESTION := s.counts[QUESTION] + 1]
  {
  }

  lemma FixedFields(owner: Bytes, a: Bytes, b: Bytes, wire: Bytes)
    requires |a| == 2 && |b| == 2 && owner + (a + b) <= wire
    ensures wire[|owner|..|owner| + 2] == a && wire[|owner| + 2..|owner| + 4] == b
  {
    var n := |owner|;
    assert wire[..n + 4] == owner + (a + b);
    assert wire[n..n + 2] == wire[..n + 4][n..n + 2];
    assert wire[n + 2..n + 4] == wire[..n + 4][n + 2..];
  }

  // ---------------------------------------------------------------- the header comes last

  /** The same adds on another buffer of the same length append the same octets. */
  ghost predicate Parallel(d: Bytes, e: Bytes, x: State, y: State) {
    && |x.data| == |y.data| && x.table == y.table && x.counts == y.counts
    && d <= x.data && e <= y.data && |d| == |e| && x.data[|d|..] == y.data[|e|..]
  }

  lemma ParallelTrans(d0: Bytes, e0: Bytes, d1: State, e1: State, d2: State, e2: State)
    requires Parallel(d0, e0, d1, e1) && Parallel(d1.data, e1.data, d2, e2)
    ensures Parallel(d0, e0, d2, e2)
  {
    TailSplit(d2.data, d1.data, |d0|);
    TailSplit(e2.data, e1.data, |e0|);
  }

  lemma RecordShift(d: Bytes, e: Bytes, table: Table, rr: Record)
    requires |d| == |e| && rr.Valid()
    ensures var x, y := EmitRecord(d, table, rr), EmitRecord(e, table, rr);
            && x.Done? == y.Done?
            && (x.Done? ==> Parallel(d, e, State(x.data, x.table, []), State(y.data, y.table, [])))
  {
    hide EmitItems, Emit, FixedPart;
    var p, q := Emit(d, Some(table), rr.name, false), Emit(e, Some(table), rr.name, false);
    EmitShift(d, e, Some(table), rr.name, false);
    EmitItemsShift(Head(p.0, rr, 0), Head(q.0, rr, 0), p.1, rr.rdata, false);
    var n := RdLength(p.0, p.1, rr);
    if n < 0x1_0000 {
      EmitItemsShift(Head(p.0, rr, n), Head(q.0, rr, n), p.1, rr.rdata, false);
      var x, y := EmitRecord(d, table, rr), EmitRecord(e, table, rr);
      TailSplit(x.data, Head(p.0, rr, n), |d|);
      TailSplit(y.data, Head(q.0, rr, n), |e|);
      TailSplit(Head(p.0, rr, n), p.0, |d|);
      TailSplit(Head(q.0, rr, n), q.0, |e|);
    }
  }

  lemma {:induction false} EachShift(d: Bytes, e: Bytes, table: Table, proto: Record, order: seq<Rdata>,
                                     origin: Option<Name>)
    requires |d| == |e| && proto.Valid() && ValidOrigin(origin)
    requires forall i :: 0 <= i < |order| ==> NamedRdata(order[i])
    ensures var x, y := EmitEach(d, table, proto, order, origin), EmitEach(e, table, proto, order, origin);
            && x.Ok? == y.Ok? && (x.Err? ==> x == y)
            && (x.Ok? ==> Parallel(d, e, State(x.value.0, x.value.1, []), State(y.value.0, y.value.1, [])))
    decreases |order|
  {
    hide EmitRecord;
    if order != [] && CompleteRdata(order[0], origin).Ok? {
      var rr := proto.(rdata := CompleteRdata(order[0], origin).value);
      RecordShift(d, e, table, rr);
      var x, y := EmitRecord(d, table, rr), EmitRecord(e, table, rr);
      if x.Done? {
        EachShift(x.data, y.data, x.table, proto, order[1..], origin);
        var u := EmitEach(x.data, x.table, proto, order[1..], origin);
        var v := EmitEach(y.data, y.table, proto, order[1..], origin);
        if u.Ok? {
          ParallelTrans(d, e, State(x.data, x.table, []), State(y.data, y.table, []),
                        State(u.value.0, u.value.1, []), State(v.value.0, v.value.1, []));
        }
      }
    }
  }

  lemma QuestionShift(d: Bytes, e: Bytes, table: Table, owner: Name, fixed: Bytes)
    requires |d| == |e| && ShortLabels(owner)
    ensures var x, y := Emit(d, Some(table), owner, false), Emit(e, Some(table), owner, false);
            Parallel(d, e, State(x.0 + fixed, x.1.value, []), State(y.0 + fixed, y.1.value, []))
  {
    hide Emit;
    EmitShift(d, e, Some(table), owner, false);
    var p, q := Emit(d, Some(table), owner, false).0, Emit(e, Some(table), owner, false).0;
    TailSplit(p + fixed, p, |d|);
    TailSplit(q + fixed, q, |e|);
  }

  /** What an add writes, within the limit or not. */
  lemma WrittenShift(d: Bytes, e: Bytes, table: Table, owner: Name, origin: Option<Name>, b: Block)
    requires |d| == |e| && b.Valid() && ValidName(owner) && IsAbsolute(owner) && ValidOrigin(origin)
    ensures var x, y := b.Written(d, table, owner, origin), b.Written(e, table, owner, origin);
            && x.Ok? == y.Ok? && (x.Err? ==> x == y)
            && (x.Ok? ==> Parallel(d, e, State(x.value.0, x.value.1, []), State(y.value.0, y.value.1, [])))
  {
    hide Emit, EmitEach, Pack16, Parallel;
    match b {
      case Question(_, rdtype, rdclass) =>
        QuestionShift(d, e, table, owner, Pack16(rdtype) + Pack16(rdclass));
      case Answers(_, rrset, order) =>
        if order == [] {
          EachShift(d, e, table, Proto(owner, rrset, 0), [[]], origin);
        } else {
          EachShift(d, e, table, Proto(owner, rrset, rrset.ttl), order, origin);
        }
    }
  }

  lemma BlockShift(d: Bytes, e: Bytes, table: Table, counts: seq<nat>, maxSize: int, origin: Option<Name>, b: Block)
    requires |d| == |e| && b.Valid() && |counts| == 4 && ValidOrigin(origin)
    ensures var x := AddBlock(State(d, table, counts), maxSize, origin, b);
            var y := AddBlock(State(e, table, counts), maxSize, origin, b);
            && x.Ok? == y.Ok? && (x.Err? ==> x == y) && (x.Ok? ==> Parallel(d, e, x.value, y.value))
  {
    hide Block.Written, Complete, EmitSet;
    var owner := Complete(b.Owner(), origin);
    if owner.Ok? {
      WrittenShift(d, e, table, owner.value, origin, b);
    }
  }

  lemma {:induction false} BlocksShift(d: Bytes, e: Bytes, table: Table, counts: seq<nat>, maxSize: int,
                                       origin: Option<Name>, bs: seq<Block>)
    requires |d| == |e| && ValidBlocks(bs) && |counts| == 4 && ValidOrigin(origin)
    ensures var x := AddBlocks(State(d, table, counts), maxSize, origin, bs);
            var y := AddBlocks(State(e, table, counts), maxSize, origin, bs);
            && x.Ok? == y.Ok? && (x.Err? ==> x == y) && (x.Ok? ==> Parallel(d, e, x.value, y.value))
    decreases |bs|
  {
    hide AddBlock;
    if bs != [] {
      BlockShift(d, e, table, counts, maxSize, origin, bs[0]);
      var x := AddBlock(State(d, table, counts), maxSize, origin, bs[0]);
      var y := AddBlock(State(e, table, counts), maxSize, origin, bs[0]);
      if x.Ok? {
        BlocksShift(x.value.data, y.value.data, x.value.table, x.value.counts, maxSize, origin, bs[1..]);
        assert y.value == State(y.value.data, x.value.table, x.value.counts);
        var u, v := AddBlocks(x.value, maxSize, origin, bs[1..]), AddBlocks(y.value, maxSize, origin, bs[1..]);
        if u.Ok? {
          ParallelTrans(d, e, x.value, y.value, u.value, v.value);
        }
      }
    }
  }

  lemma {:induction false} BlocksConcat(s: State, maxSize: int, origin: Option<Name>, a: seq<Block>, b: seq<Block>)
    requires ValidBlocks(a) && ValidBlocks(b) && |s.counts| == 4 && ValidOrigin(origin)
    ensures ValidBlocks(a + b)
    ensures var mid := AddBlocks(s, maxSize, origin, a);
            AddBlocks(s, maxSize, origin, a + b) == if mid.Err? then mid else AddBlocks(mid.value, maxSize, origin, b)
    decreases |a|
  {
    hide AddBlock;
    if a == [] {
      assert a + b == b;
    } else {
      assert (a + b)[1..] == a[1..] + b;
      var first := AddBlock(s, maxSize, origin, a[0]);
      if first.Ok? {
        BlocksConcat(first.value, maxSize, origin, a[1..], b);
      }
    }
  }

  // ---------------------------------------------------------------- the whole message

  ghost predicate SameMessage(back: Message, m: Message, shuffle: Shuffle)
    requires |shuffle.answer| == |m.answer| && |shuffle.authority| == |m.authority|
    requires |shuffle.additional| == |m.additional|
  {
    && back.id == m.id && back.flags == m.flags && SameQuestions(back.question, m.question)
    && SameSets(back.answer, m.answer, shuffle.answer)
    && SameSets(back.authority, m.authority, shuffle.authority)
    && SameSets(back.additional, m.additional, shuffle.additional)
  }

  ghost predicate ShuffleOf(m: Message, shuffle: Shuffle) {
    && IsShuffle(m.answer, shuffle.answer) && IsShuffle(m.authority, shuffle.authority)
    && IsShuffle(m.additional, shuffle.additional)
  }

  /** The header counts: questions, and the records emitted for each section. */
  function Counts(m: Message, shuffle: Shuffle): seq<nat> {
    [|m.question|, Total(shuffle.answer), Total(shuffle.authority), Total(shuffle.additional)]
  }

  lemma HeaderFields(id: U16, flags: U16, counts: seq<U16>, wire: Bytes)
    requires |counts| == 4 && HeaderBytes(id, flags, counts) <= wire
    ensures HeaderField(wire, 0) == id && HeaderField(wire, 1) == flags
    ensures forall i :: 0 <= i < 4 ==> HeaderField(wire, i + 2) == counts[i]
  {
    var h := HeaderBytes(id, flags, counts);
    assert wire[..HEADER_SIZE] == h;
    forall i | 0 <= i < 6 ensures wire[2 * i..2 * i + 2] == h[2 * i..2 * i + 2] {
      assert wire[2 * i..2 * i + 2] == wire[..HEADER_SIZE][2 * i..2 * i + 2];
    }
    assert h[0..2] == Pack16(id) && h[2..4] == Pack16(flags);
    assert h[4..6] == Pack16(counts[0]) && h[6..8] == Pack16(counts[1]);
    assert h[8..10] == Pack16(counts[2]) && h[10..12] == Pack16(counts[3]);
  }

  /** What rendering gives is what adding to a buffer that already held the final header
      would have given. */
  lemma HeaderFirst(m: Message, shuffle: Shuffle, maxSize: int, requestPayload: nat, origin: Option<Name>)
    requires m.Valid() && Matches(m, shuffle) && ValidOrigin(origin)
    requires Render(m, shuffle, maxSize, requestPayload, origin).Ok?
    ensures var wire := Render(m, shuffle, maxSize, requestPayload, origin).value;
            |wire| >= HEADER_SIZE
            && var out := AddBlocks(State(wire[..HEADER_SIZE], map[], [0, 0, 0, 0]), Limit(maxSize, requestPayload),
                                    origin, AllBlocks(m, shuffle));
               && out.Ok? && out.value.data == wire && |wire| <= Limit(maxSize, requestPayload)
               && Packable(out.value.counts) && wire[..HEADER_SIZE] == HeaderBytes(m.id, m.flags, out.value.counts)
  {
    hide AddBlocks, AllBlocks, HeaderBytes;
    var wire := Render(m, shuffle, maxSize, requestPayload, origin).value;
    var blank := seq(HEADER_SIZE, _ => 0);
    var limit := Limit(maxSize, requestPayload);
    CountsBound(State(blank, map[], [0, 0, 0, 0]), limit, origin, AllBlocks(m, shuffle));
    var x := AddBlocks(State(blank, map[], [0, 0, 0, 0]), limit, origin, AllBlocks(m, shuffle)).value;
    var header := HeaderBytes(m.id, m.flags, x.counts);
    BlocksShift(blank, header, map[], [0, 0, 0, 0], limit, origin, AllBlocks(m, shuffle));
    assert wire[..HEADER_SIZE] == header;
  }

  lemma WholeSection(section: nat, s: State, maxSize: int, origin: Option<Name>, sets: seq<RRset>,
                     orders: seq<seq<Rdata>>, wire: Bytes)
    returns (back: seq<RRset>, out: State)
    requires s.Valid() && ValidOrigin(origin) && 1 <= section < 4
    requires WellFormedSection(sets) && IsShuffle(sets, orders)
    requires ValidBlocks(SectionBlocks(section, sets, orders))
    requires AddBlocks(s, maxSize, origin, SectionBlocks(section, sets, orders)).Ok?
    requires AddBlocks(s, maxSize, origin, SectionBlocks(section, sets, orders)).value.data <= wire
    ensures out == AddBlocks(s, maxSize, origin, SectionBlocks(section, sets, orders)).value && out.Valid()
    ensures out.counts == s.counts[section := s.counts[section] + Total(orders)]
    ensures |s.data| <= |wire| && SameSets(back, sets, orders)
    ensures ReadSection(wire, |s.data|, Total(orders), [], false) == Ok((back, |out.data|))
  {
    hide AddBlocks, SectionBlocks, ReadSection, SameSets, TableOk;
    out := AddBlocks(s, maxSize, origin, SectionBlocks(section, sets, orders)).value;
    BlocksKeepState(s, maxSize, origin, SectionBlocks(section, sets, orders));
    SectionCounts(section, s, maxSize, origin, sets, orders);
    back := ReadSets(section, s, maxSize, origin, sets, orders, wire, []);
    assert [] + back == back;
  }

  /** The readings that make up a parse: `ends` is where each section stops. */
  ghost predicate SectionsRead(wire: Bytes, counts: seq<nat>, back: Message, ends: seq<nat>)
    requires |counts| == 4 && |ends| == 4
  {
    && HEADER_SIZE <= |wire| && ends[0] <= |wire| && ends[1] <= |wire| && ends[2] <= |wire| && ends[3] == |wire|
    && ReadQuestions(wire, HEADER_SIZE, counts[0]) == Ok((back.question, ends[0]))
    && ReadSection(wire, ends[0], counts[1], [], false) == Ok((back.answer, ends[1]))
    && ReadSection(wire, ends[1], counts[2], [], false) == Ok((back.authority, ends[2]))
    && ReadSection(wire, ends[2], counts[3], [], false) == Ok((back.additional, ends[3]))
  }

  lemma ReadAll(m: Message, shuffle: Shuffle, limit: int, origin: Option<Name>, s0: State, wire: Bytes)
    returns (back: Message, ends: seq<nat>)
    requires m.Valid() && Matches(m, shuffle) && ValidOrigin(origin)
    requires WellFormed(m) && ShuffleOf(m, shuffle)
    requires |s0.data| == HEADER_SIZE && s0.table == map[] && s0.counts == [0, 0, 0, 0]
    requires AddBlocks(s0, limit, origin, AllBlocks(m, shuffle)).Ok?
    requires AddBlocks(s0, limit, origin, AllBlocks(m, shuffle)).value.data == wire
    ensures AddBlocks(s0, limit, origin, AllBlocks(m, shuffle)).value.counts == Counts(m, shuffle)
    ensures SameMessage(back, m, shuffle) && |ends| == 4 && SectionsRead(wire, Counts(m, shuffle), back, ends)
  {
    hide AddBlocks, QuestionBlocks, SectionBlocks, SameSets, SameQuestions, WellFormedSection, IsShuffle, Total,
      TableOk;
    hide ReadSection, ReadQuestions, ValidBlocks, NamedRdata, KnownOpcode, Opcode;
    ValidSections(m, shuffle);
    EmptyTable(s0.data);
    var q, a := QuestionBlocks(m.question), SectionBlocks(ANSWER, m.answer, shuffle.answer);
    var u, d := SectionBlocks(AUTHORITY, m.authority, shuffle.authority),
      SectionBlocks(ADDITIONAL, m.additional, shuffle.additional);
    FourSections(s0, limit, origin, q, a, u, d);
    var s1 := AddBlocks(s0, limit, origin, q).value;
    var question := ReadQueries(s0, limit, origin, m.question, wire);
    BlocksKeepState(s0, limit, origin, q);
    var answer, s2 := WholeSection(ANSWER, s1, limit, origin, m.answer, shuffle.answer, wire);
    var authority, s3 := WholeSection(AUTHORITY, s2, limit, origin, m.authority, shuffle.authority, wire);
    var additional, s4 := WholeSection(ADDITIONAL, s3, limit, origin, m.additional, shuffle.additional, wire);
    back := Message(m.id, m.flags, question, answer, authority, additional);
    ends := [|s1.data|, |s2.data|, |s3.data|, |s4.data|];
  }

  lemma ParseSections(wire: Bytes, counts: seq<U16>, back: Message, ends: seq<nat>)
    requires |counts| == 4 && |ends| == 4 && SectionsRead(wire, counts, back, ends)
    requires HeaderBytes(back.id, back.flags, counts) <= wire
    requires KnownOpcode(back.flags) && Opcode(back.flags) != UPDATE
    ensures Parse(wire, false, false, false) == Ok(back)
    ensures forall i :: 0 <= i < 4 ==> HeaderField(wire, i + 2) == counts[i]
  {
    hide ReadSection, ReadQuestions, HeaderBytes, HeaderField, KnownOpcode, Opcode;
    HeaderFields(back.id, back.flags, counts, wire);
    assert HeaderField(wire, 0 + 2) == counts[0] && HeaderField(wire, 1 + 2) == counts[1];
    assert HeaderField(wire, 2 + 2) == counts[2] && HeaderField(wire, 3 + 2) == counts[3];
  }

  /** The message round trip: whenever rendering succeeds, the octets parse, to the end, to
      a message with the same id, flags, questions and record sets (names up to case, rdata
      in the order they were emitted); they fit the limit, and the header counts are the
      numbers of records emitted. */
  lemma MessageRoundTrip(m: Message, shuffle: Shuffle, maxSize: int, requestPayload: nat, origin: Option<Name>)
    requires m.Valid() && Matches(m, shuffle) && ValidOrigin(origin)
    requires WellFormed(m) && ShuffleOf(m, shuffle)
    ensures var r := Render(m, shuffle, maxSize, requestPayload, origin);
            r.Ok? ==>
              && Parse(r.value, false, false, false).Ok?
              && SameMessage(Parse(r.value, false, false, false).value, m, shuffle)
              && HEADER_SIZE <= |r.value| <= Limit(maxSize, requestPayload)
              && forall i :: 0 <= i < 4 ==> HeaderField(r.value, i + 2) == Counts(m, shuffle)[i]
  {
    hide AddBlocks, AllBlocks, SameSets, SameQuestions, WellFormedSection, IsShuffle, HeaderBytes, Total, SectionsRead;
    hide Parse, HeaderField, Render, Limit, Matches;
    var r := Render(m, shuffle, maxSize, requestPayload, origin);
    if r.Ok? {
      HeaderFirst(m, shuffle, maxSize, requestPayload, origin);
      var s0 := State(r.value[..HEADER_SIZE], map[], [0, 0, 0, 0]);
      var back, ends := ReadAll(m, shuffle, Limit(maxSize, requestPayload), origin, s0, r.value);
      ParseSections(r.value, Counts(m, shuffle), back, ends);
    }
  }

  lemma EmptyTable(data: Bytes)
    ensures TableOk(data, HEADER_SIZE, map[])
  {
  }

  lemma FourSections(s: State, maxSize: int, origin: Option<Name>, q: seq<Block>, a: seq<Block>, u: seq<Block>,
                     d: seq<Block>)
    requires ValidBlocks(q) && ValidBlocks(a) && ValidBlocks(u) && ValidBlocks(d) && ValidOrigin(origin)
    requires |s.counts| == 4
    requires ValidBlocks(q + a + u + d) && AddBlocks(s, maxSize, origin, q + a + u + d).Ok?
    ensures var s1 := AddBlocks(s, maxSize, origin, q);
            s1.Ok? && var s2 := AddBlocks(s1.value, maxSize, origin, a);
            s2.Ok? && var s3 := AddBlocks(s2.value, maxSize, origin, u);
            s3.Ok? && AddBlocks(s3.value, maxSize, origin, d) == AddBlocks(s, maxSize, origin, q + a + u + d)
  {
    hide AddBlocks;
    BlocksConcat(s, maxSize, origin, q + a + u, d);
    BlocksConcat(s, maxSize, origin, q + a, u);
    BlocksConcat(s, maxSize, origin, q, a);
  }
}
