/** Compressed names on the wire: section 4.1.4 of RFC 1035 as dns/name.py writes and
    reads it.  This module holds the value-level account of both directions and the
    theorems that join them; Wire.dfy proves the buffer and parser objects against it. */
module NameWire {
  import opened Common
  import opened Names

  const POINTER_TAG := 0xC0
  const MAX_OFFSET := 0x3FFF

  type Offset = n: int | 0 <= n <= 0x3FFF

  /** A compression table: keys compare ignoring case, so they are held folded. */
  type Table = map<Name, Offset>

  // ---------------------------------------------------------------- writing

  function PointerBytes(target: Offset): (r: Bytes)
    ensures |r| == 2
  {
    [POINTER_TAG + target / 0x100, target % 0x100]
  }

  function LabelBytes(l: Label, canonicalize: bool): (r: Bytes)
    requires |l| <= MAX_LABEL
    ensures |r| == |l| + 1
  {
    [|l|] + if canonicalize then Lower(l) else l
  }

  /** The table once `labels` is being written at offset |data|: the root is never
      recorded, nor an offset a pointer cannot hold. */
  function Recorded(data: Bytes, table: Option<Table>, labels: Name): (r: Option<Table>)
    ensures r.Some? == table.Some?
  {
    if table.Some? && |labels| > 1 && |data| <= MAX_OFFSET
    then Some(table.value[Fold(labels) := |data|]) else table
  }

  /** The buffer and table after `labels` has been appended to `data`.  Without a table
      nothing is compressed.  A suffix already in the table becomes a pointer and ends the
      name; otherwise its offset is recorded, unless it is the root or out of reach. */
  function Emit(data: Bytes, table: Option<Table>, labels: Name, canonicalize: bool): (r: (Bytes, Option<Table>))
    requires ShortLabels(labels)
    ensures r.1.Some? == table.Some?
    ensures data <= r.0
    decreases |labels|
  {
    if labels == [] then (data, table)
    else if table.Some? && Fold(labels) in table.value then
      (data + PointerBytes(table.value[Fold(labels)]), table)
    else
      Emit(data + LabelBytes(labels[0], canonicalize), Recorded(data, table, labels), labels[1..], canonicalize)
  }

  // ---------------------------------------------------------------- reading

  datatype WireError = FormError | BadPointer | BadLabelType | BadName(error: NameError)

  /** What reading a name yields.  `next` is the furthest offset read; for a name that
      was read, `low` is the lowest, so the outcome depends on data[low..next] alone. */
  datatype Decoded =
    | Good(labels: Name, next: nat, low: nat)
    | Bad(error: WireError, next: nat)
  {
    /** Reading went at least as far as `seen` and, when it succeeded, as low as `from`. */
    function Reaching(from: nat, seen: nat): (r: Decoded) {
      if Bad? then Bad(error, Max(seen, next)) else Good(labels, Max(seen, next), Min(from, low))
    }
  }

  /** The pointer held in two octets. */
  function Target(hi: Byte, lo: Byte): (r: nat)
    ensures r <= MAX_OFFSET
  {
    var page: int := hi % 64;
    page * 0x100 + lo
  }

  /** The loop of from_wire_parser at offset `pos`, when the next pointer must be below
      `limit`. */
  function Decode(data: Bytes, limit: nat, pos: nat): (r: Decoded)
    requires limit <= |data|
    ensures r.next >= pos
    ensures r.Good? ==> r.low <= pos < r.next <= |data|
    decreases limit, |data| - pos
  {
    if pos >= |data| then Bad(FormError, pos)
    else
      var count := data[pos];
      if count == 0 then Good([[]], pos + 1, pos)
      else if count < 64 then
        if pos + 1 + count > |data| then Bad(FormError, pos + 1)
        else
          var rest := Decode(data, limit, pos + 1 + count);
          if rest.Bad? then rest
          else Good([data[pos + 1..pos + 1 + count]] + rest.labels, rest.next, Min(pos, rest.low))
      else if count >= 192 then
        if pos + 1 >= |data| then Bad(FormError, pos + 1)
        else
          var target := Target(count, data[pos + 1]);
          if target >= limit then Bad(BadPointer, pos + 2)
          else Decode(data, target, target).Reaching(pos, pos + 2)
      else Bad(BadLabelType, pos + 1)
  }

  lemma {:induction false} DecodeShape(data: Bytes, limit: nat, pos: nat)
    requires limit <= |data| && Decode(data, limit, pos).Good?
    ensures var labels := Decode(data, limit, pos).labels;
            ShortLabels(labels) && RootLast(labels) && IsAbsolute(labels)
    decreases limit, |data| - pos
  {
    var count := data[pos];
    if 0 < count < 64 {
      DecodeShape(data, limit, pos + 1 + count);
    } else if count != 0 {
      DecodeShape(data, Target(count, data[pos + 1]), Target(count, data[pos + 1]));
    }
  }

  /** from_wire_parser: a name starting at `start`, validated as a Name. */
  function ReadName(data: Bytes, start: nat): (r: Decoded)
    requires start <= |data|
    ensures r.Good? ==> ValidName(r.labels) && IsAbsolute(r.labels)
    ensures r.Good? ==> r.low <= start < r.next <= |data|
    ensures r.next >= start
  {
    var d := Decode(data, start, start);
    assert d.Good? ==> RootLast(d.labels) && IsAbsolute(d.labels) by {
      if d.Good? { DecodeShape(data, start, start); }
    }
    if d.Good? && CheckLabels(d.labels).Err? then Bad(BadName(CheckLabels(d.labels).error), d.next)
    else d
  }

  // ---------------------------------------------------------------- locality

  lemma SliceOfSlice<T>(s: seq<T>, lo: nat, hi: nat, i: nat, j: nat)
    requires lo <= i <= j <= hi <= |s|
    ensures s[lo..hi][i - lo..j - lo] == s[i..j]
  {
    assert forall n :: 0 <= n < j - i ==>
      s[lo..hi][i - lo..j - lo][n] == s[lo..hi][i - lo + n] == s[i + n] == s[i..j][n];
  }

  /** Reading depends only on the octets it covers: any other buffer with the same octets
      in [low, next) gives the same name. */
  lemma {:induction false} DecodeLocal(d: Bytes, e: Bytes, limit: nat, pos: nat, low: nat, next: nat)
    requires limit <= |d| && limit <= |e|
    requires Decode(d, limit, pos).Good?
    requires low <= Decode(d, limit, pos).low && Decode(d, limit, pos).next <= next <= |d|
    requires next <= |e| && d[low..next] == e[low..next]
    ensures Decode(e, limit, pos) == Decode(d, limit, pos)
    decreases limit, |d| - pos
  {
    var count := d[pos];
    assert d[pos] == d[low..next][pos - low] == e[pos];
    if count == 0 {
    } else if count < 64 {
      var after := pos + 1 + count;
      assert after <= Decode(d, limit, after).next;
      assert after <= next;
      SliceOfSlice(d, low, next, pos + 1, after);
      SliceOfSlice(e, low, next, pos + 1, after);
      DecodeLocal(d, e, limit, after, low, next);
    } else {
      assert pos + 2 <= next;
      assert d[pos + 1] == d[low..next][pos + 1 - low] == e[pos + 1];
      var target := Target(count, d[pos + 1]);
      DecodeLocal(d, e, target, target, low, next);
    }
  }

  /** A looser bound on the first pointer changes nothing for a name that reads. */
  lemma {:induction false} DecodeLimit(d: Bytes, limit: nat, wider: nat, pos: nat)
    requires limit <= wider <= |d|
    requires Decode(d, limit, pos).Good?
    ensures Decode(d, wider, pos) == Decode(d, limit, pos)
    decreases |d| - pos
  {
    var count := d[pos];
    if 0 < count < 64 {
      DecodeLimit(d, limit, wider, pos + 1 + count);
    }
  }

  // ---------------------------------------------------------------- the table invariant

  /** `key` is spelled at `at` in the buffer, by pointers that strictly decrease from `at`
      and without touching anything below `floor`. */
  ghost predicate Spelled(data: Bytes, floor: nat, key: Name, at: nat) {
    && floor <= at < |data|
    && var d := Decode(data, at, at);
       d.Good? && Fold(d.labels) == key && floor <= d.low
  }

  /** Every entry of the compression table points at an occurrence of its key. */
  ghost predicate TableOk(data: Bytes, floor: nat, table: Table) {
    forall k :: k in table ==> |k| >= 2 && Spelled(data, floor, k, table[k])
  }

  /** Appending keeps the invariant, and so does any change below the floor. */
  lemma SpelledKept(d: Bytes, e: Bytes, floor: nat, key: Name, at: nat)
    requires Spelled(d, floor, key, at)
    requires |d| <= |e| && d[floor..] == e[floor..|d|]
    ensures Spelled(e, floor, key, at)
  {
    assert d[floor..|d|] == d[floor..];
    DecodeLocal(d, e, at, at, floor, |d|);
  }

  lemma TableKept(d: Bytes, e: Bytes, floor: nat, table: Table)
    requires TableOk(d, floor, table)
    requires floor <= |d| <= |e| && d[floor..] == e[floor..|d|]
    ensures TableOk(e, floor, table)
  {
    forall k | k in table ensures |k| >= 2 && Spelled(e, floor, k, table[k]) {
      SpelledKept(d, e, floor, k, table[k]);
    }
  }

  /** What one Emit leaves behind: `data` extended, old entries kept, and every new entry
      an occurrence of its key at or after the old end of the buffer. */
  ghost predicate Extends(floor: nat, data: Bytes, table: Table, data': Bytes, table': Table) {
    && data <= data'
    && (forall k :: k in table ==> k in table' && table'[k] == table[k])
    && (forall k :: k in table' && k !in table ==>
          |k| >= 2 && table'[k] >= |data| && Spelled(data', floor, k, table'[k]))
  }

  /** The table entries that `labels` or one of its suffixes could meet all point before
      `start`, where the name being written begins. */
  ghost predicate Usable(data: Bytes, floor: nat, table: Table, start: nat, size: nat) {
    forall k :: k in table && |k| <= size ==> table[k] < start && Spelled(data, floor, k, table[k])
  }

  /** The octets appended for `labels` read back as `labels` up to case, with every pointer
      below `start`, and reading them consumes exactly what was appended. */
  ghost predicate Reads(floor: nat, start: nat, at: nat, data: Bytes, labels: Name)
    requires start <= |data|
  {
    var d := Decode(data, start, at);
    d.Good? && SameName(d.labels, labels) && d.next == |data| && floor <= d.low
  }

  /** The heart of the codec: whatever Emit appends for `labels` reads back, and every
      table entry it adds is good. */
  lemma {:induction false} EmitReads(floor: nat, start: nat, data: Bytes, table: Option<Table>,
                                     labels: Name, canonicalize: bool)
    requires floor <= start <= |data|
    requires ShortLabels(labels) && RootLast(labels) && IsAbsolute(labels)
    requires table.Some? ==> Usable(data, floor, table.value, start, |labels|)
    ensures var out := Emit(data, table, labels, canonicalize);
            && Reads(floor, start, |data|, out.0, labels)
            && (table.Some? ==> Extends(floor, data, table.value, out.0, out.1.value))
    decreases |labels|
  {
    hide Reads, Extends, Usable;
    if table.Some? && Fold(labels) in table.value {
      PointerReads(floor, start, data, table.value, labels);
    } else if |labels| > 1 {
      assert IsAbsolute(labels[1..]);
      var data1 := data + LabelBytes(labels[0], canonicalize);
      var recorded := Recorded(data, table, labels);
      if table.Some? {
        UsableKept(floor, start, data, data1, table, labels);
      }
      EmitReads(floor, start, data1, recorded, labels[1..], canonicalize);
      var out := Emit(data1, recorded, labels[1..], canonicalize);
      LabelReads(floor, start, data, out.0, labels, canonicalize);
      if table.Some? {
        EntryAdded(floor, start, data, data1, table, labels, out.0, out.1.value);
      }
    } else {
      assert labels == [[]];
      assert Emit(data, table, labels, canonicalize).0 == data + [0];
      RootReads(floor, start, data, table);
    }
  }

  lemma RootReads(floor: nat, start: nat, data: Bytes, table: Option<Table>)
    requires floor <= start <= |data|
    ensures Reads(floor, start, |data|, data + [0], ROOT)
    ensures table.Some? ==> Extends(floor, data, table.value, data + [0], table.value)
  {
  }

  /** The first name or suffix found in the table: two octets that lead back to it. */
  lemma PointerReads(floor: nat, start: nat, data: Bytes, table: Table, labels: Name)
    requires floor <= start <= |data| && Fold(labels) in table
    requires Usable(data, floor, table, start, |labels|)
    ensures Reads(floor, start, |data|, data + PointerBytes(table[Fold(labels)]), labels)
    ensures Extends(floor, data, table, data + PointerBytes(table[Fold(labels)]), table)
  {
    var at := table[Fold(labels)];
    var out := data + PointerBytes(at);
    assert out[|data|] == POINTER_TAG + at / 0x100;
    assert Target(out[|data|], out[|data| + 1]) == at;
    assert data[floor..|data|] == data[floor..] == out[floor..|data|];
    DecodeLocal(data, out, at, at, floor, |data|);
  }

  /** The entry recorded for `labels` is good once the name is complete. */
  lemma EntryAdded(floor: nat, start: nat, data: Bytes, data1: Bytes, table: Option<Table>, labels: Name,
                   out: Bytes, table': Table)
    requires floor <= start <= |data| && data <= data1 && |labels| > 1
    requires table.Some? && Fold(labels) !in table.value
    requires |data| < |out| && Reads(floor, start, |data|, out, labels)
    requires Extends(floor, data1, Recorded(data, table, labels).value, out, table')
    ensures Extends(floor, data, table.value, out, table')
  {
    DecodeLimit(out, start, |data|, |data|);
    var recorded := Recorded(data, table, labels).value;
    forall k | k in table' && k !in table.value
      ensures |k| >= 2 && table'[k] >= |data| && Spelled(out, floor, k, table'[k])
    {
      if k in recorded {
        assert k == Fold(labels);
      }
    }
    forall k | k in table.value ensures k in table' && table'[k] == table.value[k] {
      assert k in recorded && recorded[k] == table.value[k];
    }
  }

  lemma UsableKept(floor: nat, start: nat, data: Bytes, data1: Bytes, table: Option<Table>, labels: Name)
    requires floor <= start <= |data| && data <= data1 && |labels| > 1
    requires table.Some? && Usable(data, floor, table.value, start, |labels|)
    ensures Usable(data1, floor, Recorded(data, table, labels).value, start, |labels| - 1)
  {
    var recorded := Recorded(data, table, labels).value;
    forall k | k in recorded && |k| <= |labels| - 1
      ensures recorded[k] < start && Spelled(data1, floor, k, recorded[k])
    {
      assert k in table.value;
      SpelledKept(data, data1, floor, k, table.value[k]);
    }
  }

  /** One label in front of a tail that reads back. */
  lemma LabelReads(floor: nat, start: nat, data: Bytes, out: Bytes, labels: Name, canonicalize: bool)
    requires floor <= start <= |data| && ShortLabels(labels) && |labels| > 1 && labels[0] != []
    requires data + LabelBytes(labels[0], canonicalize) <= out
    requires Reads(floor, start, |data| + 1 + |labels[0]|, out, labels[1..])
    ensures Reads(floor, start, |data|, out, labels)
  {
    var bytes := LabelBytes(labels[0], canonicalize);
    var after := |data| + |bytes|;
    assert out[|data|..after] == bytes;
    assert out[|data|] == |labels[0]|;
    assert out[|data| + 1..after] == bytes[1..];
    LowerIdempotent(labels[0]);
    var d := Decode(out, start, |data|);
    FoldTail(labels);
    FoldTail(d.labels);
    assert d.labels[1..] == Decode(out, start, after).labels;
  }

  // ---------------------------------------------------------------- whole names

  /** `name` reads back, up to case, from the octets of `out` that begin at `start`: reading
      uses them all and nothing below `floor`. */
  ghost predicate ReadsBack(floor: nat, out: Bytes, start: nat, end: nat, name: Name)
    requires start <= |out|
  {
    var d := ReadName(out, start);
    d.Good? && SameName(d.labels, name) && d.next == end && floor <= d.low
  }

  /** Writing one absolute name with a good table: the name reads back from where it began
      and the table stays good. */
  lemma NameRoundTrip(floor: nat, data: Bytes, table: Option<Table>, name: Name, canonicalize: bool)
    requires floor <= |data|
    requires ValidName(name) && IsAbsolute(name)
    requires table.Some? ==> TableOk(data, floor, table.value)
    ensures var out := Emit(data, table, name, canonicalize);
            && ReadsBack(floor, out.0, |data|, |out.0|, name)
            && (table.Some? ==>
                  TableOk(out.0, floor, out.1.value)
                  && Extends(floor, data, table.value, out.0, out.1.value))
  {
    hide Decode, Emit;
    EmitReads(floor, |data|, data, table, name, canonicalize);
    var out := Emit(data, table, name, canonicalize);
    SameNameRelativity(Decode(out.0, |data|, |data|).labels, name);
    if table.Some? {
      TableExtended(floor, data, table.value, out.0, out.1.value);
    }
  }

  lemma TableExtended(floor: nat, data: Bytes, table: Table, data': Bytes, table': Table)
    requires floor <= |data| && TableOk(data, floor, table)
    requires Extends(floor, data, table, data', table')
    ensures TableOk(data', floor, table')
  {
    TableKept(data, data', floor, table);
    forall k | k in table' ensures |k| >= 2 && Spelled(data', floor, k, table'[k]) {
      if k in table {
        assert table'[k] == table[k];
      }
    }
  }

  /** A name that was read stays readable while the buffer grows. */
  lemma ReadNameKept(floor: nat, d: Bytes, e: Bytes, start: nat)
    requires floor <= start <= |d| && ReadName(d, start).Good? && floor <= ReadName(d, start).low
    requires |d| <= |e| && d[floor..] == e[floor..|d|]
    ensures ReadName(e, start) == ReadName(d, start)
  {
    assert d[floor..|d|] == d[floor..];
    DecodeLocal(d, e, start, start, floor, |d|);
  }

  /** Names interleaved with other octets, written through one table. */
  datatype Item = NameItem(name: Name) | Octets(bytes: Bytes)

  predicate WritableItem(item: Item) {
    item.NameItem? ==> ValidName(item.name) && IsAbsolute(item.name)
  }

  predicate Writable(items: seq<Item>) {
    forall i :: 0 <= i < |items| ==> WritableItem(items[i])
  }

  function EmitItem(data: Bytes, table: Option<Table>, item: Item, canonicalize: bool): (r: (Bytes, Option<Table>))
    requires WritableItem(item)
    ensures data <= r.0 && r.1.Some? == table.Some?
  {
    match item
    case NameItem(name) => Emit(data, table, name, canonicalize)
    case Octets(bytes) => (data + bytes, table)
  }

  function EmitItems(data: Bytes, table: Option<Table>, items: seq<Item>, canonicalize: bool)
    : (r: (Bytes, Option<Table>))
    requires Writable(items)
    ensures data <= r.0 && r.1.Some? == table.Some?
    decreases |items|
  {
    if items == [] then (data, table)
    else
      var first := EmitItem(data, table, items[0], canonicalize);
      EmitItems(first.0, first.1, items[1..], canonicalize)
  }

  /** Every name written to a buffer through one shared table, whatever else is written
      between, reads back from its own start offset, up to case, and reading it ends
      exactly where that name ended. */
  lemma {:induction false} SharedTableRoundTrip(floor: nat, data: Bytes, table: Option<Table>, items: seq<Item>,
                                                canonicalize: bool, i: nat)
    requires floor <= |data| && Writable(items) && i < |items| && items[i].NameItem?
    requires table.Some? ==> TableOk(data, floor, table.value)
    ensures var start := |EmitItems(data, table, items[..i], canonicalize).0|;
            var end := |EmitItems(data, table, items[..i + 1], canonicalize).0|;
            var final := EmitItems(data, table, items, canonicalize);
            && start <= end <= |final.0|
            && ReadsBack(floor, final.0, start, end, items[i].name)
    decreases |items|
  {
    hide Decode, Emit, ReadName;
    var first := EmitItem(data, table, items[0], canonicalize);
    var rest := items[1..];
    assert items[..i + 1][0] == items[0] && items[..i + 1][1..] == rest[..i];
    if i == 0 {
      assert items[..1][1..] == [];
      assert EmitItems(data, table, items[..1], canonicalize) == EmitItems(first.0, first.1, [], canonicalize) == first;
      NameRoundTrip(floor, data, table, items[0].name, canonicalize);
      ReadNameKept(floor, first.0, EmitItems(first.0, first.1, rest, canonicalize).0, |data|);
    } else {
      assert items[..i][0] == items[0] && items[..i][1..] == rest[..i - 1];
      EmitItemTable(floor, data, table, items[0], canonicalize);
      SharedTableRoundTrip(floor, first.0, first.1, rest, canonicalize, i - 1);
    }
  }

  lemma EmitItemTable(floor: nat, data: Bytes, table: Option<Table>, item: Item, canonicalize: bool)
    requires floor <= |data| && WritableItem(item)
    requires table.Some? ==> TableOk(data, floor, table.value)
    ensures var out := EmitItem(data, table, item, canonicalize);
            table.Some? ==> TableOk(out.0, floor, out.1.value) && Extends(floor, data, table.value, out.0, out.1.value)
  {
    match item {
      case NameItem(name) => NameRoundTrip(floor, data, table, name, canonicalize);
      case Octets(bytes) => if table.Some? { TableKept(data, data + bytes, floor, table.value); }
    }
  }

  /** The table invariant survives any sequence of writes, which only add entries, at or
      after the old end of the buffer. */
  lemma {:induction false} EmitItemsTable(floor: nat, data: Bytes, table: Option<Table>, items: seq<Item>,
                                          canonicalize: bool)
    requires floor <= |data| && Writable(items)
    requires table.Some? ==> TableOk(data, floor, table.value)
    ensures var out := EmitItems(data, table, items, canonicalize);
            table.Some? ==> TableOk(out.0, floor, out.1.value) && Extends(floor, data, table.value, out.0, out.1.value)
    decreases |items|
  {
    if items != [] {
      var first := EmitItem(data, table, items[0], canonicalize);
      EmitItemTable(floor, data, table, items[0], canonicalize);
      EmitItemsTable(floor, first.0, first.1, items[1..], canonicalize);
      if table.Some? {
        var out := EmitItems(first.0, first.1, items[1..], canonicalize);
        ExtendsTrans(floor, data, table.value, first.0, first.1.value, out.0, out.1.value);
      }
    }
  }

  lemma ExtendsTrans(floor: nat, d0: Bytes, t0: Table, d1: Bytes, t1: Table, d2: Bytes, t2: Table)
    requires Extends(floor, d0, t0, d1, t1) && Extends(floor, d1, t1, d2, t2)
    requires TableOk(d2, floor, t2)
    ensures Extends(floor, d0, t0, d2, t2)
  {
    forall k | k in t2 && k !in t0 ensures |k| >= 2 && t2[k] >= |d0| && Spelled(d2, floor, k, t2[k]) {
      if k in t1 {
        assert t2[k] == t1[k] >= |d0|;
      }
    }
    forall k | k in t0 ensures k in t2 && t2[k] == t0[k] {
      assert k in t1 && t1[k] == t0[k];
    }
  }

  // ---------------------------------------------------------------- position is all that matters

  lemma TailSplit(x: Bytes, prefix: Bytes, n: nat)
    requires prefix <= x && n <= |prefix|
    ensures x[n..] == prefix[n..] + x[|prefix|..]
  {
    assert x == prefix + x[|prefix|..];
  }

  /** What is appended depends on the length of the buffer and the table, not on the octets
      already there; so a field patched afterwards might as well have been right from the
      start. */
  lemma {:induction false} EmitShift(d: Bytes, e: Bytes, table: Option<Table>, labels: Name, canonicalize: bool)
    requires |d| == |e| && ShortLabels(labels)
    ensures var x, y := Emit(d, table, labels, canonicalize), Emit(e, table, labels, canonicalize);
            x.1 == y.1 && |x.0| == |y.0| && x.0[|d|..] == y.0[|d|..]
    decreases |labels|
  {
    if labels != [] && !(table.Some? && Fold(labels) in table.value) {
      var bytes := LabelBytes(labels[0], canonicalize);
      var recorded := Recorded(d, table, labels);
      assert recorded == Recorded(e, table, labels);
      EmitShift(d + bytes, e + bytes, recorded, labels[1..], canonicalize);
      var x := Emit(d + bytes, recorded, labels[1..], canonicalize);
      var y := Emit(e + bytes, recorded, labels[1..], canonicalize);
      TailSplit(x.0, d + bytes, |d|);
      TailSplit(y.0, e + bytes, |d|);
    }
  }

  lemma {:induction false} EmitItemsShift(d: Bytes, e: Bytes, table: Option<Table>, items: seq<Item>,
                                          canonicalize: bool)
    requires |d| == |e| && Writable(items)
    ensures var x, y := EmitItems(d, table, items, canonicalize), EmitItems(e, table, items, canonicalize);
            x.1 == y.1 && |x.0| == |y.0| && x.0[|d|..] == y.0[|d|..]
    decreases |items|
  {
    if items != [] {
      var d1 := EmitItem(d, table, items[0], canonicalize);
      var e1 := EmitItem(e, table, items[0], canonicalize);
      if items[0].NameItem? {
        EmitShift(d, e, table, items[0].name, canonicalize);
      }
      EmitItemsShift(d1.0, e1.0, d1.1, items[1..], canonicalize);
      var x, y := EmitItems(d, table, items, canonicalize), EmitItems(e, table, items, canonicalize);
      TailSplit(x.0, d1.0, |d|);
      TailSplit(y.0, e1.0, |d|);
    }
  }

  // ---------------------------------------------------------------- what the reader accepts

  /** A compressed name as RFC 1035 describes it: runs of plain labels, each run but the
      last ending in a pointer to where the next begins, the last in a zero octet. */
  datatype Chain =
    | Stop(run: seq<Label>)
    | Jump(run: seq<Label>, target: nat, rest: Chain)

  function ChainName(c: Chain): Name {
    match c
    case Stop(run) => run + [[]]
    case Jump(run, _, rest) => run + ChainName(rest)
  }

  /** Labels as they stand in the buffer: a length octet and the label's own octets. */
  function PlainLabels(run: seq<Label>): (r: Bytes)
    requires forall i :: 0 <= i < |run| ==> |run[i]| <= 63
  {
    if run == [] then [] else [|run[0]|] + run[0] + PlainLabels(run[1..])
  }

  predicate PlainRun(run: seq<Label>) {
    forall i :: 0 <= i < |run| ==> 0 < |run[i]| <= 63
  }

  /** The offset in the two octets of a pointer. */
  function PointsTo(hi: int, lo: int): int {
    (hi - 0xC0) * 0x100 + lo
  }

  /** `c` is laid out in `data` with its first run at `from`; `limit` bounds its first
      pointer, and every later pointer must be below the one before. */
  ghost predicate LaidOut(data: Bytes, limit: nat, from: nat, c: Chain)
    decreases c
  {
    PlainRun(c.run) && RunAt(data, from, c.run) && Ends(data, limit, from + |PlainLabels(c.run)|, c)
  }

  ghost predicate RunAt(data: Bytes, from: nat, run: seq<Label>)
    requires PlainRun(run)
  {
    from + |PlainLabels(run)| < |data| && data[from..from + |PlainLabels(run)|] == PlainLabels(run)
  }

  ghost predicate Ends(data: Bytes, limit: nat, to: nat, c: Chain)
    requires to < |data|
    decreases c, 0
  {
    match c
    case Stop(_) => data[to] == 0
    case Jump(_, target, rest) =>
      && to + 1 < |data| && data[to] >= 0xC0
      && target == PointsTo(data[to], data[to + 1]) < limit
      && LaidOut(data, target, target, rest)
  }

  function Prepend(leaf: Label, c: Chain): Chain {
    if c.Stop? then Stop([leaf] + c.run) else Jump([leaf] + c.run, c.target, c.rest)
  }

  function Tail(c: Chain): (r: Chain)
    requires c.run != []
    ensures Prepend(c.run[0], r) == c
  {
    var r := if c.Stop? then Stop(c.run[1..]) else Jump(c.run[1..], c.target, c.rest);
    assert [c.run[0]] + r.run == c.run;
    r
  }

  /** The chain a successful reading follows. */
  function ChainOf(data: Bytes, limit: nat, pos: nat): (c: Chain)
    requires limit <= |data| && Decode(data, limit, pos).Good?
    decreases limit, |data| - pos
  {
    var count := data[pos];
    if count == 0 then Stop([])
    else if count < 64 then Prepend(data[pos + 1..pos + 1 + count], ChainOf(data, limit, pos + 1 + count))
    else
      var target := Target(count, data[pos + 1]);
      Jump([], target, ChainOf(data, target, target))
  }

  lemma RunAtCons(data: Bytes, pos: nat, leaf: Label, run: seq<Label>)
    requires 0 < |leaf| <= 63 && PlainRun(run)
    ensures PlainRun([leaf] + run) && |PlainLabels([leaf] + run)| == 1 + |leaf| + |PlainLabels(run)|
    ensures RunAt(data, pos, [leaf] + run) <==>
            && pos + 1 + |leaf| <= |data|
            && data[pos..pos + 1 + |leaf|] == [|leaf|] + leaf
            && RunAt(data, pos + 1 + |leaf|, run)
  {
    assert ([leaf] + run)[1..] == run;
    var head: Bytes, tail := [|leaf|] + leaf, PlainLabels(run);
    var after := pos + |head|;
    if after + |tail| < |data| {
      var both := data[pos..after + |tail|];
      assert both == data[pos..after] + data[after..after + |tail|];
      if both == head + tail {
        assert both[..|head|] == head && both[|head|..] == tail;
      }
    }
  }

  lemma PrependLaidOut(data: Bytes, limit: nat, pos: nat, leaf: Label, c: Chain)
    requires 0 < |leaf| <= 63
    ensures ChainName(Prepend(leaf, c)) == [leaf] + ChainName(c)
    ensures LaidOut(data, limit, pos, Prepend(leaf, c)) <==>
            && pos + 1 + |leaf| <= |data|
            && data[pos..pos + 1 + |leaf|] == [|leaf|] + leaf
            && LaidOut(data, limit, pos + 1 + |leaf|, c)
  {
    var run := [leaf] + c.run;
    assert PlainRun(run) <==> PlainRun(c.run) by {
      assert forall i :: 0 <= i < |c.run| ==> run[i + 1] == c.run[i];
    }
    if PlainRun(c.run) {
      RunAtCons(data, pos, leaf, c.run);
    }
  }

  /** A pointer of a reading, without unfolding what it leads to. */
  lemma DecodeJump(data: Bytes, limit: nat, pos: nat)
    requires limit <= |data| && pos < |data| && data[pos] >= 64
    ensures Decode(data, limit, pos).Good? <==>
            && data[pos] >= 0xC0 && pos + 1 < |data|
            && var target := PointsTo(data[pos], data[pos + 1]);
               target < limit && Decode(data, target, target).Good?
    ensures Decode(data, limit, pos).Good? ==>
            var target := Target(data[pos], data[pos + 1]);
            && target == PointsTo(data[pos], data[pos + 1])
            && Decode(data, limit, pos).labels == Decode(data, target, target).labels
            && Decode(data, limit, pos).next == Max(pos + 2, Decode(data, target, target).next)
  {
  }

  lemma JumpLaidOut(data: Bytes, limit: nat, pos: nat, target: nat, rest: Chain)
    ensures LaidOut(data, limit, pos, Jump([], target, rest)) <==>
            && pos + 1 < |data| && data[pos] >= 0xC0
            && target == PointsTo(data[pos], data[pos + 1]) < limit && LaidOut(data, target, target, rest)
    ensures ChainName(Jump([], target, rest)) == ChainName(rest)
  {
    assert pos < |data| ==> data[pos..pos] == [];
  }

  lemma StopLaidOut(data: Bytes, limit: nat, pos: nat)
    ensures LaidOut(data, limit, pos, Stop([])) <==> pos < |data| && data[pos] == 0
    ensures ChainName(Stop([])) == [[]]
  {
    assert pos < |data| ==> data[pos..pos] == [];
  }

  lemma DecodeStop(data: Bytes, limit: nat, pos: nat)
    requires limit <= |data|
    ensures pos >= |data| ==> Decode(data, limit, pos).Bad?
    ensures pos < |data| && data[pos] == 0 ==> Decode(data, limit, pos) == Good([[]], pos + 1, pos)
  {
  }

  lemma {:induction false} DecodeSound(data: Bytes, limit: nat, pos: nat)
    requires limit <= |data| && Decode(data, limit, pos).Good?
    ensures LaidOut(data, limit, pos, ChainOf(data, limit, pos))
    ensures ChainName(ChainOf(data, limit, pos)) == Decode(data, limit, pos).labels
    decreases limit, |data| - pos
  {
    hide LaidOut, Decode, ChainName, Target;
    DecodeStop(data, limit, pos);
    var count := data[pos];
    if count == 0 {
      StopLaidOut(data, limit, pos);
    } else if count < 64 {
      var after := pos + 1 + count;
      DecodeLabel(data, limit, pos);
      DecodeSound(data, limit, after);
      LabelSound(data, limit, pos, ChainOf(data, limit, after));
    } else {
      DecodeJump(data, limit, pos);
      var target := Target(count, data[pos + 1]);
      DecodeSound(data, target, target);
      JumpLaidOut(data, limit, pos, target, ChainOf(data, target, target));
    }
  }

  /** One label of a reading, without unfolding the rest. */
  lemma DecodeLabel(data: Bytes, limit: nat, pos: nat)
    requires limit <= |data| && pos < |data| && 0 < data[pos] < 64
    ensures var after := pos + 1 + data[pos];
            && (Decode(data, limit, pos).Good? <==> after <= |data| && Decode(data, limit, after).Good?)
            && (Decode(data, limit, pos).Good? ==>
                  && Decode(data, limit, pos).labels == [data[pos + 1..after]] + Decode(data, limit, after).labels
                  && Decode(data, limit, pos).next == Decode(data, limit, after).next)
  {
  }

  lemma LabelSound(data: Bytes, limit: nat, pos: nat, c: Chain)
    requires pos < |data| && 0 < data[pos] < 64 && pos + 1 + data[pos] <= |data|
    requires LaidOut(data, limit, pos + 1 + data[pos], c)
    ensures LaidOut(data, limit, pos, Prepend(data[pos + 1..pos + 1 + data[pos]], c))
    ensures ChainName(Prepend(data[pos + 1..pos + 1 + data[pos]], c))
      == [data[pos + 1..pos + 1 + data[pos]]] + ChainName(c)
  {
    var after := pos + 1 + data[pos];
    hide LaidOut;
    assert data[pos..after] == [data[pos]] + data[pos + 1..after];
    PrependLaidOut(data, limit, pos, data[pos + 1..after], c);
  }

  /** The first label of a run is where the chain begins, and the rest of the chain follows. */
  lemma FirstLabel(data: Bytes, limit: nat, pos: nat, c: Chain)
    requires LaidOut(data, limit, pos, c) && c.run != []
    ensures var leaf := c.run[0];
            && 0 < |leaf| <= 63 && pos + 1 + |leaf| <= |data|
            && data[pos] == |leaf| && data[pos + 1..pos + 1 + |leaf|] == leaf
            && LaidOut(data, limit, pos + 1 + |leaf|, Tail(c))
            && ChainName(c) == [leaf] + ChainName(Tail(c))
  {
    var leaf := c.run[0];
    var after := pos + 1 + |leaf|;
    PrependLaidOut(data, limit, pos, leaf, Tail(c));
    assert data[pos..after] == [|leaf|] + leaf;
    assert data[pos] == data[pos..after][0] == |leaf|;
    assert data[pos + 1..after] == data[pos..after][1..] == leaf;
  }

  lemma {:induction false} DecodeComplete(data: Bytes, limit: nat, pos: nat, c: Chain)
    requires limit <= |data| && LaidOut(data, limit, pos, c)
    ensures Decode(data, limit, pos).Good?
    ensures Decode(data, limit, pos).labels == ChainName(c)
    decreases limit, |data| - pos
  {
    hide LaidOut, ChainName, Decode, Target;
    if c.run == [] {
      if c.Jump? {
        assert c == Jump([], c.target, c.rest);
        JumpLaidOut(data, limit, pos, c.target, c.rest);
        DecodeComplete(data, c.target, c.target, c.rest);
        DecodeJump(data, limit, pos);
      } else {
        assert c == Stop([]);
        StopLaidOut(data, limit, pos);
        DecodeStop(data, limit, pos);
      }
    } else {
      FirstLabel(data, limit, pos, c);
      DecodeComplete(data, limit, pos + 1 + |c.run[0]|, Tail(c));
      DecodeLabel(data, limit, pos);
    }
  }

  /** Where the octets of a chain end: behind its last zero, or behind a pointer, whichever is
      furthest. */
  function Furthest(from: nat, c: Chain): (n: nat)
    requires forall i :: 0 <= i < |c.run| ==> |c.run[i]| <= 63
    requires c.Jump? ==> ShortChain(c.rest)
    decreases c
  {
    var end := from + |PlainLabels(c.run)|;
    match c
    case Stop(_) => end + 1
    case Jump(_, target, rest) => Max(end + 2, Furthest(target, rest))
  }

  predicate ShortChain(c: Chain) {
    && (forall i :: 0 <= i < |c.run| ==> |c.run[i]| <= 63)
    && (c.Jump? ==> ShortChain(c.rest))
  }

  lemma {:induction false} LaidOutShort(data: Bytes, limit: nat, from: nat, c: Chain)
    requires LaidOut(data, limit, from, c)
    ensures ShortChain(c)
    decreases c
  {
    if c.Jump? {
      LaidOutShort(data, c.target, c.target, c.rest);
    }
  }

  lemma FurthestTail(from: nat, c: Chain)
    requires ShortChain(c) && c.run != []
    ensures ShortChain(Tail(c)) && Furthest(from, c) == Furthest(from + 1 + |c.run[0]|, Tail(c))
  {
    var t := Tail(c);
    assert t.run == c.run[1..];
    assert |PlainLabels(c.run)| == 1 + |c.run[0]| + |PlainLabels(c.run[1..])|;
  }

  /** Reading goes on from there. */
  lemma {:induction false} DecodeNext(data: Bytes, limit: nat, pos: nat, c: Chain)
    requires limit <= |data| && LaidOut(data, limit, pos, c) && ShortChain(c)
    ensures Decode(data, limit, pos).Good? && Decode(data, limit, pos).next == Furthest(pos, c)
    decreases limit, |data| - pos
  {
    hide LaidOut, ChainName, Decode, Target;
    DecodeComplete(data, limit, pos, c);
    if c.run == [] {
      if c.Jump? {
        assert c == Jump([], c.target, c.rest);
        JumpLaidOut(data, limit, pos, c.target, c.rest);
        DecodeNext(data, c.target, c.target, c.rest);
        DecodeJump(data, limit, pos);
      } else {
        assert c == Stop([]);
        StopLaidOut(data, limit, pos);
        DecodeStop(data, limit, pos);
      }
    } else {
      FirstLabel(data, limit, pos, c);
      FurthestTail(pos, c);
      DecodeNext(data, limit, pos + 1 + |c.run[0]|, Tail(c));
      DecodeLabel(data, limit, pos);
    }
  }

  /** Exactly which octets are a name: on every buffer and start offset, reading succeeds
      if and only if some chain of runs with strictly decreasing pointers is laid out there
      and its name is at most 255 octets long; and it yields that chain's name. */
  lemma ReadNameIff(data: Bytes, start: nat)
    requires start <= |data|
    ensures ReadName(data, start).Good? <==>
            exists c :: LaidOut(data, start, start, c) && WireLength(ChainName(c)) <= 255
    ensures forall c :: LaidOut(data, start, start, c) && WireLength(ChainName(c)) <= 255 ==>
                        ReadName(data, start).Good? && ReadName(data, start).labels == ChainName(c)
  {
    if Decode(data, start, start).Good? {
      DecodeSound(data, start, start);
      DecodeShape(data, start, start);
    }
    forall c | LaidOut(data, start, start, c)
      ensures Decode(data, start, start).Good? && Decode(data, start, start).labels == ChainName(c)
    {
      DecodeComplete(data, start, start, c);
    }
  }

  /** What is wrong with octets that are no name, at the first place where they go wrong: they
      end too early, a length octet has a type without meaning, or a pointer does not lead
      back. */
  lemma DecodeErrors(data: Bytes, limit: nat, pos: nat)
    requires limit <= |data|
    ensures pos >= |data| ==> Decode(data, limit, pos) == Bad(FormError, pos)
    ensures pos < |data| && 64 <= data[pos] < 192 ==> Decode(data, limit, pos) == Bad(BadLabelType, pos + 1)
    ensures pos < |data| && 0 < data[pos] < 64 ==>
              var after := pos + 1 + data[pos];
              if after > |data| then Decode(data, limit, pos) == Bad(FormError, pos + 1)
              else Decode(data, limit, after).Bad? ==> Decode(data, limit, pos) == Decode(data, limit, after)
    ensures pos < |data| && data[pos] >= 192 ==>
              if pos + 1 == |data| then Decode(data, limit, pos) == Bad(FormError, pos + 1)
              else
                var target := PointsTo(data[pos], data[pos + 1]);
                if target >= limit then Decode(data, limit, pos) == Bad(BadPointer, pos + 2)
                else Decode(data, target, target).Bad? ==>
                       && Decode(data, limit, pos).Bad?
                       && Decode(data, limit, pos).error == Decode(data, target, target).error
  {
    if pos + 1 < |data| && data[pos] >= 192 {
      assert Target(data[pos], data[pos + 1]) == PointsTo(data[pos], data[pos + 1]);
    }
  }

  // ---------------------------------------------------------------- which octets are written

  /** No suffix of a name that begins before label `i` has an entry. */
  predicate NoneBefore(t: Table, n: Name, i: nat)
    requires i <= |n|
  {
    forall j :: 0 <= j < i ==> Fold(n[j..]) !in t
  }

  /** The octets of a name up to label `i`, and a pointer in place of the rest, if any. */
  function Shortened(t: Table, n: Name, i: nat, canonicalize: bool): Bytes
    requires ShortLabels(n) && i <= |n| && (i < |n| ==> Fold(n[i..]) in t)
  {
    PlainLabels(if canonicalize then Fold(n)[..i] else n[..i])
    + if i < |n| then [0xC0 + t[Fold(n[i..])] / 0x100, t[Fold(n[i..])] % 0x100] else []
  }

  /** What is written for a name: its labels as they are, or in lower case, up to the longest
      suffix that has an entry, and for that suffix the two octets of a pointer to it; without
      a table, or without such a suffix, all labels. */
  lemma {:induction false} EmitOctets(data: Bytes, t: Table, n: Name, i: nat, canonicalize: bool)
    requires ShortLabels(n) && i <= |n| && NoneBefore(t, n, i) && (i < |n| ==> Fold(n[i..]) in t)
    ensures Emit(data, Some(t), n, canonicalize).0 == data + Shortened(t, n, i, canonicalize)
    decreases |n|
  {
    hide Fold, NoneBefore, ShortLabels, Shortened, Recorded;
    if i == 0 {
      PointerOnly(data, t, n, canonicalize);
    } else {
      EmitStart(data, t, n, i, canonicalize);
      var recorded := Recorded(data, Some(t), n).value;
      EmitOctets(data + LabelBytes(n[0], canonicalize), recorded, n[1..], i - 1, canonicalize);
      ShortenedStep(t, recorded, n, i, canonicalize);
    }
  }

  /** Without a table: all labels, each behind its length. */
  lemma {:induction false} PlainOctets(data: Bytes, n: Name, canonicalize: bool)
    requires ShortLabels(n)
    ensures Emit(data, None, n, canonicalize) == (data + PlainLabels(if canonicalize then Fold(n) else n), None)
    decreases |n|
  {
    if n == [] {
      assert data + [] == data;
    } else {
      var whole := if canonicalize then Fold(n) else n;
      var rest := if canonicalize then Fold(n[1..]) else n[1..];
      assert whole[1..] == rest;
      var head := LabelBytes(n[0], canonicalize);
      PlainOctets(data + head, n[1..], canonicalize);
      assert data + head + PlainLabels(rest) == data + (head + PlainLabels(rest));
    }
  }

  lemma PointerOnly(data: Bytes, t: Table, n: Name, canonicalize: bool)
    requires ShortLabels(n) && (n != [] ==> Fold(n[0..]) in t)
    ensures Emit(data, Some(t), n, canonicalize).0 == data + Shortened(t, n, 0, canonicalize)
  {
    assert n[0..] == n;
    if n == [] {
      assert data + Shortened(t, n, 0, canonicalize) == data;
    } else {
      assert PlainLabels([]) == [] && Fold(n)[..0] == [] && n[..0] == [];
    }
  }

  /** The first label of a name without an entry of its own. */
  lemma EmitStart(data: Bytes, t: Table, n: Name, i: nat, canonicalize: bool)
    requires ShortLabels(n) && 0 < i <= |n| && NoneBefore(t, n, i) && (i < |n| ==> Fold(n[i..]) in t)
    ensures var recorded := Recorded(data, Some(t), n);
            && recorded.Some? && |n[0]| <= 63 && Fold(n) !in t
            && ShortLabels(n[1..]) && NoneBefore(recorded.value, n[1..], i - 1)
            && (i < |n| ==> Fold(n[1..][i - 1..]) in recorded.value && Fold(n[i..]) in recorded.value
                            && recorded.value[Fold(n[i..])] == t[Fold(n[i..])])
            && Emit(data, Some(t), n, canonicalize)
               == Emit(data + LabelBytes(n[0], canonicalize), recorded, n[1..], canonicalize)
  {
    assert n[0..] == n;
    var recorded := Recorded(data, Some(t), n).value;
    forall j | 0 <= j < i - 1 ensures Fold(n[1..][j..]) !in recorded {
      assert n[1..][j..] == n[j + 1..];
      assert |Fold(n[j + 1..])| < |Fold(n)|;
    }
    if i < |n| {
      assert n[1..][i - 1..] == n[i..];
    }
  }

  lemma ShortenedStep(t: Table, recorded: Table, n: Name, i: nat, canonicalize: bool)
    requires ShortLabels(n) && 0 < i <= |n| && ShortLabels(n[1..])
    requires i < |n| ==> Fold(n[i..]) in t && Fold(n[i..]) in recorded && recorded[Fold(n[i..])] == t[Fold(n[i..])]
    requires i < |n| ==> Fold(n[1..][i - 1..]) in recorded
    ensures Shortened(t, n, i, canonicalize)
            == LabelBytes(n[0], canonicalize) + Shortened(recorded, n[1..], i - 1, canonicalize)
  {
    var whole := if canonicalize then Fold(n)[..i] else n[..i];
    var rest := if canonicalize then Fold(n[1..])[..i - 1] else n[1..][..i - 1];
    assert whole[1..] == rest;
    if i < |n| {
      assert n[1..][i - 1..] == n[i..];
    }
  }

  /** The key of a suffix of two labels or more, among the first `i`, that went to an offset a
      pointer can hold. */
  predicate InReach(size: nat, n: Name, j: nat)
    requires j <= |n|
  {
    |n| - j >= 2 && size + WireLength(n[..j]) <= 0x3FFF
  }

  /** What a name leaves in the table: each suffix of two labels or more that was written out,
      at the offset where its first octet went, if a pointer can hold that; nothing else is
      new, and nothing is forgotten. */
  ghost predicate Remembers(t: Table, after: Table, size: nat, n: Name, i: nat)
    requires i <= |n|
  {
    && (forall j :: 0 <= j < i && InReach(size, n, j) ==>
          Fold(n[j..]) in after && after[Fold(n[j..])] == size + WireLength(n[..j]))
    && (forall k :: k in t ==> k in after && after[k] == t[k])
    && (forall k :: k in after && k !in t ==> exists j :: 0 <= j < i && InReach(size, n, j) && k == Fold(n[j..]))
  }

  lemma {:induction false} EmitEntries(data: Bytes, t: Table, n: Name, i: nat, canonicalize: bool)
    requires ShortLabels(n) && i <= |n| && NoneBefore(t, n, i) && (i < |n| ==> Fold(n[i..]) in t)
    ensures Emit(data, Some(t), n, canonicalize).1.Some?
    ensures Remembers(t, Emit(data, Some(t), n, canonicalize).1.value, |data|, n, i)
    decreases |n|
  {
    hide Remembers, Recorded, Fold, NoneBefore, ShortLabels;
    if i == 0 {
      NothingNew(data, t, n, canonicalize);
    } else {
      EmitStart(data, t, n, i, canonicalize);
      var recorded := Recorded(data, Some(t), n).value;
      var data1 := data + LabelBytes(n[0], canonicalize);
      EmitEntries(data1, recorded, n[1..], i - 1, canonicalize);
      RemembersStep(data, t, Emit(data1, Some(recorded), n[1..], canonicalize).1.value, n, i);
    }
  }

  lemma NothingNew(data: Bytes, t: Table, n: Name, canonicalize: bool)
    requires ShortLabels(n) && (n != [] ==> Fold(n[0..]) in t)
    ensures Emit(data, Some(t), n, canonicalize).1 == Some(t) && Remembers(t, t, |data|, n, 0)
  {
    assert n[0..] == n;
  }

  lemma RemembersStep(data: Bytes, t: Table, after: Table, n: Name, i: nat)
    requires 0 < i <= |n| && Fold(n) !in t
    requires Remembers(Recorded(data, Some(t), n).value, after, |data| + 1 + |n[0]|, n[1..], i - 1)
    ensures Remembers(t, after, |data|, n, i)
  {
    var size, recorded := |data|, Recorded(data, Some(t), n).value;
    assert n[0..] == n && n[..0] == [];
    forall j | 0 <= j < i && InReach(size, n, j)
      ensures Fold(n[j..]) in after && after[Fold(n[j..])] == size + WireLength(n[..j])
    {
      if j == 0 {
        assert Fold(n) in recorded;
      } else {
        ReachStep(size, n, j);
      }
    }
    forall k | k in t ensures k in after && after[k] == t[k] {
      assert k in recorded && recorded[k] == t[k];
    }
    forall k | k in after && k !in t ensures exists j :: 0 <= j < i && InReach(size, n, j) && k == Fold(n[j..]) {
      if k in recorded {
        assert InReach(size, n, 0) && k == Fold(n[0..]);
      } else {
        var j :| 0 <= j < i - 1 && InReach(size + 1 + |n[0]|, n[1..], j) && k == Fold(n[1..][j..]);
        ReachStep(size, n, j + 1);
      }
    }
  }

  lemma ReachStep(size: nat, n: Name, j: nat)
    requires 0 < j <= |n|
    ensures n[1..][j - 1..] == n[j..] && size + WireLength(n[..j]) == size + 1 + |n[0]| + WireLength(n[1..][..j - 1])
    ensures InReach(size, n, j) <==> InReach(size + 1 + |n[0]|, n[1..], j - 1)
  {
    assert n[..j][1..] == n[1..][..j - 1];
  }

  lemma {:induction false} PlainLength(run: seq<Label>)
    requires ShortLabels(run)
    ensures |PlainLabels(run)| == WireLength(run)
  {
    if run != [] {
      PlainLength(run[1..]);
    }
  }

  /** A name whose longest suffix with an entry begins at label `i` takes the octets of the
      labels before it and two more. */
  lemma CompressedLength(data: Bytes, t: Table, n: Name, i: nat, canonicalize: bool)
    requires ShortLabels(n) && i < |n| && NoneBefore(t, n, i) && Fold(n[i..]) in t
    ensures |Emit(data, Some(t), n, canonicalize).0| == |data| + WireLength(n[..i]) + 2
  {
    EmitOctets(data, t, n, i, canonicalize);
    PlainLength(if canonicalize then Fold(n)[..i] else n[..i]);
    assert Fold(n)[..i] == Fold(n[..i]);
    WireLengthFold(n[..i]);
  }

  /** Two names written one after the other with a fresh table: the second is cut short at
      their longest common suffix, case aside, and points to where the first wrote it. */
  lemma SuffixShared(d1: Bytes, d2: Bytes, a: Name, i: nat, b: Name, j: nat, at: nat)
    requires ShortLabels(a) && ShortLabels(b) && i <= |a| && j <= |b|
    requires |a| - i == |b| - j >= 2 && SameName(a[i..], b[j..])
    requires i > 0 && j > 0 ==> Lower(a[i - 1]) != Lower(b[j - 1])
    requires at == |d1| + WireLength(a[..i]) && at <= 0x3FFF
    ensures Emit(d2, Emit(d1, Some(map[]), a, false).1, b, false).0
            == d2 + PlainLabels(b[..j]) + [0xC0 + at / 0x100, at % 0x100]
  {
    hide *;
    SuffixSplit(a, |a|);
    EmitEntries(d1, map[], a, |a|, false);
    var t := Emit(d1, Some(map[]), a, false).1.value;
    SharedEntry(t, |d1|, a, i, b, j);
    PointedAt(d2, t, b, j, at);
  }

  lemma PointedAt(data: Bytes, t: Table, n: Name, i: nat, at: int)
    requires ShortLabels(n) && i < |n| && NoneBefore(t, n, i) && Fold(n[i..]) in t && t[Fold(n[i..])] == at
    requires 0 <= at <= 0x3FFF
    ensures Emit(data, Some(t), n, false).0 == data + PlainLabels(n[..i]) + [0xC0 + at / 0x100, at % 0x100]
  {
    hide Emit, Fold, NoneBefore, PlainLabels, Shortened;
    EmitOctets(data, t, n, i, false);
    ShortenedAt(t, n, i, at);
    var pointer: Bytes := ShortPointer(at);
    assert data + (PlainLabels(n[..i]) + pointer) == data + PlainLabels(n[..i]) + pointer;
  }

  function ShortPointer(at: int): (r: Bytes)
    requires 0 <= at <= 0x3FFF
    ensures r == [0xC0 + at / 0x100, at % 0x100]
  {
    [0xC0 + at / 0x100, at % 0x100]
  }

  lemma SuffixSplit(n: Name, i: nat)
    requires i == |n|
    ensures NoneBefore(map[], n, i)
  {
  }

  lemma ShortenedAt(t: Table, n: Name, i: nat, at: int)
    requires ShortLabels(n) && i < |n| && Fold(n[i..]) in t && t[Fold(n[i..])] == at
    ensures Shortened(t, n, i, false) == PlainLabels(n[..i]) + ShortPointer(at)
  {
    hide Fold;
  }

  lemma SharedEntry(t: Table, size: nat, a: Name, i: nat, b: Name, j: nat)
    requires Remembers(map[], t, size, a, |a|) && i <= |a| && j <= |b| && |a| - i == |b| - j >= 2
    requires SameName(a[i..], b[j..]) && (i > 0 && j > 0 ==> Lower(a[i - 1]) != Lower(b[j - 1]))
    requires size + WireLength(a[..i]) <= 0x3FFF
    ensures Fold(b[j..]) in t && t[Fold(b[j..])] == size + WireLength(a[..i]) && NoneBefore(t, b, j)
  {
    hide Fold, Lower, WireLength;
    assert InReach(size, a, i);
    forall k | 0 <= k < j ensures Fold(b[k..]) !in t {
      if Fold(b[k..]) in t {
        var m :| 0 <= m < |a| && Fold(b[k..]) == Fold(a[m..]);
        SameFromEnd(a, m, b, k, j - 1);
      }
    }
  }

  /** Names that are the same from some label on have the same labels from there. */
  lemma SameFromEnd(a: Name, m: nat, b: Name, k: nat, l: nat)
    requires m <= |a| && k <= l < |b| && Fold(b[k..]) == Fold(a[m..])
    ensures |a| - m == |b| - k && Lower(a[m + l - k]) == Lower(b[l])
  {
    assert |Fold(b[k..])| == |b| - k && |Fold(a[m..])| == |a| - m;
    assert Fold(b[k..])[l - k] == Lower(b[l]);
    assert Fold(a[m..])[l - k] == Lower(a[m + l - k]);
  }

  /** So a name written a second time takes two octets; www.example. at the start of a buffer
      is C0 00 from then on. */
  lemma NameRepeated(d2: Bytes)
    ensures var n: Name := [[0x77, 0x77, 0x77], [0x65, 0x78, 0x61, 0x6D, 0x70, 0x6C, 0x65], []];
            && |Emit([], Some(map[]), n, false).0| == 13
            && Emit(d2, Emit([], Some(map[]), n, false).1, n, false).0 == d2 + [0xC0, 0x00]
  {
    var n: Name := [[0x77, 0x77, 0x77], [0x65, 0x78, 0x61, 0x6D, 0x70, 0x6C, 0x65], []];
    assert n[..0] == [] && n[0..] == n;
    SuffixShared([], d2, n, 0, n, 0, 0);
    assert d2 + [] == d2;
    EmitOctets([], map[], n, 3, false);
    assert n[..3] == n && n[1..][1..] == [[]] && n[1..][1..][1..] == [];
  }
}
