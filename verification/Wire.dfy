/** The objects of the wire codec: the output file and compression table that
    Name.to_wire updates (dns/name.py), and the parser that reads (dns/wire.py). */
module Wire {
  import opened Common
  import opened Names
  import opened NameWire

  /** `b` written over `d` from offset `pos`, extending it where needed. */
  function Overwrite(d: Bytes, pos: nat, b: Bytes): (r: Bytes)
    requires pos <= |d|
  {
    d[..pos] + b + if pos + |b| <= |d| then d[pos + |b|..] else []
  }

  /** What follows an offset, if there is anything. */
  function Beyond(d: Bytes, pos: nat): Bytes {
    if pos <= |d| then d[pos..] else []
  }

  /** An in-memory binary file: its contents and the position of the next write. */
  class File {
    var data: Bytes
    var pos: nat

    predicate Valid()
      reads this
    {
      pos <= |data|
    }

    /** The next write appends. */
    predicate AtEnd()
      reads this
    {
      pos == |data|
    }

    constructor ()
      ensures Valid() && AtEnd() && data == []
    {
      data, pos := [], 0;
    }

    method Write(b: Bytes)
      requires Valid()
      modifies this
      ensures Valid()
      ensures data == Overwrite(old(data), old(pos), b) && pos == old(pos) + |b|
      ensures data[..pos] == old(data)[..old(pos)] + b && data[pos..] == Beyond(old(data), pos)
      ensures old(AtEnd()) ==> AtEnd() && data == old(data) + b
    {
      data := Overwrite(data, pos, b);
      pos := pos + |b|;
    }

    method Seek(where: nat)
      requires where <= |data|
      modifies this`pos
      ensures Valid() && pos == where
    {
      pos := where;
    }

    method SeekEnd()
      modifies this`pos
      ensures Valid() && AtEnd()
    {
      pos := |data|;
    }

    /** Cut the file at the current position. */
    method Truncate()
      requires Valid()
      modifies this
      ensures Valid() && AtEnd() && data == old(data)[..old(pos)] && pos == old(pos)
    {
      data := data[..pos];
    }
  }

  /** The dict from name suffix to offset that all names of one message share. */
  class Compression {
    var entries: Table

    constructor ()
      ensures entries == map[]
    {
      entries := map[];
    }
  }

  function TableOf(compress: Compression?): Option<Table>
    reads compress
  {
    if compress == null then None else Some(compress.entries)
  }

  method WriteLabel(leaf: Label, file: File, canonicalize: bool)
    requires |leaf| <= MAX_LABEL && file.Valid()
    modifies file
    ensures file.Valid() && file.data[..file.pos] == old(file.data)[..old(file.pos)] + LabelBytes(leaf, canonicalize)
    ensures file.pos >= old(file.pos) && file.data[file.pos..] == Beyond(old(file.data), file.pos)
  {
    file.Write([|leaf|]);
    if |leaf| > 0 {
      file.Write(if canonicalize then Lower(leaf) else leaf);
    }
  }

  /** Name.to_wire with a file: write the name, completed by `origin` when relative, where the
      file is positioned; octets beyond what is written stay.  A name that cannot be completed
      raises before anything is written. */
  method NameToWire(name: Name, file: File, compress: Compression?, origin: Option<Name>, canonicalize: bool)
    returns (r: Result<Name, NameError>)
    requires ValidName(name) && (origin.Some? ==> ValidName(origin.value))
    requires file.Valid()
    modifies file, compress
    ensures file.Valid() && r == Complete(name, origin)
    ensures r.Ok? ==>
      (file.data[..file.pos], TableOf(compress))
      == Emit(old(file.data)[..old(file.pos)], old(TableOf(compress)), r.value, canonicalize)
    ensures r.Ok? ==> file.data[file.pos..] == Beyond(old(file.data), file.pos)
    ensures r.Err? ==>
      file.data == old(file.data) && file.pos == old(file.pos) && TableOf(compress) == old(TableOf(compress))
    ensures old(file.AtEnd()) ==> file.AtEnd()
    ensures old(file.AtEnd()) && r.Ok? ==>
      (file.data, TableOf(compress)) == Emit(old(file.data), old(TableOf(compress)), r.value, canonicalize)
  {
    hide Emit, Fold, LabelBytes, PointerBytes, Overwrite, ShortLabels, Complete, ValidName;
    NameShort(name, origin);
    r := Complete(name, origin);
    if r.Err? {
      return;
    }
    assert r.value[0..] == r.value;
    WholeFile(file.data, file.pos);
    var labels := r.value;
    ghost var final := Emit(file.data[..file.pos], TableOf(compress), labels, canonicalize);
    var i := 0;
    while i < |labels|
      invariant 0 <= i <= |labels| && ShortLabels(labels[i..])
      invariant file.Valid() && file.pos >= old(file.pos) && file.data[file.pos..] == Beyond(old(file.data), file.pos)
      invariant Emit(file.data[..file.pos], TableOf(compress), labels[i..], canonicalize) == final
    {
      var n := labels[i..];
      EmitStep(file.data[..file.pos], TableOf(compress), n, canonicalize);
      assert n[1..] == labels[i + 1..];
      var leaf := labels[i];
      i := i + 1;
      ghost var before, at := file.data, file.pos;
      if compress != null && Fold(n) in compress.entries {
        file.Write(PointerBytes(compress.entries[Fold(n)]));
        BeyondAgain(old(file.data), before, at, file.pos);
        WholeFile(file.data, file.pos);
        return;
      } else {
        if compress != null && |n| > 1 {
          if file.pos <= MAX_OFFSET {
            compress.entries := compress.entries[Fold(n) := file.pos];
          }
        }
        WriteLabel(leaf, file, canonicalize);
        BeyondAgain(old(file.data), before, at, file.pos);
      }
    }
    assert labels[i..] == [];
    EmitNothing(file.data[..file.pos], TableOf(compress), canonicalize);
    WholeFile(file.data, file.pos);
  }

  lemma WholeFile(d: Bytes, pos: nat)
    requires pos <= |d|
    ensures pos == |d| ==> d[..pos] == d
    ensures d[pos..] == [] ==> pos == |d|
  {
  }

  lemma BeyondAgain(d: Bytes, e: Bytes, p: nat, q: nat)
    requires p <= |e| && p <= q && e[p..] == Beyond(d, p)
    ensures Beyond(e, q) == Beyond(d, q)
  {
    if q <= |e| {
      assert e[q..] == e[p..][q - p..];
    }
  }

  lemma NameShort(name: Name, origin: Option<Name>)
    requires ValidName(name) && (origin.Some? ==> ValidName(origin.value))
    ensures Complete(name, origin).Ok? ==> ShortLabels(Complete(name, origin).value)
  {
  }

  lemma EmitNothing(data: Bytes, table: Option<Table>, canonicalize: bool)
    ensures Emit(data, table, [], canonicalize) == (data, table)
  {
  }

  lemma EmitStep(data: Bytes, table: Option<Table>, labels: Name, canonicalize: bool)
    requires ShortLabels(labels) && labels != []
    ensures ShortLabels(labels[1..])
    ensures Emit(data, table, labels, canonicalize)
            == if table.Some? && Fold(labels) in table.value
               then (data + PointerBytes(table.value[Fold(labels)]), table)
               else Emit(data + LabelBytes(labels[0], canonicalize), Recorded(data, table, labels), labels[1..],
                         canonicalize)
  {
  }

  /** A reader over the octets of a message, which may be confined to a prefix. */
  class Parser {
    const wire: Bytes
    var current: nat
    var end: nat
    var furthest: nat

    predicate Valid()
      reads this
    {
      end <= |wire|
    }

    /** Everything read so far was read in order, as between two records of a message. */
    predicate InStep()
      reads this
    {
      current == furthest <= end <= |wire|
    }

    constructor (wire: Bytes)
      ensures this.wire == wire && InStep() && current == 0 && end == |wire|
    {
      this.wire := wire;
      current, end, furthest := 0, |wire|, 0;
    }

    function Remaining(): int
      reads this
    {
      end - current
    }

    method GetBytes(size: nat) returns (r: Result<Bytes, WireError>)
      requires Valid()
      modifies this`current, this`furthest
      ensures size > old(Remaining()) ==>
        r == Err(FormError) && current == old(current) && furthest == old(furthest)
      ensures size <= old(Remaining()) ==>
        && current == old(current) + size <= end
        && r == Ok(wire[old(current)..current])
        && furthest == Max(old(furthest), current)
    {
      if size > end - current {
        return Err(FormError);
      }
      r := Ok(wire[current..current + size]);
      current := current + size;
      furthest := Max(furthest, current);
    }

    method Seek(where: int) returns (r: Result<(), WireError>)
      modifies this`current
      ensures r.Ok? <==> 0 <= where <= end
      ensures r.Ok? ==> current == where
      ensures r.Err? ==> r == Err(FormError) && current == old(current)
    {
      if where < 0 || where > end {
        return Err(FormError);
      }
      current := where;
      r := Ok(());
    }

    /** from_wire_parser: read a possibly compressed name.  Whatever happens, reading goes
        on from the furthest offset reached. */
    method GetName() returns (r: Result<Name, WireError>)
      requires Valid()
      modifies this`current, this`furthest
      ensures current == furthest
      ensures old(current) >= end ==> r == Err(FormError) && furthest == old(furthest)
      ensures old(current) < end ==>
        var d := ReadName(wire[..end], old(current));
        && r == (if d.Good? then Ok(d.labels) else Err(d.error))
        && furthest == Max(old(furthest), d.next)
    {
      hide Decode;
      r := ReadLabels();
      current := furthest;
      assert forall labels: Name :: [] + labels == labels;
      if r.Ok? {
        var checked := ValidateLabels(r.value);
        if checked.Err? {
          r := Err(BadName(checked.error));
        }
      }
    }

    method ReadLabels() returns (r: Result<Name, WireError>)
      requires Valid()
      modifies this`current, this`furthest
      ensures old(current) >= end ==> r == Err(FormError) && furthest == old(furthest)
      ensures old(current) < end ==>
        (r, furthest) == Resumed([], old(furthest), Decode(wire[..end], old(current), old(current)))
    {
      hide Decode;
      ghost var data := wire[..end];
      ghost var start: nat := current;
      var labels: Name := [];
      var biggestPointer: nat := current;
      var octet := GetBytes(1);
      if octet.Err? {
        return Err(FormError);
      }
      var count := octet.value[0];
      ghost var whole := Resumed([], old(furthest), Decode(data, start, start));
      OctetStep(data, start, start, [], old(furthest));
      while count != 0
        invariant Valid() && data == wire[..end]
        invariant biggestPointer < current <= end && current <= furthest && count == data[current - 1]
        invariant Resumed(labels, furthest, Decode(data, biggestPointer, current - 1)) == whole
        decreases biggestPointer, end - current
      {
        var step := ReadElement(count, labels, biggestPointer);
        if step.Err? {
          return Err(step.error);
        }
        labels, biggestPointer := step.value.0, step.value.1;
        OctetStep(data, biggestPointer, current, labels, furthest);
        octet := GetBytes(1);
        if octet.Err? {
          return Err(FormError);
        }
        count := octet.value[0];
      }
      EndStep(data, biggestPointer, current - 1, labels, furthest);
      labels := labels + [[]];
      r := Ok(labels);
    }

    /** One pass of the loop after its count octet: a label is collected, or a pointer
        followed. */
    method ReadElement(count: Byte, labels: Name, biggestPointer: nat) returns (r: Result<(Name, nat), WireError>)
      requires Valid() && biggestPointer < current <= end
      requires current <= furthest && count == wire[current - 1] && count != 0
      modifies this`current, this`furthest
      ensures r.Ok? ==>
        && r.value.1 <= biggestPointer && r.value.1 <= current <= end && current <= furthest
        && (r.value.1 < biggestPointer || (r.value.1 == biggestPointer && old(current) < current))
        && Resumed(labels, old(furthest), Decode(wire[..end], biggestPointer, old(current) - 1))
           == Resumed(r.value.0, furthest, Decode(wire[..end], r.value.1, current))
      ensures r.Err? ==>
        Resumed(labels, old(furthest), Decode(wire[..end], biggestPointer, old(current) - 1))
        == (Err(r.error), furthest)
    {
      hide Decode;
      ghost var data := wire[..end];
      ghost var pos: nat := current - 1;
      if count < 64 {
        LabelStep(data, biggestPointer, pos, labels, furthest);
        var text := GetBytes(count);
        if text.Err? {
          return Err(FormError);
        }
        SliceOfPrefix(wire, end, pos + 1, pos + 1 + count);
        return Ok((labels + [text.value], biggestPointer));
      } else if count >= 192 {
        PointerStep(data, biggestPointer, pos, labels, furthest);
        var octet := GetBytes(1);
        if octet.Err? {
          return Err(FormError);
        }
        var target := Target(count, octet.value[0]);
        assert octet.value[0] == data[pos + 1];
        if target >= biggestPointer {
          return Err(BadPointer);
        }
        var sought := Seek(target);
        assert sought.Ok?;
        return Ok((labels, target));
      } else {
        EndStep(data, biggestPointer, pos, labels, furthest);
        return Err(BadLabelType);
      }
    }
  }

  /** The outcome of a reading that has already produced `labels` and reached `seen`. */
  ghost function Resumed(labels: Name, seen: nat, d: Decoded): (r: (Result<Name, WireError>, nat)) {
    (if d.Good? then Ok(labels + d.labels) else Err(d.error), Max(seen, d.next))
  }

  lemma SliceOfPrefix<T>(s: seq<T>, end: nat, i: nat, j: nat)
    requires i <= j <= end <= |s|
    ensures s[..end][i..j] == s[i..j]
  {
  }

  lemma OctetStep(data: Bytes, limit: nat, pos: nat, labels: Name, seen: nat)
    requires limit <= |data|
    ensures pos < |data| ==>
      Resumed(labels, seen, Decode(data, limit, pos)) == Resumed(labels, Max(seen, pos + 1), Decode(data, limit, pos))
    ensures pos >= |data| ==> Resumed(labels, seen, Decode(data, limit, pos)) == (Err(FormError), Max(seen, pos))
  {
  }

  lemma LabelStep(data: Bytes, limit: nat, pos: nat, labels: Name, seen: nat)
    requires limit <= |data| && pos < |data| && 0 < data[pos] < 64 && pos + 1 <= seen
    ensures var after := pos + 1 + data[pos];
            Resumed(labels, seen, Decode(data, limit, pos)) ==
            if after <= |data|
            then Resumed(labels + [data[pos + 1..after]], Max(seen, after), Decode(data, limit, after))
            else (Err(FormError), seen)
  {
    var after := pos + 1 + data[pos];
    if after <= |data| {
      var d := Decode(data, limit, after);
      if d.Good? {
        assert labels + ([data[pos + 1..after]] + d.labels) == (labels + [data[pos + 1..after]]) + d.labels;
      }
    }
  }

  lemma EndStep(data: Bytes, limit: nat, pos: nat, labels: Name, seen: nat)
    requires limit <= |data| && pos < |data| && pos + 1 <= seen
    ensures data[pos] == 0 ==> Resumed(labels, seen, Decode(data, limit, pos)) == (Ok(labels + [[]]), seen)
    ensures 64 <= data[pos] < 192 ==> Resumed(labels, seen, Decode(data, limit, pos)) == (Err(BadLabelType), seen)
  {
  }

  lemma PointerStep(data: Bytes, limit: nat, pos: nat, labels: Name, seen: nat)
    requires limit <= |data| && pos < |data| && data[pos] >= 192 && pos + 1 <= seen
    ensures Resumed(labels, seen, Decode(data, limit, pos)) ==
            if pos + 1 >= |data| then (Err(FormError), seen)
            else if Target(data[pos], data[pos + 1]) >= limit then (Err(BadPointer), Max(seen, pos + 2))
            else Resumed(labels, Max(seen, pos + 2),
                         Decode(data, Target(data[pos], data[pos + 1]), Target(data[pos], data[pos + 1])))
  {
  }
}
