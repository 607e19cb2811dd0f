/** What one run of the transfer machine over a well-formed stream of records leaves in the
    zone: the replay of the differences of an IXFR. */
module XfrReplay {
  import opened Common
  import opened Names
  import opened ZoneData
  import opened ZoneVersion
  import opened Transactions
  import opened Xfr
  import R = Records

  // ---------------------------------------------------------------- zones as sets of records

  /** Where in the zone a name is. */
  function KeyName(t: Target, name: Name): Name
    requires t.Valid() && ValidName(name) && ValidateName(t.naming, name).Ok?
  {
    Fold(ValidateName(t.naming, name).value)
  }

  /** The records of a set. */
  ghost function RecsOf(t: Target, rr: RRset): iset<Rec>
    requires t.Valid() && InZone(t, rr)
  {
    iset r: Rec | r.name == KeyName(t, rr.name) && r.key == rr.Set().Key() && r.rd in rr.items
  }

  /** A set of the zone's class whose name belongs to the zone. */
  predicate InZone(t: Target, rr: RRset)
    requires t.Valid()
  {
    rr.Sound() && rr.rdclass == t.rdclass && ValidateName(t.naming, rr.name).Ok?
  }

  ghost predicate NoConflict(s: iset<Rec>, name: Name, rds: Rdataset) {
    forall r: Rec :: r in s && r.name == name ==> !Conflict(Classify(r.key.1, r.key.2), KindOf(rds))
  }

  /** A set that can be deleted: its records are there, and it is named in the zone's own relativity. */
  ghost predicate Deletable(t: Target, s: iset<Rec>, rr: RRset)
    requires t.Valid()
  {
    InZone(t, rr) && t.naming.Native(rr.name) && !IsOriginSoa(t, rr) && RecsOf(t, rr) <= s
  }

  /** A set that can be added without displacing another record: no CNAME mix, and no second
      rdata for a type that allows but one. */
  ghost predicate Addable(t: Target, s: iset<Rec>, rr: RRset)
    requires t.Valid()
  {
    && InZone(t, rr) && rr.rdtype != R.SOA && NoConflict(s, KeyName(t, rr.name), rr.Set())
    && (R.Singleton(rr.rdtype) ==>
          forall r: Rec :: r in s && r.name == KeyName(t, rr.name) && r.key == rr.Set().Key() ==> r.rd in rr.items)
  }

  ghost predicate SoaPlaceable(t: Target, s: iset<Rec>, soa: RRset)
    requires t.Valid()
  {
    InZone(t, soa) && IsOriginSoa(t, soa) && NoConflict(s, KeyName(t, soa.name), soa.Set())
  }

  /** The origin SOA replaced. */
  ghost function WithSoa(t: Target, s: iset<Rec>, soa: RRset): iset<Rec>
    requires t.Valid() && InZone(t, soa)
  {
    (iset r: Rec | r in s && !(r.name == KeyName(t, soa.name) && r.key == soa.Set().Key())) + RecsOf(t, soa)
  }

  ghost predicate AllDeletable(t: Target, s: iset<Rec>, rrs: seq<RRset>)
    requires t.Valid()
    decreases |rrs|
  {
    rrs != [] ==> Deletable(t, s, rrs[0]) && AllDeletable(t, s - RecsOf(t, rrs[0]), rrs[1..])
  }

  ghost function DeleteAll(t: Target, s: iset<Rec>, rrs: seq<RRset>): iset<Rec>
    requires t.Valid() && AllDeletable(t, s, rrs)
    decreases |rrs|
  {
    if rrs == [] then s else DeleteAll(t, s - RecsOf(t, rrs[0]), rrs[1..])
  }

  ghost predicate AllAddable(t: Target, s: iset<Rec>, rrs: seq<RRset>)
    requires t.Valid()
    decreases |rrs|
  {
    rrs != [] ==> Addable(t, s, rrs[0]) && AllAddable(t, s + RecsOf(t, rrs[0]), rrs[1..])
  }

  ghost function AddAll(t: Target, s: iset<Rec>, rrs: seq<RRset>): iset<Rec>
    requires t.Valid() && AllAddable(t, s, rrs)
    decreases |rrs|
  {
    if rrs == [] then s else AddAll(t, s + RecsOf(t, rrs[0]), rrs[1..])
  }

  /** One difference: what to delete from the version with the old SOA, and what to add to
      reach the version with the new one. */
  datatype Diff = Diff(oldSoa: RRset, dels: seq<RRset>, newSoa: RRset, adds: seq<RRset>)

  ghost predicate Applicable(t: Target, s: iset<Rec>, d: Diff)
    requires t.Valid()
  {
    && AllDeletable(t, s, d.dels) && SoaPlaceable(t, DeleteAll(t, s, d.dels), d.newSoa)
    && AllAddable(t, WithSoa(t, DeleteAll(t, s, d.dels), d.newSoa), d.adds)
  }

  ghost function Apply(t: Target, s: iset<Rec>, d: Diff): iset<Rec>
    requires t.Valid() && Applicable(t, s, d)
  {
    AddAll(t, WithSoa(t, DeleteAll(t, s, d.dels), d.newSoa), d.adds)
  }

  ghost predicate AllApplicable(t: Target, s: iset<Rec>, ds: seq<Diff>)
    requires t.Valid()
    decreases |ds|
  {
    ds != [] ==> Applicable(t, s, ds[0]) && AllApplicable(t, Apply(t, s, ds[0]), ds[1..])
  }

  /** Each difference in turn: its deletions, its SOA, its additions. */
  ghost function ApplyAll(t: Target, s: iset<Rec>, ds: seq<Diff>): iset<Rec>
    requires t.Valid() && AllApplicable(t, s, ds)
    decreases |ds|
  {
    if ds == [] then s else ApplyAll(t, Apply(t, s, ds[0]), ds[1..])
  }

  // ---------------------------------------------------------------- one set

  /** The origin's own name needs no conversion. */
  lemma OriginName(t: Target, name: Name)
    requires t.Valid() && ValidName(name) && AtOrigin(t.naming, name)
    ensures ValidateName(t.naming, name) == Ok(name) && Fold(name) == Fold(t.naming.Effective())
  {
    SameNameRelativity(name, t.naming.Effective());
    if t.naming.relativize {
      assert |Fold(name)| == 0;
    } else {
      assert name[|name| - |t.naming.origin.value|..] == name;
    }
  }

  /** Sets that stand together in a well-formed node do not conflict. */
  lemma NoConflictWithin(c: Contents, k: Name, rds: Rdataset, key: (U16, U16, U16))
    requires ContentsOk(c) && k in c && Find(c[k], key).Some? && KindOf(Find(c[k], key).value) == KindOf(rds)
    ensures NoConflict(RecordsOf(c), k, rds)
  {
    forall r: Rec | r in RecordsOf(c) && r.name == k ensures !Conflict(Classify(r.key.1, r.key.2), KindOf(rds)) {
      var a, b := Find(c[k], r.key).value, Find(c[k], key).value;
      var i :| 0 <= i < |c[k]| && c[k][i] == a;
      var j :| 0 <= j < |c[k]| && c[k][j] == b;
      assert !Conflict(KindOf(c[k][i]), KindOf(c[k][j]));
    }
  }

  lemma FoundValid(c: Contents, k: Name, key: (U16, U16, U16))
    requires ContentsOk(c) && Find(SetsAt(c, k), key).Some?
    ensures k in c && Find(c[k], key).value.Valid()
  {
    var i :| 0 <= i < |c[k]| && c[k][i] == Find(c[k], key).value;
  }

  lemma DeleteOne(t: Target, c: Contents, rr: RRset)
    requires t.Valid() && ContentsOk(c) && Deletable(t, RecordsOf(c), rr)
    ensures var out := DeleteExact(t.naming, t.rdclass, c, rr.name, rr.Set());
            && out.error.None? && ContentsOk(out.contents)
            && RecordsOf(out.contents) == RecordsOf(c) - RecsOf(t, rr)
  {
    hide Replace, ContentsOk, ValidateName, Conflict, Classify, PutSet, DeleteSet, Rdataset.Intersection,
      Rdataset.Equals;
    hide Rdataset.Difference;
    var k, key := KeyName(t, rr.name), rr.Set().Key();
    assert Rec(k, key, rr.items[0]) in RecsOf(t, rr);
    var existing := Find(SetsAt(c, k), key).value;
    FoundValid(c, k, key);
    forall rd | rd in rr.items ensures rd in existing.items {
      assert Rec(k, key, rd) in RecsOf(t, rr);
    }
    IntersectionEquals(existing, rr.Set());
    LeftBehind(t, c, rr, existing);
  }

  /** What is left of a set without the records deleted, put back or, if empty, deleted. */
  lemma LeftBehind(t: Target, c: Contents, rr: RRset, existing: Rdataset)
    requires t.Valid() && ContentsOk(c) && Deletable(t, RecordsOf(c), rr)
    requires Find(SetsAt(c, KeyName(t, rr.name)), rr.Set().Key()) == Some(existing) && existing.Valid()
    requires KeyName(t, rr.name) in c
    ensures var k, left := KeyName(t, rr.name), existing.Difference(rr.Set());
            var after := if left.items != [] then PutSet(c, k, left) else DeleteSet(c, k, rr.Set().Key());
            ContentsOk(after) && RecordsOf(after) == RecordsOf(c) - RecsOf(t, rr)
  {
    hide Replace, ContentsOk, ValidateName, Conflict, Classify, PutSet, DeleteSet, IsOriginSoa;
    var k, key := KeyName(t, rr.name), rr.Set().Key();
    DifferenceItems(existing, rr.Set());
    var left := existing.Difference(rr.Set());
    assert forall rd :: rd in left.items <==> rd in ToSet(left.items);
    assert forall rd :: rd in existing.items <==> rd in ToSet(existing.items);
    if left.items != [] {
      PutRecords(c, k, left);
      NoConflictWithin(c, k, left, key);
    } else {
      DeleteRecords(c, k, key);
    }
  }

  lemma AddOne(t: Target, c: Contents, rr: RRset)
    requires t.Valid() && ContentsOk(c) && Addable(t, RecordsOf(c), rr)
    ensures var out := Add(t.naming, t.rdclass, c, rr.name, rr.Set());
            && out.error.None? && ContentsOk(out.contents)
            && RecordsOf(out.contents) == RecordsOf(c) + RecsOf(t, rr)
  {
    hide Replace, Rdataset.Union, ContentsOk, ValidateName, Conflict, Classify;
    var k, key := KeyName(t, rr.name), rr.Set().Key();
    var existing := Find(SetsAt(c, k), key);
    if existing.Some? {
      FoundValid(c, k, key);
      MergeOne(t, c, rr, existing.value);
    } else {
      PutRecords(c, k, rr.Set());
    }
  }

  /** A set joins the one that is already there. */
  lemma MergeOne(t: Target, c: Contents, rr: RRset, existing: Rdataset)
    requires t.Valid() && ContentsOk(c) && Addable(t, RecordsOf(c), rr)
    requires Find(SetsAt(c, KeyName(t, rr.name)), rr.Set().Key()) == Some(existing) && existing.Valid()
    requires KeyName(t, rr.name) in c
    ensures var after := PutSet(c, KeyName(t, rr.name), existing.Union(rr.Set()));
            ContentsOk(after) && RecordsOf(after) == RecordsOf(c) + RecsOf(t, rr)
  {
    hide Replace, Rdataset.Union, ContentsOk, ValidateName, Conflict, Classify;
    var k, key := KeyName(t, rr.name), rr.Set().Key();
    UnionOne(existing, rr);
    PutRecords(c, k, existing.Union(rr.Set()));
    forall rd ensures rd in existing.items <==> Rec(k, key, rd) in RecordsOf(c) {}
  }

  lemma UnionOne(s: Rdataset, rr: RRset)
    requires s.Valid() && rr.Sound() && s.Key() == rr.Set().Key()
    ensures s.Union(rr.Set()).Valid() && s.Union(rr.Set()).Key() == s.Key()
    ensures !R.Singleton(rr.rdtype) ==> forall rd :: rd in s.Union(rr.Set()).items <==> rd in s.items || rd in rr.items
    ensures R.Singleton(rr.rdtype) ==> s.Union(rr.Set()).items == rr.items
  {
    hide Rdataset.AddAll, R.Singleton;
    var u := s.UpdateTtl(rr.ttl);
    assert u.Valid();
    AddAllItems(u, rr.items);
    var both := u.AddAll(rr.items);
    assert forall rd :: rd in both.items <==> rd in ToSet(both.items);
    assert forall rd :: rd in ToSet(s.items) + ToSet(rr.items) <==> rd in s.items || rd in rr.items;
  }

  lemma SoaOne(t: Target, c: Contents, soa: RRset)
    requires t.Valid() && ContentsOk(c) && SoaPlaceable(t, RecordsOf(c), soa)
    ensures var out := ReplaceSet(t.naming, t.rdclass, c, soa.name, soa.Set());
            && out.error.None? && ContentsOk(out.contents)
            && RecordsOf(out.contents) == WithSoa(t, RecordsOf(c), soa)
  {
    hide Replace, ContentsOk, ValidateName, Conflict, Classify, PutSet;
    var out := ReplaceSet(t.naming, t.rdclass, c, soa.name, soa.Set());
    assert out.contents == PutSet(c, KeyName(t, soa.name), soa.Set());
    PutRecords(c, KeyName(t, soa.name), soa.Set());
    forall r: Rec ensures r in RecordsOf(out.contents) <==> r in WithSoa(t, RecordsOf(c), soa) {}
  }

  // ---------------------------------------------------------------- runs of the state machine

  predicate Named(rrs: seq<RRset>) {
    forall i :: 0 <= i < |rrs| ==> rrs[i].Sound()
  }

  lemma {:induction false} StepsConcat(t: Target, s: State, a: seq<RRset>, b: seq<RRset>)
    requires t.Valid() && s.soa.Some? && (s.txn.Some? || s.done) && Named(a) && Named(b)
    ensures Named(a + b)
    ensures var (mid, error) := Steps(t, s, a);
            Steps(t, s, a + b) == if error.Some? then (mid, error) else Steps(t, mid, b)
    decreases |a|
  {
    hide Step;
    if a == [] {
      assert a + b == b;
    } else {
      assert (a + b)[1..] == a[1..] + b;
      var (s1, error) := Step(t, s, a[0]);
      if error.None? {
        StepsConcat(t, s1, a[1..], b);
      }
    }
  }

  /** Transferring within an IXFR whose transaction holds `c`. */
  ghost predicate Within(s: State, c: Contents, deleteMode: bool) {
    && s.soa.Some? && !s.done && s.txn == Some(c) && s.deleteMode == deleteMode && ContentsOk(c)
  }

  lemma {:induction false} AllDeletableNamed(t: Target, rs: iset<Rec>, rrs: seq<RRset>)
    requires t.Valid() && AllDeletable(t, rs, rrs)
    ensures Named(rrs)
    decreases |rrs|
  {
    if rrs != [] {
      AllDeletableNamed(t, rs - RecsOf(t, rrs[0]), rrs[1..]);
    }
  }

  lemma {:induction false} AllAddableNamed(t: Target, rs: iset<Rec>, rrs: seq<RRset>)
    requires t.Valid() && AllAddable(t, rs, rrs)
    ensures Named(rrs)
    decreases |rrs|
  {
    if rrs != [] {
      AllAddableNamed(t, rs + RecsOf(t, rrs[0]), rrs[1..]);
    }
  }

  lemma {:induction false} DeleteSteps(t: Target, s: State, c: Contents, rrs: seq<RRset>) returns (c': Contents)
    requires t.Valid() && Within(s, c, true) && !s.expectingSoa && AllDeletable(t, RecordsOf(c), rrs)
    ensures Named(rrs) && Steps(t, s, rrs) == (s.(txn := Some(c')), None)
    ensures ContentsOk(c') && RecordsOf(c') == DeleteAll(t, RecordsOf(c), rrs)
    decreases |rrs|
  {
    hide ContentsOk, RecordsOf, DeleteExact, Deletable;
    AllDeletableNamed(t, RecordsOf(c), rrs);
    if rrs == [] {
      c' := c;
      assert s.(txn := Some(c)) == s;
    } else {
      DeleteOne(t, c, rrs[0]);
      var out := DeleteExact(t.naming, t.rdclass, c, rrs[0].name, rrs[0].Set());
      var s1 := s.(txn := Some(out.contents));
      assert Step(t, s, rrs[0]) == (s1, None) by { NotSoa(t, c, rrs[0]); }
      c' := DeleteSteps(t, s1, out.contents, rrs[1..]);
    }
  }

  lemma NotSoa(t: Target, c: Contents, rr: RRset)
    requires t.Valid() && Deletable(t, RecordsOf(c), rr)
    ensures !IsOriginSoa(t, rr)
  {
  }

  lemma {:induction false} AddSteps(t: Target, s: State, c: Contents, rrs: seq<RRset>) returns (c': Contents)
    requires t.Valid() && Within(s, c, false) && !s.expectingSoa && AllAddable(t, RecordsOf(c), rrs)
    ensures Named(rrs) && Steps(t, s, rrs) == (s.(txn := Some(c')), None)
    ensures ContentsOk(c') && RecordsOf(c') == AddAll(t, RecordsOf(c), rrs)
    decreases |rrs|
  {
    hide ContentsOk, RecordsOf, Add, NoConflict;
    AllAddableNamed(t, RecordsOf(c), rrs);
    if rrs == [] {
      c' := c;
      assert s.(txn := Some(c)) == s;
    } else {
      AddOne(t, c, rrs[0]);
      var out := Add(t.naming, t.rdclass, c, rrs[0].name, rrs[0].Set());
      var s1 := s.(txn := Some(out.contents));
      assert Step(t, s, rrs[0]) == (s1, None);
      c' := AddSteps(t, s1, out.contents, rrs[1..]);
    }
  }

  function DiffStream(d: Diff): seq<RRset> {
    [d.oldSoa] + d.dels + [d.newSoa] + d.adds
  }

  function DiffsStream(ds: seq<Diff>): seq<RRset> {
    if ds == [] then [] else DiffStream(ds[0]) + DiffsStream(ds[1..])
  }

  /** A difference that starts from the serial reached, and does not look like the end. */
  ghost predicate Follows(t: Target, s: State, d: Diff)
    requires t.Valid() && s.soa.Some?
  {
    && d.oldSoa.Sound() && IsOriginSoa(t, d.oldSoa) && d.oldSoa.Serial() == s.serial
    && !d.oldSoa.Set().Equals(s.soa.value) && d.newSoa.Sound()
  }

  lemma DiffSteps(t: Target, s: State, c: Contents, d: Diff) returns (c': Contents)
    requires t.Valid() && Within(s, c, false) && s.ixfr && Follows(t, s, d) && Applicable(t, RecordsOf(c), d)
    ensures Named(DiffStream(d))
    ensures Steps(t, s, DiffStream(d))
            == (s.(txn := Some(c'), serial := d.newSoa.Serial(), expectingSoa := false), None)
    ensures ContentsOk(c') && RecordsOf(c') == Apply(t, RecordsOf(c), d)
  {
    hide ContentsOk, RecordsOf, ReplaceSet, AtOrigin, Addable, Deletable, NoConflict, Rdataset.Equals, WithSoa;
    var s1 := s.(deleteMode := true, expectingSoa := false);
    assert Step(t, s, d.oldSoa) == (s1, None);
    var c1 := DeleteSteps(t, s1, c, d.dels);
    SoaOne(t, c1, d.newSoa);
    var c2 := ReplaceSet(t.naming, t.rdclass, c1, d.newSoa.name, d.newSoa.Set()).contents;
    var s2 := s1.(txn := Some(c1));
    var s3 := s2.(deleteMode := false, serial := d.newSoa.Serial(), txn := Some(c2));
    assert Step(t, s2, d.newSoa) == (s3, None);
    c' := AddSteps(t, s3, c2, d.adds);
    FourParts(t, s, s1, s2, s3, d);
  }

  lemma FourParts(t: Target, s: State, s1: State, s2: State, s3: State, d: Diff)
    requires t.Valid() && s.soa.Some? && (s.txn.Some? || s.done)
    requires d.oldSoa.Sound() && d.newSoa.Sound() && Named(d.dels) && Named(d.adds)
    requires Step(t, s, d.oldSoa) == (s1, None) && Steps(t, s1, d.dels) == (s2, None)
    requires Step(t, s2, d.newSoa) == (s3, None)
    ensures Named(DiffStream(d)) && Steps(t, s, DiffStream(d)) == Steps(t, s3, d.adds)
  {
    hide Step;
    StepsConcat(t, s, [d.oldSoa], d.dels);
    StepsConcat(t, s, [d.oldSoa] + d.dels, [d.newSoa]);
    StepsConcat(t, s, [d.oldSoa] + d.dels + [d.newSoa], d.adds);
    assert Steps(t, s, [d.oldSoa]) == (s1, None);
    assert Steps(t, s2, [d.newSoa]) == (s3, None);
  }

  /** A chain of differences from the serial reached to the serial announced, none of which
      starts with the announced SOA. */
  ghost predicate ChainOf(t: Target, s: State, ds: seq<Diff>, final: RRset)
    requires t.Valid() && s.soa.Some?
    decreases |ds|
  {
    if ds == [] then s.serial == final.Serial()
    else Follows(t, s, ds[0]) && ChainOf(t, s.(serial := ds[0].newSoa.Serial()), ds[1..], final)
  }

  ghost predicate IsFinal(t: Target, s: State, c: iset<Rec>, final: RRset)
    requires t.Valid() && s.soa.Some?
  {
    final.Set().Equals(s.soa.value) && SoaPlaceable(t, c, final)
  }

  /** IXFR replay: a chain of differences, each applicable to what the ones before it left,
      and then the announced SOA.  The transfer commits, once, the old zone with each
      difference's deletions and then additions applied in order and the origin SOA replaced
      by the final one. */
  lemma {:induction false} IxfrReplay(t: Target, s: State, c: Contents, ds: seq<Diff>, final: RRset)
    requires t.Valid() && Within(s, c, false) && s.ixfr && ChainOf(t, s, ds, final)
    requires AllApplicable(t, RecordsOf(c), ds) && (ds == [] ==> !s.expectingSoa)
    requires IsFinal(t, s, ApplyAll(t, RecordsOf(c), ds), final)
    ensures Named(DiffsStream(ds) + [final])
    ensures var (end, error) := Steps(t, s, DiffsStream(ds) + [final]);
            && error.None? && end.done && end.txn.None? && end.commits == s.commits + 1
            && ContentsOk(end.zone) && RecordsOf(end.zone) == WithSoa(t, ApplyAll(t, RecordsOf(c), ds), final)
    decreases |ds|
  {
    hide ContentsOk, RecordsOf, Step, Steps, IsOriginSoa, Rdataset.Equals, WithSoa, Applicable, Follows, SoaPlaceable,
      Apply;
    if ds == [] {
      assert DiffsStream(ds) + [final] == [final];
      FinalStep(t, s, c, final);
    } else {
      assert Follows(t, s, ds[0]) && Applicable(t, RecordsOf(c), ds[0]);
      var c1 := DiffSteps(t, s, c, ds[0]);
      var s1 := s.(txn := Some(c1), serial := ds[0].newSoa.Serial(), expectingSoa := false);
      SameChain(t, s.(serial := ds[0].newSoa.Serial()), s1, ds[1..], final);
      IxfrReplay(t, s1, c1, ds[1..], final);
      assert DiffsStream(ds) + [final] == DiffStream(ds[0]) + (DiffsStream(ds[1..]) + [final]);
      StepsConcat(t, s, DiffStream(ds[0]), DiffsStream(ds[1..]) + [final]);
    }
  }

  /** The end of the last difference, and of the transfer. */
  lemma FinalStep(t: Target, s: State, c: Contents, final: RRset)
    requires t.Valid() && Within(s, c, false) && s.ixfr && !s.expectingSoa && s.serial == final.Serial()
    requires IsFinal(t, s, RecordsOf(c), final)
    ensures Named([final])
    ensures var (end, error) := Steps(t, s, [final]);
            && error.None? && end.done && end.txn.None? && end.commits == s.commits + 1
            && ContentsOk(end.zone) && RecordsOf(end.zone) == WithSoa(t, RecordsOf(c), final)
  {
    hide ContentsOk, RecordsOf, ReplaceSet, AtOrigin, Rdataset.Equals, WithSoa, NoConflict;
    SoaOne(t, c, final);
    assert Steps(t, s, [final]) == Step(t, s, final);
  }

  /** The chain depends on the serial reached and the SOA announced, nothing else. */
  lemma {:induction false} SameChain(t: Target, a: State, b: State, ds: seq<Diff>, final: RRset)
    requires t.Valid() && a.soa.Some? && b.soa == a.soa && b.serial == a.serial
    ensures ChainOf(t, a, ds, final) == ChainOf(t, b, ds, final)
    decreases |ds|
  {
    if ds != [] {
      SameChain(t, a.(serial := ds[0].newSoa.Serial()), b.(serial := ds[0].newSoa.Serial()), ds[1..], final);
    }
  }
}
