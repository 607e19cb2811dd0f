/** Record sets and nodes of a zone, as values (dns/rdataset.py, dns/set.py, dns/node.py).
    Rdata stand for their canonical wire form, which is what rdata equality compares. */
module ZoneData {
  import opened Common
  import opened Names
  import opened NameWire
  import R = Records

  type Rdata = Bytes

  const KEY: U16 := 25
  const NSEC3: U16 := 50

  predicate Distinct(items: seq<Rdata>) {
    forall i, j :: 0 <= i < j < |items| ==> items[i] != items[j]
  }

  function ToSet(items: seq<Rdata>): set<Rdata> {
    set rd | rd in items
  }

  /** A record set: rdata of one class and type in the order they were added. */
  datatype Rdataset = Rdataset(rdclass: U16, rdtype: U16, covers: U16, ttl: U32, items: seq<Rdata>)
  {
    predicate Valid() {
      Distinct(items) && (R.Singleton(rdtype) ==> |items| <= 1)
    }

    function Key(): (U16, U16, U16) {
      (rdclass, rdtype, covers)
    }

    /** Rdataset.__eq__: same class, type and covered type, same rdata in any order. */
    predicate Equals(other: Rdataset) {
      Key() == other.Key() && ToSet(items) == ToSet(other.items)
    }

    function UpdateTtl(newTtl: U32): Rdataset {
      if items == [] || newTtl < ttl then this.(ttl := newTtl) else this
    }

    /** Rdataset.add for rdata of the set's own class, type and covered type: a singleton
        type keeps only the latest. */
    function Add(rd: Rdata): (r: Rdataset)
      ensures Valid() ==> r.Valid()
      ensures r.Key() == Key() && r.ttl == ttl
    {
      var kept := if R.Singleton(rdtype) then [] else items;
      this.(items := if rd in kept then kept else kept + [rd])
    }

    function AddAll(rds: seq<Rdata>): (r: Rdataset)
      ensures Valid() ==> r.Valid()
      ensures r.Key() == Key() && r.ttl == ttl
      decreases |rds|
    {
      if rds == [] then this else Add(rds[0]).AddAll(rds[1..])
    }

    function Union(other: Rdataset): (r: Rdataset)
      ensures Valid() ==> r.Valid()
      ensures r.Key() == Key()
    {
      UpdateTtl(other.ttl).AddAll(other.items)
    }

    function Intersection(other: Rdataset): (r: Rdataset) {
      var u := UpdateTtl(other.ttl);
      u.(items := Select(items, rd => rd in other.items))
    }

    function Difference(other: Rdataset): (r: Rdataset)
      ensures r.Key() == Key()
    {
      this.(items := Select(items, rd => rd !in other.items))
    }
  }

  function Select(items: seq<Rdata>, keep: Rdata -> bool): (r: seq<Rdata>)
    ensures forall rd :: rd in r <==> rd in items && keep(rd)
    ensures |r| <= |items|
  {
    if items == [] then []
    else
      var rest := Select(items[1..], keep);
      assert forall rd :: rd in items <==> rd == items[0] || rd in items[1..];
      if keep(items[0]) then [items[0]] + rest else rest
  }

  lemma {:induction false} SelectDistinct(items: seq<Rdata>, keep: Rdata -> bool)
    requires Distinct(items)
    ensures Distinct(Select(items, keep))
  {
    if items != [] {
      SelectDistinct(items[1..], keep);
      var rest := Select(items[1..], keep);
      assert items[0] !in rest;
    }
  }

  /** What a union holds: everything in both sets, unless the type is a singleton, when the
      last rdata added replaces the rest. */
  lemma {:induction false} AddAllItems(s: Rdataset, rds: seq<Rdata>)
    requires s.Valid()
    ensures !R.Singleton(s.rdtype) ==> ToSet(s.AddAll(rds).items) == ToSet(s.items) + ToSet(rds)
    ensures R.Singleton(s.rdtype) && rds != [] ==> s.AddAll(rds).items == [rds[|rds| - 1]]
    decreases |rds|
  {
    if rds != [] {
      AddAllItems(s.Add(rds[0]), rds[1..]);
      assert ToSet(rds) == {rds[0]} + ToSet(rds[1..]);
    }
  }

  lemma DifferenceItems(s: Rdataset, other: Rdataset)
    requires s.Valid()
    ensures s.Difference(other).Valid()
    ensures ToSet(s.Difference(other).items) == ToSet(s.items) - ToSet(other.items)
  {
    SelectDistinct(s.items, rd => rd !in other.items);
  }

  /** The test of delete_exact: everything to be deleted is there. */
  lemma IntersectionEquals(s: Rdataset, other: Rdataset)
    requires s.Key() == other.Key()
    ensures s.Intersection(other).Equals(other) <==> ToSet(other.items) <= ToSet(s.items)
  {
    var both := s.Intersection(other);
    assert ToSet(both.items) == ToSet(s.items) * ToSet(other.items);
  }

  /** The serial of SOA rdata: the first of the five numbers its canonical form ends in. */
  function SoaSerial(rd: Rdata): U32 {
    if |rd| < 20 then 0 else Unpack32(rd[|rd| - 20..|rd| - 16])
  }

  /** Rdata of type SOA: two names and five numbers. */
  function SoaRdata(mname: Name, rname: Name, serial: U32, refresh: U32, retry: U32, expire: U32, minimum: U32)
    : R.Rdata
  {
    [NameItem(mname), NameItem(rname),
     Octets(Pack32(serial) + Pack32(refresh) + Pack32(retry) + Pack32(expire) + Pack32(minimum))]
  }

  /** Whatever the two names and the other numbers, the serial of SOA rdata is its serial: the
      canonical form is the names in lower case without compression, and then the numbers. */
  lemma SerialInPlace(mname: Name, rname: Name, serial: U32, refresh: U32, retry: U32, expire: U32, minimum: U32)
    requires ValidName(mname) && IsAbsolute(mname) && ValidName(rname) && IsAbsolute(rname)
    ensures var rd := SoaRdata(mname, rname, serial, refresh, retry, expire, minimum);
            && R.ValidRdata(6, rd) && Writable(rd)
            && R.Digest(rd) == PlainLabels(Fold(mname)) + PlainLabels(Fold(rname)) + rd[2].bytes
            && SoaSerial(R.Digest(rd)) == serial
  {
    var rd := SoaRdata(mname, rname, serial, refresh, retry, expire, minimum);
    NumbersPlain(rd, serial);
    var names := PlainLabels(Fold(mname)) + PlainLabels(Fold(rname));
    SoaDigest(mname, rname, rd[2].bytes);
    var whole := names + rd[2].bytes;
    assert whole[|whole| - 20..|whole| - 16] == rd[2].bytes[..4];
    UnpackPack32(serial);
  }

  lemma NumbersPlain(rd: R.Rdata, serial: U32)
    requires |rd| == 3 && rd[2].Octets? && |rd[2].bytes| == 20 && rd[2].bytes[..4] == Pack32(serial)
    requires forall i :: 0 <= i < 2 ==> rd[i].NameItem? && WritableItem(rd[i])
    ensures R.ValidRdata(6, rd) && Writable(rd)
  {
  }

  lemma SoaDigest(mname: Name, rname: Name, numbers: Bytes)
    requires ValidName(mname) && IsAbsolute(mname) && ValidName(rname) && IsAbsolute(rname)
    ensures R.Digest([NameItem(mname), NameItem(rname), Octets(numbers)])
            == PlainLabels(Fold(mname)) + PlainLabels(Fold(rname)) + numbers
  {
    hide Emit, Fold, PlainLabels;
    var rd: R.Rdata := [NameItem(mname), NameItem(rname), Octets(numbers)];
    var first: Bytes := PlainLabels(Fold(mname));
    var both := first + PlainLabels(Fold(rname));
    PlainOctets([], mname, true);
    PlainOctets(first, rname, true);
    assert [] + first == first;
    ItemsStep([], rd, (first, None));
    ItemsStep(first, rd[1..], (both, None));
    ItemsStep(both, rd[2..], (both + numbers, None));
    assert rd[1..][1..] == rd[2..] && rd[2..][1..] == [];
  }

  lemma ItemsStep(data: Bytes, items: seq<Item>, next: (Bytes, Option<Table>))
    requires Writable(items) && items != [] && next == EmitItem(data, None, items[0], true)
    ensures EmitItems(data, None, items, true) == EmitItems(next.0, next.1, items[1..], true)
  {
  }

  // ---------------------------------------------------------------- sets, by their parts

  /** Record sets are equal when they have the same class, type and covered type and hold the
      same rdata. */
  lemma EqualsMeans(a: Rdataset, b: Rdataset)
    ensures a.Equals(b) <==>
            && a.rdclass == b.rdclass && a.rdtype == b.rdtype && a.covers == b.covers
            && forall rd :: rd in a.items <==> rd in b.items
  {
    if a.Equals(b) {
      forall rd ensures rd in a.items <==> rd in b.items {
        assert rd in ToSet(a.items) <==> rd in ToSet(b.items);
      }
    }
  }

  /** New rdata goes to the end of a set, and takes the place of what was there where the type
      allows but one: SOA (6), NXT (30), DNAME (39), NSEC (47) and CNAME (5). */
  lemma AddMeans(s: Rdataset, rd: Rdata)
    ensures s.Add(rd).items
            == if s.rdtype in {5, 6, 30, 39, 47} then [rd] else if rd in s.items then s.items else s.items + [rd]
  {
    assert [] + [rd] == [rd];
  }

  lemma {:induction false} AddAllKeeps(s: Rdataset, rds: seq<Rdata>)
    ensures s.AddAll(rds) == s.(items := s.AddAll(rds).items)
    decreases |rds|
  {
    if rds != [] {
      AddAllKeeps(s.Add(rds[0]), rds[1..]);
    }
  }

  /** A union has the class, type and covered type of the first set and the lower of the two
      TTLs, that of the second set if the first holds nothing. */
  lemma UnionTtl(s: Rdataset, other: Rdataset)
    ensures var u := s.Union(other);
            && u.rdclass == s.rdclass && u.rdtype == s.rdtype && u.covers == s.covers
            && (s.items == [] || other.ttl <= s.ttl ==> u.ttl == other.ttl)
            && (s.items != [] && s.ttl <= other.ttl ==> u.ttl == s.ttl)
  {
    AddAllKeeps(s.UpdateTtl(other.ttl), other.items);
  }

  // ---------------------------------------------------------------- nodes

  datatype Kind = Regular | Neutral | CnameKind

  predicate TypeOrSignature(types: set<U16>, rdtype: U16, covers: U16) {
    rdtype in types || (rdtype == R.RRSIG && covers in types)
  }

  /** NodeKind.classify. */
  function Classify(rdtype: U16, covers: U16): Kind {
    if TypeOrSignature({R.CNAME}, rdtype, covers) then CnameKind
    else if TypeOrSignature({R.NSEC, NSEC3, KEY}, rdtype, covers) then Neutral
    else Regular
  }

  function KindOf(rds: Rdataset): Kind {
    Classify(rds.rdtype, rds.covers)
  }

  /** The sets at one name, as a list. */
  type Sets = seq<Rdataset>

  predicate Conflict(a: Kind, b: Kind) {
    (a.CnameKind? && b.Regular?) || (a.Regular? && b.CnameKind?)
  }

  /** One set per class, type and covered type, and never a CNAME beside other data. */
  predicate NodeOk(sets: Sets) {
    && (forall i :: 0 <= i < |sets| ==> sets[i].Valid())
    && (forall i, j :: 0 <= i < j < |sets| ==> sets[i].Key() != sets[j].Key())
    && (forall i, j :: 0 <= i < |sets| && 0 <= j < |sets| ==> !Conflict(KindOf(sets[i]), KindOf(sets[j])))
  }

  function Find(sets: Sets, key: (U16, U16, U16)): (r: Option<Rdataset>)
    ensures r.Some? ==> r.value in sets && r.value.Key() == key
    ensures r.None? ==> forall i :: 0 <= i < |sets| ==> sets[i].Key() != key
  {
    if sets == [] then None
    else if sets[0].Key() == key then Some(sets[0])
    else Find(sets[1..], key)
  }

  /** Node.delete_rdataset. */
  function Remove(sets: Sets, key: (U16, U16, U16)): (r: Sets)
    ensures |r| <= |sets|
  {
    if sets == [] then []
    else if sets[0].Key() == key then sets[1..]
    else [sets[0]] + Remove(sets[1..], key)
  }

  function WithoutConflict(sets: Sets, kind: Kind): (r: Sets)
    ensures forall s :: s in r <==> s in sets && !Conflict(KindOf(s), kind)
    ensures |r| <= |sets|
  {
    if sets == [] then []
    else
      var rest := WithoutConflict(sets[1..], kind);
      assert forall s :: s in sets <==> s == sets[0] || s in sets[1..];
      if Conflict(KindOf(sets[0]), kind) then rest else [sets[0]] + rest
  }

  /** Node._append_rdataset: sets that cannot stand beside the new one go. */
  function Append(sets: Sets, rds: Rdataset): Sets {
    WithoutConflict(sets, KindOf(rds)) + [rds]
  }

  /** Node.replace_rdataset: the most recent change wins. */
  function Replace(sets: Sets, rds: Rdataset): Sets {
    Append(Remove(sets, rds.Key()), rds)
  }

  /** Sets compare by key within a node, so a node is the map from key to set. */
  lemma {:induction false} FindMember(sets: Sets, s: Rdataset)
    requires NodeOk(sets) && s in sets
    ensures Find(sets, s.Key()) == Some(s)
  {
    if sets[0] != s {
      var i :| 0 <= i < |sets| && sets[i] == s;
      assert sets[0].Key() != sets[i].Key();
      assert sets[1..][i - 1] == s;
      FindMember(sets[1..], s);
    }
  }

  lemma {:induction false} RemoveMembers(sets: Sets, key: (U16, U16, U16))
    requires NodeOk(sets)
    ensures NodeOk(Remove(sets, key))
    ensures forall s :: s in Remove(sets, key) <==> s in sets && s.Key() != key
  {
    if sets != [] {
      var rest := sets[1..];
      assert forall s :: s in sets <==> s == sets[0] || s in rest;
      RemoveMembers(rest, key);
      forall s | s in rest ensures s.Key() != sets[0].Key() {
        var j :| 0 <= j < |rest| && rest[j] == s;
        assert sets[j + 1] == s;
      }
      if sets[0].Key() != key {
        NodeOkCons(sets[0], Remove(rest, key), sets);
      }
    }
  }

  lemma NodeOkCons(s: Rdataset, rest: Sets, all: Sets)
    requires NodeOk(rest) && NodeOk(all) && s in all
    requires forall t :: t in rest ==> t in all && t.Key() != s.Key()
    ensures NodeOk([s] + rest)
  {
    var whole := [s] + rest;
    forall i, j | 0 <= i < |whole| && 0 <= j < |whole| ensures !Conflict(KindOf(whole[i]), KindOf(whole[j])) {
      assert whole[i] in all && whole[j] in all;
    }
    forall i, j | 0 <= i < j < |whole| ensures whole[i].Key() != whole[j].Key() {
      assert whole[j] == rest[j - 1] && rest[j - 1] in rest;
    }
  }

  lemma {:induction false} WithoutConflictOk(sets: Sets, kind: Kind)
    requires NodeOk(sets)
    ensures NodeOk(WithoutConflict(sets, kind))
  {
    if sets != [] {
      WithoutConflictOk(sets[1..], kind);
      if !Conflict(KindOf(sets[0]), kind) {
        forall t | t in WithoutConflict(sets[1..], kind) ensures t in sets && t.Key() != sets[0].Key() {
          var j :| 0 <= j < |sets| - 1 && sets[1..][j] == t;
          assert sets[j + 1] == t;
        }
        NodeOkCons(sets[0], WithoutConflict(sets[1..], kind), sets);
      }
    }
  }

  /** Replacing keeps a node well formed; afterwards it holds the new set, and exactly those
      others that have another key and do not conflict with it. */
  lemma ReplaceMembers(sets: Sets, rds: Rdataset)
    requires NodeOk(sets) && rds.Valid()
    ensures NodeOk(Replace(sets, rds))
    ensures Find(Replace(sets, rds), rds.Key()) == Some(rds)
    ensures Replace(sets, rds)[|Replace(sets, rds)| - 1] == rds
    ensures forall s :: s in Replace(sets, rds) <==>
              s == rds || (s in sets && s.Key() != rds.Key() && !Conflict(KindOf(s), KindOf(rds)))
  {
    RemoveMembers(sets, rds.Key());
    var removed := Remove(sets, rds.Key());
    WithoutConflictOk(removed, KindOf(rds));
    var kept := WithoutConflict(removed, KindOf(rds));
    var all := kept + [rds];
    forall i | 0 <= i < |kept| ensures kept[i].Key() != rds.Key() && !Conflict(KindOf(kept[i]), KindOf(rds)) {
      assert kept[i] in kept && kept[i] in removed;
    }
    forall i, j | 0 <= i < j < |all| ensures all[i].Key() != all[j].Key() {
    }
    forall i, j | 0 <= i < |all| && 0 <= j < |all| ensures !Conflict(KindOf(all[i]), KindOf(all[j])) {
    }
    FindMember(all, rds);
  }

  /** Node.classify looks at the first set that is not neutral; in a well-formed node that
      tells the whole: CNAME exactly when some set is of that kind, regular likewise. */
  function ClassifyNode(sets: Sets): Kind {
    if sets == [] then Neutral
    else if KindOf(sets[0]) != Neutral then KindOf(sets[0])
    else ClassifyNode(sets[1..])
  }

  lemma {:induction false} ClassifyNodeIff(sets: Sets, kind: Kind)
    requires NodeOk(sets) && kind != Neutral
    ensures ClassifyNode(sets) == kind <==> exists s :: s in sets && KindOf(s) == kind
  {
    if sets != [] {
      assert forall s :: s in sets <==> s == sets[0] || s in sets[1..];
      ClassifyNodeIff(sets[1..], kind);
      if KindOf(sets[0]) != Neutral && KindOf(sets[0]) != kind {
        forall s | s in sets ensures KindOf(s) != kind {
          var j :| 0 <= j < |sets| && sets[j] == s;
          assert !Conflict(KindOf(sets[0]), KindOf(sets[j]));
        }
      }
    }
  }

  // ---------------------------------------------------------------- kinds by number

  /** KEY (25), NSEC (47), NSEC3 (50) and CNAME (5) itself, or a signature (46) of one. */
  predicate MayStandByCname(rds: Rdataset) {
    rds.rdtype in {5, 25, 47, 50} || (rds.rdtype == 46 && rds.covers in {5, 25, 47, 50})
  }

  lemma KindByNumber(rds: Rdataset)
    ensures KindOf(rds) == CnameKind <==> rds.rdtype == 5 || (rds.rdtype == 46 && rds.covers == 5)
    ensures KindOf(rds) == Neutral <==> rds.rdtype in {25, 47, 50} || (rds.rdtype == 46 && rds.covers in {25, 47, 50})
    ensures KindOf(rds) == Regular <==> !MayStandByCname(rds)
  {
  }

  /** Putting a set at a name that holds a CNAME leaves the CNAME there exactly when the set
      may stand by it, and putting a CNAME leaves exactly the sets that may. */
  lemma CnameStays(sets: Sets, rds: Rdataset, s: Rdataset)
    requires NodeOk(sets) && rds.Valid() && s in sets && s.Key() != rds.Key()
    ensures s.rdtype == 5 ==> (s in Replace(sets, rds) <==> MayStandByCname(rds))
    ensures rds.rdtype == 5 ==> (s in Replace(sets, rds) <==> MayStandByCname(s))
    ensures MayStandByCname(s) == MayStandByCname(rds) ==> s in Replace(sets, rds)
  {
    ReplaceMembers(sets, rds);
    KindByNumber(s);
    KindByNumber(rds);
  }

  /** In a node no CNAME stands by data that may not. */
  lemma NoneByCname(sets: Sets, a: Rdataset, b: Rdataset)
    requires NodeOk(sets) && a in sets && b in sets && a.rdtype == 5
    ensures MayStandByCname(b)
  {
    var i :| 0 <= i < |sets| && sets[i] == a;
    var j :| 0 <= j < |sets| && sets[j] == b;
    assert !Conflict(KindOf(sets[i]), KindOf(sets[j]));
    KindByNumber(b);
  }
}
