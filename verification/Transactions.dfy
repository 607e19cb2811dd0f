/** What a transaction does to the contents of a zone (dns/transaction.py): add, replace and
    delete_exact for a name and a record set.  The version behind a transaction is known
    here by its contents; ZoneVersion.dfy proves the nodes against the same functions. */
module Transactions {
  import opened Common
  import opened Names
  import opened ZoneData
  import opened ZoneVersion
  import R = Records

  datatype TxnError = WrongClass | NonOriginSoa | Fault(fault: NameFault) | DeleteNotExact | MissingKey | AlreadyEnded

  /** The outcome of one operation: the contents after it, and what it raised. */
  datatype Outcome = Outcome(contents: Contents, error: Option<TxnError>)

  predicate Usable(naming: Naming) {
    naming.Valid() && (naming.relativize || naming.origin.Some?)
  }

  /** Is this the origin's own name, as Name.__eq__ sees it? */
  predicate AtOrigin(naming: Naming, name: Name)
    requires Usable(naming)
  {
    SameName(name, naming.Effective())
  }

  /** The checks _add makes before it looks at the zone. */
  function AddFault(naming: Naming, rdclass: U16, name: Name, rds: Rdataset): Option<TxnError>
    requires Usable(naming)
  {
    if rds.rdclass != rdclass then Some(WrongClass)
    else if rds.rdtype == R.SOA && !AtOrigin(naming, name) then Some(NonOriginSoa)
    else None
  }

  /** add(name, rdataset): the union with what is there. */
  function Add(naming: Naming, rdclass: U16, c: Contents, name: Name, rds: Rdataset): Outcome
    requires Usable(naming) && ValidName(name)
  {
    var fault := AddFault(naming, rdclass, name, rds);
    if fault.Some? then Outcome(c, fault)
    else
      match ValidateName(naming, name)
      case Err(e) => Outcome(c, Some(Fault(e)))
      case Ok(n) =>
        var existing := Find(SetsAt(c, Fold(n)), rds.Key());
        Outcome(PutSet(c, Fold(n), if existing.Some? then existing.value.Union(rds) else rds), None)
  }

  /** replace(name, rdataset). */
  function ReplaceSet(naming: Naming, rdclass: U16, c: Contents, name: Name, rds: Rdataset): Outcome
    requires Usable(naming) && ValidName(name)
  {
    var fault := AddFault(naming, rdclass, name, rds);
    if fault.Some? then Outcome(c, fault)
    else
      match ValidateName(naming, name)
      case Err(e) => Outcome(c, Some(Fault(e)))
      case Ok(n) => Outcome(PutSet(c, Fold(n), rds), None)
  }

  /** delete_exact(name, rdataset): every rdata to delete must be there.  A set without rdata
      stands for the whole name, whatever its class and type. */
  function DeleteExact(naming: Naming, rdclass: U16, c: Contents, name: Name, rds: Rdataset): Outcome
    requires Usable(naming) && ValidName(name)
  {
    if rds.items == [] then
      match ValidateName(naming, name)
      case Err(e) => Outcome(c, Some(Fault(e)))
      case Ok(n) => if Fold(n) in c then Outcome(c - {Fold(n)}, None) else Outcome(c, Some(DeleteNotExact))
    else if rds.rdclass != rdclass then Outcome(c, Some(WrongClass))
    else
      match ValidateName(naming, name)
      case Err(e) => Outcome(c, Some(Fault(e)))
      case Ok(n) =>
        var existing := Find(SetsAt(c, Fold(n)), rds.Key());
        if existing.None? || !existing.value.Intersection(rds).Equals(rds) then Outcome(c, Some(DeleteNotExact))
        else
          var left := existing.value.Difference(rds);
          if left.items != [] then Outcome(PutSet(c, Fold(n), left), None)
          else if DeleteRaises(naming, name, SetsAt(c, Fold(n)), rds.Key()) then
            Outcome(c[Fold(n) := []], Some(MissingKey))
          else Outcome(DeleteSet(c, Fold(n), rds.Key()), None)
  }

  // ---------------------------------------------------------------- what is refused

  /** Adding and replacing are refused for a set of another class, for an SOA (6) that is not
      the origin's, and for a name the zone cannot hold, in this order, and nothing else. */
  lemma AddErrors(naming: Naming, rdclass: U16, c: Contents, name: Name, rds: Rdataset)
    requires Usable(naming) && ValidName(name)
    ensures var n := ValidateName(naming, name);
            var expected :=
              if rds.rdclass != rdclass then Some(WrongClass)
              else if rds.rdtype == 6 && !SameName(name, if naming.relativize then [] else naming.origin.value)
              then Some(NonOriginSoa)
              else if n.Err? then Some(Fault(n.error)) else None;
            && Add(naming, rdclass, c, name, rds).error == ReplaceSet(naming, rdclass, c, name, rds).error == expected
            && (expected.Some? ==> Add(naming, rdclass, c, name, rds).contents == c
                                   && ReplaceSet(naming, rdclass, c, name, rds).contents == c)
  {
    hide ValidateName, SameName, PutSet, Find;
  }

  predicate HoldsRdata(c: Contents, key: Name, rds: Rdataset, rd: Rdata) {
    var existing := Find(SetsAt(c, key), rds.Key());
    existing.Some? && rd in existing.value.items
  }

  /** An exact delete is refused as not exact when some rdata to delete is not there, or when
      the whole name is to go and the zone does not know it. */
  lemma DeleteErrors(naming: Naming, rdclass: U16, c: Contents, name: Name, rds: Rdataset)
    requires Usable(naming) && ValidName(name)
    ensures var n, error := ValidateName(naming, name), DeleteExact(naming, rdclass, c, name, rds).error;
            if rds.items != [] && rds.rdclass != rdclass then error == Some(WrongClass)
            else if n.Err? then error == Some(Fault(n.error))
            else
              error == Some(DeleteNotExact) <==>
              if rds.items == [] then Fold(n.value) !in c
              else exists rd :: rd in rds.items && !HoldsRdata(c, Fold(n.value), rds, rd)
    ensures DeleteExact(naming, rdclass, c, name, rds).error == Some(DeleteNotExact) ==>
              DeleteExact(naming, rdclass, c, name, rds).contents == c
  {
    hide ValidateName, SameName, PutSet, DeleteSet, DeleteRaises, Rdataset.Intersection, Rdataset.Difference;
    hide Rdataset.Equals, SetsAt, Fold;
    var n := ValidateName(naming, name);
    if rds.items != [] && rds.rdclass == rdclass && n.Ok? {
      var existing := Find(SetsAt(c, Fold(n.value)), rds.Key());
      if existing.Some? {
        IntersectionEquals(existing.value, rds);
        ItemsWithin(rds, existing.value);
      } else {
        assert !HoldsRdata(c, Fold(n.value), rds, rds.items[0]);
      }
    }
  }

  lemma ItemsWithin(a: Rdataset, b: Rdataset)
    ensures ToSet(a.items) <= ToSet(b.items) <==> forall rd :: rd in a.items ==> rd in b.items
  {
    if ToSet(a.items) <= ToSet(b.items) {
      forall rd | rd in a.items ensures rd in b.items {
        assert rd in ToSet(a.items);
      }
    }
  }

  // ---------------------------------------------------------------- on a version

  /** A write transaction on a version of the zone. */
  class Transaction {
    const version: WritableVersion
    var ended: bool

    constructor (version: WritableVersion)
      ensures this.version == version && !ended
    {
      this.version := version;
      ended := false;
    }

    ghost predicate Valid()
      reads this, version
    {
      version.Valid() && Usable(version.naming)
    }

    /** _get_rdataset: the set under a key at a name. */
    method GetRdataset(name: Name, key: (U16, U16, U16)) returns (r: Result<Option<Rdataset>, NameFault>)
      requires Valid() && ValidName(name)
      ensures var n := ValidateName(version.naming, name);
              r == if n.Err? then Err(n.error) else Ok(Find(SetsAt(version.Holds(), Fold(n.value)), key))
    {
      var valid := ValidateName(version.naming, name);
      if valid.Err? {
        return Err(valid.error);
      }
      var k := Fold(valid.value);
      r := Ok(if k in version.nodes then Find(version.nodes[k].rdatasets, key) else None);
    }

    /** _add: add(name, rdataset) and replace(name, rdataset). */
    method AddRdataset(replace: bool, name: Name, rds: Rdataset) returns (r: Result<(), TxnError>)
      requires Valid() && ValidName(name)
      modifies version`nodes, version`changed, version`owned, version.owned
      ensures Valid() && old(version.owned) <= version.owned && fresh(version.owned - old(version.owned))
      ensures var c := old(version.Holds());
              if ended then r == Err(AlreadyEnded) && version.Holds() == c
              else
                var out := if replace then ReplaceSet(version.naming, version.rdclass, c, name, rds)
                           else Add(version.naming, version.rdclass, c, name, rds);
                version.Holds() == out.contents && r == if out.error.Some? then Err(out.error.value) else Ok(())
    {
      hide ShapeOk, Replace, Rdataset.Union;
      if ended {
        return Err(AlreadyEnded);
      }
      if rds.rdclass != version.rdclass {
        return Err(WrongClass);
      }
      if rds.rdtype == R.SOA && !SameName(name, version.naming.Effective()) {
        return Err(NonOriginSoa);
      }
      var merged := rds;
      if !replace {
        var existing := GetRdataset(name, rds.Key());
        if existing.Err? {
          return Err(Fault(existing.error));
        }
        if existing.value.Some? {
          merged := existing.value.value.Union(rds);
        }
      }
      var put := version.PutRdataset(name, merged);
      r := if put.Err? then Err(Fault(put.error)) else Ok(());
    }

    /** The last branch of _delete: a whole name, which must be known. */
    method DeleteKnownName(name: Name) returns (r: Result<(), TxnError>)
      requires Valid() && ValidName(name)
      modifies version`nodes, version`changed
      ensures Valid()
      ensures var n, c := ValidateName(version.naming, name), old(version.Holds());
              if n.Err? then r == Err(Fault(n.error)) && version.Holds() == c
              else if Fold(n.value) in c then r == Ok(()) && version.Holds() == c - {Fold(n.value)}
              else r == Err(DeleteNotExact) && version.Holds() == c
    {
      hide ShapeOk, ValidateName;
      var valid := ValidateName(version.naming, name);
      if valid.Err? {
        return Err(Fault(valid.error));
      }
      if Fold(valid.value) !in version.nodes {
        return Err(DeleteNotExact);
      }
      var deleted := version.DeleteNode(name);
      r := Ok(());
    }

    /** _delete, exactly: delete_exact(name, rdataset). */
    method DeleteRdataset(name: Name, rds: Rdataset) returns (r: Result<(), TxnError>)
      requires Valid() && ValidName(name)
      modifies version`nodes, version`changed, version`owned, version.owned
      ensures Valid() && old(version.owned) <= version.owned && fresh(version.owned - old(version.owned))
      ensures var c := old(version.Holds());
              if ended then r == Err(AlreadyEnded) && version.Holds() == c
              else
                var out := DeleteExact(version.naming, version.rdclass, c, name, rds);
                version.Holds() == out.contents && r == if out.error.Some? then Err(out.error.value) else Ok(())
    {
      hide ShapeOk, Replace, Remove, Rdataset.Intersection, Rdataset.Equals, ValidateName;
      if ended {
        return Err(AlreadyEnded);
      }
      if |rds.items| == 0 {
        r := DeleteKnownName(name);
        return;
      }
      if rds.rdclass != version.rdclass {
        return Err(WrongClass);
      }
      var found := GetRdataset(name, rds.Key());
      if found.Err? {
        return Err(Fault(found.error));
      }
      if found.value.None? {
        return Err(DeleteNotExact);
      }
      var existing := found.value.value;
      if !existing.Intersection(rds).Equals(rds) {
        return Err(DeleteNotExact);
      }
      var left := existing.Difference(rds);
      if |left.items| == 0 {
        var deleted := version.DeleteRdataset(name, left.rdtype, left.covers);
        r := match deleted
             case Ok(_) => Ok(())
             case Err(BadName(e)) => Err(Fault(e))
             case Err(KeyError) => Err(MissingKey);
      } else {
        var put := version.PutRdataset(name, left);
        r := match put case Ok(_) => Ok(()) case Err(e) => Err(Fault(e));
      }
    }
  }

  // ---------------------------------------------------------------- records

  /** One resource record of a zone, TTL aside. */
  datatype Rec = Rec(name: Name, key: (U16, U16, U16), rd: Rdata)

  /** The records of a zone. */
  ghost function RecordsOf(c: Contents): iset<Rec> {
    iset r: Rec | r.name in c && Find(c[r.name], r.key).Some? && r.rd in Find(c[r.name], r.key).value.items
  }

  /** Putting a set: the records under its key are replaced, those of a conflicting kind at
      the same name go, and nothing else changes. */
  lemma PutRecords(c: Contents, k: Name, rds: Rdataset)
    requires ContentsOk(c) && rds.Valid()
    ensures ContentsOk(PutSet(c, k, rds))
    ensures forall r: Rec :: r in RecordsOf(PutSet(c, k, rds)) <==>
      if r.name != k then r in RecordsOf(c)
      else if r.key == rds.Key() then r.rd in rds.items
      else r in RecordsOf(c) && !Conflict(Classify(r.key.1, r.key.2), KindOf(rds))
  {
    var sets := SetsAt(c, k);
    ReplaceMembers(sets, rds);
    forall key: (U16, U16, U16) | key != rds.Key()
      ensures Find(Replace(sets, rds), key)
              == if Find(sets, key).Some? && !Conflict(Classify(key.1, key.2), KindOf(rds)) then Find(sets, key)
                else None
    {
      var before, found := Find(sets, key), Find(Replace(sets, rds), key);
      if before.Some? && !Conflict(Classify(key.1, key.2), KindOf(rds)) {
        FindMember(Replace(sets, rds), before.value);
      }
      if found.Some? {
        FindMember(sets, found.value);
      }
    }
  }

  lemma DeleteRecords(c: Contents, k: Name, key: (U16, U16, U16))
    requires ContentsOk(c)
    ensures ContentsOk(DeleteSet(c, k, key))
    ensures forall r: Rec ::
      r in RecordsOf(DeleteSet(c, k, key)) <==> r in RecordsOf(c) && (r.name != k || r.key != key)
    ensures k in DeleteSet(c, k, key) <==> exists s :: s in SetsAt(c, k) && s.Key() != key
    ensures forall l :: l != k ==> (l in DeleteSet(c, k, key) <==> l in c)
  {
    var sets := SetsAt(c, k);
    RemoveMembers(sets, key);
    if Remove(sets, key) != [] {
      assert Remove(sets, key)[0] in Remove(sets, key);
    }
    forall other: (U16, U16, U16)
      ensures Find(Remove(sets, key), other) == if other == key then None else Find(sets, other)
    {
      var before, found := Find(sets, other), Find(Remove(sets, key), other);
      if before.Some? && other != key {
        FindMember(Remove(sets, key), before.value);
      }
      if found.Some? {
        FindMember(sets, found.value);
      }
    }
  }

  /** Deleting a whole name takes its records and no others. */
  lemma DeleteNameRecords(naming: Naming, rdclass: U16, c: Contents, name: Name, rds: Rdataset)
    requires Usable(naming) && ValidName(name) && ContentsOk(c) && rds.items == []
    ensures var n, out := ValidateName(naming, name), DeleteExact(naming, rdclass, c, name, rds);
            && ContentsOk(out.contents)
            && (out.error.None? <==> n.Ok? && Fold(n.value) in c)
            && if out.error.None? then
                 forall r: Rec :: r in RecordsOf(out.contents) <==> r in RecordsOf(c) && r.name != Fold(n.value)
               else out.contents == c
  {
    hide ValidateName;
  }
}
