/** The versions of a zone and their copy-on-write nodes (dns/zone.py, dns/node.py). */
module ZoneVersion {
  import opened Common
  import opened Names
  import opened ZoneData

  // ---------------------------------------------------------------- names in a zone

  /** An origin, and whether the zone holds its names relative to it. */
  datatype Naming = Naming(origin: Option<Name>, relativize: bool)
  {
    predicate Valid() {
      origin.Some? ==> ValidName(origin.value) && IsAbsolute(origin.value)
    }

    /** The origin's own name in the zone: what origin_information calls effective. */
    function Effective(): Name
      requires relativize || origin.Some?
    {
      if relativize then EMPTY else origin.value
    }

    /** Names of the zone's own relativity. */
    predicate Native(n: Name) {
      ValidName(n) && IsAbsolute(n) == !relativize
    }
  }

  datatype NameFault = NoOrigin | NotInZone | TooLong

  /** Name.is_subdomain for names of the same relativity: a suffix, ignoring case. */
  predicate IsSubdomain(n: Name, of: Name) {
    |of| <= |n| && Fold(n[|n| - |of|..]) == Fold(of)
  }

  /** Version._validate_name: the name in the zone's own relativity. */
  function ValidateName(naming: Naming, n: Name): (r: Result<Name, NameFault>)
    requires naming.Valid() && ValidName(n)
    ensures r.Ok? ==> ValidName(r.value)
    ensures naming.Native(n) && (IsAbsolute(n) ==> naming.origin.Some? && IsSubdomain(n, naming.origin.value))
      ==> r == Ok(n)
    ensures r.Ok? ==> naming.Native(r.value)
  {
    if IsAbsolute(n) then
      if naming.origin.None? then Err(NoOrigin)
      else if !IsSubdomain(n, naming.origin.value) then Err(NotInZone)
      else if naming.relativize then
        RelativizedValid(n, naming.origin.value);
        Ok(n[..|n| - |naming.origin.value|])
      else Ok(n)
    else if !naming.relativize then
      if naming.origin.None? then Err(NoOrigin)
      else if WireLength(n + naming.origin.value) > MAX_NAME then Err(TooLong)
      else Ok(n + naming.origin.value)
    else Ok(n)
  }

  lemma RelativizedValid(n: Name, origin: Name)
    requires ValidName(n) && IsAbsolute(n) && IsAbsolute(origin) && IsSubdomain(n, origin)
    ensures ValidName(n[..|n| - |origin|]) && !IsAbsolute(n[..|n| - |origin|])
  {
    var k := |n| - |origin|;
    assert n == n[..k] + n[k..];
    WireLengthConcat(n[..k], n[k..]);
  }

  /** A name is at or under another if it is labels in front of that name, case aside. */
  lemma UnderName(labels: Name, rest: Name, of: Name)
    requires |rest| == |of|
    ensures IsSubdomain(labels + rest, of) <==> SameName(rest, of)
    ensures |labels| < |of| ==> !IsSubdomain(labels, of)
  {
    assert (labels + rest)[|labels|..] == rest;
  }

  /** What relativizing takes away, derelativizing puts back, up to the case of the origin. */
  lemma RelativizeRoundTrip(origin: Name, n: Name)
    requires ValidName(n) && ValidName(origin) && IsAbsolute(origin) && IsAbsolute(n) && IsSubdomain(n, origin)
    ensures var naming := Naming(Some(origin), true);
            ValidateName(naming, n).Ok? && SameName(ValidateName(naming, n).value + origin, n)
  {
    var k := |n| - |origin|;
    assert n == n[..k] + n[k..];
    FoldConcat(n[..k], n[k..]);
    FoldConcat(n[..k], origin);
  }

  /** The absolute name that a name stands for under an origin. */
  function Full(n: Name, origin: Name): Name {
    if IsAbsolute(n) then n else n + origin
  }

  /** When a name is refused, and that otherwise it is given in the zone's own relativity and
      still stands for the same absolute name. */
  lemma ValidateNameMeans(naming: Naming, n: Name)
    requires naming.Valid() && ValidName(n)
    ensures var r := ValidateName(naming, n);
            && (r == Err(NoOrigin) <==> naming.origin.None? && (IsAbsolute(n) || !naming.relativize))
            && (r == Err(NotInZone) <==> naming.origin.Some? && IsAbsolute(n) && !IsSubdomain(n, naming.origin.value))
            && (r == Err(TooLong) <==> naming.origin.Some? && !IsAbsolute(n) && !naming.relativize
                                       && WireLength(n) + WireLength(naming.origin.value) > MAX_NAME)
            && (r.Ok? ==> naming.Native(r.value))
            && (r.Ok? && naming.origin.Some? ==>
                  SameName(Full(r.value, naming.origin.value), Full(n, naming.origin.value)))
            && (r.Ok? && naming.origin.None? ==> r.value == n)
  {
    if naming.origin.Some? {
      var origin := naming.origin.value;
      WireLengthConcat(n, origin);
      if IsAbsolute(n) && IsSubdomain(n, origin) {
        RelativizeRoundTrip(origin, n);
      }
    }
  }

  /** The origin's own name in a zone is of the zone's relativity and stands for the origin. */
  lemma EffectiveStands(naming: Naming)
    requires naming.Valid() && (naming.relativize || naming.origin.Some?)
    ensures naming.relativize ==> naming.Effective() == []
    ensures naming.Native(naming.Effective())
    ensures naming.origin.Some? ==> Full(naming.Effective(), naming.origin.value) == naming.origin.value
  {
  }

  // ---------------------------------------------------------------- nodes and versions

  class Node {
    var rdatasets: Sets

    constructor (sets: Sets)
      ensures rdatasets == sets
    {
      rdatasets := sets;
    }

    /** delete_rdataset: the set that get_rdataset finds goes, and no other. */
    method DeleteRdataset(key: (U16, U16, U16))
      modifies this
      ensures rdatasets == Remove(old(rdatasets), key)
      ensures NodeOk(old(rdatasets)) ==> NodeOk(rdatasets) && Find(rdatasets, key).None?
      ensures NodeOk(old(rdatasets)) ==> forall s :: s in rdatasets <==> s in old(rdatasets) && s.Key() != key
    {
      if NodeOk(rdatasets) {
        RemoveMembers(rdatasets, key);
      }
      ghost var before := rdatasets;
      var i := 0;
      while i < |rdatasets| && rdatasets[i].Key() != key
        invariant 0 <= i <= |rdatasets| && rdatasets == before
        invariant forall j :: 0 <= j < i ==> rdatasets[j].Key() != key
      {
        i := i + 1;
      }
      RemoveFirst(rdatasets, key, i);
      if i < |rdatasets| {
        rdatasets := rdatasets[..i] + rdatasets[i + 1..];
      }
    }

    method AppendRdataset(rds: Rdataset)
      modifies this
      ensures rdatasets == Append(old(rdatasets), rds)
    {
      if |rdatasets| > 0 {
        var kind := KindOf(rds);
        if kind != Neutral {
          rdatasets := WithoutConflict(rdatasets, kind);
        } else {
          NeutralConflictsWithNothing(rdatasets);
        }
      }
      rdatasets := rdatasets + [rds];
    }

    /** replace_rdataset: the new set is there, and of the others exactly those under another
        key that can stand beside it; a well-formed node stays one. */
    method ReplaceRdataset(rds: Rdataset)
      modifies this
      ensures rdatasets == Replace(old(rdatasets), rds)
      ensures NodeOk(old(rdatasets)) && rds.Valid() ==> NodeOk(rdatasets) && Find(rdatasets, rds.Key()) == Some(rds)
      ensures NodeOk(old(rdatasets)) && rds.Valid() ==>
                forall s :: s in rdatasets <==>
                  s == rds || (s in old(rdatasets) && s.Key() != rds.Key() && !Conflict(KindOf(s), KindOf(rds)))
    {
      if NodeOk(rdatasets) && rds.Valid() {
        ReplaceMembers(rdatasets, rds);
      }
      DeleteRdataset(rds.Key());
      AppendRdataset(rds);
    }
  }

  /** Taking out the first set under a key, found by its index. */
  lemma {:induction false} RemoveFirst(sets: Sets, key: (U16, U16, U16), i: nat)
    requires i <= |sets| && (forall j :: 0 <= j < i ==> sets[j].Key() != key) && (i < |sets| ==> sets[i].Key() == key)
    ensures Remove(sets, key) == if i < |sets| then sets[..i] + sets[i + 1..] else sets
  {
    hide Rdataset.Key;
    if i > 0 {
      RemoveFirst(sets[1..], key, i - 1);
      if i < |sets| {
        assert [sets[0]] + sets[1..][..i - 1] == sets[..i] && sets[1..][i..] == sets[i + 1..];
        assert [sets[0]] + (sets[1..][..i - 1] + sets[1..][i..]) == sets[..i] + sets[i + 1..];
      } else {
        assert [sets[0]] + sets[1..] == sets;
      }
    }
  }

  lemma {:induction false} NeutralConflictsWithNothing(sets: Sets)
    ensures WithoutConflict(sets, Neutral) == sets
  {
    if sets != [] {
      NeutralConflictsWithNothing(sets[1..]);
    }
  }

  /** Nodes by name; names compare ignoring case. */
  type NodeMap = map<Name, Node>

  /** What a zone holds: the sets at each name. */
  type Contents = map<Name, Sets>

  ghost function ContentsOf(nodes: NodeMap): (c: Contents)
    reads nodes.Values
  {
    map k | k in nodes :: nodes[k].rdatasets
  }

  ghost predicate ContentsOk(c: Contents) {
    forall k :: k in c ==> NodeOk(c[k])
  }

  function SetsAt(c: Contents, k: Name): Sets {
    if k in c then c[k] else []
  }

  function PutSet(c: Contents, k: Name, rds: Rdataset): Contents {
    c[k := Replace(SetsAt(c, k), rds)]
  }

  /** A node left without sets goes too. */
  function DeleteSet(c: Contents, k: Name, key: (U16, U16, U16)): Contents {
    var left := Remove(SetsAt(c, k), key);
    if left == [] then c - {k} else c[k := left]
  }

  /** Nodes outside `changed` are those of the base version; the others are this version's
      own, one to a name, and none is reachable from the base. */
  ghost predicate ShapeOk(naming: Naming, base: NodeMap, nodes: NodeMap, changed: set<Name>, owned: set<Node>) {
    && (forall k :: k in nodes && k !in changed ==> k in base && nodes[k] == base[k])
    && (forall k :: k in base && k !in changed ==> k in nodes)
    && (forall k :: k in nodes && k in changed ==> nodes[k] in owned)
    && (forall k, l :: k in nodes && l in nodes && k in changed && l in changed && k != l ==> nodes[k] != nodes[l])
    && (forall k :: k in base ==> base[k] !in owned)
    && (forall k :: k in nodes ==> IsAbsolute(k) == !naming.relativize)
  }

  lemma ShapeStart(naming: Naming, base: NodeMap)
    requires forall k :: k in base ==> IsAbsolute(k) == !naming.relativize
    ensures ShapeOk(naming, base, base, {}, {})
  {
  }

  lemma ShapeAdd(naming: Naming, base: NodeMap, nodes: NodeMap, changed: set<Name>, owned: set<Node>, key: Name,
                 node: Node)
    requires ShapeOk(naming, base, nodes, changed, owned)
    requires IsAbsolute(key) == !naming.relativize && node !in owned
    requires forall k :: k in base ==> base[k] != node
    ensures ShapeOk(naming, base, nodes[key := node], changed + {key}, owned + {node})
  {
  }

  lemma ShapeDrop(naming: Naming, base: NodeMap, nodes: NodeMap, changed: set<Name>, owned: set<Node>, key: Name)
    requires ShapeOk(naming, base, nodes, changed, owned) && key in nodes
    ensures ShapeOk(naming, base, nodes - {key}, changed + {key}, owned)
  {
  }

  /** A changed node is seen under its own name only, and not from the base version. */
  lemma Private(naming: Naming, base: NodeMap, nodes: NodeMap, changed: set<Name>, owned: set<Node>, key: Name)
    requires ShapeOk(naming, base, nodes, changed, owned) && key in nodes && key in changed
    ensures nodes[key] in owned
    ensures forall k :: k in nodes && k != key ==> nodes[k] != nodes[key]
    ensures forall k :: k in base ==> base[k] != nodes[key]
  {
  }

  datatype DeleteFault = BadName(fault: NameFault) | KeyError

  /** A version being written.  `base` is the version it started from; the nodes it made
      itself are in `owned`. */
  class WritableVersion {
    const naming: Naming
    const rdclass: U16
    const id: nat
    ghost const base: NodeMap
    var nodes: NodeMap
    var changed: set<Name>
    ghost var owned: set<Node>

    ghost predicate Valid()
      reads this
    {
      naming.Valid() && ShapeOk(naming, base, nodes, changed, owned)
    }

    ghost function Holds(): (c: Contents)
      reads this, nodes.Values
    {
      ContentsOf(nodes)
    }

    /** A version starts as a copy of the map of nodes, or empty for a replacement. */
    constructor (naming: Naming, rdclass: U16, id: nat, current: NodeMap, replacement: bool)
      requires naming.Valid() && forall k :: k in current ==> IsAbsolute(k) == !naming.relativize
      ensures Valid() && this.naming == naming && this.rdclass == rdclass && this.id == id
      ensures nodes == base == if replacement then map[] else current
      ensures changed == {} && owned == {}
    {
      this.naming, this.rdclass, this.id := naming, rdclass, id;
      nodes := if replacement then map[] else current;
      base := if replacement then map[] else current;
      changed, owned := {}, {};
      ShapeStart(naming, if replacement then map[] else current);
    }

    /** _maybe_cow: a node of this version's own for `name`, copied from the base version
        the first time. */
    method MaybeCow(name: Name) returns (r: Result<(Node, Name), NameFault>)
      requires Valid() && ValidName(name)
      modifies this`nodes, this`changed, this`owned
      ensures Valid() && old(owned) <= owned && fresh(owned - old(owned))
      ensures match ValidateName(naming, name)
              case Err(e) => r == Err(e) && nodes == old(nodes) && changed == old(changed) && owned == old(owned)
              case Ok(n) =>
                && r.Ok? && r.value.1 == Fold(n)
                && Fold(n) in nodes && nodes[Fold(n)] == r.value.0 && r.value.0 in owned
                && r.value.0.rdatasets == SetsAt(old(Holds()), Fold(n))
                && nodes == old(nodes)[Fold(n) := r.value.0]
                && changed == old(changed) + {Fold(n)}
    {
      hide ShapeOk;
      var valid := ValidateName(naming, name);
      if valid.Err? {
        return Err(valid.error);
      }
      var key := Fold(valid.value);
      FoldRelativity(valid.value);
      if key !in nodes || key !in changed {
        var newNode := new Node(if key in nodes then nodes[key].rdatasets else []);
        ShapeAdd(naming, base, nodes, changed, owned, key, newNode);
        nodes := nodes[key := newNode];
        changed := changed + {key};
        owned := owned + {newNode};
        return Ok((newNode, key));
      }
      Private(naming, base, nodes, changed, owned, key);
      assert nodes == nodes[key := nodes[key]] && changed == changed + {key};
      r := Ok((nodes[key], key));
    }

    method PutRdataset(name: Name, rds: Rdataset) returns (r: Result<(), NameFault>)
      requires Valid() && ValidName(name)
      modifies this`nodes, this`changed, this`owned, owned
      ensures Valid() && old(owned) <= owned && fresh(owned - old(owned))
      ensures match ValidateName(naming, name)
              case Err(e) => r == Err(e) && Holds() == old(Holds()) && changed == old(changed)
              case Ok(n) =>
                && r == Ok(()) && Holds() == PutSet(old(Holds()), Fold(n), rds)
                && changed == old(changed) + {Fold(n)}
    {
      hide ShapeOk, ValidateName, Replace;
      var node := MaybeCow(name);
      if node.Err? {
        return Err(node.error);
      }
      Private(naming, base, nodes, changed, owned, node.value.1);
      node.value.0.ReplaceRdataset(rds);
      r := Ok(());
    }

    method DeleteNode(name: Name) returns (r: Result<(), NameFault>)
      requires Valid() && ValidName(name)
      modifies this`nodes, this`changed
      ensures Valid()
      ensures match ValidateName(naming, name)
              case Err(e) => r == Err(e) && Holds() == old(Holds()) && changed == old(changed)
              case Ok(n) =>
                && r == Ok(()) && Holds() == old(Holds()) - {Fold(n)}
                && changed == if Fold(n) in old(Holds()) then old(changed) + {Fold(n)} else old(changed)
    {
      hide ShapeOk, ValidateName;
      var valid := ValidateName(naming, name);
      if valid.Err? {
        return Err(valid.error);
      }
      var key := Fold(valid.value);
      if key in nodes {
        ShapeDrop(naming, base, nodes, changed, owned, key);
        nodes := nodes - {key};
        changed := changed + {key};
      }
      r := Ok(());
    }

    /** The node of `name` without the set under `key`; is it empty now? */
    method RemoveSet(name: Name, key: (U16, U16, U16)) returns (r: Result<bool, NameFault>)
      requires Valid() && ValidName(name)
      modifies this`nodes, this`changed, this`owned, owned
      ensures Valid() && old(owned) <= owned && fresh(owned - old(owned))
      ensures match ValidateName(naming, name)
              case Err(e) => r == Err(e) && Holds() == old(Holds()) && changed == old(changed)
              case Ok(n) =>
                && changed == old(changed) + {Fold(n)}
                && Holds() == old(Holds())[Fold(n) := Remove(SetsAt(old(Holds()), Fold(n)), key)]
                && r == Ok(Remove(SetsAt(old(Holds()), Fold(n)), key) == [])
    {
      hide ShapeOk, ValidateName, Remove;
      var node := MaybeCow(name);
      if node.Err? {
        return Err(node.error);
      }
      Private(naming, base, nodes, changed, owned, node.value.1);
      node.value.0.DeleteRdataset(key);
      r := Ok(|node.value.0.rdatasets| == 0);
    }

    /** delete_rdataset.  The node is looked up under the validated name, but a node left
        empty is deleted under the name as given: given a name of the other relativity,
        that raises KeyError and the empty node stays. */
    method DeleteRdataset(name: Name, rdtype: U16, covers: U16) returns (r: Result<(), DeleteFault>)
      requires Valid() && ValidName(name)
      modifies this`nodes, this`changed, this`owned, owned
      ensures Valid() && old(owned) <= owned && fresh(owned - old(owned))
      ensures match ValidateName(naming, name)
              case Err(e) => r == Err(BadName(e)) && Holds() == old(Holds()) && changed == old(changed)
              case Ok(n) =>
                var c, k := old(Holds()), Fold(n);
                && changed == old(changed) + {k}
                && if DeleteRaises(naming, name, SetsAt(c, k), (rdclass, rdtype, covers))
                   then r == Err(KeyError) && Holds() == c[k := []]
                   else r == Ok(()) && Holds() == DeleteSet(c, k, (rdclass, rdtype, covers))
    {
      hide ShapeOk, ValidateName, Remove, ValidName, Fold;
      var empty := RemoveSet(name, (rdclass, rdtype, covers));
      if empty.Err? {
        return Err(BadName(empty.error));
      }
      if empty.value {
        ForeignKey(naming, name);
        KeysNative(naming, base, nodes, changed, owned);
        var known := DropNode(Fold(name));
        if !known {
          return Err(KeyError);
        }
      }
      r := Ok(());
    }

    /** del self.nodes[key], for a node that was changed. */
    method DropNode(key: Name) returns (known: bool)
      requires Valid() && (key in nodes ==> key in changed)
      modifies this`nodes
      ensures Valid() && known == (key in old(nodes)) && Holds() == old(Holds()) - {key}
      ensures !known ==> Holds() == old(Holds())
    {
      hide ShapeOk;
      known := key in nodes;
      if known {
        ShapeDrop(naming, base, nodes, changed, owned, key);
        assert changed + {key} == changed;
        nodes := nodes - {key};
      }
    }
  }

  lemma KeysNative(naming: Naming, base: NodeMap, nodes: NodeMap, changed: set<Name>, owned: set<Node>)
    requires ShapeOk(naming, base, nodes, changed, owned)
    ensures forall k :: k in nodes ==> IsAbsolute(k) == !naming.relativize
  {
  }

  /** When delete_rdataset raises: the set was the last of its node, and the name is not of
      the zone's own relativity. */
  predicate DeleteRaises(naming: Naming, name: Name, sets: Sets, key: (U16, U16, U16)) {
    Remove(sets, key) == [] && !naming.Native(name)
  }

  lemma FoldRelativity(n: Name)
    ensures IsAbsolute(Fold(n)) == IsAbsolute(n)
  {
  }

  /** A name of the zone's own relativity is its own key; any other name is no key at all. */
  lemma ForeignKey(naming: Naming, name: Name)
    requires naming.Valid() && ValidName(name) && ValidateName(naming, name).Ok?
    ensures naming.Native(name) ==> ValidateName(naming, name) == Ok(name)
    ensures !naming.Native(name) ==> IsAbsolute(Fold(name)) == naming.relativize
  {
    FoldRelativity(name);
  }

  /** The failure at work: deleting the only set at www.example. by its absolute name, in a
      zone that holds its names relative to example., raises KeyError. */
  lemma DeleteByAbsoluteNameRaises()
    ensures var www, example := [[0x77, 0x77, 0x77]], [[0x65], []];
            var naming := Naming(Some(example), true);
            var a := Rdataset(1, 1, 0, 300, [[192, 0, 2, 1]]);
            && naming.Valid() && ValidName(www + example)
            && ValidateName(naming, www + example) == Ok(www)
            && DeleteRaises(naming, www + example, [a], a.Key())
            && !DeleteRaises(naming, www, [a], a.Key())
  {
    var www: Name, example: Name := [[0x77, 0x77, 0x77]], [[0x65], []];
    assert WireLength(example[1..]) == 1;
    assert WireLength(example) == 3;
    WireLengthConcat(www, example);
    assert WireLength(www) == 4;
    assert (www + example)[1..] == example;
    assert (www + example)[..1] == www;
    assert Remove([Rdataset(1, 1, 0, 300, [[192, 0, 2, 1]])], (1, 1, 0)) == [];
  }
}
