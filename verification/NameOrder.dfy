/** The order of names (dns/name.py, fullcompare): relative before absolute, and then the
    canonical order of section 6.1 of RFC 4034. */
module NameOrder {
  import opened Common
  import opened Names

  datatype Relation = NoRelation | Superdomain | Subdomain | Equal | CommonAncestor

  /** How bytes compare. */
  predicate Less(a: Label, b: Label) {
    if b == [] then false else if a == [] then true
    else a[0] < b[0] || (a[0] == b[0] && Less(a[1..], b[1..]))
  }

  lemma {:induction false} LessTotal(a: Label, b: Label)
    ensures Less(a, b) || Less(b, a) || a == b
    ensures !(Less(a, b) && Less(b, a))
  {
    if a != [] && b != [] {
      LessTotal(a[1..], b[1..]);
      assert a == [a[0]] + a[1..] && b == [b[0]] + b[1..];
    }
  }

  lemma {:induction false} LessTransitive(a: Label, b: Label, c: Label)
    requires Less(a, b) && Less(b, c)
    ensures Less(a, c)
  {
    if a != [] && a[0] == b[0] && b[0] == c[0] {
      LessTransitive(a[1..], b[1..], c[1..]);
    }
  }

  function Last(n: Name): Label
    requires n != []
  {
    Lower(n[|n| - 1])
  }

  function Up(n: Name): Name
    requires n != []
  {
    n[..|n| - 1]
  }

  /** The order of names of the same relativity, label by label from the root end. */
  function Compare(a: Name, b: Name): int {
    if a == [] || b == [] then |a| - |b|
    else if Less(Last(a), Last(b)) then -1
    else if Less(Last(b), Last(a)) then 1
    else Compare(Up(a), Up(b))
  }

  /** The labels two names share at the root end. */
  function SharedLabels(a: Name, b: Name): (n: nat)
    ensures n <= |a| && n <= |b|
  {
    if a == [] || b == [] || Last(a) != Last(b) then 0 else 1 + SharedLabels(Up(a), Up(b))
  }

  function Order(a: Name, b: Name): int {
    if IsAbsolute(a) != IsAbsolute(b) then if IsAbsolute(a) then 1 else -1 else Compare(a, b)
  }

  /** The relation between names that share so many labels. */
  function RelationOf(a: Name, b: Name, shared: nat): Relation {
    if shared == |a| && shared == |b| then Equal
    else if shared == |a| then Superdomain
    else if shared == |b| then Subdomain
    else if shared > 0 then CommonAncestor
    else NoRelation
  }

  /** What is left to compare once some labels at the root end have been. */
  function CompareFrom(a: Name, b: Name, n: nat): int
    requires n <= |a| && n <= |b|
  {
    Compare(a[..|a| - n], b[..|b| - n])
  }

  function SharedFrom(a: Name, b: Name, n: nat): (r: nat)
    requires n <= |a| && n <= |b|
    ensures r <= |a| - n && r <= |b| - n
  {
    SharedLabels(a[..|a| - n], b[..|b| - n])
  }

  lemma FromStart(a: Name, b: Name)
    ensures CompareFrom(a, b, 0) == Compare(a, b) && SharedFrom(a, b, 0) == SharedLabels(a, b)
  {
    assert a[..|a|] == a && b[..|b|] == b;
  }

  /** One turn of the loop. */
  lemma Turn(a: Name, b: Name, n: nat)
    requires n < |a| && n < |b|
    ensures var x, y := Lower(a[|a| - n - 1]), Lower(b[|b| - n - 1]);
            && CompareFrom(a, b, n) == (if Less(x, y) then -1 else if Less(y, x) then 1 else CompareFrom(a, b, n + 1))
            && SharedFrom(a, b, n) == (if Less(x, y) || Less(y, x) then 0 else 1 + SharedFrom(a, b, n + 1))
  {
    var x, y := a[..|a| - n], b[..|b| - n];
    assert Up(x) == a[..|a| - n - 1] && Up(y) == b[..|b| - n - 1];
    LessTotal(Last(x), Last(y));
  }

  lemma Ended(a: Name, b: Name, n: nat)
    requires n <= |a| && n <= |b| && (n == |a| || n == |b|)
    ensures CompareFrom(a, b, n) == |a| - |b| && SharedFrom(a, b, n) == 0
  {
  }

  /** fullcompare. */
  method FullCompare(a: Name, b: Name) returns (relation: Relation, order: int, nlabels: nat)
    ensures order == Order(a, b)
    ensures IsAbsolute(a) != IsAbsolute(b) ==> relation == NoRelation && nlabels == 0
    ensures IsAbsolute(a) == IsAbsolute(b) ==> nlabels == SharedLabels(a, b) && relation == RelationOf(a, b, nlabels)
  {
    var sabs, oabs := IsAbsolute(a), IsAbsolute(b);
    if sabs != oabs {
      return NoRelation, if sabs then 1 else -1, 0;
    }
    hide CompareFrom, SharedFrom, Less, Lower, Compare, SharedLabels;
    FromStart(a, b);
    var l1, l2 := |a|, |b|;
    var ldiff := l1 - l2;
    var l := if ldiff < 0 then l1 else l2;
    order, nlabels, relation := 0, 0, NoRelation;
    while l > 0
      invariant l1 == |a| - nlabels >= 0 && l2 == |b| - nlabels >= 0 && l == if ldiff < 0 then l1 else l2
      invariant SharedLabels(a, b) == nlabels + SharedFrom(a, b, nlabels) && Compare(a, b) == CompareFrom(a, b, nlabels)
      invariant relation == NoRelation
      decreases l
    {
      Turn(a, b, nlabels);
      l, l1, l2 := l - 1, l1 - 1, l2 - 1;
      var label1, label2 := Lower(a[l1]), Lower(b[l2]);
      if Less(label1, label2) {
        order := -1;
        if nlabels > 0 {
          relation := CommonAncestor;
        }
        return;
      } else if Less(label2, label1) {
        order := 1;
        if nlabels > 0 {
          relation := CommonAncestor;
        }
        return;
      }
      nlabels := nlabels + 1;
    }
    Ended(a, b, nlabels);
    order := ldiff;
    relation := if ldiff < 0 then Superdomain else if ldiff > 0 then Subdomain else Equal;
  }

  // ---------------------------------------------------------------- an order

  lemma FoldParts(n: Name)
    requires n != []
    ensures Fold(n) == Fold(Up(n)) + [Last(n)]
  {
  }

  /** Comparing as zero is being the same name, case aside; otherwise exactly one of two names
      comes first. */
  lemma {:induction false} CompareSame(a: Name, b: Name)
    ensures Compare(a, b) == 0 <==> SameName(a, b)
    ensures Compare(a, b) < 0 <==> Compare(b, a) > 0
  {
    if a != [] && b != [] {
      LessTotal(Last(a), Last(b));
      CompareSame(Up(a), Up(b));
      FoldParts(a);
      FoldParts(b);
      assert Fold(a)[|a| - 1] == Last(a) && Fold(b)[|b| - 1] == Last(b);
      assert Fold(a)[..|a| - 1] == Fold(Up(a)) && Fold(b)[..|b| - 1] == Fold(Up(b));
    } else {
      assert |Fold(a)| == |a| && |Fold(b)| == |b|;
    }
  }

  lemma OrderSame(a: Name, b: Name)
    ensures Order(a, b) == 0 <==> SameName(a, b)
    ensures Order(a, b) < 0 <==> Order(b, a) > 0
  {
    CompareSame(a, b);
    CompareSame(b, a);
    if SameName(a, b) && IsAbsolute(a) != IsAbsolute(b) {
      SameNameRelativity(a, b);
    }
  }

  lemma {:induction false} CompareTransitive(a: Name, b: Name, c: Name)
    requires Compare(a, b) < 0 && Compare(b, c) < 0
    ensures Compare(a, c) < 0
    decreases |a|
  {
    if a != [] && b != [] && c != [] {
      LessTotal(Last(a), Last(b));
      LessTotal(Last(b), Last(c));
      LessTotal(Last(a), Last(c));
      if Less(Last(a), Last(b)) && Less(Last(b), Last(c)) {
        LessTransitive(Last(a), Last(b), Last(c));
      }
      if Last(a) == Last(b) == Last(c) {
        CompareTransitive(Up(a), Up(b), Up(c));
      }
    }
  }

  /** The order is transitive. */
  lemma OrderTransitive(a: Name, b: Name, c: Name)
    requires Order(a, b) < 0 && Order(b, c) < 0
    ensures Order(a, c) < 0
  {
    if IsAbsolute(a) == IsAbsolute(b) == IsAbsolute(c) {
      CompareTransitive(a, b, c);
    }
  }

  /** is_subdomain: sharing every label of a name is ending in it. */
  lemma {:induction false} SubdomainIff(a: Name, b: Name)
    ensures SharedLabels(a, b) == |b| <==> |b| <= |a| && Fold(a[|a| - |b|..]) == Fold(b)
    decreases |b|
  {
    if b == [] {
      assert a[|a|..] == [];
    } else if a != [] {
      SubdomainIff(Up(a), Up(b));
      if |b| <= |a| {
        var tail := a[|a| - |b|..];
        assert Up(tail) == Up(a)[|Up(a)| - |Up(b)|..];
        FoldParts(tail);
        FoldParts(b);
        assert Fold(tail)[|b| - 1] == Last(a) && Fold(b)[|b| - 1] == Last(b);
        assert Fold(tail)[..|b| - 1] == Fold(Up(tail)) && Fold(b)[..|b| - 1] == Fold(Up(b));
      }
    }
  }

  /** A name and those under it stand together: between two names under one, every name of the
      same relativity is under it too. */
  lemma {:induction false} SubdomainsTogether(zone: Name, a: Name, b: Name, c: Name)
    requires SharedLabels(a, zone) == |zone| && SharedLabels(c, zone) == |zone| && Compare(a, b) <= 0
    requires Compare(b, c) <= 0
    ensures SharedLabels(b, zone) == |zone|
    decreases |zone|
  {
    if zone != [] {
      assert a != [] && c != [] && b != [];
      LessTotal(Last(a), Last(b));
      LessTotal(Last(b), Last(c));
      SubdomainsTogether(Up(zone), Up(a), Up(b), Up(c));
    }
  }

  // ---------------------------------------------------------------- which order

  /** Labels stand in the order of their octets: the lower octet where they first differ comes
      first, and a label before any it begins. */
  lemma {:induction false} LessMeans(a: Label, b: Label)
    ensures Less(a, b) <==>
            exists k :: 0 <= k <= |a| && k < |b| && a[..k] == b[..k] && (k == |a| || a[k] < b[k])
  {
    if a != [] && b != [] {
      var x, y := a[1..], b[1..];
      LessMeans(x, y);
      if Less(a, b) {
        if a[0] < b[0] {
          assert a[..0] == b[..0] && a[0] < b[0];
        } else {
          var k :| 0 <= k <= |x| && k < |y| && x[..k] == y[..k] && (k == |x| || x[k] < y[k]);
          assert a[..k + 1] == [a[0]] + x[..k] && b[..k + 1] == [b[0]] + y[..k];
          assert a[..k + 1] == b[..k + 1] && (k + 1 == |a| || a[k + 1] < b[k + 1]);
        }
      }
      if k :| 0 <= k <= |a| && k < |b| && a[..k] == b[..k] && (k == |a| || a[k] < b[k]) {
        if k > 0 {
          assert a[0] == a[..k][0] == b[..k][0] == b[0];
          assert x[..k - 1] == a[..k][1..] == b[..k][1..] == y[..k - 1];
          assert k - 1 == |x| || x[k - 1] < y[k - 1];
        }
      }
    } else if a == [] && b != [] {
      assert a[..0] == b[..0];
    }
  }

  /** Label `j` from the root end, in lower case. */
  function FromEnd(n: Name, j: nat): Label
    requires 1 <= j <= |n|
  {
    Lower(n[|n| - j])
  }

  /** The last `k` labels agree, case aside, and then `a` has no more, or the lower one. */
  predicate LowerAt(a: Name, b: Name, k: nat) {
    && k <= |a| && k < |b|
    && (forall j :: 1 <= j <= k ==> FromEnd(a, j) == FromEnd(b, j))
    && (k < |a| ==> Less(FromEnd(a, k + 1), FromEnd(b, k + 1)))
  }

  lemma {:induction false} CompareAt(a: Name, b: Name, k: nat)
    requires LowerAt(a, b, k)
    ensures Compare(a, b) < 0
    decreases k
  {
    if k > 0 {
      assert FromEnd(a, 1) == FromEnd(b, 1);
      LessTotal(Last(a), Last(b));
      forall j | 1 <= j <= k - 1 ensures FromEnd(Up(a), j) == FromEnd(Up(b), j) {
        assert FromEnd(a, j + 1) == FromEnd(b, j + 1);
      }
      CompareAt(Up(a), Up(b), k - 1);
    } else if a != [] {
      LessTotal(Last(a), Last(b));
    }
  }

  lemma {:induction false} FirstDifference(a: Name, b: Name) returns (k: nat)
    requires Compare(a, b) < 0
    ensures LowerAt(a, b, k)
    decreases |a|
  {
    hide Less, Lower;
    k := 0;
    if a != [] && b != [] && !Less(Last(a), Last(b)) {
      LessTotal(Last(a), Last(b));
      k := FirstDifference(Up(a), Up(b));
      forall j | 1 <= j <= k + 1 ensures FromEnd(a, j) == FromEnd(b, j) {
        if j > 1 {
          assert FromEnd(Up(a), j - 1) == FromEnd(Up(b), j - 1);
        }
      }
      k := k + 1;
    }
  }

  /** Names stand in the order of the labels where they first differ from the root end, case
      aside, and a name before any it is the end of; a relative name comes before an absolute
      one. */
  lemma OrderMeans(a: Name, b: Name)
    ensures IsAbsolute(b) && !IsAbsolute(a) ==> Order(a, b) < 0
    ensures IsAbsolute(a) == IsAbsolute(b) ==> (Order(a, b) < 0 <==> exists k: nat :: LowerAt(a, b, k))
  {
    if k: nat :| LowerAt(a, b, k) {
      CompareAt(a, b, k);
    }
    if Compare(a, b) < 0 {
      var k := FirstDifference(a, b);
    }
  }

  lemma {:induction false} SharedSymmetric(a: Name, b: Name)
    ensures SharedLabels(a, b) == SharedLabels(b, a)
  {
    if a != [] && b != [] {
      SharedSymmetric(Up(a), Up(b));
    }
  }

  /** The relation of two names of one relativity: the same, one the end of the other, with some
      labels at the root end in common, or with none. */
  lemma RelationMeans(a: Name, b: Name)
    ensures var r := RelationOf(a, b, SharedLabels(a, b));
            && (r == Equal <==> SameName(a, b))
            && (r == Subdomain <==> |b| < |a| && SameName(a[|a| - |b|..], b))
            && (r == Superdomain <==> |a| < |b| && SameName(a, b[|b| - |a|..]))
            && (r == NoRelation <==> a != [] && b != [] && Last(a) != Last(b))
  {
    SubdomainIff(a, b);
    SubdomainIff(b, a);
    SharedSymmetric(a, b);
    assert a[0..] == a && b[0..] == b;
    assert SameName(a, b) ==> |a| == |b| by {
      assert |Fold(a)| == |a| && |Fold(b)| == |b|;
    }
  }
}
