/** Domain names as tuples of labels (dns/name.py): validation, case folding and
    relativity. */
module Names {
  import opened Common

  type Label = Bytes
  /** The labels of a name, leaf first; an absolute name ends in the empty root label. */
  type Name = seq<Label>

  const MAX_LABEL := 63
  const MAX_NAME := 255

  datatype NameError =
    | LabelTooLong
    | NameTooLong
    | EmptyLabel
    | NeedAbsoluteNameOrOrigin

  /** ASCII lower case, as bytes.lower() does it. */
  function LowerByte(b: Byte): Byte {
    if 0x41 <= b <= 0x5A then b + 0x20 else b
  }

  function Lower(l: Label): (r: Label)
    ensures |r| == |l|
  {
    seq(|l|, i requires 0 <= i < |l| => LowerByte(l[i]))
  }

  /** The form under which names compare and hash: every label in lower case. */
  function Fold(n: Name): (r: Name)
    ensures |r| == |n|
    ensures forall i :: 0 <= i < |n| ==> r[i] == Lower(n[i])
  {
    seq(|n|, i requires 0 <= i < |n| => Lower(n[i]))
  }

  /** Equality of names: Name.__eq__ ignores the case of ASCII letters. */
  predicate SameName(a: Name, b: Name) {
    Fold(a) == Fold(b)
  }

  predicate IsAbsolute(n: Name) {
    |n| > 0 && n[|n| - 1] == []
  }

  /** Octets of the uncompressed wire form. */
  function WireLength(n: Name): (len: nat)
    ensures len >= |n|
  {
    if n == [] then 0 else |n[0]| + 1 + WireLength(n[1..])
  }

  predicate ShortLabels(n: Name) {
    forall i :: 0 <= i < |n| ==> |n[i]| <= MAX_LABEL
  }

  /** The root label may only come last. */
  predicate RootLast(n: Name) {
    forall i :: 0 <= i < |n| - 1 ==> n[i] != []
  }

  predicate ValidName(n: Name) {
    ShortLabels(n) && WireLength(n) <= MAX_NAME && RootLast(n)
  }

  /** The two names that absolute-name operations meet at the end of every walk. */
  const ROOT: Name := [[]]
  const EMPTY: Name := []

  lemma LowerIdempotent(l: Label)
    ensures Lower(Lower(l)) == Lower(l)
  {
  }

  lemma FoldConcat(a: Name, b: Name)
    ensures Fold(a + b) == Fold(a) + Fold(b)
  {
  }

  lemma FoldTail(n: Name)
    requires n != []
    ensures Fold(n) == [Lower(n[0])] + Fold(n[1..])
  {
  }

  lemma {:induction false} WireLengthConcat(a: Name, b: Name)
    ensures WireLength(a + b) == WireLength(a) + WireLength(b)
  {
    if a == [] {
      assert a + b == b;
    } else {
      assert (a + b)[1..] == a[1..] + b;
      WireLengthConcat(a[1..], b);
    }
  }

  lemma {:induction false} WireLengthFold(a: Name)
    ensures WireLength(Fold(a)) == WireLength(a)
  {
    if a != [] {
      assert Fold(a)[1..] == Fold(a[1..]);
      WireLengthFold(a[1..]);
    }
  }

  /** Every suffix of a valid name is a valid name of the same relativity, so that
      the Name objects built for the suffixes in to_wire never raise. */
  lemma SuffixValid(n: Name, i: nat)
    requires ValidName(n) && i <= |n|
    ensures ValidName(n[i..])
    ensures i < |n| ==> IsAbsolute(n[i..]) == IsAbsolute(n)
  {
    WireLengthConcat(n[..i], n[i..]);
    assert n[..i] + n[i..] == n;
  }

  /** Names that compare equal are both absolute or both relative. */
  lemma SameNameRelativity(a: Name, b: Name)
    requires SameName(a, b)
    ensures |a| == |b| && IsAbsolute(a) == IsAbsolute(b) && ValidName(a) == ValidName(b)
  {
    assert |Fold(a)| == |Fold(b)|;
    forall i | 0 <= i < |a| ensures |a[i]| == |b[i]| {
      assert Fold(a)[i] == Fold(b)[i];
    }
    WireLengthFold(a);
    WireLengthFold(b);
  }

  /** _validate_labels: the checks of the Name constructor, in its order. */
  method ValidateLabels(labels: Name) returns (r: Result<Name, NameError>)
    ensures r == CheckLabels(labels)
  {
    var total := 0;
    var i := -1;
    var j := 0;
    while j < |labels|
      invariant 0 <= j <= |labels|
      invariant total == WireLength(labels[..j])
      invariant ShortLabels(labels[..j])
      invariant -1 <= i < j
      invariant i < 0 ==> forall k :: 0 <= k < j ==> labels[k] != []
      invariant i >= 0 ==> labels[i] == [] && forall k :: 0 <= k < i ==> labels[k] != []
    {
      var ll := |labels[j]|;
      assert labels[..j + 1] == labels[..j] + [labels[j]];
      WireLengthConcat(labels[..j], [labels[j]]);
      total := total + ll + 1;
      if ll > MAX_LABEL {
        return Err(LabelTooLong);
      }
      if i < 0 && labels[j] == [] {
        i := j;
      }
      j := j + 1;
    }
    assert labels[..j] == labels;
    if total > MAX_NAME {
      return Err(NameTooLong);
    }
    if i >= 0 && i != |labels| - 1 {
      return Err(EmptyLabel);
    }
    return Ok(labels);
  }

  /** What the Name constructor makes of a tuple of labels: a label that is too long is
      reported before a name that is too long, and that before a misplaced root label. */
  function CheckLabels(labels: Name): (r: Result<Name, NameError>)
    ensures r.Ok? <==> ValidName(labels)
    ensures r.Ok? ==> r.value == labels
  {
    if !ShortLabels(labels) then Err(LabelTooLong)
    else if WireLength(labels) > MAX_NAME then Err(NameTooLong)
    else if !RootLast(labels) then Err(EmptyLabel)
    else Ok(labels)
  }

  /** The labels to_wire emits: a relative name is completed with an absolute origin,
      and the Name built for the completed labels must itself be valid. */
  function Complete(n: Name, origin: Option<Name>): (r: Result<Name, NameError>)
    requires ValidName(n) && (origin.Some? ==> ValidName(origin.value))
    ensures r.Ok? ==> ValidName(r.value) && IsAbsolute(r.value) && n <= r.value
    ensures IsAbsolute(n) ==> r == Ok(n)
  {
    if IsAbsolute(n) then Ok(n)
    else if origin.None? || !IsAbsolute(origin.value) then Err(NeedAbsoluteNameOrOrigin)
    else if WireLength(n + origin.value) > MAX_NAME then Err(NameTooLong)
    else Ok(n + origin.value)
  }

  // ---------------------------------------------------------------- what the words mean

  /** The same octet, or the two cases of one letter. */
  predicate SameOctet(a: Byte, b: Byte) {
    || a == b
    || exists i :: 0 <= i < 26 && Pair("ABCDEFGHIJKLMNOPQRSTUVWXYZ"[i], "abcdefghijklmnopqrstuvwxyz"[i], a, b)
  }

  predicate Pair(upper: char, lower: char, a: Byte, b: Byte) {
    (a == upper as int && b == lower as int) || (a == lower as int && b == upper as int)
  }

  lemma LowerSame(a: Byte, b: Byte)
    ensures LowerByte(a) == LowerByte(b) <==> SameOctet(a, b)
  {
    Alphabet();
    if 0x41 <= a <= 0x5A && b == a + 0x20 {
      assert Pair("ABCDEFGHIJKLMNOPQRSTUVWXYZ"[a - 0x41], "abcdefghijklmnopqrstuvwxyz"[a - 0x41], a, b);
    }
    if 0x41 <= b <= 0x5A && a == b + 0x20 {
      assert Pair("ABCDEFGHIJKLMNOPQRSTUVWXYZ"[b - 0x41], "abcdefghijklmnopqrstuvwxyz"[b - 0x41], a, b);
    }
  }

  lemma Alphabet()
    ensures forall i :: 0 <= i < 26 ==>
              "ABCDEFGHIJKLMNOPQRSTUVWXYZ"[i] as int == 0x41 + i && "abcdefghijklmnopqrstuvwxyz"[i] as int == 0x61 + i
  {
  }

  /** Names are the same when their labels agree one by one, octet by octet up to the case of
      letters. */
  lemma SameNameMeans(a: Name, b: Name)
    ensures SameName(a, b) <==>
            && |a| == |b|
            && forall i :: 0 <= i < |a| ==>
                 |a[i]| == |b[i]| && forall j :: 0 <= j < |a[i]| ==> SameOctet(a[i][j], b[i][j])
  {
    hide SameOctet, LowerByte;
    assert |Fold(a)| == |a| && |Fold(b)| == |b|;
    if |a| == |b| {
      forall i | 0 <= i < |a|
        ensures Lower(a[i]) == Lower(b[i]) <==>
                |a[i]| == |b[i]| && forall j :: 0 <= j < |a[i]| ==> SameOctet(a[i][j], b[i][j]) {
        LowerMeans(a[i], b[i]);
      }
      assert SameName(a, b) <==> forall i :: 0 <= i < |a| ==> Fold(a)[i] == Fold(b)[i];
    }
  }

  lemma LowerMeans(a: Label, b: Label)
    ensures Lower(a) == Lower(b) <==> |a| == |b| && forall j :: 0 <= j < |a| ==> SameOctet(a[j], b[j])
  {
    hide SameOctet, LowerByte;
    assert |Lower(a)| == |a| && |Lower(b)| == |b|;
    if |a| == |b| {
      forall j | 0 <= j < |a| ensures Lower(a)[j] == Lower(b)[j] <==> SameOctet(a[j], b[j]) {
        LowerSame(a[j], b[j]);
      }
      assert Lower(a) == Lower(b) <==> forall j :: 0 <= j < |a| ==> Lower(a)[j] == Lower(b)[j];
    }
  }

  /** Which labels make a name, and what is wrong with others: a label of more than 63 octets,
      more than 255 octets with a length for each label, or an empty label before the last. */
  lemma CheckMeans(n: Name)
    ensures CheckLabels(n) == Err(LabelTooLong) <==> exists i :: 0 <= i < |n| && |n[i]| > 63
    ensures CheckLabels(n) == Err(NameTooLong) <==>
              WireLength(n) > 255 && forall i :: 0 <= i < |n| ==> |n[i]| <= 63
    ensures CheckLabels(n) == Err(EmptyLabel) <==>
              && WireLength(n) <= 255 && (forall i :: 0 <= i < |n| ==> |n[i]| <= 63)
              && exists i :: 0 <= i < |n| - 1 && n[i] == []
    ensures ValidName(n) <==>
              && WireLength(n) <= 255 && (forall i :: 0 <= i < |n| ==> |n[i]| <= 63)
              && forall i :: 0 <= i < |n| - 1 ==> n[i] != []
  {
  }

  /** A relative name is completed by its origin: what is written is the one followed by the
      other, if that is at most 255 octets. */
  lemma CompleteMeans(n: Name, origin: Name)
    requires ValidName(n) && ValidName(origin) && (n == [] || n[|n| - 1] != [])
    ensures Complete(n, None) == Err(NeedAbsoluteNameOrOrigin)
    ensures origin == [] || origin[|origin| - 1] != [] ==> Complete(n, Some(origin)) == Err(NeedAbsoluteNameOrOrigin)
    ensures origin != [] && origin[|origin| - 1] == [] ==>
              Complete(n, Some(origin))
              == if WireLength(n) + WireLength(origin) <= 255 then Ok(n + origin) else Err(NameTooLong)
  {
    WireLengthConcat(n, origin);
  }
}
