/** A dictionary of names that finds the deepest match for a name (dns/namedict.py). */
module NameDicts {
  import opened Common
  import opened Names

  /** Does the name end in this key, ignoring case? */
  predicate Superdomain(key: Name, name: Name) {
    |key| <= |name| && Fold(name[|name| - |key|..]) == key
  }

  /** The first of the suffixes of a name, from one on, that is a key: the longest. */
  function LongestSuffix<V>(store: map<Name, V>, name: Name, from: nat): (r: Option<nat>)
    requires from <= |name|
    ensures r.Some? ==> from <= r.value <= |name| && Fold(name[r.value..]) in store
                        && forall i :: from <= i < r.value ==> Fold(name[i..]) !in store
    ensures r.None? ==> forall i :: from <= i <= |name| ==> Fold(name[i..]) !in store
    decreases |name| - from
  {
    if Fold(name[from..]) in store then Some(from)
    else if from == |name| then None
    else LongestSuffix(store, name, from + 1)
  }

  /** What the longest suffix is: of all keys that the name ends in, the longest. */
  lemma LongestIsDeepest<V>(store: map<Name, V>, name: Name, key: Name)
    requires key in store && Superdomain(key, name)
    ensures LongestSuffix(store, name, 0).Some? && |key| <= |name| - LongestSuffix(store, name, 0).value
  {
    var at := |name| - |key|;
    assert Fold(name[at..]) in store;
  }

  function AtDepth<V>(store: map<Name, V>, depth: nat): set<Name> {
    set k | k in store && |k| == depth
  }

  /** No key is deeper than `depth`, and no more keys than `items` are as deep. */
  predicate Bounds<V>(store: map<Name, V>, depth: nat, items: int) {
    (forall k :: k in store ==> |k| <= depth) && |AtDepth(store, depth)| <= items
  }

  /** Counting a key that may have been there already keeps the bounds. */
  lemma BoundsSet<V>(store: map<Name, V>, depth: nat, items: int, key: Name, value: V)
    requires Bounds(store, depth, items)
    ensures |key| == depth ==> Bounds(store[key := value], depth, items + 1)
    ensures |key| > depth ==> Bounds(store[key := value], |key|, 1)
    ensures |key| < depth ==> Bounds(store[key := value], depth, items)
  {
    var after := store[key := value];
    if |key| == depth {
      assert AtDepth(after, depth) == AtDepth(store, depth) + {key};
    } else if |key| > depth {
      assert AtDepth(after, |key|) == {key};
    } else {
      assert AtDepth(after, depth) == AtDepth(store, depth);
    }
  }

  lemma BoundsDelete<V>(store: map<Name, V>, depth: nat, items: int, key: Name)
    requires Bounds(store, depth, items) && key in store
    ensures Bounds(store - {key}, depth, if |key| == depth then items - 1 else items)
  {
    var after := store - {key};
    if |key| == depth {
      assert AtDepth(after, depth) == AtDepth(store, depth) - {key};
    } else {
      assert AtDepth(after, depth) == AtDepth(store, depth);
    }
  }

  class NameDict<V> {
    var store: map<Name, V>
    var maxDepth: nat
    var maxDepthItems: int

    ghost predicate Valid()
      reads this
    {
      Bounds(store, maxDepth, maxDepthItems)
    }

    constructor ()
      ensures Valid() && store == map[]
    {
      store, maxDepth, maxDepthItems := map[], 0, 0;
    }

    method UpdateMaxDepth(key: Name)
      modifies this`maxDepth, this`maxDepthItems
      ensures |key| == old(maxDepth) ==> maxDepth == old(maxDepth) && maxDepthItems == old(maxDepthItems) + 1
      ensures |key| > old(maxDepth) ==> maxDepth == |key| && maxDepthItems == 1
      ensures |key| < old(maxDepth) ==> maxDepth == old(maxDepth) && maxDepthItems == old(maxDepthItems)
    {
      if |key| == maxDepth {
        maxDepthItems := maxDepthItems + 1;
      } else if |key| > maxDepth {
        maxDepth := |key|;
        maxDepthItems := 1;
      }
    }

    /** __setitem__: the key is counted even where it only gets a new value. */
    method SetItem(key: Name, value: V)
      requires Valid()
      modifies this
      ensures Valid() && store == old(store)[Fold(key) := value]
    {
      BoundsSet(store, maxDepth, maxDepthItems, Fold(key), value);
      store := store[Fold(key) := value];
      UpdateMaxDepth(key);
    }

    /** __delitem__: false where it raises KeyError.  When the count runs out, depth and
        count are taken anew from the keys that are left. */
    method DelItem(key: Name) returns (known: bool)
      requires Valid()
      modifies this
      ensures Valid() && known == (Fold(key) in old(store))
      ensures store == if known then old(store) - {Fold(key)} else old(store)
    {
      if Fold(key) !in store {
        return false;
      }
      BoundsDelete(store, maxDepth, maxDepthItems, Fold(key));
      store := store - {Fold(key)};
      if |key| == maxDepth {
        maxDepthItems := maxDepthItems - 1;
      }
      if maxDepthItems == 0 {
        Recount();
      }
      known := true;
    }

    /** The loop over the keys left, in any order: depth and count become exact. */
    method Recount()
      requires maxDepthItems == 0
      modifies this`maxDepth, this`maxDepthItems
      ensures Valid() && maxDepthItems == |AtDepth(store, maxDepth)|
      ensures maxDepth == 0 || exists k :: k in store && |k| == maxDepth
    {
      hide Exact;
      maxDepth := 0;
      var rest := store.Keys;
      ghost var seen: set<Name> := {};
      ExactNone();
      while rest != {}
        invariant rest + seen == store.Keys && rest !! seen
        invariant Exact(seen, maxDepth, maxDepthItems)
        decreases |rest|
      {
        var k :| k in rest;
        ExactAdd(seen, maxDepth, maxDepthItems, k);
        rest := rest - {k};
        seen := seen + {k};
        UpdateMaxDepth(k);
      }
      assert seen == store.Keys;
      ExactBounds(store, maxDepth, maxDepthItems);
    }

    /** get_deepest_match: the match is the suffix of the name itself; none for KeyError. */
    method GetDeepestMatch(name: Name) returns (r: Option<(Name, V)>)
      requires Valid() && ValidName(name)
      ensures match LongestSuffix(store, name, 0)
              case None => r == None
              case Some(i) => r == Some((name[i..], store[Fold(name[i..])]))
    {
      hide Fold, Bounds, LongestSuffix;
      var depth := |name|;
      if depth > maxDepth {
        depth := maxDepth;
      }
      TooDeep(store, maxDepth, maxDepthItems, name);
      var i: int := -depth;
      while i < 0
        invariant -depth <= i <= 0
        invariant NoneBefore(store, name, |name| + i)
      {
        SuffixValid(name, |name| + i);
        var n := name[|name| + i..];
        if Fold(n) in store {
          FoundAt(store, name, |name| + i);
          return Some((n, store[Fold(n)]));
        }
        i := i + 1;
      }
      EmptySuffix(name);
      if EMPTY !in store {
        NotFound(store, name);
        return None;
      }
      FoundAt(store, name, |name|);
      r := Some((EMPTY, store[EMPTY]));
    }
  }

  /** Depth and count are exact for a set of keys. */
  ghost predicate Exact(keys: set<Name>, depth: nat, items: int) {
    && (forall k :: k in keys ==> |k| <= depth) && items == |set k | k in keys && |k| == depth|
    && (depth == 0 || exists k :: k in keys && |k| == depth)
  }

  lemma ExactNone()
    ensures Exact({}, 0, 0)
  {
    assert (set k: Name | k in {} && |k| == 0) == {};
  }

  lemma ExactAdd(keys: set<Name>, depth: nat, items: int, key: Name)
    requires Exact(keys, depth, items) && key !in keys
    ensures |key| == depth ==> Exact(keys + {key}, depth, items + 1)
    ensures |key| > depth ==> Exact(keys + {key}, |key|, 1)
    ensures |key| < depth ==> Exact(keys + {key}, depth, items)
  {
    var after := keys + {key};
    if |key| == depth {
      assert (set k | k in after && |k| == depth) == (set k | k in keys && |k| == depth) + {key};
    } else if |key| > depth {
      assert (set k | k in after && |k| == |key|) == {key};
    } else {
      assert (set k | k in after && |k| == depth) == (set k | k in keys && |k| == depth);
    }
  }

  lemma ExactBounds<V>(store: map<Name, V>, depth: nat, items: int)
    requires Exact(store.Keys, depth, items)
    ensures Bounds(store, depth, items) && items == |AtDepth(store, depth)|
    ensures depth == 0 || exists k :: k in store && |k| == depth
  {
    assert AtDepth(store, depth) == (set k | k in store.Keys && |k| == depth);
  }

  predicate NoneBefore<V>(store: map<Name, V>, name: Name, at: nat)
    requires at <= |name|
  {
    forall i :: 0 <= i < at ==> Fold(name[i..]) !in store
  }

  /** Suffixes deeper than every key are no keys. */
  lemma TooDeep<V>(store: map<Name, V>, depth: nat, items: int, name: Name)
    requires Bounds(store, depth, items)
    ensures NoneBefore(store, name, if |name| > depth then |name| - depth else 0)
  {
  }

  lemma FoundAt<V>(store: map<Name, V>, name: Name, at: nat)
    requires at <= |name| && NoneBefore(store, name, at) && Fold(name[at..]) in store
    ensures LongestSuffix(store, name, 0) == Some(at)
  {
    hide Fold;
    var found := LongestSuffix(store, name, 0);
    assert found.Some?;
  }

  lemma NotFound<V>(store: map<Name, V>, name: Name)
    requires NoneBefore(store, name, |name|) && Fold(name[|name|..]) !in store
    ensures LongestSuffix(store, name, 0) == None
  {
    hide Fold;
  }

  lemma EmptySuffix(name: Name)
    ensures name[|name|..] == EMPTY && Fold(name[|name|..]) == EMPTY
  {
  }
}
