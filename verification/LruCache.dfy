/** The resolver's least-recently-used answer cache (dns/resolver.py, LRUCacheNode and
    LRUCache): a dictionary of nodes on a circular doubly linked list. */
module LruCache {
  import opened Common
  import opened Names

  /** Query name in lower case, type and class. */
  type Key = (Name, U16, U16)

  datatype Answer = Answer(data: Bytes, expiration: int)

  // ---------------------------------------------------------------- what the cache does

  datatype Entry = Entry(key: Key, value: Answer, hits: nat)

  /** The entries of a cache, most recently used first, and its bound. */
  datatype Cache = Cache(entries: seq<Entry>, maxSize: nat)

  function Index(es: seq<Entry>, key: Key): (i: nat)
    ensures i <= |es|
    ensures i < |es| ==> es[i].key == key
    ensures forall j :: 0 <= j < i ==> es[j].key != key
  {
    if es == [] then 0 else if es[0].key == key then 0 else 1 + Index(es[1..], key)
  }

  function Without(es: seq<Entry>, i: nat): seq<Entry>
    requires i <= |es|
  {
    if i == |es| then es else es[..i] + es[i + 1..]
  }

  function AfterGet(es: seq<Entry>, key: Key, now: int): (seq<Entry>, Option<Answer>) {
    var i := Index(es, key);
    if i == |es| then (es, None)
    else if es[i].value.expiration <= now then (Without(es, i), None)
    else ([es[i].(hits := es[i].hits + 1)] + Without(es, i), Some(es[i].value))
  }

  /** The most recently used entries that leave room for one more. */
  function Evict(es: seq<Entry>, maxSize: nat): (r: seq<Entry>)
    requires maxSize >= 1
    ensures |r| < maxSize
  {
    if |es| < maxSize then es else es[..maxSize - 1]
  }

  function AfterPut(c: Cache, key: Key, value: Answer): (r: seq<Entry>)
    requires c.maxSize >= 1
    ensures |r| <= c.maxSize
  {
    [Entry(key, value, 0)] + Evict(Without(c.entries, Index(c.entries, key)), c.maxSize)
  }

  function AfterFlush(es: seq<Entry>, key: Option<Key>): seq<Entry> {
    if key.None? then [] else Without(es, Index(es, key.value))
  }

  // ---------------------------------------------------------------- the list

  class Node {
    const key: Option<Key>
    const value: Answer
    var hits: nat
    var prev: Node
    var next: Node

    constructor (key: Option<Key>, value: Answer)
      ensures this.key == key && this.value == value && hits == 0 && prev == this && next == this
    {
      this.key, this.value, hits := key, value, 0;
      prev, next := this, this;
    }

    method LinkAfter(node: Node, ghost ring: seq<Node>)
      requires Linked(ring) && ring[0] == node && this !in ring
      modifies this`prev, this`next, node`next, node.next`prev
      ensures Linked([node, this] + ring[1..])
    {
      ghost var second := if |ring| > 1 then ring[1] else ring[0];
      assert node.next == second;
      assert |ring| > 1 ==> second != node;
      assert forall i :: 2 <= i < |ring| ==> ring[i] != second;
      prev := node;
      next := node.next;
      node.next.prev := this;
      node.next := this;
      ghost var after := [node, this] + ring[1..];
      assert forall i :: 2 <= i < |after| ==> after[i] == ring[i - 1];
      forall i | 0 < i < |after| ensures after[i].prev == after[i - 1] {
        if i > 2 {
          assert ring[i - 1].prev == ring[i - 2];
        }
      }
    }

    method Unlink(ghost ring: seq<Node>, ghost p: nat)
      requires Linked(ring) && 0 < p < |ring| && ring[p] == this
      modifies next`prev, prev`next
      ensures Linked(ring[..p] + ring[p + 1..])
    {
      ghost var n := |ring|;
      assert prev == ring[p - 1] && next == if p == n - 1 then ring[0] else ring[p + 1];
      next.prev := prev;
      prev.next := next;
      ghost var after := ring[..p] + ring[p + 1..];
      assert forall i :: p <= i < |after| ==> after[i] == ring[i + 1];
      forall i | 0 < i < |after| ensures after[i].prev == after[i - 1] {
        if i > p {
          assert ring[i + 1].prev == ring[i];
        }
      }
      forall i | 0 <= i < |after| - 1 ensures after[i].next == after[i + 1] {
        if i >= p {
          assert ring[i + 1].next == ring[i + 2];
        }
      }
    }
  }

  ghost predicate Distinct(nodes: seq<Node>) {
    forall i, j :: 0 <= i < j < |nodes| ==> nodes[i] != nodes[j]
  }

  lemma DistinctRest(first: Node, rest: seq<Node>)
    requires Distinct([first] + rest)
    ensures Distinct(rest)
  {
    forall i, j | 0 <= i < j < |rest| ensures rest[i] != rest[j] {
      assert ([first] + rest)[i + 1] != ([first] + rest)[j + 1];
    }
  }

  /** A circle of distinct nodes, starting at the first. */
  ghost predicate Linked(ring: seq<Node>)
    reads ring`prev, ring`next
  {
    && ring != []
    && Distinct(ring)
    && (forall i :: 0 <= i < |ring| - 1 ==> ring[i].next == ring[i + 1])
    && (forall i :: 0 < i < |ring| ==> ring[i].prev == ring[i - 1])
    && ring[|ring| - 1].next == ring[0] && ring[0].prev == ring[|ring| - 1]
  }

  // ---------------------------------------------------------------- the dictionary

  /** The dictionary holds exactly the nodes of the list, under their keys. */
  ghost predicate Consistent(data: map<Key, Node>, order: seq<Node>) {
    && |data| == |order| && Keyed(order)
    && (forall i :: 0 <= i < |order| ==> order[i].key.value in data && data[order[i].key.value] == order[i])
    && (forall k :: k in data ==> data[k] in order && data[k].key == Some(k))
  }

  ghost predicate Keyed(order: seq<Node>) {
    forall i :: 0 <= i < |order| ==> order[i].key.Some?
  }

  ghost function EntryOf(node: Node): Entry
    requires node.key.Some?
    reads node`hits
  {
    Entry(node.key.value, node.value, node.hits)
  }

  ghost function EntriesOf(order: seq<Node>): (es: seq<Entry>)
    requires Keyed(order)
    reads order`hits
    ensures |es| == |order| && forall i :: 0 <= i < |order| ==> es[i] == EntryOf(order[i])
  {
    if order == [] then [] else [EntryOf(order[0])] + EntriesOf(order[1..])
  }

  lemma EntriesWithout(order: seq<Node>, p: nat)
    requires p < |order| && Keyed(order)
    ensures Keyed(order[..p] + order[p + 1..])
    ensures EntriesOf(order[..p] + order[p + 1..]) == Without(EntriesOf(order), p)
  {
    hide EntriesOf;
    var left, es := order[..p] + order[p + 1..], EntriesOf(order);
    forall i | 0 <= i < |left| ensures left[i].key.Some? && EntryOf(left[i]) == Without(es, p)[i] {
      assert left[i] == order[if i < p then i else i + 1];
    }
  }

  lemma EntriesCons(node: Node, order: seq<Node>)
    requires node.key.Some? && Keyed(order)
    ensures Keyed([node] + order) && EntriesOf([node] + order) == [EntryOf(node)] + EntriesOf(order)
  {
    assert ([node] + order)[1..] == order;
  }

  lemma Found(data: map<Key, Node>, order: seq<Node>, key: Key) returns (p: nat)
    requires Consistent(data, order)
    ensures p == Index(EntriesOf(order), key)
    ensures key in data ==> p < |order| && order[p] == data[key] && data[key].key == Some(key)
    ensures key !in data ==> p == |order|
  {
    p := Index(EntriesOf(order), key);
    if p < |order| {
      assert EntryOf(order[p]).key == key;
    }
  }

  lemma OneGone(order: seq<Node>, p: nat)
    requires p < |order| && Distinct(order)
    ensures forall n :: n in order[..p] + order[p + 1..] <==> n in order && n != order[p]
  {
    var left := order[..p] + order[p + 1..];
    forall n | n in order && n != order[p] ensures n in left {
      var i :| 0 <= i < |order| && order[i] == n;
      assert left[if i < p then i else i - 1] == n;
    }
    forall i | 0 <= i < |left| ensures left[i] in order && left[i] != order[p] {
      assert left[i] == order[if i < p then i else i + 1];
    }
  }

  /** A node moved to the front. */
  lemma Moved(data: map<Key, Node>, order: seq<Node>, p: nat)
    requires Consistent(data, order) && p < |order| && Distinct(order)
    ensures Consistent(data, [order[p]] + (order[..p] + order[p + 1..]))
  {
    hide Distinct;
    Dropped(data, order, p);
    Added(data - {order[p].key.value}, order[..p] + order[p + 1..], order[p]);
    assert (data - {order[p].key.value})[order[p].key.value := order[p]] == data;
  }

  lemma Dropped(data: map<Key, Node>, order: seq<Node>, p: nat)
    requires Consistent(data, order) && p < |order| && Distinct(order)
    ensures Consistent(data - {order[p].key.value}, order[..p] + order[p + 1..])
  {
    var key, left := order[p].key.value, order[..p] + order[p + 1..];
    OneGone(order, p);
    hide Distinct;
    assert (data - {key}).Keys == data.Keys - {key};
    assert forall n :: n in order ==> n.key.Some? && n.key.value in data && data[n.key.value] == n;
    forall i | 0 <= i < |left|
      ensures left[i].key.Some? && left[i].key.value in data - {key} && (data - {key})[left[i].key.value] == left[i]
    {
      assert left[i] in left;
    }
    forall k | k in data - {key} ensures (data - {key})[k] in left {
      assert data[k] != order[p];
    }
  }

  lemma Added(data: map<Key, Node>, order: seq<Node>, node: Node)
    requires Consistent(data, order) && node.key.Some? && node.key.value !in data
    ensures Consistent(data[node.key.value := node], [node] + order)
  {
    var after := [node] + order;
    assert forall i :: 1 <= i < |after| ==> after[i] == order[i - 1];
    assert after[0] == node;
    assert forall n :: n in order ==> n in after;
  }

  class LRUCache {
    const sentinel: Node
    var data: map<Key, Node>
    var maxSize: nat
    var hits: nat
    var misses: nat
    ghost var order: seq<Node>
    // every node the cache has made
    ghost var nodes: set<Node>

    ghost predicate Valid()
      reads this, sentinel, order
    {
      && maxSize >= 1 && sentinel in nodes && (forall n :: n in order ==> n in nodes)
      && Linked([sentinel] + order) && Consistent(data, order)
    }

    ghost function Entries(): seq<Entry>
      requires Valid()
      reads this, sentinel, order
    {
      EntriesOf(order)
    }

    constructor (maxSize: int)
      ensures Valid() && Entries() == [] && this.maxSize == Max(maxSize, 1) && hits == misses == 0
      ensures fresh(nodes)
    {
      this.maxSize := Max(maxSize, 1);
      data, order, hits, misses := map[], [], 0, 0;
      var circle := new Node(None, Answer([], 0));
      sentinel, nodes := circle, {circle};
    }

    method SetMaxSize(maxSize: int)
      requires Valid()
      modifies this`maxSize
      ensures Valid() && this.maxSize == Max(maxSize, 1) && Entries() == old(Entries())
    {
      hide Linked, Consistent;
      this.maxSize := if maxSize < 1 then 1 else maxSize;
    }

    /** unlink(): out of the list. */
    method Take(node: Node, ghost p: nat)
      requires Valid() && p < |order| && order[p] == node
      modifies this`order, nodes`prev, nodes`next
      ensures node.key.Some? && order == old(order[..p] + order[p + 1..]) && node !in [sentinel] + order
      ensures Linked([sentinel] + order) && Keyed(order) && EntriesOf(order) == Without(old(Entries()), p)
      ensures Consistent(data - {node.key.value}, order) && Consistent(data, [node] + order)
    {
      hide Distinct, EntriesOf, Linked, Consistent;
      CacheParts();
      Neighbours(sentinel, order, p);
      RingCut(sentinel, order, p);
      EntriesWithout(order, p);
      Dropped(data, order, p);
      Moved(data, order, p);
      Outside(sentinel, order, p);
      node.Unlink([sentinel] + order, p + 1);
      order := order[..p] + order[p + 1..];
    }

    /** Out of the list and out of the dictionary. */
    method Remove(node: Node, ghost p: nat)
      requires Valid() && p < |order| && order[p] == node
      modifies this`data, this`order, nodes`prev, nodes`next
      ensures Valid() && order == old(order[..p] + order[p + 1..])
      ensures Entries() == Without(old(Entries()), p)
      ensures data == old(data) - {node.key.value}
    {
      hide Distinct, EntriesOf, Linked, Consistent;
      Take(node, p);
      data := data - {node.key.value};
    }

    /** The answer under a key, unless it has expired: the node is taken out of the list,
        and goes back to its front or is dropped. */
    method Get(key: Key, now: int) returns (r: Option<Answer>)
      requires Valid()
      modifies this`data, this`order, this`hits, this`misses, nodes
      ensures Valid()
      ensures (Entries(), r) == AfterGet(old(Entries()), key, now)
      ensures hits == old(hits) + (if r.Some? then 1 else 0) && misses == old(misses) + (if r.Some? then 0 else 1)
    {
      hide Distinct, EntriesOf, Linked, Consistent, Index;
      ghost var p := Found(data, order, key);
      if key !in data {
        misses := misses + 1;
        return None;
      }
      var node := data[key];
      Take(node, p);
      if node.value.expiration <= now {
        data := data - {node.key.value};
        misses := misses + 1;
        return None;
      }
      Hit(node);
      r := Some(node.value);
    }

    /** An unlinked node is used: to the front, and counted. */
    method Hit(node: Node)
      requires Linked([sentinel] + order) && node !in [sentinel] + order && node.key.Some? && Keyed(order)
      requires sentinel in nodes && node in nodes && forall n :: n in order ==> n in nodes
      modifies this`order, this`hits, nodes
      ensures order == [node] + old(order) && Linked([sentinel] + order) && Keyed(order) && hits == old(hits) + 1
      ensures EntriesOf(order) == [old(EntryOf(node)).(hits := old(node.hits) + 1)] + old(EntriesOf(order))
    {
      hide EntriesOf, Linked;
      ghost var rest := order;
      assert forall n :: n in rest ==> n in [sentinel] + rest;
      Front(node);
      hits := hits + 1;
      node.hits := node.hits + 1;
      EntriesCons(node, rest);
    }

    /** link_after(sentinel): a node becomes the most recently used. */
    method Front(node: Node)
      requires Linked([sentinel] + order) && node !in [sentinel] + order
      requires sentinel in nodes && node in nodes && forall n :: n in order ==> n in nodes
      modifies this`order, nodes`prev, nodes`next
      ensures order == [node] + old(order) && Linked([sentinel] + order)
    {
      hide Linked;
      RingFront(sentinel, node, order);
      node.LinkAfter(sentinel, [sentinel] + order);
      order := [node] + order;
    }

    /** The number of hits under a key, unless its answer has expired. */
    method GetHitsForKey(key: Key, now: int) returns (n: nat)
      requires Valid()
      ensures var es := Entries(); var i := Index(es, key);
              n == if i == |es| || es[i].value.expiration <= now then 0 else es[i].hits
    {
      hide Distinct, EntriesOf, Linked, Consistent, Index;
      ghost var p := Found(data, order, key);
      if key !in data || data[key].value.expiration <= now {
        return 0;
      }
      n := data[key].hits;
    }

    /** The least recently used answers go until there is room for one more. */
    method MakeRoom()
      requires Valid()
      modifies this`data, this`order, nodes`prev, nodes`next
      ensures Valid() && Entries() == Evict(old(Entries()), maxSize) && data.Keys <= old(data.Keys)
    {
      hide Distinct, EntriesOf, Linked, Consistent;
      ghost var es := Entries();
      CountsAgree(data, order);
      while |data| >= maxSize
        invariant Valid() && |order| <= |es| && Entries() == es[..|order|] && data.Keys <= old(data.Keys)
        invariant |order| < |es| ==> |order| + 1 >= maxSize
        invariant |data| == |order|
        decreases |order|
      {
        LastNode(sentinel, data, order);
        var gnode := sentinel.prev;
        Remove(gnode, |order| - 1);
        CountsAgree(data, order);
      }
    }

    /** A new node for a key that has none. */
    method Insert(key: Key, value: Answer)
      requires Valid() && key !in data
      modifies this`data, this`order, this`nodes, nodes`prev, nodes`next
      ensures Valid() && old(nodes) <= nodes && fresh(nodes - old(nodes))
      ensures Entries() == [Entry(key, value, 0)] + old(Entries())
    {
      hide Distinct, EntriesOf, Linked, Consistent;
      CountsAgree(data, order);
      var node := new Node(Some(key), value);
      Added(data, order, node);
      EntriesCons(node, order);
      nodes := nodes + {node};
      Front(node);
      data := data[key := node];
    }

    /** An answer under a key, in place of any there was. */
    method Put(key: Key, value: Answer)
      requires Valid()
      modifies this`data, this`order, this`nodes, nodes`prev, nodes`next
      ensures Valid() && old(nodes) <= nodes && fresh(nodes - old(nodes))
      ensures Entries() == AfterPut(Cache(old(Entries()), maxSize), key, value)
    {
      hide Distinct, EntriesOf, Linked, Consistent, Index, Evict;
      ghost var p := Found(data, order, key);
      if key in data {
        Remove(data[key], p);
      }
      MakeRoom();
      Insert(key, value);
    }

    /** Every node is unlinked, one by one. */
    method UnlinkAll()
      requires Valid()
      modifies this`order, nodes`prev, nodes`next
      ensures order == [] && Linked([sentinel])
    {
      hide Distinct, Linked, Consistent;
      FirstNode(sentinel, order);
      var gnode := sentinel.next;
      while gnode != sentinel
        invariant Linked([sentinel] + order) && gnode == (if order == [] then sentinel else order[0])
        invariant order != [] ==> order[0] != sentinel
        invariant forall n :: n in order ==> n in nodes
        decreases |order|
      {
        Neighbours(sentinel, order, 0);
        RingCut(sentinel, order, 0);
        assert order[..0] + order[1..] == order[1..];
        var next := gnode.next;
        gnode.Unlink([sentinel] + order, 1);
        order := order[1..];
        gnode := next;
        FirstNode(sentinel, order);
      }
      assert [sentinel] + order == [sentinel];
    }

    /** One answer goes, or all, and then the dictionary is made anew. */
    method Flush(key: Option<Key>)
      requires Valid()
      modifies this`data, this`order, nodes`prev, nodes`next
      ensures Valid() && Entries() == AfterFlush(old(Entries()), key)
    {
      hide Distinct, EntriesOf, Linked, Consistent, Index;
      if key.Some? {
        ghost var p := Found(data, order, key.value);
        if key.value in data {
          Remove(data[key.value], p);
        }
      } else {
        UnlinkAll();
        NothingLeft();
        assert [sentinel] + order == [sentinel];
        data := map[];
      }
    }

    lemma CacheParts()
      requires Valid()
      ensures Keyed(order) && Distinct(order)
    {
      DistinctRest(sentinel, order);
    }
  }

  lemma Neighbours(first: Node, order: seq<Node>, p: nat)
    requires Linked([first] + order) && p < |order|
    ensures ([first] + order)[p + 1] == order[p]
    ensures order[p].next == if p + 1 < |order| then order[p + 1] else first
    ensures order[p].next == first || order[p].next in order
    ensures order[p].prev == first || order[p].prev in order
  {
    var ring := [first] + order;
    assert ring[p + 1] == order[p] && (p > 0 ==> ring[p] == order[p - 1])
      && (p + 1 < |order| ==> ring[p + 2] == order[p + 1]);
  }

  lemma Outside(first: Node, order: seq<Node>, p: nat)
    requires Linked([first] + order) && p < |order|
    ensures order[p] !in [first] + (order[..p] + order[p + 1..])
  {
    DistinctRest(first, order);
    OneGone(order, p);
    assert ([first] + order)[0] != ([first] + order)[p + 1];
  }

  lemma FirstNode(first: Node, order: seq<Node>)
    requires Linked([first] + order)
    ensures first.next == if order == [] then first else order[0]
    ensures order != [] ==> order[0] != first
  {
    var ring := [first] + order;
    assert order != [] ==> ring[1] == order[0] && ring[0] != ring[1];
  }

  lemma NothingLeft()
    ensures Consistent(map[], []) && EntriesOf([]) == []
  {
  }

  lemma CountsAgree(data: map<Key, Node>, order: seq<Node>)
    requires Consistent(data, order)
    ensures |data| == |order| && Keyed(order)
  {
  }

  lemma LastNode(first: Node, data: map<Key, Node>, order: seq<Node>)
    requires Linked([first] + order) && Consistent(data, order) && data != map[]
    ensures |order| == |data| > 0 && first.prev == order[|order| - 1]
  {
    assert ([first] + order)[|order|] == order[|order| - 1];
  }

  lemma RingFront(first: Node, node: Node, order: seq<Node>)
    requires Linked([first] + order)
    ensures first.next == first || first.next in order
    ensures [first, node] + ([first] + order)[1..] == [first] + ([node] + order)
    ensures ([first] + order)[0] == first
  {
    assert first.next == if order == [] then first else ([first] + order)[1];
  }

  lemma RingCut(first: Node, order: seq<Node>, p: nat)
    requires p < |order|
    ensures var ring := [first] + order; ring[..p + 1] + ring[p + 2..] == [first] + (order[..p] + order[p + 1..])
  {
    var ring := [first] + order;
    assert ring[..p + 1] == [first] + order[..p];
    assert ring[p + 2..] == order[p + 1..];
  }

  // ---------------------------------------------------------------- histories

  datatype Op =
    | Getting(key: Key, now: int)
    | Putting(key: Key, value: Answer)
    | Flushing(which: Option<Key>)
    | Resizing(size: int)

  function AfterOp(c: Cache, op: Op): (r: Cache)
    requires c.maxSize >= 1
    ensures r.maxSize >= 1
  {
    match op
    case Getting(key, now) => c.(entries := AfterGet(c.entries, key, now).0)
    case Putting(key, value) => c.(entries := AfterPut(c, key, value))
    case Flushing(which) => c.(entries := AfterFlush(c.entries, which))
    case Resizing(size) => c.(maxSize := Max(size, 1))
  }

  /** A cache after a history of operations. */
  function Run(maxSize: nat, ops: seq<Op>): (c: Cache)
    requires maxSize >= 1
    ensures c.maxSize >= 1
  {
    if ops == [] then Cache([], maxSize) else AfterOp(Run(maxSize, ops[..|ops| - 1]), ops[|ops| - 1])
  }

  /** The answer last put under a key, unless the key was flushed since. */
  function LastPut(ops: seq<Op>, key: Key): Option<Answer> {
    if ops == [] then None
    else
      match ops[|ops| - 1]
      case Putting(k, value) => if k == key then Some(value) else LastPut(ops[..|ops| - 1], key)
      case Flushing(which) => if which == None || which == Some(key) then None else LastPut(ops[..|ops| - 1], key)
      case _ => LastPut(ops[..|ops| - 1], key)
  }

  predicate Uses(op: Op, key: Key) {
    (op.Getting? && op.key == key) || (op.Putting? && op.key == key)
  }

  /** When a key was last used: the number of operations up to then. */
  function LastUse(ops: seq<Op>, key: Key): (n: nat)
    ensures n <= |ops|
  {
    if ops == [] then 0
    else if Uses(ops[|ops| - 1], key) then |ops|
    else LastUse(ops[..|ops| - 1], key)
  }

  /** How often a key was asked for since it was last put. */
  function GetsSince(ops: seq<Op>, key: Key): nat {
    if ops == [] then 0
    else
      match ops[|ops| - 1]
      case Putting(k, _) => if k == key then 0 else GetsSince(ops[..|ops| - 1], key)
      case Getting(k, _) => GetsSince(ops[..|ops| - 1], key) + (if k == key then 1 else 0)
      case _ => GetsSince(ops[..|ops| - 1], key)
  }

  /** What a history has to say about the entries of a cache: each key once, with the answer
      last put and the number of hits since, the more recently used before the less. */
  ghost predicate Explained(es: seq<Entry>, ops: seq<Op>) {
    && (forall i :: 0 <= i < |es| ==> LastPut(ops, es[i].key) == Some(es[i].value))
    && (forall i :: 0 <= i < |es| ==> GetsSince(ops, es[i].key) == es[i].hits)
    && (forall i, j :: 0 <= i < j < |es| ==> LastUse(ops, es[i].key) > LastUse(ops, es[j].key))
  }

  /** An entry taken out by key leaves the rest explained, and none under that key. */
  lemma WithoutExplained(es: seq<Entry>, ops: seq<Op>, key: Key)
    requires Explained(es, ops)
    ensures Explained(Without(es, Index(es, key)), ops)
    ensures forall e :: e in Without(es, Index(es, key)) ==> e.key != key
  {
    hide LastPut, LastUse, GetsSince;
    var i := Index(es, key);
    var left := Without(es, i);
    assert forall j :: 0 <= j < |left| ==> left[j] == es[if j < i then j else j + 1];
    forall j | 0 <= j < |left| ensures left[j].key != key {
      if j >= i {
        assert LastUse(ops, es[i].key) > LastUse(ops, es[j + 1].key);
      }
    }
  }

  lemma EvictExplained(es: seq<Entry>, ops: seq<Op>, maxSize: nat)
    requires Explained(es, ops) && maxSize >= 1
    ensures Explained(Evict(es, maxSize), ops) && Evict(es, maxSize) <= es
  {
  }

  /** An operation that touches none of the entries. */
  lemma UntouchedExplained(es: seq<Entry>, ops: seq<Op>, op: Op)
    requires Explained(es, ops)
    requires forall e :: e in es ==>
      !Uses(op, e.key) && !(op.Flushing? && (op.which == None || op.which == Some(e.key)))
    ensures Explained(es, ops + [op])
  {
    var all := ops + [op];
    assert all[..|all| - 1] == ops;
    forall i | 0 <= i < |es|
      ensures LastPut(all, es[i].key) == LastPut(ops, es[i].key) && LastUse(all, es[i].key) == LastUse(ops, es[i].key)
              && GetsSince(all, es[i].key) == GetsSince(ops, es[i].key)
    {
      assert es[i] in es;
    }
  }

  /** The entry just used goes before the others. */
  lemma FrontExplained(e: Entry, es: seq<Entry>, ops: seq<Op>, op: Op)
    requires Explained(es, ops) && (forall o :: o in es ==> o.key != e.key) && Uses(op, e.key)
    requires LastPut(ops + [op], e.key) == Some(e.value) && GetsSince(ops + [op], e.key) == e.hits
    ensures Explained([e] + es, ops + [op])
  {
    hide LastPut, GetsSince;
    UntouchedExplained(es, ops, op);
    assert LastUse(ops + [op], e.key) == |ops| + 1;
    forall i | 0 <= i < |es| ensures LastUse(ops + [op], es[i].key) <= |ops| {
      assert es[i] in es;
      assert (ops + [op])[..|ops|] == ops;
    }
  }

  lemma LastOp(ops: seq<Op>, op: Op, key: Key)
    requires Uses(op, key)
    ensures LastPut(ops + [op], key) == if op.Putting? then Some(op.value) else LastPut(ops, key)
    ensures GetsSince(ops + [op], key) == if op.Putting? then 0 else GetsSince(ops, key) + 1
  {
    assert (ops + [op])[..|ops|] == ops;
  }

  lemma OpExplained(c: Cache, ops: seq<Op>, op: Op)
    requires c.maxSize >= 1 && Explained(c.entries, ops)
    ensures Explained(AfterOp(c, op).entries, ops + [op])
  {
    hide Explained, Evict, Index, LastUse, LastPut, GetsSince;
    var es := c.entries;
    if op == Flushing(None) {
      NothingExplained(ops + [op]);
    } else if op.Resizing? {
      UntouchedExplained(es, ops, op);
    } else {
      var key := KeyOfOp(op);
      var i := Index(es, key);
      var left := Without(es, i);
      WithoutExplained(es, ops, key);
      if op.Putting? {
        EvictExplained(left, ops, c.maxSize);
        LastOp(ops, op, key);
        FrontExplained(Entry(key, op.value, 0), Evict(left, c.maxSize), ops, op);
      } else if op.Getting? && i < |es| && es[i].value.expiration > op.now {
        EntryExplained(es, ops, i);
        LastOp(ops, op, key);
        FrontExplained(es[i].(hits := es[i].hits + 1), left, ops, op);
      } else {
        UnusedExplained(left, ops, op);
      }
    }
  }

  function KeyOfOp(op: Op): Key
    requires !op.Resizing? && op != Flushing(None)
  {
    match op case Getting(k, _) => k case Putting(k, _) => k case Flushing(which) => which.value
  }

  /** An operation on a key that has no entry. */
  lemma UnusedExplained(es: seq<Entry>, ops: seq<Op>, op: Op)
    requires Explained(es, ops) && !op.Resizing? && op != Flushing(None) && forall e :: e in es ==> e.key != KeyOfOp(op)
    ensures Explained(es, ops + [op])
  {
    hide Explained;
    UntouchedExplained(es, ops, op);
  }

  lemma NothingExplained(ops: seq<Op>)
    ensures Explained([], ops)
  {
  }

  lemma EntryExplained(es: seq<Entry>, ops: seq<Op>, i: nat)
    requires Explained(es, ops) && i < |es|
    ensures LastPut(ops, es[i].key) == Some(es[i].value) && GetsSince(ops, es[i].key) == es[i].hits
  {
  }

  lemma {:induction false} History(maxSize: nat, ops: seq<Op>)
    requires maxSize >= 1
    ensures Explained(Run(maxSize, ops).entries, ops)
    decreases |ops|
  {
    hide Explained, AfterOp;
    if ops == [] {
      NothingExplained(ops);
    } else {
      History(maxSize, ops[..|ops| - 1]);
      OpExplained(Run(maxSize, ops[..|ops| - 1]), ops[..|ops| - 1], ops[|ops| - 1]);
      assert ops[..|ops| - 1] + [ops[|ops| - 1]] == ops;
    }
  }

  /** After any history, get returns nothing but the last answer put under the key, not
      flushed since and not expired. */
  lemma GetReturnsLastPut(maxSize: nat, ops: seq<Op>, key: Key, now: int)
    requires maxSize >= 1
    ensures var r := AfterGet(Run(maxSize, ops).entries, key, now).1;
            r.Some? ==> LastPut(ops, key) == r && r.value.expiration > now
  {
    hide Explained, Run;
    History(maxSize, ops);
    var es := Run(maxSize, ops).entries;
    if Index(es, key) < |es| {
      EntryExplained(es, ops, Index(es, key));
    }
  }

  /** The other keys used since a key was last used. */
  function OthersSince(ops: seq<Op>, key: Key): set<Key> {
    if ops == [] || Uses(ops[|ops| - 1], key) then {}
    else
      var op := ops[|ops| - 1];
      OthersSince(ops[..|ops| - 1], key) + (if op.Getting? || op.Putting? then {op.key} else {})
  }

  lemma {:induction false} UsedSince(ops: seq<Op>, other: Key, key: Key)
    requires LastUse(ops, other) > LastUse(ops, key)
    ensures other in OthersSince(ops, key)
    decreases |ops|
  {
    if !Uses(ops[|ops| - 1], other) {
      UsedSince(ops[..|ops| - 1], other, key);
    }
  }

  /** Since it was last put, a key was neither flushed nor asked for too late, and whenever
      an answer was put, fewer other keys than the cache has room for had been used. */
  predicate Keeps(maxSize: nat, ops: seq<Op>, key: Key)
    requires maxSize >= 1
  {
    if ops == [] then false
    else
      var before := ops[..|ops| - 1];
      match ops[|ops| - 1]
      case Putting(k, _) =>
        k == key || (Keeps(maxSize, before, key) && |OthersSince(ops, key)| < Run(maxSize, ops).maxSize)
      case Getting(k, now) =>
        && Keeps(maxSize, before, key)
        && (k == key ==> LastPut(before, key).Some? && LastPut(before, key).value.expiration > now)
      case Flushing(which) => Keeps(maxSize, before, key) && which != None && which != Some(key)
      case Resizing(_) => Keeps(maxSize, before, key)
  }

  predicate Holds(es: seq<Entry>, key: Key) {
    Index(es, key) < |es|
  }

  lemma HoldsMember(es: seq<Entry>, e: Entry)
    requires e in es
    ensures Holds(es, e.key)
  {
  }

  function KeysOf(es: seq<Entry>): set<Key> {
    set e | e in es :: e.key
  }

  lemma {:induction false} CountKeys(es: seq<Entry>)
    requires forall i, j :: 0 <= i < j < |es| ==> es[i].key != es[j].key
    ensures |KeysOf(es)| == |es|
  {
    if es != [] {
      var rest := es[..|es| - 1];
      CountKeys(rest);
      assert es == rest + [es[|es| - 1]];
      assert KeysOf(es) == KeysOf(rest) + {es[|es| - 1].key};
    }
  }

  /** The entries before one, and a key without entry just put, were all used since. */
  lemma AheadCounts(es: seq<Entry>, ops: seq<Op>, p: nat, key: Key)
    requires Explained(es, ops) && p < |es| && es[p].key != key && forall e :: e in es ==> e.key != key
    ensures p < |OthersSince(ops, es[p].key) + {key}|
  {
    hide LastUse, LastPut, GetsSince, OthersSince;
    var ahead, others := es[..p], OthersSince(ops, es[p].key);
    forall e | e in ahead ensures e.key in others {
      var i :| 0 <= i < p && es[i] == e;
      UsedSince(ops, es[i].key, es[p].key);
    }
    CountKeys(ahead);
    Subset(KeysOf(ahead), others + {key} - {key});
    assert |others + {key} - {key}| + 1 == |others + {key}|;
  }

  /** Least recently used goes first: an answer stays cached as long as fewer other keys than
      there is room for have been used since it was. */
  lemma {:induction false} Retained(maxSize: nat, ops: seq<Op>, key: Key)
    requires maxSize >= 1 && Keeps(maxSize, ops, key)
    ensures Holds(Run(maxSize, ops).entries, key)
    decreases |ops|
  {
    hide Explained, LastUse, LastPut, GetsSince, OthersSince, Index, Keeps, AfterOp, Run;
    KeepsParts(maxSize, ops, key);
    var before, op := ops[..|ops| - 1], ops[|ops| - 1];
    var c := Run(maxSize, before);
    if op.Putting? && op.key == key {
      JustPut(c, op);
    } else {
      Retained(maxSize, before, key);
      History(maxSize, before);
      assert before + [op] == ops;
      StillHeld(c, before, op, key);
    }
  }

  lemma JustPut(c: Cache, op: Op)
    requires c.maxSize >= 1 && op.Putting?
    ensures Holds(AfterOp(c, op).entries, op.key)
  {
    HoldsMember(AfterOp(c, op).entries, Entry(op.key, op.value, 0));
  }

  lemma KeepsParts(maxSize: nat, ops: seq<Op>, key: Key)
    requires maxSize >= 1 && Keeps(maxSize, ops, key)
    ensures ops != []
    ensures var before, op := ops[..|ops| - 1], ops[|ops| - 1];
            && Run(maxSize, ops) == AfterOp(Run(maxSize, before), op) && before + [op] == ops
            && ((op.Putting? && op.key == key) ||
                (Keeps(maxSize, before, key)
                 && (op.Getting? && op.key == key ==>
                       LastPut(before, key).Some? && LastPut(before, key).value.expiration > op.now)
                 && (op.Flushing? ==> op.which != None && op.which != Some(key))
                 && (op.Putting? ==> op.key != key && |OthersSince(ops, key)| < Run(maxSize, before).maxSize)))
  {
    hide OthersSince, LastPut, AfterGet, AfterPut, AfterFlush;
  }

  lemma StillHeld(c: Cache, ops: seq<Op>, op: Op, key: Key)
    requires c.maxSize >= 1 && Explained(c.entries, ops) && Holds(c.entries, key)
    requires op.Getting? && op.key == key ==> LastPut(ops, key).Some? && LastPut(ops, key).value.expiration > op.now
    requires op.Flushing? ==> op.which != None && op.which != Some(key)
    requires op.Putting? ==> op.key != key && |OthersSince(ops + [op], key)| < c.maxSize
    ensures Holds(AfterOp(c, op).entries, key)
  {
    hide Explained, LastUse, LastPut, GetsSince, OthersSince, Index;
    var es := c.entries;
    var e := es[Index(es, key)];
    EntryExplained(es, ops, Index(es, key));
    if op.Resizing? {
    } else if KeyOfOp(op) == key {
      HoldsMember(AfterOp(c, op).entries, e.(hits := e.hits + 1));
    } else {
      var left := Without(es, Index(es, KeyOfOp(op)));
      WithoutExplained(es, ops, KeyOfOp(op));
      WithoutOthers(es, KeyOfOp(op), e);
      if op.Putting? {
        var p :| 0 <= p < |left| && left[p] == e;
        AheadCounts(left, ops, p, op.key);
        assert OthersSince(ops + [op], key) == OthersSince(ops, key) + {op.key} by { OthersCons(ops, op, key); }
        assert Evict(left, c.maxSize)[p] == e;
      }
      HoldsMember(AfterOp(c, op).entries, e);
    }
  }

  lemma OthersCons(ops: seq<Op>, op: Op, key: Key)
    requires op.Putting? && op.key != key
    ensures OthersSince(ops + [op], key) == OthersSince(ops, key) + {op.key}
  {
    assert (ops + [op])[..|ops|] == ops;
  }

  lemma WithoutOthers(es: seq<Entry>, key: Key, e: Entry)
    requires e in es && e.key != key
    ensures e in Without(es, Index(es, key))
  {
    var i := Index(es, key);
    var j :| 0 <= j < |es| && es[j] == e;
    assert Without(es, i)[if j < i then j else j - 1] == e;
  }

  /** So get finds the last answer put, while it has not expired. */
  lemma GetFindsRetained(maxSize: nat, ops: seq<Op>, key: Key, now: int)
    requires maxSize >= 1 && Keeps(maxSize, ops, key)
    requires LastPut(ops, key).Some? ==> LastPut(ops, key).value.expiration > now
    ensures LastPut(ops, key).Some? && AfterGet(Run(maxSize, ops).entries, key, now).1 == LastPut(ops, key)
  {
    hide Explained, Run, Keeps;
    Retained(maxSize, ops, key);
    History(maxSize, ops);
    var es := Run(maxSize, ops).entries;
    EntryExplained(es, ops, Index(es, key));
  }
}
