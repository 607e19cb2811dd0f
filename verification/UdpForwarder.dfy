/** The UDP association of the SOCKS5 proxy (lib/socks5_server.py, class UdpForwarder), in
    the sense of section 7 of RFC 1928: which client it serves, which destinations may send
    back, and for how long. */
module UdpForwarders {
  import opened Common

  // ---------------------------------------------------------------- addresses

  datatype Host = V4(octets: Bytes) | V6(octets: Bytes) | Domain(octets: Bytes)

  datatype Address = Address(host: Host, port: U16)

  predicate Numeric(a: Address) {
    (a.host.V4? && |a.host.octets| == 4) || (a.host.V6? && |a.host.octets| == 16)
  }

  /** encode_address of a numeric address. */
  function EncodeAddress(a: Address): Bytes
    requires Numeric(a)
  {
    [if a.host.V4? then 1 else 4] + a.host.octets + Pack16(a.port)
  }

  /** read_addrport: the address and what follows it; none where it returns None or raises. */
  function ReadAddress(kind: Byte, rest: Bytes): Option<(Address, Bytes)> {
    if kind == 1 then ReadPort(4, rest, 0, V4([]))
    else if kind == 4 then ReadPort(16, rest, 0, V6([]))
    else if kind == 3 then if rest == [] then None else ReadPort(rest[0], rest, 1, Domain([]))
    else None
  }

  function ReadPort(n: nat, rest: Bytes, from: nat, host: Host): Option<(Address, Bytes)> {
    if |rest| < from + n + 2 then None
    else Some((Address(host.(octets := rest[from..from + n]), Unpack16(rest[from + n..from + n + 2])),
               rest[from + n + 2..]))
  }

  /** The request header of a datagram from the client: reserved, fragment, address. */
  function ReadRequest(data: Bytes): Option<(Address, Bytes)> {
    if |data| < 4 || data[2] != 0 then None else ReadAddress(data[3], data[4..])
  }

  function Reply(from: Address, data: Bytes): Bytes
    requires Numeric(from)
  {
    [0, 0, 0] + EncodeAddress(from) + data
  }

  /** A reply carries its sender and its data in the same form as a request. */
  lemma ReplyReads(from: Address, data: Bytes)
    requires Numeric(from)
    ensures ReadRequest(Reply(from, data)) == Some((from, data))
  {
    var n := |from.host.octets|;
    var rest := from.host.octets + Pack16(from.port) + data;
    assert Reply(from, data)[4..] == rest;
    assert rest[..n] == from.host.octets && rest[n..n + 2] == Pack16(from.port) && rest[n + 2..] == data;
    UnpackPack16(from.port);
  }

  /** The port, highest octet first. */
  function PortOctets(port: U16): Bytes {
    [port / 0x100, port % 0x100]
  }

  /** The octets that stand for an address: type 1 and four octets, type 4 and sixteen, or type 3,
      a length and as many; and the port. */
  predicate Stands(head: Bytes, a: Address) {
    match a.host
    case V4(octets) => |octets| == 4 && head == [1] + octets + PortOctets(a.port)
    case V6(octets) => |octets| == 16 && head == [4] + octets + PortOctets(a.port)
    case Domain(octets) => |octets| <= 255 && head == [3, |octets|] + octets + PortOctets(a.port)
  }

  /** Exactly which datagrams from the client are requests: two octets of any value, a fragment
      number of zero, an address, of a name as well, and the data. */
  lemma RequestIff(data: Bytes, to: Address, payload: Bytes)
    ensures ReadRequest(data) == Some((to, payload)) <==>
            |data| >= 4 && data[2] == 0 && exists head :: Stands(head, to) && data[3..] == head + payload
  {
    hide ReadAddress;
    if |data| >= 4 && data[2] == 0 {
      assert [data[3]] + data[4..] == data[3..];
      if ReadAddress(data[3], data[4..]) == Some((to, payload)) {
        var head := HeadOf(data[3], data[4..], to, payload);
      }
      if head :| Stands(head, to) && data[3..] == head + payload {
        assert data[3] == head[0] && data[4..] == head[1..] + payload;
        HeadReads(head, to, payload);
      }
    }
  }

  lemma PortRead(rest: Bytes, at: nat)
    requires at + 2 <= |rest|
    ensures PortOctets(Unpack16(rest[at..at + 2])) == rest[at..at + 2]
  {
    var two := rest[at..at + 2];
    assert two == [two[0], two[1]];
  }

  /** The address that was read stands there. */
  lemma HeadOf(kind: Byte, rest: Bytes, to: Address, payload: Bytes) returns (head: Bytes)
    requires ReadAddress(kind, rest) == Some((to, payload))
    ensures Stands(head, to) && [kind] + rest == head + payload
  {
    var n: nat := if kind == 1 then 4 else if kind == 4 then 16 else rest[0];
    var from := if kind == 3 then 1 else 0;
    var end := from + n;
    PortRead(rest, end);
    assert rest == rest[..from] + rest[from..end] + rest[end..end + 2] + rest[end + 2..];
    head := [kind] + rest[..from] + rest[from..end] + rest[end..end + 2];
    if kind == 3 {
      assert rest[..1] == [rest[0]] && [kind] + rest[..1] == [3, n];
    } else {
      assert rest[..0] == [] && [kind] + [] == [kind];
    }
  }

  lemma HeadReads(head: Bytes, to: Address, payload: Bytes)
    requires Stands(head, to)
    ensures ReadAddress(head[0], head[1..] + payload) == Some((to, payload))
  {
    var octets, port := to.host.octets, PortOctets(to.port);
    var from := if to.host.Domain? then 1 else 0;
    var rest := head[1..] + payload;
    var end := from + |octets|;
    assert head[1..] == (if from == 1 then [|octets|] else []) + octets + port;
    assert rest[from..end] == octets && rest[end..end + 2] == port && rest[end + 2..] == payload;
  }

  /** What the client gets: two zeros, fragment number zero, the address the answer came from,
      and the answer. */
  lemma ReplyOctets(from: Address, data: Bytes)
    requires Numeric(from)
    ensures exists head :: Stands(head, from) && Reply(from, data) == [0, 0, 0] + head + data
  {
    BigEndian(from.port, 0);
    assert Stands(EncodeAddress(from), from);
  }

  // ---------------------------------------------------------------- the table of mappings

  datatype Transport = ServerV4 | ServerV6

  type Key = (Transport, Address)

  datatype Entry = Entry(key: Key, client: Address, seen: real)

  /** A dictionary in the order in which its keys were added. */
  type Table = seq<Entry>

  predicate Distinct(t: Table) {
    forall i, j :: 0 <= i < j < |t| ==> t[i].key != t[j].key
  }

  function Find(t: Table, key: Key): (i: nat)
    ensures i <= |t|
    ensures i < |t| ==> t[i].key == key
    ensures i == |t| ==> forall j :: 0 <= j < |t| ==> t[j].key != key
  {
    if t == [] then 0 else if t[0].key == key then 0 else 1 + Find(t[1..], key)
  }

  /** An existing key keeps its place. */
  function Put(t: Table, e: Entry): (r: Table)
    ensures e in r
  {
    var i := Find(t, e.key);
    if i < |t| then
      assert t[i := e][i] == e;
      t[i := e]
    else t + [e]
  }

  function Without(t: Table, keys: set<Key>): (r: Table)
    ensures |r| <= |t|
    ensures forall e :: e in r <==> e in t && e.key !in keys
  {
    if t == [] then []
    else
      var rest := Without(t[1..], keys);
      assert forall e :: e in t <==> e == t[0] || e in t[1..];
      if t[0].key in keys then rest else [t[0]] + rest
  }

  function Expired(t: Table, now: real, ttl: real): set<Key> {
    set e | e in t && now - e.seen > ttl :: e.key
  }

  /** sorted() by time of last use: stable, so insertion after all that are not later. */
  function Insert(sorted: Table, e: Entry): (r: Table)
    ensures |r| == |sorted| + 1
    ensures forall x :: x in r <==> x == e || x in sorted
  {
    if sorted == [] || sorted[|sorted| - 1].seen <= e.seen then sorted + [e]
    else
      var shorter, last := sorted[..|sorted| - 1], sorted[|sorted| - 1];
      assert sorted == shorter + [last];
      Insert(shorter, e) + [last]
  }

  function Sorted(t: Table): (r: Table)
    ensures |r| == |t|
    ensures forall x :: x in r <==> x in t
  {
    if t == [] then []
    else
      assert t == t[..|t| - 1] + [t[|t| - 1]];
      Insert(Sorted(t[..|t| - 1]), t[|t| - 1])
  }

  function KeysOf(t: Table): set<Key> {
    set e | e in t :: e.key
  }

  /** The oldest mappings beyond the limit. */
  function Oldest(t: Table, max: nat): set<Key> {
    if |t| > max then KeysOf(Sorted(t)[..|t| - max]) else {}
  }

  /** _prune_mappings. */
  function Prune(t: Table, now: real, ttl: real, max: nat): Table {
    var live := Without(t, Expired(t, now, ttl));
    Without(live, Oldest(live, max))
  }

  // ---------------------------------------------------------------- what pruning does

  predicate Ordered(t: Table) {
    forall i, j :: 0 <= i < j < |t| ==> t[i].seen <= t[j].seen
  }

  lemma {:induction false} InsertOrdered(sorted: Table, e: Entry)
    requires Ordered(sorted)
    ensures Ordered(Insert(sorted, e))
  {
    if sorted != [] && sorted[|sorted| - 1].seen > e.seen {
      var shorter, last := sorted[..|sorted| - 1], sorted[|sorted| - 1];
      InsertOrdered(shorter, e);
      forall x | x in Insert(shorter, e) ensures x.seen <= last.seen {
        if x in shorter {
          var i :| 0 <= i < |shorter| && shorter[i] == x;
          assert sorted[i].seen <= last.seen;
        }
      }
      var r := Insert(sorted, e);
      forall i | 0 <= i < |r| - 1 ensures r[i].seen <= last.seen {
        assert r[i] in Insert(shorter, e);
      }
    }
  }

  lemma {:induction false} SortedOrdered(t: Table)
    ensures Ordered(Sorted(t))
  {
    if t != [] {
      SortedOrdered(t[..|t| - 1]);
      InsertOrdered(Sorted(t[..|t| - 1]), t[|t| - 1]);
    }
  }

  lemma {:induction false} InsertDistinct(sorted: Table, e: Entry)
    requires Distinct(sorted) && forall x :: x in sorted ==> x.key != e.key
    ensures Distinct(Insert(sorted, e))
  {
    if sorted != [] && sorted[|sorted| - 1].seen > e.seen {
      var shorter, last := sorted[..|sorted| - 1], sorted[|sorted| - 1];
      InsertDistinct(shorter, e);
      forall x | x in Insert(shorter, e) ensures x.key != last.key {
        if x in shorter {
          var i :| 0 <= i < |shorter| && shorter[i] == x;
          assert sorted[i].key != last.key;
        } else {
          assert last in sorted;
        }
      }
      var r := Insert(sorted, e);
      forall i | 0 <= i < |r| - 1 ensures r[i].key != last.key {
        assert r[i] in Insert(shorter, e);
      }
    } else {
      forall i | 0 <= i < |sorted| ensures sorted[i].key != e.key {
        assert sorted[i] in sorted;
      }
    }
  }

  lemma {:induction false} SortedDistinct(t: Table)
    requires Distinct(t)
    ensures Distinct(Sorted(t))
  {
    if t != [] {
      var shorter, last := t[..|t| - 1], t[|t| - 1];
      SortedDistinct(shorter);
      forall x | x in Sorted(shorter) ensures x.key != last.key {
        var i :| 0 <= i < |shorter| && shorter[i] == x;
        assert t[i].key != last.key;
      }
      InsertDistinct(Sorted(shorter), last);
    }
  }

  lemma {:induction false} CountKeys(t: Table)
    requires Distinct(t)
    ensures |KeysOf(t)| == |t|
  {
    hide KeysOf, Distinct;
    if t == [] {
      KeysNone();
    } else {
      var shorter, last := t[..|t| - 1], t[|t| - 1];
      assert t == shorter + [last];
      KeysMore(shorter, last);
      CountKeys(shorter);
    }
  }

  lemma KeysNone()
    ensures KeysOf([]) == {}
  {
  }

  lemma KeysMore(t: Table, e: Entry)
    requires Distinct(t + [e])
    ensures Distinct(t) && KeysOf(t + [e]) == KeysOf(t) + {e.key} && e.key !in KeysOf(t)
  {
    var all := t + [e];
    forall x | x in t ensures x.key != e.key {
      var i :| 0 <= i < |t| && t[i] == x;
      assert all[i].key != all[|t|].key;
    }
    forall i, j | 0 <= i < j < |t| ensures t[i].key != t[j].key {
      assert all[i].key != all[j].key;
    }
  }

  lemma {:induction false} WithoutDistinct(t: Table, keys: set<Key>)
    requires Distinct(t)
    ensures Distinct(Without(t, keys))
  {
    if t != [] {
      WithoutDistinct(t[1..], keys);
      forall e | e in Without(t[1..], keys) ensures e.key != t[0].key {
        var i :| 0 <= i < |t[1..]| && t[1..][i] == e;
        assert t[i + 1].key != t[0].key;
      }
      var r := Without(t, keys);
      forall j | 0 < j < |r| && t[0].key !in keys ensures r[j].key != r[0].key {
        assert r[j] in Without(t[1..], keys);
      }
    }
  }

  lemma SizeWithout(t: Table, keys: set<Key>)
    requires Distinct(t) && keys <= KeysOf(t)
    ensures |Without(t, keys)| == |t| - |keys|
  {
    var r := Without(t, keys);
    WithoutDistinct(t, keys);
    CountKeys(t);
    CountKeys(r);
    forall k | k in KeysOf(t) - keys ensures k in KeysOf(r) {
      var e :| e in t && e.key == k;
      assert e in r;
    }
    assert KeysOf(r) == KeysOf(t) - keys;
  }

  /** Pruning leaves no more than the limit, only mappings used within their time to live, and
      of those it drops for room none was used later than one it keeps.  It drops none of them
      unless the table is full without it. */
  lemma PruneBounds(t: Table, now: real, ttl: real, max: nat)
    requires Distinct(t)
    ensures var r := Prune(t, now, ttl, max);
            && Distinct(r) && |r| <= max && (forall e :: e in r ==> e in t && now - e.seen <= ttl)
            && (forall e, kept :: e in t && now - e.seen <= ttl && e !in r && kept in r ==> e.seen <= kept.seen)
            && forall e :: e in t && now - e.seen <= ttl && e !in r ==> |r| == max
  {
    hide Without, Oldest, Expired, Distinct;
    var live := Without(t, Expired(t, now, ttl));
    WithoutDistinct(t, Expired(t, now, ttl));
    LiveExactly(t, now, ttl);
    RoomMade(live, max);
  }

  lemma LiveExactly(t: Table, now: real, ttl: real)
    requires Distinct(t)
    ensures forall e :: e in Without(t, Expired(t, now, ttl)) <==> e in t && now - e.seen <= ttl
  {
    hide Without;
    forall e | e in t && now - e.seen <= ttl ensures e.key !in Expired(t, now, ttl) {
      NotExpired(t, now, ttl, e);
    }
  }

  lemma RoomMade(t: Table, max: nat)
    requires Distinct(t)
    ensures var r := Without(t, Oldest(t, max));
            && Distinct(r) && |r| <= max
            && (forall e, kept :: e in t && e !in r && kept in r ==> e.seen <= kept.seen)
            && |r| == Min(|t|, max) && (|t| <= max ==> r == t)
  {
    hide Without, Sorted;
    WithoutDistinct(t, Oldest(t, max));
    if |t| > max {
      VictimsOldest(t, |t| - max);
    } else {
      WithoutNone(t);
    }
  }

  lemma NotExpired(t: Table, now: real, ttl: real, e: Entry)
    requires Distinct(t) && e in t && now - e.seen <= ttl
    ensures e.key !in Expired(t, now, ttl)
  {
    forall x | x in t && x.key == e.key ensures x == e {
      var i :| 0 <= i < |t| && t[i] == x;
      var j :| 0 <= j < |t| && t[j] == e;
      assert i == j;
    }
  }

  lemma VictimsOldest(t: Table, n: nat)
    requires Distinct(t) && n <= |t|
    ensures var victims := KeysOf(Sorted(t)[..n]);
            && |Without(t, victims)| == |t| - n
            && forall e, kept :: e in t && e.key in victims && kept in t && kept.key !in victims ==> e.seen <= kept.seen
  {
    hide Sorted, Without;
    var sorted := Sorted(t);
    var victims := KeysOf(sorted[..n]);
    SortedOrdered(t);
    SortedDistinct(t);
    CountKeys(sorted[..n]);
    forall k | k in victims ensures k in KeysOf(t) {
      var e :| e in sorted[..n] && e.key == k;
      assert e in sorted && e in t;
    }
    SizeWithout(t, victims);
    forall e, kept | e in t && e.key in victims && kept in t && kept.key !in victims ensures e.seen <= kept.seen {
      SplitOrdered(sorted, n, e, kept);
    }
  }

  lemma SplitOrdered(sorted: Table, n: nat, e: Entry, kept: Entry)
    requires Distinct(sorted) && Ordered(sorted) && n <= |sorted| && e in sorted && kept in sorted
    requires e.key in KeysOf(sorted[..n]) && kept.key !in KeysOf(sorted[..n])
    ensures e.seen <= kept.seen
  {
    var j :| 0 <= j < |sorted| && sorted[j] == kept;
    var v :| v in sorted[..n] && v.key == e.key;
    var i :| 0 <= i < n && sorted[..n][i] == v;
    var k :| 0 <= k < |sorted| && sorted[k] == e;
    assert sorted[i].key == sorted[k].key;
    assert k == i;
  }

  lemma {:induction false} WithoutLast(t: Table, e: Entry, keys: set<Key>)
    requires e.key !in keys
    ensures Without(t + [e], keys) == Without(t, keys) + [e]
  {
    if t == [] {
      assert [e][1..] == [];
    } else {
      assert (t + [e])[1..] == t[1..] + [e];
      WithoutLast(t[1..], e, keys);
    }
  }

  /** The mapping just added, as recent as any, is not dropped. */
  lemma NewestStays(t: Table, e: Entry, now: real, ttl: real, max: nat)
    requires Distinct(t + [e]) && max >= 1 && now - e.seen <= ttl && forall x :: x in t ==> x.seen <= e.seen
    ensures e in Prune(t + [e], now, ttl, max)
  {
    hide Without, Oldest;
    var all := t + [e];
    assert all[|t|] == e;
    var dead := Expired(all, now, ttl);
    NotExpired(all, now, ttl, e);
    WithoutLast(t, e, dead);
    WithoutDistinct(all, dead);
    LastSurvives(Without(t, dead), e, max);
  }

  lemma LastSurvives(t: Table, e: Entry, max: nat)
    requires Distinct(t + [e]) && max >= 1 && forall x :: x in t ==> x.seen <= e.seen
    ensures e.key !in Oldest(t + [e], max)
  {
    var all := t + [e];
    assert all[..|t|] == t && all[|t|] == e;
    var sorted := Sorted(all);
    assert sorted == Sorted(t) + [e] by {
      forall x | x in Sorted(t) ensures x.seen <= e.seen {}
    }
    SortedDistinct(all);
    if |all| > max {
      var n := |all| - max;
      assert sorted[..n] <= Sorted(t);
      forall x | x in sorted[..n] ensures x.key != e.key {
        var i :| 0 <= i < n && sorted[i] == x;
        assert sorted[|t|] == e;
      }
    }
  }

  // ---------------------------------------------------------------- steps

  datatype Config = Config(expected: Option<(Host, nat)>, maxMappings: nat, ttl: real, hasV4: bool, hasV6: bool)
  {
    predicate Valid() {
      maxMappings >= 1 && ttl >= 5.0
    }
  }

  datatype Sent =
    | ToServer(transport: Transport, to: Address, payload: Bytes)
    | ToClient(client: Address, datagram: Bytes)

  /** A client's datagram whose destination is being resolved. */
  datatype Pending = Pending(client: Address, destination: Address, payload: Bytes)

  /** The association: the one client it serves, its mappings, and all it has sent. */
  datatype State = State(locked: Option<Address>, table: Table, sent: seq<Sent>)

  predicate Expected(cfg: Config, client: Address) {
    cfg.expected.Some? ==>
      && client.host == cfg.expected.value.0
      && (cfg.expected.value.1 == 0 || cfg.expected.value.1 == client.port)
  }

  function Pruned(cfg: Config, s: State, now: real): State {
    s.(table := Prune(s.table, now, cfg.ttl, cfg.maxMappings))
  }

  /** _client_allowed, with the client locked from then on. */
  function Admit(cfg: Config, s: State, client: Address): (State, bool) {
    if !Expected(cfg, client) then (s, false)
    else
      var s1 := if s.locked.None? then s.(locked := Some(client)) else s;
      (s1, s1.locked == Some(client))
  }

  /** on_client_datagram up to the point where it waits for the destination's addresses. */
  function ClientStep(cfg: Config, s: State, data: Bytes, client: Address, now: real): (State, Option<Pending>) {
    var (s1, allowed) := Admit(cfg, s, client);
    if !allowed then (s1, None)
    else
      var s2 := Pruned(cfg, s1, now);
      match ReadRequest(data)
      case None => (s2, None)
      case Some((destination, payload)) => (s2, Some(Pending(client, destination, payload)))
  }

  function Forward(cfg: Config, s: State, p: Pending, transport: Transport, to: Address, now: real): State {
    Pruned(cfg, s.(table := Put(s.table, Entry((transport, to), p.client, now))), now)
      .(sent := s.sent + [ToServer(transport, to, p.payload)])
  }

  /** The rest of on_client_datagram; no addresses where resolving failed. */
  function ResolvedStep(cfg: Config, s: State, p: Pending, ipv6: Option<Address>, ipv4: Option<Address>,
                        now: real): State {
    if ipv6.Some? && cfg.hasV6 then Forward(cfg, s, p, ServerV6, ipv6.value, now)
    else if ipv4.Some? && cfg.hasV4 then Forward(cfg, s, p, ServerV4, ipv4.value, now)
    else s
  }

  /** on_server_datagram. */
  function ServerStep(cfg: Config, s: State, transport: Transport, from: Address, data: Bytes, now: real): State
    requires Numeric(from)
  {
    var s1 := Pruned(cfg, s, now);
    var i := Find(s1.table, (transport, from));
    if i == |s1.table| then s1
    else
      var client := s1.table[i].client;
      s1.(table := s1.table[i := Entry((transport, from), client, now)],
          sent := s1.sent + [ToClient(client, Reply(from, data))])
  }

  // ---------------------------------------------------------------- what every run keeps

  ghost predicate Asked(sent: seq<Sent>, to: Address) {
    exists i :: 0 <= i < |sent| && sent[i].ToServer? && sent[i].to == to
  }

  /** Every reply comes from an address the client had sent to before. */
  ghost predicate Solicited(sent: seq<Sent>) {
    forall i :: 0 <= i < |sent| && sent[i].ToClient? ==>
      ReadRequest(sent[i].datagram).Some? && Asked(sent[..i], ReadRequest(sent[i].datagram).value.0)
  }

  ghost predicate TableOk(cfg: Config, s: State, clock: real) {
    && Distinct(s.table) && |s.table| <= cfg.maxMappings
    && forall e :: e in s.table ==> e.seen <= clock && s.locked == Some(e.client) && Asked(s.sent, e.key.1)
  }

  ghost predicate Inv(cfg: Config, s: State, pending: seq<Pending>, clock: real) {
    && (s.locked.Some? ==> Expected(cfg, s.locked.value))
    && TableOk(cfg, s, clock)
    && (forall p :: p in pending ==> s.locked == Some(p.client))
    && (forall i :: 0 <= i < |s.sent| && s.sent[i].ToClient? ==> s.locked == Some(s.sent[i].client))
    && Solicited(s.sent)
  }

  lemma PrunedOk(cfg: Config, s: State, clock: real, now: real)
    requires cfg.Valid() && TableOk(cfg, s, clock) && clock <= now
    ensures TableOk(cfg, Pruned(cfg, s, now), now)
  {
    hide Prune, Asked;
    PruneBounds(s.table, now, cfg.ttl, cfg.maxMappings);
  }

  /** Locking the first expected client breaks nothing, and a lock is for good. */
  lemma AdmitInv(cfg: Config, s: State, pending: seq<Pending>, clock: real, client: Address)
    requires Inv(cfg, s, pending, clock)
    ensures var (s', allowed) := Admit(cfg, s, client);
            && Inv(cfg, s', pending, clock) && (s.locked.Some? ==> s'.locked == s.locked)
            && (allowed <==> Expected(cfg, client) && (s.locked.None? || s.locked == Some(client)))
            && (allowed ==> s'.locked == Some(client)) && (!allowed ==> s' == s)
  {
    hide Solicited, Asked, Distinct;
  }

  lemma ClientStepInv(cfg: Config, s: State, pending: seq<Pending>, clock: real, data: Bytes, client: Address,
                      now: real)
    requires cfg.Valid() && Inv(cfg, s, pending, clock) && clock <= now
    ensures var (s', p) := ClientStep(cfg, s, data, client, now);
            Inv(cfg, s', if p.Some? then pending + [p.value] else pending, now)
    ensures s.locked.Some? ==> ClientStep(cfg, s, data, client, now).0.locked == s.locked
  {
    hide Prune, Solicited, Asked, ReadRequest, Distinct;
    var (s1, allowed) := Admit(cfg, s, client);
    assert TableOk(cfg, s1, clock);
    PrunedOk(cfg, s1, clock, now);
  }

  lemma {:induction false} AskedMore(sent: seq<Sent>, more: Sent, to: Address)
    requires Asked(sent, to)
    ensures Asked(sent + [more], to)
  {
    var i :| 0 <= i < |sent| && sent[i].ToServer? && sent[i].to == to;
    assert (sent + [more])[i] == sent[i];
  }

  lemma SolicitedMore(sent: seq<Sent>, more: Sent)
    requires Solicited(sent)
    requires more.ToClient? ==> ReadRequest(more.datagram).Some? && Asked(sent, ReadRequest(more.datagram).value.0)
    ensures Solicited(sent + [more])
  {
    hide Asked, ReadRequest;
    var all := sent + [more];
    forall i | 0 <= i < |all| ensures i < |sent| ==> all[..i] == sent[..i] {}
    assert all[..|sent|] == sent;
  }

  lemma PutTable(t: Table, e: Entry)
    requires Distinct(t)
    ensures Distinct(Put(t, e)) && forall x :: x in Put(t, e) ==> x == e || x in t
    ensures Find(t, e.key) == |t| ==> Put(t, e) == t + [e]
    ensures Find(t, e.key) < |t| ==> |Put(t, e)| == |t|
    ensures e in Put(t, e) && forall x :: x in t && x.key != e.key ==> x in Put(t, e)
  {
    var i := Find(t, e.key);
    if i < |t| {
      forall j | 0 <= j < |t| && j != i ensures t[j].key != e.key {}
      forall x | x in t && x.key != e.key ensures x in Put(t, e) {
        var j :| 0 <= j < |t| && t[j] == x;
        assert Put(t, e)[j] == x;
      }
    }
  }

  /** The datagram is sent to the address resolved, the mapping is there for its replies, and
      everything still holds. */
  lemma ForwardInv(cfg: Config, s: State, pending: seq<Pending>, clock: real, p: Pending,
                   transport: Transport, to: Address, now: real)
    requires cfg.Valid() && Inv(cfg, s, pending, clock) && clock <= now && s.locked == Some(p.client)
    ensures var s' := Forward(cfg, s, p, transport, to, now);
            && Inv(cfg, s', pending, now) && s'.locked == s.locked && Entry((transport, to), p.client, now) in s'.table
            && s'.sent == s.sent + [ToServer(transport, to, p.payload)]
  {
    hide Prune, Asked, Solicited, Distinct, Put;
    var e := Entry((transport, to), p.client, now);
    var out := ToServer(transport, to, p.payload);
    var sent := s.sent + [out];
    var table := Put(s.table, e);
    PutTable(s.table, e);
    SolicitedMore(s.sent, out);
    assert Asked(sent, to) by { AskedLast(s.sent, out); }
    forall x | x in table ensures x.seen <= now && s.locked == Some(x.client) && Asked(sent, x.key.1) {
      if x != e {
        AskedMore(s.sent, out, x.key.1);
      }
    }
    PruneBounds(table, now, cfg.ttl, cfg.maxMappings);
    JustPutStays(cfg, s.table, e, now);
  }

  lemma AskedLast(sent: seq<Sent>, more: Sent)
    requires more.ToServer?
    ensures Asked(sent + [more], more.to)
  {
    assert (sent + [more])[|sent|] == more;
  }

  /** Making room never costs the mapping just put. */
  lemma JustPutStays(cfg: Config, t: Table, e: Entry, now: real)
    requires cfg.Valid() && Distinct(t) && |t| <= cfg.maxMappings
    requires e.seen == now && forall x :: x in t ==> x.seen <= now
    ensures e in Prune(Put(t, e), now, cfg.ttl, cfg.maxMappings)
  {
    hide Distinct, Put;
    PutTable(t, e);
    if Find(t, e.key) == |t| {
      hide Prune;
      NewestStays(t, e, now, cfg.ttl, cfg.maxMappings);
    } else {
      LiveExactly(Put(t, e), now, cfg.ttl);
    }
  }

  /** The destination of one of the pending datagrams was resolved, or could not be. */
  lemma ResolvedInv(cfg: Config, s: State, pending: seq<Pending>, clock: real, which: nat,
                    ipv6: Option<Address>, ipv4: Option<Address>, now: real)
    requires cfg.Valid() && Inv(cfg, s, pending, clock) && clock <= now && which < |pending|
    ensures var p, s' := pending[which], ResolvedStep(cfg, s, pending[which], ipv6, ipv4, now);
            && Inv(cfg, s', pending[..which] + pending[which + 1..], now) && s'.locked == s.locked
            && if ipv6.Some? && cfg.hasV6 then
                 Entry((ServerV6, ipv6.value), p.client, now) in s'.table
                 && s'.sent == s.sent + [ToServer(ServerV6, ipv6.value, p.payload)]
               else if ipv4.Some? && cfg.hasV4 then
                 Entry((ServerV4, ipv4.value), p.client, now) in s'.table
                 && s'.sent == s.sent + [ToServer(ServerV4, ipv4.value, p.payload)]
               else s' == s
  {
    hide Prune, Asked, Solicited, Distinct, Forward;
    var p := pending[which];
    var left := pending[..which] + pending[which + 1..];
    assert p in pending && forall q :: q in left ==> q in pending;
    if ipv6.Some? && cfg.hasV6 {
      ForwardInv(cfg, s, left, clock, p, ServerV6, ipv6.value, now);
    } else if ipv4.Some? && cfg.hasV4 {
      ForwardInv(cfg, s, left, clock, p, ServerV4, ipv4.value, now);
    }
  }

  lemma ServerStepInv(cfg: Config, s: State, pending: seq<Pending>, clock: real,
                      transport: Transport, from: Address, data: Bytes, now: real)
    requires cfg.Valid() && Inv(cfg, s, pending, clock) && clock <= now && Numeric(from)
    ensures Inv(cfg, ServerStep(cfg, s, transport, from, data, now), pending, now)
    ensures ServerStep(cfg, s, transport, from, data, now).locked == s.locked
  {
    hide Prune, Asked, Solicited, ReadRequest, Reply;
    PrunedOk(cfg, s, clock, now);
    var s1 := Pruned(cfg, s, now);
    var i := Find(s1.table, (transport, from));
    if i < |s1.table| {
      var client := s1.table[i].client;
      assert s1.table[i] in s1.table;
      var out := ToClient(client, Reply(from, data));
      ReplyReads(from, data);
      SolicitedMore(s.sent, out);
      var table := s1.table[i := Entry((transport, from), client, now)];
      forall e | e in table ensures e.seen <= now && s.locked == Some(e.client) && Asked(s.sent + [out], e.key.1) {
        var j :| 0 <= j < |table| && table[j] == e;
        assert s1.table[j] in s1.table;
        AskedMore(s.sent, out, e.key.1);
      }
    }
  }

  /** A datagram from a server goes to the client of its mapping, and renews it, exactly when
      there is one that was used within its time to live; otherwise nothing is sent.  No other
      mapping in use goes. */
  lemma ServerStepMeans(cfg: Config, s: State, clock: real, transport: Transport, from: Address, data: Bytes,
                        now: real, e: Entry)
    requires TableOk(cfg, s, clock) && Numeric(from)
    ensures var s' := ServerStep(cfg, s, transport, from, data, now);
            && (e in s.table && e.key == (transport, from) && now - e.seen <= cfg.ttl ==>
                  && s'.sent == s.sent + [ToClient(e.client, Reply(from, data))]
                  && Entry((transport, from), e.client, now) in s'.table)
            && ((forall x :: x in s.table && x.key == (transport, from) ==> now - x.seen > cfg.ttl) ==>
                  s'.sent == s.sent)
            && (e in s.table && e.key != (transport, from) && now - e.seen <= cfg.ttl ==> e in s'.table)
  {
    hide Reply, Asked, Without, Expired, Oldest;
    var live := Without(s.table, Expired(s.table, now, cfg.ttl));
    LiveExactly(s.table, now, cfg.ttl);
    WithoutDistinct(s.table, Expired(s.table, now, cfg.ttl));
    RoomMade(live, cfg.maxMappings);
    var i := Find(live, (transport, from));
    if i < |live| {
      var table := live[i := Entry((transport, from), live[i].client, now)];
      assert table[i] in table && live[i] in live;
      if e in live {
        var j :| 0 <= j < |live| && live[j] == e;
        assert j != i ==> table[j] == e && live[i].key != live[j].key;
      }
    }
  }

  /** What a client's datagram comes to: a request from the one client is to be resolved, with
      its data, and any other changes nothing that is sent. */
  lemma ClientStepMeans(cfg: Config, s: State, data: Bytes, client: Address, now: real)
    ensures var (s', p) := ClientStep(cfg, s, data, client, now);
            var allowed :=
              && (cfg.expected.Some? ==> && client.host == cfg.expected.value.0
                                         && cfg.expected.value.1 in {0, client.port as int})
              && (s.locked == None || s.locked == Some(client));
            && (p.Some? <==> allowed && ReadRequest(data).Some?)
            && (p.Some? ==>
                  p.value.client == client && ReadRequest(data) == Some((p.value.destination, p.value.payload)))
            && s'.sent == s.sent && (allowed ==> s'.locked == Some(client)) && (!allowed ==> s' == s)
  {
    hide ReadRequest, Prune;
  }

  // ---------------------------------------------------------------- runs

  /** What can happen: a datagram from a client, an answer to a resolution under way, in any
      order of these, and a datagram from a server. */
  datatype Event =
    | FromClient(data: Bytes, client: Address, at: real)
    | Resolved(which: nat, ipv6: Option<Address>, ipv4: Option<Address>, at: real)
    | FromServer(transport: Transport, from: Address, data: Bytes, at: real)

  datatype System = System(state: State, pending: seq<Pending>)

  function Happen(cfg: Config, y: System, ev: Event): System {
    match ev
    case FromClient(data, client, at) =>
      var (s, p) := ClientStep(cfg, y.state, data, client, at);
      System(s, if p.Some? then y.pending + [p.value] else y.pending)
    case Resolved(which, ipv6, ipv4, at) =>
      if which >= |y.pending| then y
      else System(ResolvedStep(cfg, y.state, y.pending[which], ipv6, ipv4, at),
                  y.pending[..which] + y.pending[which + 1..])
    case FromServer(transport, from, data, at) =>
      if !Numeric(from) then y else y.(state := ServerStep(cfg, y.state, transport, from, data, at))
  }

  function Run(cfg: Config, events: seq<Event>): System {
    if events == [] then System(State(None, [], []), [])
    else Happen(cfg, Run(cfg, events[..|events| - 1]), events[|events| - 1])
  }

  /** The clock never goes back. */
  predicate Chronological(events: seq<Event>) {
    forall i :: 0 < i < |events| ==> events[i - 1].at <= events[i].at
  }

  lemma HappenInv(cfg: Config, y: System, clock: real, ev: Event)
    requires cfg.Valid() && Inv(cfg, y.state, y.pending, clock) && clock <= ev.at
    ensures var z := Happen(cfg, y, ev);
            Inv(cfg, z.state, z.pending, ev.at) && (y.state.locked.Some? ==> z.state.locked == y.state.locked)
  {
    hide Prune, Asked, Solicited, Distinct, ReadRequest, Forward, ServerStep, ClientStep;
    match ev
    case FromClient(data, client, at) => ClientStepInv(cfg, y.state, y.pending, clock, data, client, at);
    case FromServer(transport, from, data, at) =>
      if Numeric(from) {
        ServerStepInv(cfg, y.state, y.pending, clock, transport, from, data, at);
      }
    case Resolved(which, ipv6, ipv4, at) =>
      if which < |y.pending| {
        ResolvedInv(cfg, y.state, y.pending, clock, which, ipv6, ipv4, at);
      }
  }

  /** Over any interleaving of datagrams and resolutions, with a clock that never goes back:
      the table keeps its limit, every mapping belongs to the one client, which was expected,
      replies go to that client alone, and only from addresses it has sent to. */
  lemma {:induction false} AlwaysInv(cfg: Config, events: seq<Event>)
    requires cfg.Valid() && Chronological(events)
    ensures var y := Run(cfg, events);
            Inv(cfg, y.state, y.pending, if events == [] then 0.0 else events[|events| - 1].at)
    decreases |events|
  {
    if events != [] {
      var before, last := events[..|events| - 1], events[|events| - 1];
      AlwaysInv(cfg, before);
      if before == [] {
        assert Inv(cfg, Run(cfg, before).state, [], last.at);
        HappenInv(cfg, Run(cfg, before), last.at, last);
      } else {
        HappenInv(cfg, Run(cfg, before), before[|before| - 1].at, last);
      }
    }
  }

  // ---------------------------------------------------------------- the object

  lemma {:induction false} WithoutMore(t: Table, a: set<Key>, b: set<Key>)
    ensures Without(Without(t, a), b) == Without(t, a + b)
  {
    if t != [] {
      WithoutMore(t[1..], a, b);
      if t[0].key !in a {
        assert ([t[0]] + Without(t[1..], a))[1..] == Without(t[1..], a);
      }
    }
  }

  lemma {:induction false} WithoutNone(t: Table)
    ensures Without(t, {}) == t
  {
    if t != [] {
      WithoutNone(t[1..]);
    }
  }

  function Listed(keys: seq<Key>): set<Key> {
    set k | k in keys
  }

  lemma ListedMore(keys: seq<Key>, k: Key)
    ensures Listed(keys + [k]) == Listed(keys) + {k}
  {
  }

  class UdpForwarder {
    const cfg: Config
    var lockedClient: Option<Address>
    var connections: Table
    // every datagram sent so far
    var sent: seq<Sent>
    // the datagrams whose destinations are being resolved, and the time of the last step
    ghost var pending: seq<Pending>
    ghost var clock: real

    ghost function Now(): State
      reads this
    {
      State(lockedClient, connections, sent)
    }

    ghost predicate Valid()
      reads this
    {
      cfg.Valid() && Inv(cfg, Now(), pending, clock)
    }

    constructor (cfg: Config)
      requires cfg.Valid()
      ensures Valid() && this.cfg == cfg && Now() == State(None, [], []) && pending == []
    {
      this.cfg, lockedClient, connections, sent := cfg, None, [], [];
      pending, clock := [], 0.0;
    }

    /** _client_allowed: whoever is allowed was expected and is the one client from then on;
        once there is one, it stays. */
    method ClientAllowed(client: Address) returns (allowed: bool)
      requires Valid()
      modifies this`lockedClient
      ensures Valid() && (Now(), allowed) == Admit(cfg, old(Now()), client)
      ensures allowed <==> Expected(cfg, client) && (old(lockedClient) == None || old(lockedClient) == Some(client))
      ensures lockedClient == if allowed then Some(client) else old(lockedClient)
    {
      hide Inv;
      AdmitInv(cfg, Now(), pending, clock, client);
      if cfg.expected.Some? {
        var (host, port) := cfg.expected.value;
        if client.host != host {
          return false;
        }
        if port != 0 && port != client.port {
          return false;
        }
      }
      if lockedClient == None {
        lockedClient := Some(client);
      }
      allowed := lockedClient == Some(client);
    }

    /** connections.pop for each key of a list. */
    method PopAll(keys: seq<Key>)
      modifies this`connections
      ensures connections == Without(old(connections), Listed(keys))
    {
      hide Without;
      var i := 0;
      WithoutNone(connections);
      assert Listed(keys[..0]) == {};
      while i < |keys|
        invariant 0 <= i <= |keys|
        invariant connections == Without(old(connections), Listed(keys[..i]))
      {
        WithoutMore(old(connections), Listed(keys[..i]), {keys[i]});
        assert keys[..i + 1] == keys[..i] + [keys[i]];
        ListedMore(keys[..i], keys[i]);
        connections := Without(connections, {keys[i]});
        i := i + 1;
      }
      assert keys[..i] == keys;
    }

    method PruneMappings(now: real)
      modifies this`connections
      ensures Now() == Pruned(cfg, old(Now()), now)
    {
      hide Without, Sorted;
      var expired := ExpiredKeys(now);
      PopAll(expired);
      if |connections| > cfg.maxMappings {
        var oldest := Sorted(connections)[..|connections| - cfg.maxMappings];
        var keys := seq(|oldest|, i requires 0 <= i < |oldest| => oldest[i].key);
        KeysListed(oldest, keys);
        PopAll(keys);
      } else {
        WithoutNone(connections);
      }
    }

    /** The keys of the mappings past their time to live. */
    method ExpiredKeys(now: real) returns (keys: seq<Key>)
      ensures Listed(keys) == Expired(connections, now, cfg.ttl)
    {
      keys := [];
      var i := 0;
      while i < |connections|
        invariant 0 <= i <= |connections|
        invariant Listed(keys) == Expired(connections[..i], now, cfg.ttl)
      {
        var e := connections[i];
        assert connections[..i + 1] == connections[..i] + [e];
        ghost var before := keys;
        if now - e.seen > cfg.ttl {
          keys := keys + [e.key];
          ListedMore(before, e.key);
          assert Expired(connections[..i + 1], now, cfg.ttl) == Expired(connections[..i], now, cfg.ttl) + {e.key};
        } else {
          assert Expired(connections[..i + 1], now, cfg.ttl) == Expired(connections[..i], now, cfg.ttl);
        }
        i := i + 1;
      }
      assert connections[..i] == connections;
    }

    /** on_client_datagram, up to where it waits. */
    method OnClientDatagram(data: Bytes, client: Address, now: real) returns (p: Option<Pending>)
      requires Valid() && clock <= now
      modifies this`lockedClient, this`connections, this`pending, this`clock
      ensures Valid() && clock == now && (old(lockedClient).Some? ==> lockedClient == old(lockedClient))
      ensures (Now(), p) == ClientStep(cfg, old(Now()), data, client, now)
      ensures pending == if p.Some? then old(pending) + [p.value] else old(pending)
    {
      hide Prune, ReadRequest, Inv;
      ClientStepInv(cfg, Now(), pending, clock, data, client, now);
      p := Receive(data, client, now);
      pending := if p.Some? then pending + [p.value] else pending;
      clock := now;
    }

    method Receive(data: Bytes, client: Address, now: real) returns (p: Option<Pending>)
      requires Valid()
      modifies this`lockedClient, this`connections
      ensures (Now(), p) == ClientStep(cfg, old(Now()), data, client, now)
    {
      hide Prune, ReadRequest, Inv;
      var allowed := ClientAllowed(client);
      if !allowed {
        return None;
      }
      PruneMappings(now);
      var request := ReadRequest(data);
      if request.None? {
        return None;
      }
      p := Some(Pending(client, request.value.0, request.value.1));
    }

    /** The mapping is made or renewed, and the datagram goes out. */
    method Send(p: Pending, transport: Transport, to: Address, now: real)
      modifies this`connections, this`sent
      ensures Now() == Forward(cfg, old(Now()), p, transport, to, now)
    {
      hide Prune;
      connections := Put(connections, Entry((transport, to), p.client, now));
      PruneMappings(now);
      sent := sent + [ToServer(transport, to, p.payload)];
    }

    /** on_client_datagram, once its destination was resolved: over the transport for its
        family, if there is one, the payload goes out, and the mapping that lets replies from
        there reach the client is in the table. */
    method OnResolved(ghost which: nat, p: Pending, ipv6: Option<Address>, ipv4: Option<Address>, now: real)
      requires Valid() && clock <= now && which < |pending| && pending[which] == p
      modifies this`connections, this`sent, this`pending, this`clock
      ensures Valid() && clock == now && pending == old(pending)[..which] + old(pending)[which + 1..]
      ensures Now() == ResolvedStep(cfg, old(Now()), p, ipv6, ipv4, now)
      ensures if ipv6.Some? && cfg.hasV6 then
                sent == old(sent) + [ToServer(ServerV6, ipv6.value, p.payload)]
                && Entry((ServerV6, ipv6.value), p.client, now) in connections
              else if ipv4.Some? && cfg.hasV4 then
                sent == old(sent) + [ToServer(ServerV4, ipv4.value, p.payload)]
                && Entry((ServerV4, ipv4.value), p.client, now) in connections
              else sent == old(sent) && connections == old(connections)
    {
      hide Forward, Inv;
      ResolvedInv(cfg, Now(), pending, clock, which, ipv6, ipv4, now);
      pending := pending[..which] + pending[which + 1..];
      clock := now;
      if ipv6.Some? && cfg.hasV6 {
        Send(p, ServerV6, ipv6.value, now);
      } else if ipv4.Some? && cfg.hasV4 {
        Send(p, ServerV4, ipv4.value, now);
      }
    }

    /** on_server_datagram. */
    method OnServerDatagram(transport: Transport, from: Address, data: Bytes, now: real)
      requires Numeric(from) && Valid() && clock <= now
      modifies this`connections, this`sent, this`clock
      ensures Valid() && clock == now
      ensures Now() == ServerStep(cfg, old(Now()), transport, from, data, now)
    {
      hide Prune, Reply, Inv;
      ServerStepInv(cfg, Now(), pending, clock, transport, from, data, now);
      clock := now;
      PruneMappings(now);
      var i := Find(connections, (transport, from));
      if i == |connections| {
        return;
      }
      var client := connections[i].client;
      connections := connections[i := Entry((transport, from), client, now)];
      sent := sent + [ToClient(client, Reply(from, data))];
    }
  }

  lemma KeysListed(t: Table, keys: seq<Key>)
    requires |keys| == |t| && forall i :: 0 <= i < |t| ==> keys[i] == t[i].key
    ensures Listed(keys) == KeysOf(t)
  {
    forall k | k in keys ensures k in KeysOf(t) {
      var i :| 0 <= i < |keys| && keys[i] == k;
      assert t[i] in t;
    }
  }
}
