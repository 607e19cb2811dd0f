/** The business logic of a stub resolution (dns/resolver.py, class _Resolution): which name,
    which server and which transport to try next, and what to make of each reply. */
module Resolution {
  import opened Common
  import opened Names

  type Server = Bytes

  const NOERROR := 0
  const SERVFAIL := 2
  const NXDOMAIN := 3
  const YXDOMAIN := 6

  datatype Config = Config(servers: seq<Server>, tcp: bool, raiseOnNoAnswer: bool, retryServfail: bool)

  /** What came back for a query.  A response is usable if an Answer can be made of it. */
  datatype Reply =
    | Broken        // FormError, EOFError, OSError or NotImplementedError
    | Truncated
    | Fault         // any other exception, such as a timeout
    | Response(rcode: nat, message: Bytes, usable: bool, hasRrset: bool)

  /** What the cache knows about a name. */
  datatype Cached = Unknown | KnownAnswer(hasRrset: bool) | KnownNxdomain(message: Bytes)

  /** Where the caller of a resolution is: before next_request, before next_nameserver, or
      before query_result. */
  datatype Phase = Idle | Choosing | Waiting

  datatype Tried = Tried(server: Server, tcp: bool, reply: Reply)

  datatype State = State(qnames: seq<Name>, qname: Name, nxdomains: map<Name, Bytes>,
                         nameservers: seq<Server>, current: seq<Server>, nameserver: Option<Server>,
                         tcpAttempt: bool, retryWithTcp: bool, backoff: real, errors: seq<Tried>, phase: Phase)

  function Start(qnames: seq<Name>): State {
    State(qnames, [], map[], [], [], None, false, false, 0.0, [], Idle)
  }

  // ---------------------------------------------------------------- next_request

  datatype Next = Request | FromCache | NoAnswer | AllNxdomain

  /** The cache at each lookup, and the servers as shuffled for each request.  Each of these
      comes with a different number of names still to try, which tells them apart. */
  type Lookup = (nat, Name) -> Cached
  type Order = nat -> seq<Server>

  /** Every shuffle is a permutation of the servers configured. */
  ghost predicate Shuffles(cfg: Config, order: Order) {
    forall n :: multiset(order(n)) == multiset(cfg.servers)
  }

  /** The state set up for a request; `order` is the list of servers as rotated. */
  function Requesting(s: State, order: seq<Server>): State {
    s.(nameservers := order, current := order, nameserver := None, tcpAttempt := false, retryWithTcp := false,
       backoff := 0.1, errors := [], phase := Choosing)
  }

  function NextRequest(cfg: Config, s: State, lookup: Lookup, order: Order): (State, Next)
    decreases |s.qnames|
  {
    if s.qnames == [] then (s, AllNxdomain)
    else
      var s1 := s.(qname := s.qnames[0], qnames := s.qnames[1..]);
      match lookup(|s1.qnames|, s1.qname)
      case KnownAnswer(hasRrset) => (s1, if !hasRrset && cfg.raiseOnNoAnswer then NoAnswer else FromCache)
      case KnownNxdomain(message) =>
        NextRequest(cfg, s1.(nxdomains := s1.nxdomains[Fold(s1.qname) := message]), lookup, order)
      case Unknown => (Requesting(s1, order(|s1.qnames|)), Request)
  }

  // ---------------------------------------------------------------- next_nameserver

  datatype Choice = Choice(server: Server, tcp: bool, backoff: real)

  /** The next server to ask and over what, or none when there is nothing left to try. */
  function NextNameserver(cfg: Config, s: State): (State, Option<Choice>)
    requires s.retryWithTcp ==> s.nameserver.Some?
  {
    if s.retryWithTcp then
      (s.(tcpAttempt := true, retryWithTcp := false, phase := Waiting), Some(Choice(s.nameserver.value, true, 0.0)))
    else if s.current == [] && s.nameservers == [] then (s, None)
    else
      var refill := s.current == [];
      var longer := if s.backoff * 2.0 < 2.0 then s.backoff * 2.0 else 2.0;
      var s1 := if refill then s.(current := s.nameservers, backoff := longer) else s;
      (s1.(nameserver := Some(s1.current[0]), current := s1.current[1..], tcpAttempt := cfg.tcp, phase := Waiting),
       Some(Choice(s1.current[0], cfg.tcp, if refill then s.backoff else 0.0)))
  }

  // ---------------------------------------------------------------- query_result

  datatype Verdict = Again | Answered | NextName | NoAnswerRaised | YxdomainRaised

  /** list.remove: the first occurrence goes; it raises ValueError if there is none. */
  function Remove(list: seq<Server>, x: Server): (r: seq<Server>)
    requires x in list
    ensures multiset(r) == multiset(list) - multiset{x} && |r| == |list| - 1
  {
    if list[0] == x then
      assert list == [x] + list[1..];
      list[1..]
    else
      assert list == [list[0]] + list[1..];
      [list[0]] + Remove(list[1..], x)
  }

  /** Does this reply take its server out of the mix? */
  predicate Excludes(cfg: Config, tcpAttempt: bool, reply: Reply) {
    match reply
    case Broken => true
    case Truncated => tcpAttempt
    case Fault => false
    case Response(rcode, _, usable, _) =>
      if rcode == NOERROR || rcode == NXDOMAIN then !usable
      else if rcode == YXDOMAIN then false
      else rcode != SERVFAIL || !cfg.retryServfail
  }

  /** A failure goes on record; if the server is no good, it is taken out of the mix. */
  function Failed(s: State, reply: Reply, noGood: bool): State
    requires s.nameserver.Some? && s.nameserver.value in s.nameservers
  {
    s.(errors := s.errors + [Tried(s.nameserver.value, s.tcpAttempt, reply)], phase := Choosing,
       nameservers := if noGood then Remove(s.nameservers, s.nameserver.value) else s.nameservers)
  }

  function QueryResult(cfg: Config, s: State, reply: Reply): (r: (State, Verdict))
    requires s.nameserver.Some? && s.nameserver.value in s.nameservers
  {
    if Excludes(cfg, s.tcpAttempt, reply) then (Failed(s, reply, true), Again)
    else if reply.Truncated? then (Failed(s, reply, false).(retryWithTcp := true), Again)
    else if reply.Fault? then (Failed(s, reply, false), Again)
    else if reply.rcode == NOERROR then
      (s.(phase := Idle), if !reply.hasRrset && cfg.raiseOnNoAnswer then NoAnswerRaised else Answered)
    else if reply.rcode == NXDOMAIN then
      (s.(nxdomains := s.nxdomains[Fold(s.qname) := reply.message], phase := Idle), NextName)
    else if reply.rcode == YXDOMAIN then (Failed(s, reply, false), YxdomainRaised)
    else (Failed(s, reply, false), Again)
  }

  // ---------------------------------------------------------------- verdicts, by response code

  /** A usable response to the question: NOERROR is 0. */
  predicate Answers(reply: Reply) {
    reply.Response? && reply.rcode == 0 && reply.usable
  }

  /** A usable response that the name does not exist: NXDOMAIN is 3. */
  predicate Denies(reply: Reply) {
    reply.Response? && reply.rcode == 3 && reply.usable
  }

  /** YXDOMAIN is 6. */
  predicate TooLong(reply: Reply) {
    reply.Response? && reply.rcode == 6
  }

  /** A reply that takes its server out of the mix: none that can be parsed, one truncated over
      TCP, one of which no Answer can be made, and any other code, but for SERVFAIL (2) where
      that is to be retried. */
  predicate NoGood(cfg: Config, tcp: bool, reply: Reply) {
    || reply.Broken?
    || (reply.Truncated? && tcp)
    || (reply.Response? && reply.rcode in {0, 3} && !reply.usable)
    || (reply.Response? && reply.rcode == 2 && !cfg.retryServfail)
    || (reply.Response? && reply.rcode !in {0, 2, 3, 6})
  }

  /** What becomes of each reply: an answer, or that there is none in it, ends the resolution;
      so does YXDOMAIN; NXDOMAIN is put on record for the name and the next name is tried; and
      anything else is a failure on record, after which the next server is tried, or the same
      one over TCP. */
  lemma QueryResultMeans(cfg: Config, s: State, reply: Reply)
    requires s.nameserver.Some? && s.nameserver.value in s.nameservers
    ensures Excludes(cfg, s.tcpAttempt, reply) <==> NoGood(cfg, s.tcpAttempt, reply)
    ensures var (s', verdict) := QueryResult(cfg, s, reply);
            && (verdict == Answered <==> Answers(reply) && (reply.hasRrset || !cfg.raiseOnNoAnswer))
            && (verdict == NoAnswerRaised <==> Answers(reply) && !reply.hasRrset && cfg.raiseOnNoAnswer)
            && (verdict == NextName <==> Denies(reply))
            && (verdict == YxdomainRaised <==> TooLong(reply))
            && s'.qname == s.qname && s'.qnames == s.qnames
            && s'.nxdomains == (if Denies(reply) then s.nxdomains[Fold(s.qname) := reply.message] else s.nxdomains)
            && s'.errors == (if Answers(reply) || Denies(reply) then s.errors
                             else s.errors + [Tried(s.nameserver.value, s.tcpAttempt, reply)])
            && (s'.retryWithTcp <==> s.retryWithTcp || (reply.Truncated? && !s.tcpAttempt))
            && |s'.nameservers| == |s.nameservers| - (if NoGood(cfg, s.tcpAttempt, reply) then 1 else 0)
  {
  }

  /** Which server is asked, over what, and after how long a wait: the same over TCP if that is
      to be retried; else the next in the round; and when the round is over the first of the
      next, after a wait that doubles each time up to two seconds. */
  lemma NextNameserverMeans(cfg: Config, s: State)
    requires s.retryWithTcp ==> s.nameserver.Some?
    ensures var (s', choice) := NextNameserver(cfg, s);
            if s.retryWithTcp then choice == Some(Choice(s.nameserver.value, true, 0.0)) && s'.current == s.current
            else if s.current != [] then
              && choice == Some(Choice(s.current[0], cfg.tcp, 0.0)) && s'.current == s.current[1..]
              && s'.backoff == s.backoff
            else if s.nameservers != [] then
              && choice == Some(Choice(s.nameservers[0], cfg.tcp, s.backoff)) && s'.current == s.nameservers[1..]
              && s'.backoff == if s.backoff <= 1.0 then 2.0 * s.backoff else 2.0
            else choice == None
  {
  }

  // ---------------------------------------------------------------- what always holds

  function Outstanding(s: State): multiset<Server> {
    if s.nameserver.Some? && (s.phase == Waiting || s.retryWithTcp) then multiset{s.nameserver.value} else multiset{}
  }

  /** The servers still to try, with the one being asked, are among those not taken out. */
  ghost predicate Sound(cfg: Config, names: seq<Name>, s: State) {
    Fits(s) && Progress(names, s)
  }

  ghost predicate Fits(s: State) {
    && (s.retryWithTcp ==> s.nameserver.Some? && s.phase == Choosing)
    && (s.phase == Waiting ==> s.nameserver.Some?)
    && multiset(s.current) + Outstanding(s) <= multiset(s.nameservers)
  }

  /** The names tried before the present one all had an NXDOMAIN. */
  ghost predicate Progress(names: seq<Name>, s: State) {
    && |s.qnames| <= |names| && s.qnames == names[|names| - |s.qnames|..]
    && (s.phase != Idle ==> |s.qnames| < |names| && s.qname == names[|names| - |s.qnames| - 1])
    && forall i :: 0 <= i < |names| - |s.qnames| - (if s.phase == Idle then 0 else 1) ==> Fold(names[i]) in s.nxdomains
  }

  lemma StartSound(cfg: Config, names: seq<Name>)
    ensures Sound(cfg, names, Start(names))
  {
  }

  lemma {:induction false} NextRequestSound(cfg: Config, names: seq<Name>, s: State, lookup: Lookup, order: Order)
    requires Sound(cfg, names, s) && s.phase == Idle
    ensures var (s', next) := NextRequest(cfg, s, lookup, order);
            && (next == Request ==>
                  Sound(cfg, names, s') && s'.phase == Choosing && s'.nameservers == order(|s'.qnames|))
            && (next == AllNxdomain ==>
                  s'.phase == Idle && forall i :: 0 <= i < |names| ==> Fold(names[i]) in s'.nxdomains)
    decreases |s.qnames|
  {
    if s.qnames != [] {
      var s1 := s.(qname := s.qnames[0], qnames := s.qnames[1..]);
      var k := |names| - |s.qnames|;
      assert names[k..][0] == names[k] && names[k..][1..] == names[k + 1..];
      match lookup(|s1.qnames|, s1.qname)
      case KnownAnswer(_) =>
      case KnownNxdomain(message) =>
        NextRequestSound(cfg, names, s1.(nxdomains := s1.nxdomains[Fold(s1.qname) := message]), lookup, order);
      case Unknown =>
    }
  }

  lemma NextNameserverSound(cfg: Config, names: seq<Name>, s: State)
    requires Sound(cfg, names, s) && s.phase == Choosing
    ensures var (s', choice) := NextNameserver(cfg, s);
            && (choice.Some? ==>
                  && Sound(cfg, names, s') && s'.phase == Waiting && s'.nameserver == Some(choice.value.server)
                  && s'.tcpAttempt == choice.value.tcp && s'.nameservers == s.nameservers)
            && (choice.None? <==> s.nameservers == [])
  {
    hide Progress;
    var s1 := if s.current == [] then s.(current := s.nameservers) else s;
    var s' := NextNameserver(cfg, s).0;
    if s.retryWithTcp {
      assert s.nameserver.value in multiset(s.nameservers);
    } else if s1.current != [] {
      assert s1.current == [s1.current[0]] + s1.current[1..];
      assert multiset(s'.current) + Outstanding(s') == multiset(s1.current);
    }
    if s'.phase == Waiting {
      SameProgress(names, s, s');
    }
  }

  /** The server asked is one of those not taken out, so taking it out cannot fail. */
  lemma RemoveNeverFails(cfg: Config, names: seq<Name>, s: State)
    requires Sound(cfg, names, s) && s.phase == Waiting
    ensures s.nameserver.Some? && s.nameserver.value in s.nameservers
  {
    assert s.nameserver.value in multiset(s.nameservers);
  }

  lemma QueryResultSound(cfg: Config, names: seq<Name>, s: State, reply: Reply)
    requires Sound(cfg, names, s) && s.phase == Waiting && s.nameserver.value in s.nameservers
    ensures s.nameserver.Some?
    ensures var (s', verdict) := QueryResult(cfg, s, reply);
            && (verdict == Again ==> Sound(cfg, names, s') && s'.phase == Choosing)
            && (verdict == NextName ==> Sound(cfg, names, s') && s'.phase == Idle)
  {
    hide QueryResult, Progress, Fits;
    assert s.nameserver.Some? by { WaitingHasServer(s); }
    var (s', verdict) := QueryResult(cfg, s, reply);
    QueryResultFits(cfg, s, reply);
    OnlyResponses(cfg, s, reply);
    if verdict == Again {
      SameProgress(names, s, s');
    } else if verdict == NextName {
      NameRecorded(names, s, reply.message);
    }
  }

  lemma WaitingHasServer(s: State)
    requires Fits(s) && s.phase == Waiting
    ensures s.nameserver.Some?
  {
  }

  lemma QueryResultFits(cfg: Config, s: State, reply: Reply)
    requires Fits(s) && s.phase == Waiting && s.nameserver.value in s.nameservers
    ensures Fits(QueryResult(cfg, s, reply).0)
  {
    hide Excludes, Remove, QueryResult;
    var asked := s.nameserver.value;
    assert Outstanding(s) == multiset{asked};
    var s' := QueryResult(cfg, s, reply).0;
    ResultShape(cfg, s, reply);
    if Excludes(cfg, s.tcpAttempt, reply) {
      TakenOut(s.current, s.nameservers, asked);
      assert Outstanding(s') == multiset{};
    } else {
      FewerFit(s.current, s.nameservers, asked);
      assert Outstanding(s') == multiset{} || Outstanding(s') == multiset{asked};
    }
  }

  /** What a reply does to the lists of servers. */
  lemma ResultShape(cfg: Config, s: State, reply: Reply)
    requires s.nameserver.Some? && s.nameserver.value in s.nameservers
    ensures var s' := QueryResult(cfg, s, reply).0;
            && s'.current == s.current && s'.nameserver == s.nameserver && s'.phase != Waiting
            && if Excludes(cfg, s.tcpAttempt, reply) then
                 s'.retryWithTcp == s.retryWithTcp && s'.nameservers == Remove(s.nameservers, s.nameserver.value)
               else
                 s'.nameservers == s.nameservers && (s'.retryWithTcp && !s.retryWithTcp ==> s'.phase == Choosing)
  {
    hide Remove;
  }

  lemma OnlyResponses(cfg: Config, s: State, reply: Reply)
    requires s.nameserver.Some? && s.nameserver.value in s.nameservers
    ensures var (s', verdict) := QueryResult(cfg, s, reply);
            && (verdict == Again ==>
                  && s'.qnames == s.qnames && s'.qname == s.qname && s'.nxdomains == s.nxdomains
                  && s'.phase == Choosing)
            && (verdict == NextName ==>
                  && reply.Response?
                  && s' == s.(nxdomains := s.nxdomains[Fold(s.qname) := reply.message], phase := Idle))
  {
    hide Remove;
  }

  lemma TakenOut(current: seq<Server>, all: seq<Server>, asked: Server)
    requires multiset(current) + multiset{asked} <= multiset(all) && asked in all
    ensures multiset(current) + multiset{} <= multiset(Remove(all, asked))
  {
    hide Remove;
  }

  lemma FewerFit(current: seq<Server>, all: seq<Server>, asked: Server)
    requires multiset(current) + multiset{asked} <= multiset(all)
    ensures multiset(current) + multiset{} <= multiset(all)
  {
  }

  lemma SameProgress(names: seq<Name>, a: State, b: State)
    requires Progress(names, a) && a.qnames == b.qnames && a.qname == b.qname && a.nxdomains == b.nxdomains
    requires a.phase != Idle && b.phase != Idle
    ensures Progress(names, b)
  {
  }

  lemma NameRecorded(names: seq<Name>, s: State, message: Bytes)
    requires Progress(names, s) && s.phase != Idle
    ensures Progress(names, s.(nxdomains := s.nxdomains[Fold(s.qname) := message], phase := Idle))
  {
  }

  // ---------------------------------------------------------------- bounded retries

  /** A failure that takes the server out, or asks for TCP. */
  predicate Discouraging(cfg: Config, reply: Reply) {
    reply.Truncated? || Excludes(cfg, true, reply)
  }

  /** One try: the next server is asked and the reply handled; none if there was no server. */
  function Try(cfg: Config, s: State, reply: Reply): Option<State>
    requires s.retryWithTcp ==> s.nameserver.Some?
  {
    var (s1, choice) := NextNameserver(cfg, s);
    if choice.None? || s1.nameserver.None? || s1.nameserver.value !in s1.nameservers then None
    else Some(QueryResult(cfg, s1, reply).0)
  }

  function Tries(cfg: Config, s: State, replies: seq<Reply>): Option<State>
    requires s.retryWithTcp ==> s.nameserver.Some?
    decreases |replies|
  {
    if replies == [] then Some(s)
    else
      var next := Try(cfg, s, replies[0]);
      if next.None? || (next.value.retryWithTcp && next.value.nameserver.None?) then None
      else Tries(cfg, next.value, replies[1..])
  }

  function Potential(s: State): int {
    2 * |s.nameservers| - if s.retryWithTcp then 1 else 0
  }

  lemma TryCosts(cfg: Config, names: seq<Name>, s: State, reply: Reply)
    requires Sound(cfg, names, s) && s.phase == Choosing && Discouraging(cfg, reply)
    ensures Potential(s) >= 0
    ensures var next := Try(cfg, s, reply);
            && (next.None? <==> s.nameservers == [])
            && (next.Some? ==>
                  && Sound(cfg, names, next.value) && next.value.phase == Choosing
                  && Potential(next.value) < Potential(s))
  {
    hide Sound, QueryResult, Discouraging, Excludes;
    NextNameserverSound(cfg, names, s);
    PotentialNat(cfg, names, s);
    var (s1, choice) := NextNameserver(cfg, s);
    if choice.Some? {
      RemoveNeverFails(cfg, names, s1);
      QueryResultSound(cfg, names, s1, reply);
      QueryResultShrinks(cfg, s1, reply);
    }
  }

  /** A discouraging reply to a query over TCP takes its server out; to one over UDP it may
      ask for TCP instead. */
  lemma QueryResultShrinks(cfg: Config, s: State, reply: Reply)
    requires s.nameserver.Some? && s.nameserver.value in s.nameservers && Discouraging(cfg, reply) && !s.retryWithTcp
    ensures var (s', verdict) := QueryResult(cfg, s, reply);
            && verdict == Again
            && ((|s'.nameservers| == |s.nameservers| - 1 && !s'.retryWithTcp)
                || (s'.nameservers == s.nameservers && s'.retryWithTcp && !s.tcpAttempt))
  {
    hide Remove;
  }

  /** If every failure takes its server out or asks for TCP, a request is over after at most
      two tries for each server: then next_nameserver finds nothing left. */
  lemma {:induction false} TriesBounded(cfg: Config, names: seq<Name>, s: State, replies: seq<Reply>)
    requires Sound(cfg, names, s) && s.phase == Choosing
    requires forall i :: 0 <= i < |replies| ==> Discouraging(cfg, replies[i])
    ensures Tries(cfg, s, replies).Some? ==> |replies| <= Potential(s)
    decreases |replies|
  {
    hide Sound, Try, Discouraging;
    PotentialNat(cfg, names, s);
    if replies != [] {
      TryCosts(cfg, names, s, replies[0]);
      var next := Try(cfg, s, replies[0]);
      if next.Some? {
        PotentialNat(cfg, names, next.value);
      }
      if next.Some? && Tries(cfg, next.value, replies[1..]).Some? {
        TriesBounded(cfg, names, next.value, replies[1..]);
      }
    }
  }

  lemma PotentialNat(cfg: Config, names: seq<Name>, s: State)
    requires Sound(cfg, names, s)
    ensures Potential(s) >= 0 && (s.retryWithTcp ==> s.nameserver.Some?)
  {
    if s.retryWithTcp {
      assert s.nameserver.value in multiset(s.nameservers);
    }
  }

  // ---------------------------------------------------------------- where the servers went

  /** The servers whose failures took them out. */
  function Excluded(cfg: Config, errors: seq<Tried>): multiset<Server> {
    if errors == [] then multiset{}
    else
      var last := errors[|errors| - 1];
      Excluded(cfg, errors[..|errors| - 1])
      + if Excludes(cfg, last.tcp, last.reply) then multiset{last.server} else multiset{}
  }

  /** Every server is either still in the mix or was taken out by a failure on record. */
  predicate Accounted(cfg: Config, s: State) {
    multiset(s.nameservers) + Excluded(cfg, s.errors) == multiset(cfg.servers)
  }

  lemma QueryResultAccounted(cfg: Config, s: State, reply: Reply)
    requires s.nameserver.Some? && s.nameserver.value in s.nameservers && Accounted(cfg, s)
    ensures Accounted(cfg, QueryResult(cfg, s, reply).0)
  {
    hide Remove, Excludes, QueryResult, Excluded;
    var asked := s.nameserver.value;
    assert asked in multiset(s.nameservers);
    OnlyErrors(cfg, s, reply);
    ExcludedMore(cfg, s.errors, Tried(asked, s.tcpAttempt, reply));
  }

  lemma ExcludedMore(cfg: Config, errors: seq<Tried>, last: Tried)
    ensures Excluded(cfg, errors + [last])
            == Excluded(cfg, errors)
               + if Excludes(cfg, last.tcp, last.reply) then multiset{last.server} else multiset{}
  {
    assert (errors + [last])[..|errors|] == errors;
  }

  lemma OnlyErrors(cfg: Config, s: State, reply: Reply)
    requires s.nameserver.Some? && s.nameserver.value in s.nameservers
    ensures var s' := QueryResult(cfg, s, reply).0;
            if Excludes(cfg, s.tcpAttempt, reply) then
              && s'.nameservers == Remove(s.nameservers, s.nameserver.value)
              && s'.errors == s.errors + [Tried(s.nameserver.value, s.tcpAttempt, reply)]
            else
              && s'.nameservers == s.nameservers
              && s'.errors == if s'.phase == Idle then s.errors
                              else s.errors + [Tried(s.nameserver.value, s.tcpAttempt, reply)]
  {
    hide Remove;
  }

  // ---------------------------------------------------------------- the object

  class Resolution {
    const cfg: Config
    const names: seq<Name>
    var qnames: seq<Name>
    var qname: Name
    var nxdomains: map<Name, Bytes>
    var nameservers: seq<Server>
    var current: seq<Server>
    var nameserver: Option<Server>
    var tcpAttempt: bool
    var retryWithTcp: bool
    var backoff: real
    var errors: seq<Tried>
    ghost var phase: Phase

    ghost function Now(): State
      reads this
    {
      State(qnames, qname, nxdomains, nameservers, current, nameserver, tcpAttempt, retryWithTcp, backoff, errors,
            phase)
    }

    constructor (cfg: Config, names: seq<Name>)
      ensures this.cfg == cfg && this.names == names && Now() == Start(names)
    {
      this.cfg, this.names, qnames, qname, nxdomains := cfg, names, names, [], map[];
      nameservers, current, nameserver, tcpAttempt, retryWithTcp := [], [], None, false, false;
      backoff, errors, phase := 0.0, [], Idle;
    }

    /** next_request: a request, with the bookkeeping in order, or the end; NXDOMAIN only when
        there is a response on record for every name. */
    method AskNext(lookup: Lookup, order: Order) returns (next: Next)
      requires Holds(cfg, names, Now()) && phase == Idle && Shuffles(cfg, order)
      modifies this
      ensures (Now(), next) == NextRequest(cfg, old(Now()), lookup, order)
      ensures next == Request ==> Holds(cfg, names, Now()) && phase == Choosing && Afresh(Now(), order)
      ensures next == AllNxdomain ==> forall i :: 0 <= i < |names| ==> Fold(names[i]) in nxdomains
    {
      hide Holds, Shuffles;
      NextRequestHolds(cfg, names, Now(), lookup, order);
      while |qnames| > 0
        invariant NextRequest(cfg, Now(), lookup, order) == NextRequest(cfg, old(Now()), lookup, order)
        decreases |qnames|
      {
        qname, qnames := qnames[0], qnames[1..];
        match lookup(|qnames|, qname)
        case KnownAnswer(hasRrset) =>
          return if !hasRrset && cfg.raiseOnNoAnswer then NoAnswer else FromCache;
        case KnownNxdomain(message) =>
          nxdomains := nxdomains[Fold(qname) := message];
        case Unknown =>
          Prepare(order(|qnames|));
          return Request;
      }
      next := AllNxdomain;
    }

    /** The bookkeeping of a new request. */
    method Prepare(order: seq<Server>)
      modifies this`nameservers, this`current, this`errors, this`nameserver, this`tcpAttempt, this`retryWithTcp,
               this`backoff, this`phase
      ensures Now() == Requesting(old(Now()), order)
    {
      nameservers, current, errors, nameserver := order, order, [], None;
      tcpAttempt, retryWithTcp, backoff, phase := false, false, 0.1, Choosing;
    }

    /** next_nameserver: one of the servers not taken out, or none, where it raises
        NoNameservers, exactly when failures on record took out every server. */
    method ChooseServer() returns (choice: Option<Choice>)
      requires Holds(cfg, names, Now()) && phase == Choosing
      modifies this`nameserver, this`tcpAttempt, this`retryWithTcp, this`current, this`backoff, this`phase
      ensures (Now(), choice) == NextNameserver(cfg, old(Now()))
      ensures choice.Some? ==> Holds(cfg, names, Now()) && phase == Waiting && choice.value.server in nameservers
      ensures choice.Some? <==> nameservers != []
      ensures choice.None? <==> Excluded(cfg, errors) == multiset(cfg.servers)
    {
      hide Holds, Excluded;
      NextNameserverHolds(cfg, names, Now());
      if retryWithTcp {
        tcpAttempt, retryWithTcp, phase := true, false, Waiting;
        return Some(Choice(nameserver.value, true, 0.0));
      }
      var wait := 0.0;
      if |current| == 0 {
        if |nameservers| == 0 {
          return None;
        }
        current := nameservers;
        wait := backoff;
        backoff := if backoff * 2.0 < 2.0 then backoff * 2.0 else 2.0;
      }
      nameserver, current := Some(current[0]), current[1..];
      tcpAttempt, phase := cfg.tcp, Waiting;
      choice := Some(Choice(nameserver.value, tcpAttempt, wait));
    }

    method Record(reply: Reply, noGood: bool)
      requires nameserver.Some? && nameserver.value in nameservers
      modifies this`nameservers, this`errors, this`phase
      ensures Now() == Failed(old(Now()), reply, noGood)
    {
      hide Remove;
      errors, phase := errors + [Tried(nameserver.value, tcpAttempt, reply)], Choosing;
      if noGood {
        nameservers := Remove(nameservers, nameserver.value);
      }
    }

    /** query_result: unless the resolution ends here, the bookkeeping is in order for the next
        server or the next name.  Taking the server out cannot raise. */
    method Handle(reply: Reply) returns (verdict: Verdict)
      requires Holds(cfg, names, Now()) && phase == Waiting
      modifies this`nameservers, this`errors, this`retryWithTcp, this`nxdomains, this`phase
      ensures nameserver.Some? && nameserver.value in old(nameservers)
      ensures (Now(), verdict) == QueryResult(cfg, old(Now()), reply)
      ensures verdict == Answered <==> Answers(reply) && (reply.hasRrset || !cfg.raiseOnNoAnswer)
      ensures verdict == NoAnswerRaised <==> Answers(reply) && !reply.hasRrset && cfg.raiseOnNoAnswer
      ensures verdict == NextName <==> Denies(reply)
      ensures verdict == YxdomainRaised <==> TooLong(reply)
      ensures nxdomains == if Denies(reply) then old(nxdomains)[Fold(qname) := reply.message] else old(nxdomains)
      ensures |nameservers| == |old(nameservers)| - if NoGood(cfg, tcpAttempt, reply) then 1 else 0
      ensures verdict == Again ==> Holds(cfg, names, Now()) && phase == Choosing
      ensures verdict == NextName ==> Holds(cfg, names, Now()) && phase == Idle
    {
      hide Failed, Holds, Answers, Denies, TooLong, NoGood;
      QueryResultHolds(cfg, names, Now(), reply);
      QueryResultMeans(cfg, Now(), reply);
      verdict := Again;
      match reply
      case Broken =>
        Record(reply, true);
      case Truncated =>
        Record(reply, tcpAttempt);
        if !tcpAttempt {
          retryWithTcp := true;
        }
      case Fault =>
        Record(reply, false);
      case Response(_, _, _, _) =>
        verdict := HandleResponse(reply);
    }

    /** query_result, for a response. */
    method HandleResponse(reply: Reply) returns (verdict: Verdict)
      requires nameserver.Some? && nameserver.value in nameservers && reply.Response?
      modifies this`nameservers, this`errors, this`nxdomains, this`phase
      ensures (Now(), verdict) == QueryResult(cfg, old(Now()), reply)
    {
      hide Failed;
      verdict := Again;
      if reply.rcode == NOERROR {
        if !reply.usable {
          Record(reply, true);
        } else {
          phase := Idle;
          verdict := if !reply.hasRrset && cfg.raiseOnNoAnswer then NoAnswerRaised else Answered;
        }
      } else if reply.rcode == NXDOMAIN {
        if !reply.usable {
          Record(reply, true);
        } else {
          nxdomains, phase := nxdomains[Fold(qname) := reply.message], Idle;
          verdict := NextName;
        }
      } else if reply.rcode == YXDOMAIN {
        Record(reply, false);
        verdict := YxdomainRaised;
      } else {
        Record(reply, reply.rcode != SERVFAIL || !cfg.retryServfail);
      }
    }
  }

  /** What holds before each step of a resolution. */
  ghost predicate Holds(cfg: Config, names: seq<Name>, s: State) {
    Sound(cfg, names, s) && (s.phase != Idle ==> Accounted(cfg, s))
  }

  lemma NextRequestHolds(cfg: Config, names: seq<Name>, s: State, lookup: Lookup, order: Order)
    requires Holds(cfg, names, s) && s.phase == Idle && Shuffles(cfg, order)
    ensures var (s', next) := NextRequest(cfg, s, lookup, order);
            && (next == Request ==> Holds(cfg, names, s') && s'.phase == Choosing && Afresh(s', order))
            && (next == AllNxdomain ==> forall i :: 0 <= i < |names| ==> Fold(names[i]) in s'.nxdomains)
  {
    hide Sound;
    NextRequestSound(cfg, names, s, lookup, order);
    NoErrorsYet(cfg, s, lookup, order);
  }

  /** The bookkeeping of a new request: all servers in the order of the shuffle, no failure on
      record, no retry, and a tenth of a second to wait once all were asked. */
  predicate Afresh(s: State, order: Order) {
    && s.nameservers == s.current == order(|s.qnames|) && s.errors == [] && s.nameserver == None
    && !s.tcpAttempt && !s.retryWithTcp && s.backoff == 0.1
  }

  lemma {:induction false} NoErrorsYet(cfg: Config, s: State, lookup: Lookup, order: Order)
    ensures var (s', next) := NextRequest(cfg, s, lookup, order);
            next == Request ==> Afresh(s', order)
    decreases |s.qnames|
  {
    if s.qnames != [] {
      var s1 := s.(qname := s.qnames[0], qnames := s.qnames[1..]);
      match lookup(|s1.qnames|, s1.qname)
      case KnownNxdomain(message) =>
        NoErrorsYet(cfg, s1.(nxdomains := s1.nxdomains[Fold(s1.qname) := message]), lookup, order);
      case _ =>
    }
  }

  lemma NextNameserverHolds(cfg: Config, names: seq<Name>, s: State)
    requires Holds(cfg, names, s) && s.phase == Choosing
    ensures s.retryWithTcp ==> s.nameserver.Some?
    ensures var (s', choice) := NextNameserver(cfg, s);
            && (choice.Some? ==> Holds(cfg, names, s') && s'.phase == Waiting && choice.value.server in s'.nameservers)
            && s'.errors == s.errors && s'.nameservers == s.nameservers
            && (choice.Some? <==> s.nameservers != [])
            && (choice.None? <==> Excluded(cfg, s.errors) == multiset(cfg.servers))
  {
    hide Progress, Excluded;
    NextNameserverSound(cfg, names, s);
    NoneLeft(s.nameservers, Excluded(cfg, s.errors), multiset(cfg.servers));
    var s' := NextNameserver(cfg, s).0;
    if s'.phase == Waiting {
      RemoveNeverFails(cfg, names, s');
    }
  }

  lemma NoneLeft(list: seq<Server>, rest: multiset<Server>, all: multiset<Server>)
    requires multiset(list) + rest == all
    ensures list == [] <==> rest == all
  {
    if list != [] {
      assert list[0] in multiset(list);
    }
  }

  lemma QueryResultHolds(cfg: Config, names: seq<Name>, s: State, reply: Reply)
    requires Holds(cfg, names, s) && s.phase == Waiting
    ensures s.nameserver.Some? && s.nameserver.value in s.nameservers && cfg.servers != []
    ensures var (s', verdict) := QueryResult(cfg, s, reply);
            && (verdict == Again ==> Holds(cfg, names, s') && s'.phase == Choosing)
            && (verdict == NextName ==> Holds(cfg, names, s') && s'.phase == Idle)
  {
    hide Sound, QueryResult;
    RemoveNeverFails(cfg, names, s);
    QueryResultSound(cfg, names, s, reply);
    QueryResultAccounted(cfg, s, reply);
    assert s.nameserver.value in multiset(s.nameservers);
    assert s.nameserver.value in multiset(cfg.servers);
  }

  // ---------------------------------------------------------------- a whole resolution

  datatype Outcome =
    | Resolved
    | RaisedNoAnswer
    | RaisedNxdomain(responses: map<Name, Bytes>)
    | RaisedNoNameservers(errors: seq<Tried>)
    | RaisedYxdomain
    | RanOutOfTime

  /** What a resolution learned about the name numbered `at`: what the cache knew of it, or a
      reply to the question for it. */
  datatype Entry = InCache(at: nat, found: Cached) | ByServer(at: nat, reply: Reply)

  /** An answer, which has an rrset or has not. */
  predicate Settles(e: Entry) {
    if e.InCache? then e.found.KnownAnswer? else Answers(e.reply)
  }

  predicate WithRrset(e: Entry)
    requires Settles(e)
  {
    if e.InCache? then e.found.hasRrset else e.reply.hasRrset
  }

  /** There is no such name. */
  predicate Passes(e: Entry) {
    if e.InCache? then e.found.KnownNxdomain? else Denies(e.reply)
  }

  function Message(e: Entry): Bytes
    requires Passes(e)
  {
    if e.InCache? then e.found.message else e.reply.message
  }

  predicate Ends(e: Entry) {
    Settles(e) || (e.ByServer? && TooLong(e.reply))
  }

  /** What a resolution learns, in order.  The cache is asked for each name in turn; only a name
      it does not know is asked of servers, until one settles the resolution or denies the
      name, which is the only way on to the next; and nothing follows what ends it. */
  ghost predicate Learned(names: seq<Name>, lookup: Lookup, log: seq<Entry>) {
    && (log != [] ==> log[0].InCache? && log[0].at == 0)
    && (forall i :: 0 <= i < |log| ==> log[i].at < |names|)
    && (forall i :: 0 <= i < |log| && log[i].InCache? ==>
          log[i].found == lookup(|names| - 1 - log[i].at, names[log[i].at]))
    && (forall i :: 0 <= i < |log| - 1 ==> Follows(log[i], log[i + 1]))
  }

  predicate Follows(e: Entry, next: Entry) {
    && !Ends(e)
    && if Passes(e) then next.InCache? && next.at == e.at + 1 else next.ByServer? && next.at == e.at
  }

  /** The replies among them. */
  function RepliesIn(log: seq<Entry>): seq<Reply> {
    if log == [] then []
    else
      var e := log[|log| - 1];
      RepliesIn(log[..|log| - 1]) + if e.ByServer? then [e.reply] else []
  }

  /** The responses that denied names. */
  function Denials(names: seq<Name>, log: seq<Entry>): map<Name, Bytes> {
    if log == [] then map[]
    else
      var e, before := log[|log| - 1], Denials(names, log[..|log| - 1]);
      if Passes(e) && e.at < |names| then before[Fold(names[e.at]) := Message(e)] else before
  }

  /** What must have been learned last for a resolution to end as it does. */
  ghost predicate Explains(cfg: Config, names: seq<Name>, log: seq<Entry>, outcome: Outcome) {
    var last := if log == [] then InCache(0, Unknown) else log[|log| - 1];
    match outcome
    case Resolved => log != [] && Settles(last) && (WithRrset(last) || !cfg.raiseOnNoAnswer)
    case RaisedNoAnswer => log != [] && Settles(last) && !WithRrset(last) && cfg.raiseOnNoAnswer
    case RaisedYxdomain => log != [] && last.ByServer? && TooLong(last.reply)
    case RaisedNxdomain(responses) =>
      && responses == Denials(names, log)
      && if names == [] then log == [] else log != [] && Passes(last) && last.at == |names| - 1
    case _ => log != [] && !Ends(last) && !Passes(last)
  }

  /** A resolution that has learned so much is about to try name number |names| - |qnames|. */
  ghost predicate Between(names: seq<Name>, lookup: Lookup, log: seq<Entry>, s: State) {
    && Learned(names, lookup, log) && s.nxdomains == Denials(names, log)
    && |s.qnames| <= |names| && s.qnames == names[|names| - |s.qnames|..]
    && if log == [] then |s.qnames| == |names|
       else Passes(log[|log| - 1]) && log[|log| - 1].at == |names| - |s.qnames| - 1
  }

  /** A resolution that has learned so much is asking servers about name number
      |names| - |qnames| - 1. */
  ghost predicate Within(names: seq<Name>, lookup: Lookup, log: seq<Entry>, s: State) {
    && Learned(names, lookup, log) && s.nxdomains == Denials(names, log)
    && |s.qnames| < |names| && s.qnames == names[|names| - |s.qnames|..] && s.qname == names[|names| - |s.qnames| - 1]
    && log != [] && log[|log| - 1].at == |names| - |s.qnames| - 1
    && !Ends(log[|log| - 1]) && !Passes(log[|log| - 1])
  }

  lemma LearnedMore(names: seq<Name>, lookup: Lookup, log: seq<Entry>, e: Entry)
    requires Learned(names, lookup, log) && e.at < |names|
    requires e.InCache? ==> e.found == lookup(|names| - 1 - e.at, names[e.at])
    requires if log == [] then e.InCache? && e.at == 0 else Follows(log[|log| - 1], e)
    ensures Learned(names, lookup, log + [e])
    ensures RepliesIn(log + [e]) == RepliesIn(log) + if e.ByServer? then [e.reply] else []
    ensures Denials(names, log + [e])
            == if Passes(e) then Denials(names, log)[Fold(names[e.at]) := Message(e)] else Denials(names, log)
  {
    hide Follows, Passes, Message, Learned;
    assert (log + [e])[..|log|] == log;
    LearnedNext(names, lookup, log, e);
  }

  lemma LearnedNext(names: seq<Name>, lookup: Lookup, log: seq<Entry>, e: Entry)
    requires Learned(names, lookup, log) && e.at < |names|
    requires e.InCache? ==> e.found == lookup(|names| - 1 - e.at, names[e.at])
    requires if log == [] then e.InCache? && e.at == 0 else Follows(log[|log| - 1], e)
    ensures Learned(names, lookup, log + [e])
  {
    hide Follows;
    var more := log + [e];
    forall i | 0 <= i < |more| - 1 ensures Follows(more[i], more[i + 1]) {
      assert more[i] == log[i] && (i < |log| - 1 ==> more[i + 1] == log[i + 1]);
    }
    forall i | 0 <= i < |more| && more[i].InCache?
      ensures more[i].at < |names| && more[i].found == lookup(|names| - 1 - more[i].at, names[more[i].at]) {
      assert i < |log| ==> more[i] == log[i];
    }
  }

  /** Every response on record denied a name that was tried, and every name denied has one. */
  lemma {:induction false} DenialsMeans(names: seq<Name>, log: seq<Entry>)
    requires forall i :: 0 <= i < |log| ==> log[i].at < |names|
    ensures forall k :: k in Denials(names, log) ==>
              exists i :: 0 <= i < |log| && Passes(log[i]) && k == Fold(names[log[i].at])
                          && Denials(names, log)[k] == Message(log[i])
    ensures forall i :: 0 <= i < |log| && Passes(log[i]) ==> Fold(names[log[i].at]) in Denials(names, log)
    decreases |log|
  {
    hide Passes, Message;
    if log != [] {
      var last, before := |log| - 1, log[..|log| - 1];
      DenialsMeans(names, before);
      forall k | k in Denials(names, log)
        ensures exists i :: 0 <= i < |log| && Passes(log[i]) && k == Fold(names[log[i].at])
                            && Denials(names, log)[k] == Message(log[i]) {
        if Passes(log[last]) && k == Fold(names[log[last].at]) {
        } else {
          assert k in Denials(names, before) && Denials(names, log)[k] == Denials(names, before)[k];
          var i :| 0 <= i < |before| && Passes(before[i]) && k == Fold(names[before[i].at])
                   && Denials(names, before)[k] == Message(before[i]);
          assert log[i] == before[i];
        }
      }
      forall i | 0 <= i < |log| && Passes(log[i]) ensures Fold(names[log[i].at]) in Denials(names, log) {
        assert i < last ==> before[i] == log[i];
      }
    }
  }

  /** The cache is asked for names until it does not deny one. */
  lemma {:induction false} CacheLearned(cfg: Config, names: seq<Name>, s: State, lookup: Lookup, order: Order,
                                        log: seq<Entry>) returns (more: seq<Entry>)
    requires Between(names, lookup, log, s)
    ensures RepliesIn(more) == RepliesIn(log)
    ensures var (s', next) := NextRequest(cfg, s, lookup, order);
            && (next == Request ==> Within(names, lookup, more, s'))
            && (next == AllNxdomain ==>
                  Learned(names, lookup, more) && Explains(cfg, names, more, RaisedNxdomain(s'.nxdomains)))
            && (next == NoAnswer ==> Learned(names, lookup, more) && Explains(cfg, names, more, RaisedNoAnswer))
            && (next == FromCache ==> Learned(names, lookup, more) && Explains(cfg, names, more, Resolved))
    decreases |s.qnames|
  {
    hide Between, Within, Learned, RepliesIn, Explains;
    if s.qnames == [] {
      NamesOver(cfg, names, s, lookup, log);
      return log;
    }
    var s1 := s.(qname := s.qnames[0], qnames := s.qnames[1..]);
    var found := lookup(|s1.qnames|, s1.qname);
    more := CacheAsked(cfg, names, s, lookup, log, found);
    if found.KnownNxdomain? {
      var s2 := s1.(nxdomains := s1.nxdomains[Fold(s1.qname) := found.message]);
      more := CacheLearned(cfg, names, s2, lookup, order, more);
    } else if found.Unknown? {
      WithinRequest(names, lookup, more, s1, order(|s1.qnames|));
    }
  }

  lemma NamesOver(cfg: Config, names: seq<Name>, s: State, lookup: Lookup, log: seq<Entry>)
    requires Between(names, lookup, log, s) && s.qnames == []
    ensures Learned(names, lookup, log) && Explains(cfg, names, log, RaisedNxdomain(s.nxdomains))
  {
  }

  lemma WithinRequest(names: seq<Name>, lookup: Lookup, log: seq<Entry>, s: State, order: seq<Server>)
    requires Within(names, lookup, log, s)
    ensures Within(names, lookup, log, Requesting(s, order))
  {
  }

  /** The cache is asked for the next name. */
  lemma CacheAsked(cfg: Config, names: seq<Name>, s: State, lookup: Lookup, log: seq<Entry>, found: Cached)
    returns (more: seq<Entry>)
    requires Between(names, lookup, log, s) && s.qnames != [] && found == lookup(|s.qnames| - 1, s.qnames[0])
    ensures RepliesIn(more) == RepliesIn(log) && Learned(names, lookup, more)
    ensures var s1 := s.(qname := s.qnames[0], qnames := s.qnames[1..]);
            match found
            case Unknown => Within(names, lookup, more, s1)
            case KnownNxdomain(message) =>
              Between(names, lookup, more, s1.(nxdomains := s1.nxdomains[Fold(s1.qname) := message]))
            case KnownAnswer(hasRrset) =>
              Explains(cfg, names, more, if !hasRrset && cfg.raiseOnNoAnswer then RaisedNoAnswer else Resolved)
  {
    hide Learned, Denials, RepliesIn, TooLong, Answers, Denies, Fold, Explains, Within;
    if log != [] {
      PassesOn(log[|log| - 1]);
    }
    var e := InCache(|names| - |s.qnames|, found);
    NextOfNames(names, s.qnames);
    LearnedMore(names, lookup, log, e);
    more := log + [e];
    CacheVerdict(cfg, names, s, lookup, more, e);
  }

  lemma CacheVerdict(cfg: Config, names: seq<Name>, s: State, lookup: Lookup, log: seq<Entry>, e: Entry)
    requires 0 < |s.qnames| <= |names| && s.qnames[0] == names[|names| - |s.qnames|]
    requires s.qnames[1..] == names[|names| - |s.qnames[1..]|..]
    requires e.InCache? && e.at == |names| - |s.qnames| && log != [] && log[|log| - 1] == e
    requires Learned(names, lookup, log)
    requires Denials(names, log) == if Passes(e) then s.nxdomains[Fold(names[e.at]) := Message(e)] else s.nxdomains
    ensures var s1 := s.(qname := s.qnames[0], qnames := s.qnames[1..]);
            match e.found
            case Unknown => Within(names, lookup, log, s1)
            case KnownNxdomain(message) =>
              Between(names, lookup, log, s1.(nxdomains := s1.nxdomains[Fold(s1.qname) := message]))
            case KnownAnswer(hasRrset) =>
              Explains(cfg, names, log, if !hasRrset && cfg.raiseOnNoAnswer then RaisedNoAnswer else Resolved)
  {
    hide Learned, Denials, RepliesIn, TooLong, Answers, Denies, Fold;
  }

  lemma NextOfNames(names: seq<Name>, left: seq<Name>)
    requires 0 < |left| <= |names| && left == names[|names| - |left|..]
    ensures left[0] == names[|names| - |left|] && left[1..] == names[|names| - |left[1..]|..]
  {
  }

  /** A reply is learned, and ends the resolution, moves it on, or does neither. */
  lemma ReplyLearned(cfg: Config, names: seq<Name>, s: State, lookup: Lookup, log: seq<Entry>, reply: Reply)
    returns (more: seq<Entry>)
    requires Within(names, lookup, log, s) && s.nameserver.Some? && s.nameserver.value in s.nameservers
    ensures Learned(names, lookup, more) && RepliesIn(more) == RepliesIn(log) + [reply]
    ensures var (s', verdict) := QueryResult(cfg, s, reply);
            && (verdict == Again ==> Within(names, lookup, more, s'))
            && (verdict == NextName ==> Between(names, lookup, more, s'))
            && (verdict == Answered ==> Explains(cfg, names, more, Resolved))
            && (verdict == NoAnswerRaised ==> Explains(cfg, names, more, RaisedNoAnswer))
            && (verdict == YxdomainRaised ==> Explains(cfg, names, more, RaisedYxdomain))
  {
    hide Learned, Denials, RepliesIn, QueryResult, Answers, Denies, TooLong, NoGood;
    var e := ByServer(|names| - |s.qnames| - 1, reply);
    LearnedMore(names, lookup, log, e);
    more := log + [e];
    QueryResultMeans(cfg, s, reply);
    Apart(reply);
  }

  /** What denies a name does not end the resolution. */
  lemma PassesOn(e: Entry)
    requires Passes(e)
    ensures !Ends(e)
  {
  }

  lemma Apart(reply: Reply)
    ensures !(Answers(reply) && Denies(reply)) && !(Answers(reply) && TooLong(reply))
    ensures !(Denies(reply) && TooLong(reply))
  {
  }

  /** The inner loop of Resolver.resolve: servers are asked about one name until a reply ends
      the resolution, where the outcome is given, or denies the name. */
  method AskServers(r: Resolution, lookup: Lookup, replies: seq<Reply>, start: nat, ghost learned: seq<Entry>)
    returns (end: Option<Outcome>, used: nat, ghost log: seq<Entry>)
    requires Holds(r.cfg, r.names, r.Now()) && r.phase == Choosing && start <= |replies|
    requires Within(r.names, lookup, learned, r.Now()) && RepliesIn(learned) == replies[..start]
    modifies r
    ensures start <= used <= |replies| && RepliesIn(log) == replies[..used]
    ensures end.None? ==>
              && used > start && Holds(r.cfg, r.names, r.Now()) && r.phase == Idle
              && Between(r.names, lookup, log, r.Now())
    ensures end.Some? ==> Learned(r.names, lookup, log) && Explains(r.cfg, r.names, log, end.value)
    ensures end.Some? ==> !end.value.RaisedNxdomain?
    ensures end.Some? && end.value.RanOutOfTime? ==> used == |replies| && r.cfg.servers != []
    ensures end.Some? && end.value.RaisedNoNameservers? ==>
              Excluded(r.cfg, end.value.errors) == multiset(r.cfg.servers)
  {
    hide Holds, NextNameserver, QueryResult, Excluded, Learned, Explains, RepliesIn, Between;
    hide Within, Answers, Denies, TooLong, NoGood, Fold;
    used, log, end := start, learned, None;
    var done := false;
    while !done
      invariant start <= used <= |replies| && (done ==> used > start)
      invariant Holds(r.cfg, r.names, r.Now()) && r.phase == (if done then Idle else Choosing)
      invariant RepliesIn(log) == replies[..used]
      invariant if done then Between(r.names, lookup, log, r.Now()) else Within(r.names, lookup, log, r.Now())
      decreases |replies| - used, !done
    {
      NextNameserverHolds(r.cfg, r.names, r.Now());
      StillAsking(r.cfg, r.names, r.Now(), lookup, log);
      var choice := r.ChooseServer();
      if choice.None? {
        end := Some(RaisedNoNameservers(r.errors));
        return;
      }
      QueryResultHolds(r.cfg, r.names, r.Now(), Fault);
      if used == |replies| {
        end := Some(RanOutOfTime);
        return;
      }
      used := used + 1;
      log := ReplyLearned(r.cfg, r.names, r.Now(), lookup, log, replies[used - 1]);
      OneMoreReply(replies, used);
      var verdict := r.Handle(replies[used - 1]);
      if verdict == NextName {
        done := true;
      } else if verdict != Again {
        end := Some(if verdict == Answered then Resolved
                    else if verdict == NoAnswerRaised then RaisedNoAnswer else RaisedYxdomain);
        return;
      }
    }
  }

  /** Resolver.resolve, with the replies that come back before its lifetime is over.
      NXDOMAIN is raised only with a response for every name to try, and NoNameservers only
      when each server was taken out by a failure on record.  `log` is what it learned, in
      order, with the replies it used; the last of it says how the resolution ends. */
  method Resolve(cfg: Config, names: seq<Name>, lookup: Lookup, order: Order, replies: seq<Reply>)
    returns (outcome: Outcome, ghost log: seq<Entry>)
    requires Shuffles(cfg, order)
    ensures Learned(names, lookup, log) && RepliesIn(log) <= replies && Explains(cfg, names, log, outcome)
    ensures outcome.RanOutOfTime? ==> RepliesIn(log) == replies
    ensures outcome.RaisedNxdomain? ==> forall i :: 0 <= i < |names| ==> Fold(names[i]) in outcome.responses
    ensures outcome.RaisedNoNameservers? ==> Excluded(cfg, outcome.errors) == multiset(cfg.servers)
    ensures outcome.RanOutOfTime? ==> cfg.servers != []
  {
    hide Holds, NextRequest, NextNameserver, QueryResult, Excluded, Shuffles, Learned, Explains, RepliesIn, Between;
    hide Within, Answers, Denies, TooLong, NoGood, Afresh, Start, Fold;
    StartHolds(cfg, names);
    log := [];
    NothingLearned(names, lookup);
    var r := new Resolution(cfg, names);
    var used := 0;
    while true
      invariant fresh(r) && r.cfg == cfg && r.names == names
      invariant Holds(cfg, names, r.Now()) && r.phase == Idle && used <= |replies|
      invariant Between(names, lookup, log, r.Now()) && RepliesIn(log) == replies[..used]
      decreases |replies| - used
    {
      log := CacheLearned(cfg, names, r.Now(), lookup, order, log);
      var next := r.AskNext(lookup, order);
      match next {
        case AllNxdomain => return RaisedNxdomain(r.nxdomains), log;
        case NoAnswer => return RaisedNoAnswer, log;
        case FromCache => return Resolved, log;
        case Request =>
      }
      var end;
      end, used, log := AskServers(r, lookup, replies, used, log);
      if end.Some? {
        return end.value, log;
      }
    }
  }

  lemma OneMoreReply(replies: seq<Reply>, used: nat)
    requires 0 < used <= |replies|
    ensures replies[..used] == replies[..used - 1] + [replies[used - 1]]
  {
  }

  lemma NothingLearned(names: seq<Name>, lookup: Lookup)
    ensures Between(names, lookup, [], Start(names)) && RepliesIn([]) == []
  {
  }

  /** Choosing a server learns nothing; and a resolution that ends while it is asking servers
      has learned nothing that would end it otherwise. */
  lemma StillAsking(cfg: Config, names: seq<Name>, s: State, lookup: Lookup, log: seq<Entry>)
    requires Within(names, lookup, log, s) && (s.retryWithTcp ==> s.nameserver.Some?)
    ensures Within(names, lookup, log, NextNameserver(cfg, s).0) && Learned(names, lookup, log)
    ensures forall errors :: Explains(cfg, names, log, RaisedNoNameservers(errors))
    ensures Explains(cfg, names, log, RanOutOfTime)
  {
  }

  lemma StartHolds(cfg: Config, names: seq<Name>)
    ensures Holds(cfg, names, Start(names)) && Start(names).phase == Idle
  {
    StartSound(cfg, names);
  }
}
