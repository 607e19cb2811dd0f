/** The chain of serials behind a committed IXFR: when there is one, over any messages and
    whatever each of them raised. */
module XfrChains {
  import opened Common
  import opened Names
  import opened ZoneData
  import opened ZoneVersion
  import opened Transactions
  import opened Xfr
  import opened XfrReplay
  import opened XfrRuns
  import R = Records

  // ---------------------------------------------------------------- serials

  /** The serials of the origin SOAs in a stream of records. */
  function OriginSerials(t: Target, rrs: seq<RRset>): seq<U32>
    requires t.Valid()
    decreases |rrs|
  {
    if rrs == [] then []
    else (if IsOriginSoa(t, rrs[0]) then [rrs[0].Serial()] else []) + OriginSerials(t, rrs[1..])
  }

  /** From one serial to another: each difference starts at the serial the one before it
      reached, and the last reaches the serial announced, which then comes once more. */
  predicate Chained(at: U32, announced: U32, serials: seq<U32>)
    decreases |serials|
  {
    && serials != [] && serials[0] == at
    && if |serials| == 1 then at == announced else Chained(serials[1], announced, serials[2..])
  }

  lemma ChainedCons(at: U32, announced: U32, first: U32, later: seq<U32>)
    requires later != []
    ensures Chained(at, announced, [first] + later) <==> first == at && Chained(later[0], announced, later[1..])
  {
    assert ([first] + later)[2..] == later[1..];
  }

  lemma SerialsCons(t: Target, rrs: seq<RRset>)
    requires t.Valid() && rrs != []
    ensures var later := OriginSerials(t, rrs[1..]);
            OriginSerials(t, rrs) == if IsOriginSoa(t, rrs[0]) then [rrs[0].Serial()] + later else later
  {
    hide IsOriginSoa;
    assert [] + OriginSerials(t, rrs[1..]) == OriginSerials(t, rrs[1..]);
  }

  lemma SameSerial(a: RRset, b: RRset)
    requires a.Sound() && b.Sound() && a.rdtype == R.SOA && a.Set().Equals(b.Set())
    ensures a.Serial() == b.Serial()
  {
    assert a.items[0] in ToSet(a.Set().items);
  }

  // ---------------------------------------------------------------- record by record

  /** What is raised where a difference does not start at the serial reached. */
  predicate Breaks(error: Option<XfrError>) {
    error == Some(EmptyIxfr) || error == Some(UnexpectedEnd) || error == Some(BaseMismatch)
  }

  /** The machine after each record in turn, whatever each raised. */
  function After(t: Target, s: State, rrs: seq<RRset>): (r: State)
    requires t.Valid() && s.soa.Some? && (s.txn.Some? || s.done) && Named(rrs)
    ensures r.soa == s.soa && r.isUdp == s.isUdp && (r.txn.Some? || r.done)
    decreases |rrs|
  {
    if rrs == [] then s else After(t, Step(t, s, rrs[0]).0, rrs[1..])
  }

  /** Did one of the records break the chain? */
  predicate Broke(t: Target, s: State, rrs: seq<RRset>)
    requires t.Valid() && s.soa.Some? && (s.txn.Some? || s.done) && Named(rrs)
    decreases |rrs|
  {
    rrs != [] && (Breaks(Step(t, s, rrs[0]).1) || Broke(t, Step(t, s, rrs[0]).0, rrs[1..]))
  }

  /** Every record came before the end of the transfer. */
  predicate Live(t: Target, s: State, rrs: seq<RRset>)
    requires t.Valid() && s.soa.Some? && (s.txn.Some? || s.done) && Named(rrs)
    decreases |rrs|
  {
    rrs != [] ==> !s.done && Live(t, Step(t, s, rrs[0]).0, rrs[1..])
  }

  lemma {:induction false} AfterConcat(t: Target, s: State, a: seq<RRset>, b: seq<RRset>)
    requires t.Valid() && s.soa.Some? && (s.txn.Some? || s.done) && Named(a) && Named(b)
    ensures Named(a + b)
    ensures var mid := After(t, s, a);
            && After(t, s, a + b) == After(t, mid, b)
            && (Broke(t, s, a + b) <==> Broke(t, s, a) || Broke(t, mid, b))
            && (Live(t, s, a + b) <==> Live(t, s, a) && Live(t, mid, b))
    decreases |a|
  {
    hide Step;
    if a == [] {
      assert a + b == b;
    } else {
      assert (a + b)[1..] == a[1..] + b;
      AfterConcat(t, Step(t, s, a[0]).0, a[1..], b);
    }
  }

  /** Waiting for the SOA that starts the first difference, an IXFR has not reached the
      serial announced. */
  predicate Waiting(s: State, announced: U32) {
    s.expectingSoa ==> s.serial != announced
  }

  /** One origin SOA of an IXFR: where a difference may start, the step breaks the chain
      exactly when the serial is not the one reached; otherwise it says what is reached. */
  lemma SoaStep(t: Target, s: State, rr: RRset, first: RRset)
    requires t.Valid() && first.Sound() && s.soa == Some(first.Set()) && s.txn.Some? && !s.done && s.ixfr && rr.Sound()
    requires IsOriginSoa(t, rr) && Waiting(s, first.Serial())
    ensures var (s1, error) := Step(t, s, rr);
            && s1.ixfr && s1.deleteMode == !s.deleteMode && Waiting(s1, first.Serial())
            && (Breaks(error) <==> !s.deleteMode && rr.Serial() != s.serial)
            && s1.serial == (if s.deleteMode then rr.Serial() else s.serial)
            && (s1.done ==> !s.deleteMode && rr.Serial() == s.serial == first.Serial())
            && (s1.txn.Some? || s1.done)
  {
    hide ReplaceSet, AtOrigin, RRset.Serial, Rdataset.Equals;
    if rr.Set().Equals(first.Set()) {
      SameSerial(rr, first);
    }
  }

  /** Any other record: an IXFR stays where it was, or becomes an AXFR for good. */
  lemma DataStep(t: Target, s: State, rr: RRset)
    requires t.Valid() && s.soa.Some? && s.txn.Some? && !s.done && rr.Sound() && !IsOriginSoa(t, rr)
    ensures var (s1, error) := Step(t, s, rr);
            && !Breaks(error) && !s1.done && s1.txn.Some? && s1.serial == s.serial
            && (if s.expectingSoa then !s1.ixfr else s1 == s.(txn := s1.txn))
  {
    hide Add, DeleteExact;
  }

  lemma {:induction false} StaysAxfr(t: Target, s: State, rrs: seq<RRset>)
    requires t.Valid() && s.soa.Some? && (s.txn.Some? || s.done) && !s.ixfr && Named(rrs)
    ensures !After(t, s, rrs).ixfr
    decreases |rrs|
  {
    hide IsOriginSoa, ReplaceSet, Add, DeleteExact, Rdataset.Equals;
    if rrs != [] {
      StaysAxfr(t, Step(t, s, rrs[0]).0, rrs[1..]);
    }
  }

  /** Records up to the commit of an IXFR, some of which may have raised: their serials form
      a chain exactly when none of them broke it. */
  lemma {:induction false} ChainIff(t: Target, s: State, rrs: seq<RRset>, first: RRset)
    requires t.Valid() && first.Sound() && s.soa == Some(first.Set()) && s.txn.Some? && !s.done && s.ixfr && Named(rrs)
    requires Waiting(s, first.Serial()) && Live(t, s, rrs) && After(t, s, rrs).done && After(t, s, rrs).ixfr
    ensures var serials := OriginSerials(t, rrs);
            if s.deleteMode then
              serials != [] && (Chained(serials[0], first.Serial(), serials[1..]) <==> !Broke(t, s, rrs))
            else Chained(s.serial, first.Serial(), serials) <==> !Broke(t, s, rrs)
    decreases |rrs|
  {
    hide IsOriginSoa, Step, RRset.Serial, Chained, OriginSerials, Breaks;
    assert rrs != [];
    SerialsCons(t, rrs);
    var (s1, error) := Step(t, s, rrs[0]);
    var later := OriginSerials(t, rrs[1..]);
    if IsOriginSoa(t, rrs[0]) {
      SoaStep(t, s, rrs[0], first);
      if s1.done {
        assert rrs[1..] == [];
        NoneAfter(t, s.serial, first.Serial());
        assert OriginSerials(t, rrs) == [s.serial];
      } else {
        ChainIff(t, s1, rrs[1..], first);
        if s1.deleteMode {
          ChainedCons(s.serial, first.Serial(), rrs[0].Serial(), later);
        } else {
          assert ([rrs[0].Serial()] + later)[1..] == later;
        }
      }
    } else {
      DataStep(t, s, rrs[0]);
      if s1.ixfr {
        ChainIff(t, s1, rrs[1..], first);
      } else {
        StaysAxfr(t, s1, rrs[1..]);
      }
    }
  }

  lemma NoneAfter(t: Target, at: U32, announced: U32)
    requires t.Valid()
    ensures OriginSerials(t, []) == []
    ensures at == announced ==> Chained(at, announced, [at])
  {
  }

  // ---------------------------------------------------------------- message by message

  /** The records of an answer the machine looks at: up to one that raises, or the end. */
  function TakenOf(t: Target, s: State, rrs: seq<RRset>): (r: seq<RRset>)
    requires t.Valid() && s.soa.Some? && (s.txn.Some? || s.done) && Named(rrs)
    ensures Named(r)
    decreases |rrs|
  {
    if rrs == [] || s.done then []
    else
      var (s1, error) := Step(t, s, rrs[0]);
      [rrs[0]] + if error.Some? then [] else TakenOf(t, s1, rrs[1..])
  }

  lemma {:induction false} StepsTaken(t: Target, s: State, rrs: seq<RRset>)
    requires t.Valid() && s.soa.Some? && (s.txn.Some? || s.done) && Named(rrs)
    ensures var taken, r := TakenOf(t, s, rrs), Steps(t, s, rrs);
            && taken <= rrs && (r.1.None? ==> taken == rrs)
            && Live(t, s, taken) && r.0 == After(t, s, taken) && (Broke(t, s, taken) <==> Breaks(r.1))
    decreases |rrs|
  {
    hide Step;
    if s.done {
      DoneSteps(t, s, rrs);
    } else if rrs != [] {
      var (s1, error) := Step(t, s, rrs[0]);
      if error.Some? {
        assert After(t, s, [rrs[0]]) == After(t, s1, []) && Live(t, s1, []) && !Broke(t, s1, []);
      } else {
        StepsTaken(t, s1, rrs[1..]);
        var rest := TakenOf(t, s1, rrs[1..]);
        assert ([rrs[0]] + rest)[1..] == rest;
        assert rrs == [rrs[0]] + rrs[1..];
      }
    }
  }

  /** The records of a message the machine looks at, the announcing SOA among them. */
  function TakenIn(t: Target, s: State, m: Message): (r: seq<RRset>)
    requires t.Valid() && m.Valid()
    ensures Named(r)
  {
    var s0 := Opened(s);
    if m.rcode != 0 || !QuestionOk(t, s0, m) then []
    else if s.soa.Some? then TakenOf(t, s0, m.answer)
    else
      var (s1, error) := First(t, s0, m.answer);
      if s1.soa.None? then []
      else [m.answer[0]] + if error.Some? then [] else TakenOf(t, s1, m.answer[1..])
  }

  /** The records the machine looks at in a run of messages, whatever each of them raised. */
  function Taken(t: Target, s: State, ms: seq<Message>): (r: seq<RRset>)
    requires t.Valid() && AllValid(ms)
    ensures Named(r)
    decreases |ms|
  {
    if ms == [] then [] else TakenIn(t, s, ms[0]) + Taken(t, Process(t, s, ms[0]).0, ms[1..])
  }

  /** Did a message raise, as its caller saw it, that a difference did not start at the
      serial reached? */
  predicate Mismatched(t: Target, s: State, ms: seq<Message>)
    requires t.Valid() && AllValid(ms)
    decreases |ms|
  {
    ms != [] && (Breaks(Process(t, s, ms[0]).1) || Mismatched(t, Process(t, s, ms[0]).0, ms[1..]))
  }

  /** As far along. */
  predicate AsFar(a: State, b: State) {
    a.ixfr == b.ixfr && a.done == b.done && a.commits == b.commits && a.soa == b.soa
  }

  /** A message after the announcing SOA. */
  lemma MessageTaken(t: Target, s: State, m: Message)
    requires t.Valid() && m.Valid() && s.soa.Some? && (s.txn.Some? || s.done)
    ensures var taken, r := TakenIn(t, s, m), Process(t, s, m);
            && Live(t, s, taken) && (Broke(t, s, taken) <==> Breaks(r.1)) && AsFar(r.0, After(t, s, taken))
            && (!s.done ==> r.0 == After(t, s, taken)) && (s.done ==> taken == [])
            && r.0.soa.Some? && (r.0.txn.Some? || r.0.done)
            && taken <= m.answer && (r.1.None? ==> taken == m.answer)
  {
    hide Step, QuestionOk, Live, Broke, After;
    EmptyRun(t, s);
    if m.rcode == 0 && QuestionOk(t, Opened(s), m) {
      StepsTaken(t, Opened(s), m.answer);
      if s.done {
        DoneSteps(t, Opened(s), m.answer);
      }
    }
  }

  lemma EmptyRun(t: Target, s: State)
    requires t.Valid() && s.soa.Some? && (s.txn.Some? || s.done)
    ensures Live(t, s, []) && !Broke(t, s, []) && After(t, s, []) == s
  {
  }

  /** Messages after the announcing SOA are as good as the records looked at. */
  lemma {:induction false} RunTaken(t: Target, s: State, ms: seq<Message>)
    requires t.Valid() && AllValid(ms) && s.soa.Some? && (s.txn.Some? || s.done)
    ensures var taken := Taken(t, s, ms);
            && Live(t, s, taken) && (Broke(t, s, taken) <==> Mismatched(t, s, ms))
            && AsFar(Run(t, s, ms), After(t, s, taken)) && (s.done ==> taken == [])
    decreases |ms|
  {
    hide Step, Process, TakenIn, Live, Broke, After, Breaks;
    EmptyRun(t, s);
    if ms != [] {
      MessageTaken(t, s, ms[0]);
      var s1 := Process(t, s, ms[0]).0;
      RunTaken(t, s1, ms[1..]);
      var now, later := TakenIn(t, s, ms[0]), Taken(t, s1, ms[1..]);
      AfterConcat(t, s, now, later);
      if s.done {
        EmptyRun(t, s1);
      }
    }
  }

  /** A request for an IXFR, as long as no announcing SOA was seen. */
  predicate Requested(s: State) {
    s.ixfr && s.soa.None? && !s.done && !s.deleteMode && !s.expectingSoa && s.commits == 0
  }

  /** A message before the announcing SOA was seen: refused without a trace, or it begins with
      that SOA, which the records after it are then held against. */
  lemma FirstTaken(t: Target, s: State, m: Message)
    requires t.Valid() && m.Valid() && Requested(s)
    ensures var taken, r := TakenIn(t, s, m), Process(t, s, m);
            if taken == [] then r.0 == Opened(s) && !Breaks(r.1)
            else
              var s1 := First(t, Opened(s), m.answer).0;
              && IsOriginSoa(t, taken[0]) && s1.soa == Some(taken[0].Set()) && s1.txn.Some? && s1.ixfr && !s1.deleteMode
              && s1.serial == s.serial && Waiting(s1, taken[0].Serial()) && s1.commits == 0
              && Live(t, s1, taken[1..]) && (Broke(t, s1, taken[1..]) <==> Breaks(r.1))
                 && r.0 == After(t, s1, taken[1..])
              && taken <= m.answer && (r.1.None? ==> taken == m.answer)
  {
    hide Step, QuestionOk, Live, Broke, After, IsOriginSoa, First, Steps, Breaks, RRset.Serial, TakenOf;
    NotBreaks();
    if m.rcode == 0 && QuestionOk(t, Opened(s), m) {
      var (s1, error) := First(t, Opened(s), m.answer);
      Announced(t, Opened(s), m.answer);
      if s1.soa.Some? {
        EmptyRun(t, s1);
        StepsTaken(t, s1, m.answer[1..]);
        var rest := TakenOf(t, s1, m.answer[1..]);
        assert ([m.answer[0]] + rest)[1..] == rest;
        assert ([m.answer[0]] + [])[1..] == [];
        assert m.answer == [m.answer[0]] + m.answer[1..];
      }
    }
  }

  /** The first record of a request. */
  lemma Announced(t: Target, s: State, answer: seq<RRset>)
    requires t.Valid() && Requested(s) && s.txn.Some?
    ensures var (s1, error) := First(t, s, answer);
            && !Breaks(error)
            && if s1.soa.None? then error.Some? && s1 == s
               else
                 && answer != [] && IsOriginSoa(t, answer[0]) && s1.soa == Some(answer[0].Set())
                 && s1.txn.Some? && s1.ixfr && !s1.deleteMode && s1.serial == s.serial
                 && Waiting(s1, answer[0].Serial()) && s1.commits == 0
  {
  }

  lemma NotBreaks()
    ensures !Breaks(None) && !Breaks(Some(WrongQuestion)) && !Breaks(Some(UnexpectedUdpEnd))
    ensures forall rcode :: !Breaks(Some(TransferError(rcode)))
  {
  }

  /** From the announcing SOA to the same SOA once more. */
  predicate Ends(t: Target, rrs: seq<RRset>)
    requires t.Valid()
  {
    && |rrs| > 1 && IsOriginSoa(t, rrs[0]) && IsOriginSoa(t, rrs[|rrs| - 1])
    && rrs[|rrs| - 1].Set().Equals(rrs[0].Set())
  }

  lemma {:induction false} LastIsFinal(t: Target, s: State, rrs: seq<RRset>)
    requires t.Valid() && s.soa.Some? && s.txn.Some? && !s.done && Named(rrs)
    requires Live(t, s, rrs) && After(t, s, rrs).done
    ensures rrs != [] && IsOriginSoa(t, rrs[|rrs| - 1]) && rrs[|rrs| - 1].Set().Equals(s.soa.value)
    decreases |rrs|
  {
    hide Step, IsOriginSoa, Rdataset.Equals;
    StepCommits(t, s, rrs[0]);
    var s1 := Step(t, s, rrs[0]).0;
    if !s1.done {
      LastIsFinal(t, s1, rrs[1..]);
    }
  }

  /** Nothing commits once the transfer is done. */
  lemma AlreadyDone(t: Target, s: State, rrs: seq<RRset>)
    requires t.Valid() && s.soa.Some? && (s.txn.Some? || s.done) && Named(rrs) && Live(t, s, rrs)
    ensures s.done ==> After(t, s, rrs) == s
  {
  }

  /** From the announcing SOA to the commit. */
  lemma Committed(t: Target, s: State, first: RRset, rrs: seq<RRset>)
    requires t.Valid() && first.Sound() && IsOriginSoa(t, first) && s.soa == Some(first.Set()) && s.txn.Some?
    requires s.ixfr && !s.deleteMode && Waiting(s, first.Serial()) && s.commits == 0
    requires Named(rrs) && Live(t, s, rrs)
    requires After(t, s, rrs).commits > 0 && After(t, s, rrs).done && After(t, s, rrs).ixfr
    ensures Ends(t, [first] + rrs)
    ensures Chained(s.serial, first.Serial(), OriginSerials(t, rrs)) <==> !Broke(t, s, rrs)
  {
    hide Step, Live, Broke, After, IsOriginSoa, Chained, OriginSerials, RRset.Serial, Rdataset.Equals;
    AlreadyDone(t, s, rrs);
    ChainIff(t, s, rrs, first);
    LastIsFinal(t, s, rrs);
  }

  lemma {:induction false} FromRequest(t: Target, s: State, ms: seq<Message>)
    requires t.Valid() && AllValid(ms) && Requested(s)
    requires Run(t, s, ms).commits > 0 && Run(t, s, ms).ixfr
    ensures var taken := Taken(t, s, ms);
            && Ends(t, taken)
            && (Chained(s.serial, taken[0].Serial(), OriginSerials(t, taken[1..])) <==> !Mismatched(t, s, ms))
    decreases |ms|
  {
    hide Step, Process, TakenIn, Live, Broke, After, Breaks, First, IsOriginSoa, Chained, OriginSerials, RRset.Serial;
    hide Rdataset.Equals, Opened, Ends;
    assert ms != [];
    FirstTaken(t, s, ms[0]);
    var s2 := Process(t, s, ms[0]).0;
    var now, later := TakenIn(t, s, ms[0]), Taken(t, s2, ms[1..]);
    if now == [] {
      StillRequested(s);
      FromRequest(t, s2, ms[1..]);
      assert now + later == later;
    } else {
      var s1 := First(t, Opened(s), ms[0].answer).0;
      var rest := now[1..] + later;
      assert now + later == [now[0]] + rest && (now + later)[1..] == rest;
      TransferAtomic(t, s, ms, s.zone);
      RunTaken(t, s2, ms[1..]);
      AfterConcat(t, s1, now[1..], later);
      Committed(t, s1, now[0], rest);
    }
  }

  lemma StillRequested(s: State)
    requires Requested(s)
    ensures Requested(Opened(s)) && Opened(s).serial == s.serial
  {
  }

  // ---------------------------------------------------------------- the results

  /** For any messages, valid or not, whatever each of them raised: if an IXFR is committed,
      the records looked at go without a gap from the serial requested to the serial
      announced exactly when no message raised that a difference did not start where the one
      before it ended. */
  lemma CommittedChainIff(t: Target, serial: U32, isUdp: bool, zone: Contents, ms: seq<Message>)
    requires t.Valid() && AllValid(ms)
    requires var end := Run(t, Start(true, serial, isUdp, zone), ms); end.commits > 0 && end.ixfr
    ensures var s := Start(true, serial, isUdp, zone);
            var taken := Taken(t, s, ms);
            && Ends(t, taken)
            && (Chained(serial, taken[0].Serial(), OriginSerials(t, taken[1..])) <==> !Mismatched(t, s, ms))
  {
    FromRequest(t, Start(true, serial, isUdp, zone), ms);
  }

  /** Receiving goes on to the first message that raises, and no further. */
  lemma {:induction false} ReceiveIsRun(t: Target, s: State, ms: seq<Message>) returns (n: nat)
    requires t.Valid() && AllValid(ms)
    ensures n <= |ms| && Receive(t, s, ms).0 == Run(t, s, ms[..n]) && Unraised(t, s, ms[..n])
    decreases |ms|
  {
    hide Process;
    if ms == [] {
      n := 0;
    } else {
      var (s1, error) := Process(t, s, ms[0]);
      if error.Some? {
        n := 1;
        assert Run(t, s1, []) == s1 && ms[..1][1..] == [];
      } else {
        var k := ReceiveIsRun(t, s1, ms[1..]);
        n := k + 1;
        assert ms[..n][1..] == ms[1..][..k];
      }
    }
  }

  /** No message but the last raised. */
  predicate Unraised(t: Target, s: State, ms: seq<Message>)
    requires t.Valid() && AllValid(ms)
    decreases |ms|
  {
    |ms| > 1 ==> Process(t, s, ms[0]).1.None? && Unraised(t, Process(t, s, ms[0]).0, ms[1..])
  }

  /** While nothing was raised, everything sent was looked at; and a transfer that is done
      after a message did not break its chain in it. */
  lemma {:induction false} UnraisedTaken(t: Target, s: State, ms: seq<Message>)
    requires t.Valid() && AllValid(ms) && Unraised(t, s, ms)
    requires Requested(s) || (s.soa.Some? && (s.txn.Some? || s.done))
    ensures Taken(t, s, ms) <= Answers(ms)
    ensures Run(t, s, ms).done ==> !Mismatched(t, s, ms)
    decreases |ms|
  {
    hide Process, TakenIn, First, Step, IsOriginSoa, Breaks, Requested, QuestionOk;
    NotBreaks();
    if ms != [] {
      var (s1, error) := Process(t, s, ms[0]);
      MessageOk(t, s, ms[0]);
      if |ms| == 1 {
        NothingLeft(t, s1, ms[1..]);
        assert TakenIn(t, s, ms[0]) + [] == TakenIn(t, s, ms[0]) <= ms[0].answer + Answers(ms[1..]);
      } else {
        UnraisedTaken(t, s1, ms[1..]);
        assert Taken(t, s, ms) == ms[0].answer + Taken(t, s1, ms[1..]) <= ms[0].answer + Answers(ms[1..]);
      }
    }
  }

  lemma NothingLeft(t: Target, s: State, ms: seq<Message>)
    requires t.Valid() && ms == []
    ensures Run(t, s, ms) == s && !Mismatched(t, s, ms) && Taken(t, s, ms) == []
  {
  }

  lemma {:induction false} StepsBreak(t: Target, s: State, rrs: seq<RRset>)
    requires t.Valid() && s.soa.Some? && (s.txn.Some? || s.done) && Named(rrs)
    ensures Breaks(Steps(t, s, rrs).1) ==> !Steps(t, s, rrs).0.done
    decreases |rrs|
  {
    hide ReplaceSet, Add, DeleteExact, IsOriginSoa, Rdataset.Equals, RRset.Serial;
    if rrs != [] {
      var (s1, error) := Step(t, s, rrs[0]);
      if error.None? {
        StepsBreak(t, s1, rrs[1..]);
      }
    }
  }

  lemma BreakNotDone(t: Target, s: State, m: Message)
    requires t.Valid() && m.Valid()
    ensures Breaks(Process(t, s, m).1) ==> !Process(t, s, m).0.done
  {
    hide Step, Steps, QuestionOk;
    if m.rcode == 0 && QuestionOk(t, Opened(s), m) {
      var (s1, error) := Entered(t, Opened(s), m.answer);
      if error.None? {
        ProcessParts(t, s, m);
        StepsBreak(t, s1, Remaining(s, m.answer));
      }
    }
  }

  lemma MessageOk(t: Target, s: State, m: Message)
    requires t.Valid() && m.Valid() && (Requested(s) || (s.soa.Some? && (s.txn.Some? || s.done)))
    ensures var taken, r := TakenIn(t, s, m), Process(t, s, m);
            && taken <= m.answer && (r.1.None? ==> taken == m.answer) && (Breaks(r.1) ==> !r.0.done)
            && (Requested(r.0) || (r.0.soa.Some? && (r.0.txn.Some? || r.0.done)))
  {
    hide Step, First, Steps, TakenIn, Live, Broke, After, Breaks, IsOriginSoa;
    BreakNotDone(t, s, m);
    if s.soa.Some? {
      MessageTaken(t, s, m);
    } else {
      FirstTaken(t, s, m);
    }
  }

  /** So whenever messages are received up to the first that raises, as dns.query does it, a
      committed IXFR went from the serial requested to the serial announced without a gap, even
      when what came after the commit was refused. */
  lemma CommittedChain(t: Target, serial: U32, isUdp: bool, zone: Contents, ms: seq<Message>) returns (k: nat)
    requires t.Valid() && AllValid(ms)
    requires var end := Receive(t, Start(true, serial, isUdp, zone), ms).0; end.commits > 0 && end.ixfr
    ensures 1 < k <= |Answers(ms)| && Ends(t, Answers(ms)[..k])
    ensures Chained(serial, Answers(ms)[0].Serial(), OriginSerials(t, Answers(ms)[1..k]))
  {
    hide Run, Receive, Taken, Mismatched, Chained, OriginSerials, Unraised, RRset.Serial, Answers, IsOriginSoa;
    hide Rdataset.Equals;
    var s := Start(true, serial, isUdp, zone);
    var n := ReceiveIsRun(t, s, ms);
    var heard := ms[..n];
    TransferAtomic(t, s, heard, zone);
    UnraisedTaken(t, s, heard);
    CommittedChainIff(t, serial, isUdp, zone, heard);
    var taken := Taken(t, s, heard);
    SomeAnswers(ms, n);
    k := |taken|;
    assert taken == Answers(ms)[..k] && taken[1..] == Answers(ms)[1..k];
  }

  lemma {:induction false} SomeAnswers(ms: seq<Message>, n: nat)
    requires n <= |ms|
    ensures Answers(ms[..n]) <= Answers(ms)
  {
    if n > 0 {
      SomeAnswers(ms[1..], n - 1);
      assert ms[..n][1..] == ms[1..][..n - 1];
    }
  }

  /** An SOA of the origin. */
  function OriginSoa(t: Target, serial: U32): (r: RRset)
    requires t.Valid()
    ensures r.Serial() == serial && r.Sound() && IsOriginSoa(t, r)
  {
    SerialInPlace([[0x61], []], [[0x62], []], serial, 7200, 900, 1209600, 86400);
    RRset(t.naming.Effective(), t.rdclass, R.SOA, 0, 0,
          [R.Digest(SoaRdata([[0x61], []], [[0x62], []], serial, 7200, 900, 1209600, 86400))])
  }

  /** The origin's own SOA can always be put. */
  lemma OriginSoaPut(t: Target, c: Contents, serial: U32)
    requires t.Valid()
    ensures var soa := OriginSoa(t, serial); ReplaceSet(t.naming, t.rdclass, c, soa.name, soa.Set()).error.None?
  {
    OriginName(t, t.naming.Effective());
  }

  lemma OtherSerial(t: Target, a: U32, b: U32)
    requires t.Valid() && a != b
    ensures !OriginSoa(t, a).Set().Equals(OriginSoa(t, b).Set())
  {
    if OriginSoa(t, a).Set().Equals(OriginSoa(t, b).Set()) {
      SameSerial(OriginSoa(t, a), OriginSoa(t, b));
    }
  }

  lemma OneRecord(t: Target, s: State, rr: RRset)
    requires t.Valid() && s.soa.Some? && (s.txn.Some? || s.done) && rr.Sound()
    ensures Steps(t, s, [rr]) == Step(t, s, rr)
    ensures !s.done ==> TakenOf(t, s, [rr]) == [rr]
  {
    hide Step;
  }

  lemma TwoRecords(t: Target, s: State, a: RRset, b: RRset)
    requires t.Valid() && s.soa.Some? && s.txn.Some? && !s.done && a.Sound() && b.Sound()
    requires Step(t, s, a).1.None? && !Step(t, s, a).0.done
    ensures Steps(t, s, [a, b]) == Step(t, Step(t, s, a).0, b)
    ensures TakenOf(t, s, [a, b]) == [a, b]
  {
    hide Step;
    var s1 := Step(t, s, a).0;
    OneRecord(t, s1, b);
    assert [a, b][1..] == [b] && [a] + [b] == [a, b];
  }

  /** The announced SOA, and a difference that starts elsewhere. */
  lemma Announce(t: Target, zone: Contents) returns (s: State)
    requires t.Valid()
    ensures var a, b := OriginSoa(t, 3), OriginSoa(t, 2);
            var s0, m := Start(true, 1, false, zone), Message(0, [], [a, b]);
            && Process(t, s0, m) == (s, Some(BaseMismatch)) && TakenIn(t, s0, m) == [a, b]
            && s == AfterFirst(true, 1, zone, a).(expectingSoa := false, deleteMode := true)
  {
    hide ReplaceSet, Rdataset.Equals, AtOrigin, OriginSoa, RRset.Serial, Steps, TakenOf;
    var a, b := OriginSoa(t, 3), OriginSoa(t, 2);
    var s1 := AfterFirst(true, 1, zone, a);
    OtherSerial(t, 2, 3);
    s := s1.(expectingSoa := false, deleteMode := true);
    assert Step(t, s1, b) == (s, Some(BaseMismatch));
    OneRecord(t, s1, b);
    assert [a, b][1..] == [b] && [a] + [b] == [a, b];
    assert First(t, Opened(Start(true, 1, false, zone)), [a, b]) == (s1, None);
  }

  /** Two more of the announced SOA: the end of that difference, and the end of the transfer. */
  lemma Conclude(t: Target, s: State) returns (end: State)
    requires t.Valid() && s.soa == Some(OriginSoa(t, 3).Set()) && s.txn.Some? && !s.done && s.ixfr && !s.isUdp
    requires s.deleteMode && !s.expectingSoa
    ensures var a := OriginSoa(t, 3);
            var m := Message(0, [], [a, a]);
            Process(t, s, m) == (end, None) && TakenIn(t, s, m) == [a, a] && end.ixfr && end.commits == s.commits + 1
  {
    hide ReplaceSet, AtOrigin, OriginSoa, RRset.Serial, Steps, TakenOf;
    var a := OriginSoa(t, 3);
    OriginSoaPut(t, s.txn.value, 3);
    var s1 := Step(t, s, a).0;
    OriginSoaPut(t, s1.txn.value, 3);
    end := Step(t, s1, a).0;
    TwoRecords(t, s, a, a);
  }

  /** A caller that carries on after a base serial mismatch can commit an IXFR without a chain:
      serial 1 is requested and 3 announced, the only difference starts at 2, and the machine
      takes the SOA after it for the end of that difference. */
  lemma CarryingOn(t: Target, zone: Contents)
    requires t.Valid()
    ensures var a, b := OriginSoa(t, 3), OriginSoa(t, 2);
            var s, m0, m1 := Start(true, 1, false, zone), Message(0, [], [a, b]), Message(0, [], [a, a]);
            && Process(t, s, m0).1 == Some(BaseMismatch) && Process(t, Process(t, s, m0).0, m1).1 == None
            && Run(t, s, [m0, m1]).commits == 1 && Run(t, s, [m0, m1]).ixfr
            && Taken(t, s, [m0, m1]) == [a, b, a, a] && !Chained(1, 3, OriginSerials(t, [b, a, a]))
  {
    hide Process, TakenIn, IsOriginSoa, OriginSoa, OriginSerials, RRset.Serial;
    var a, b := OriginSoa(t, 3), OriginSoa(t, 2);
    var s, m0, m1 := Start(true, 1, false, zone), Message(0, [], [a, b]), Message(0, [], [a, a]);
    var mid := Announce(t, zone);
    var end := Conclude(t, mid);
    assert [m0, m1][1..] == [m1] && [m1][1..] == [];
    assert Run(t, mid, [m1]) == end;
    assert Taken(t, mid, [m1]) == [a, a] + Taken(t, end, []);
    assert [a, b] + ([a, a] + []) == [a, b, a, a];
    SerialsCons(t, [b, a, a]);
  }
}
