/** Whole transfers: independence of how the records were split into messages, and what an
    IXFR, an AXFR and an IXFR answered in the style of an AXFR leave in the zone. */
module XfrRuns {
  import opened Common
  import opened Names
  import opened ZoneData
  import opened ZoneVersion
  import opened Transactions
  import opened Xfr
  import opened XfrReplay
  import R = Records

  /** Messages one after another, until one raises. */
  function Receive(t: Target, s: State, ms: seq<Message>): (State, Option<XfrError>)
    requires t.Valid() && AllValid(ms)
    decreases |ms|
  {
    if ms == [] then (s, None)
    else
      var (s1, error) := Process(t, s, ms[0]);
      if error.Some? then (s1, error) else Receive(t, s1, ms[1..])
  }

  predicate AllValid(ms: seq<Message>) {
    forall i :: 0 <= i < |ms| ==> ms[i].Valid()
  }

  /** No error code, and no question to check. */
  predicate AllPlain(ms: seq<Message>) {
    forall i :: 0 <= i < |ms| ==> ms[i].rcode == 0 && ms[i].question == []
  }

  /** The answer sections of messages, end to end. */
  function Answers(ms: seq<Message>): (r: seq<RRset>)
    ensures AllValid(ms) ==> Named(r)
  {
    if ms == [] then [] else
      var rest := Answers(ms[1..]);
      assert AllValid(ms) ==> AllValid(ms[1..]) && ms[0].Valid();
      ms[0].answer + rest
  }

  /** The same outcome once the transfer is left. */
  predicate SameOutcome(a: (State, Option<XfrError>), b: (State, Option<XfrError>)) {
    Exit(a.0) == Exit(b.0) && a.1 == b.1
  }

  lemma DoneSteps(t: Target, s: State, rrs: seq<RRset>)
    requires t.Valid() && s.soa.Some? && s.done && Named(rrs)
    ensures Steps(t, s, rrs) == (s, if rrs == [] then None else Some(AnswersAfterFinal))
  {
  }

  /** A message after the first, plain or raising nothing. */
  lemma LaterMessage(t: Target, s: State, m: Message)
    requires t.Valid() && m.Valid() && s.soa.Some? && (s.txn.Some? || s.done)
    requires (m.rcode == 0 && m.question == []) || Process(t, s, m).1.None?
    ensures Process(t, s, m) == Finish(Steps(t, Opened(s), m.answer)) && (!s.done ==> Opened(s) == s)
    ensures Opened(s).soa.Some? && Opened(s).txn.Some? && Opened(s).done == s.done && Opened(s).isUdp == s.isUdp
    ensures Exit(Opened(s)) == Exit(s)
  {
    hide Steps, Finish;
  }

  /** After the first message, messages are as good as their answers end to end: on plain
      messages over TCP whatever they hold, and on any messages that raise nothing. */
  lemma {:induction false} RestSplit(t: Target, s: State, ms: seq<Message>)
    requires t.Valid() && s.soa.Some? && (s.txn.Some? || s.done) && AllValid(ms)
    requires (!s.isUdp && AllPlain(ms)) || Receive(t, s, ms).1.None?
    ensures SameOutcome(Receive(t, s, ms), Steps(t, s, Answers(ms)))
    decreases |ms|
  {
    hide Step, Process, Opened;
    if ms != [] {
      var m, rest := ms[0], Answers(ms[1..]);
      assert Named(rest) by { assert AllValid(ms[1..]); }
      var s0 := Opened(s);
      LaterMessage(t, s, m);
      StepsConcat(t, s, m.answer, rest);
      if s.done {
        DoneSteps(t, s, m.answer);
        DoneSteps(t, s0, m.answer);
        DoneSteps(t, s, rest);
        if m.answer == [] {
          RestSplit(t, s0, ms[1..]);
          DoneSteps(t, s0, rest);
        }
      } else {
        var (mid, error) := Steps(t, s, m.answer);
        if error.None? && Process(t, s, m).1.None? {
          RestSplit(t, mid, ms[1..]);
        }
      }
    }
  }

  /** What is left of the first message's records once the announcing SOA was seen. */
  function Remaining(s: State, answer: seq<RRset>): (r: seq<RRset>)
    requires s.soa.None? ==> answer != []
    ensures Named(answer) ==> Named(r)
  {
    if s.soa.None? then answer[1..] else answer
  }

  /** process_message in parts. */
  lemma ProcessParts(t: Target, s: State, m: Message)
    requires t.Valid() && m.Valid() && m.rcode == 0 && QuestionOk(t, Opened(s), m)
    requires s.soa.None? ==> m.answer != []
    ensures var (s1, error) := Entered(t, Opened(s), m.answer);
            Process(t, s, m) == if error.Some? then (s1, error) else Finish(Steps(t, s1, Remaining(s, m.answer)))
  {
    hide First, Step, QuestionOk;
  }

  /** However the answers are split into messages, the transfer ends the same: the same
      error or none, and the same zone. */
  lemma SplitAnyhow(t: Target, s: State, ms: seq<Message>)
    requires t.Valid() && AllValid(ms) && ms != [] && (s.soa.Some? || ms[0].answer != [])
    requires (!s.isUdp && AllPlain(ms[1..])) || Receive(t, s, ms).1.None?
    ensures ms[0].(answer := Answers(ms)).Valid()
    ensures SameOutcome(Receive(t, s, ms), Process(t, s, ms[0].(answer := Answers(ms))))
  {
    hide Step, First, Process, Steps, QuestionOk, Entered, Opened, Finish, AllPlain;
    OpenedKeeps(s);
    var m, rest := ms[0], Answers(ms[1..]);
    var whole := m.(answer := m.answer + rest);
    assert Named(rest) by { assert AllValid(ms[1..]); }
    if m.rcode != 0 || !QuestionOk(t, Opened(s), m) {
      RefusedAlike(t, s, m, whole);
    } else {
      assert QuestionOk(t, Opened(s), whole) by { SameQuestion(t, Opened(s), m, whole); }
      ProcessParts(t, s, m);
      ProcessParts(t, s, whole);
      EnteredAlike(t, Opened(s), m.answer, rest);
      var (s1, error) := Entered(t, Opened(s), m.answer);
      if error.None? {
        SplitAfterFirst(t, s1, Remaining(s, m.answer), ms[1..]);
      }
    }
  }

  lemma OpenedKeeps(s: State)
    ensures Opened(s).soa == s.soa && Opened(s).isUdp == s.isUdp && Opened(s).txn.Some?
  {
  }

  /** The first message's records and then the other messages, or all records at once. */
  lemma SplitAfterFirst(t: Target, s: State, records: seq<RRset>, ms: seq<Message>)
    requires t.Valid() && s.soa.Some? && (s.txn.Some? || s.done) && Named(records) && AllValid(ms)
    requires var first := Finish(Steps(t, s, records));
             (!s.isUdp && AllPlain(ms)) || (first.1.None? && Receive(t, first.0, ms).1.None?)
    ensures var first := Finish(Steps(t, s, records));
            SameOutcome(if first.1.Some? then first else Receive(t, first.0, ms),
                        Finish(Steps(t, s, records + Answers(ms))))
  {
    hide Step, Steps, AllPlain, Receive;
    var (mid, error) := Steps(t, s, records);
    StepsConcat(t, s, records, Answers(ms));
    if error.None? && (mid.isUdp ==> mid.done) {
      RestSplit(t, mid, ms);
      if mid.isUdp {
        DoneSteps(t, mid, Answers(ms));
      }
    }
  }

  lemma SameQuestion(t: Target, s: State, m: Message, whole: Message)
    requires t.Valid() && m.question == whole.question
    ensures QuestionOk(t, s, m) == QuestionOk(t, s, whole)
  {
  }

  lemma RefusedAlike(t: Target, s: State, m: Message, whole: Message)
    requires t.Valid() && m.Valid() && whole.Valid() && m.question == whole.question && m.rcode == whole.rcode
    requires m.rcode != 0 || !QuestionOk(t, Opened(s), m)
    ensures Process(t, s, m) == Process(t, s, whole) && Process(t, s, m).1.Some?
  {
    hide First, Steps;
  }

  lemma EnteredAlike(t: Target, s: State, a: seq<RRset>, b: seq<RRset>)
    requires t.Valid() && (s.soa.Some? || a != []) && (!s.isUdp || Entered(t, s, a).1.None?)
    ensures Entered(t, s, a + b) == Entered(t, s, a)
    ensures Remaining(s, a + b) == Remaining(s, a) + b
  {
    if s.soa.None? {
      assert (a + b)[1..] == a[1..] + b;
    }
  }

  // ---------------------------------------------------------------- whole transfers

  /** A request that the first SOA does not settle at once. */
  predicate Advances(serial: U32, soa: RRset) {
    soa.Serial() != serial && !SerialLess(soa.Serial(), serial)
  }

  /** The machine after the first SOA. */
  function AfterFirst(ixfr: bool, serial: U32, zone: Contents, soa: RRset): State {
    Begin(Start(ixfr, serial, false, zone), !ixfr).(soa := Some(soa.Set()), expectingSoa := ixfr)
  }

  /** The messages of one response over TCP, carrying these records in any split; the first
      may repeat the question. */
  predicate Carries(t: Target, ixfr: bool, ms: seq<Message>, soa: RRset, rest: seq<RRset>)
    requires t.Valid()
  {
    && AllValid(ms) && ms != [] && ms[0].rcode == 0 && ms[0].answer != [] && AllPlain(ms[1..])
    && QuestionOk(t, Start(ixfr, 0, false, map[]), ms[0])
    && Answers(ms) == [soa] + rest
  }

  lemma CarriedRun(t: Target, ixfr: bool, serial: U32, zone: Contents, soa: RRset, rest: seq<RRset>, ms: seq<Message>)
    requires t.Valid() && soa.Sound() && IsOriginSoa(t, soa) && (ixfr ==> Advances(serial, soa)) && Named(rest)
    requires Carries(t, ixfr, ms, soa, rest)
    ensures SameOutcome(Receive(t, Start(ixfr, serial, false, zone), ms),
                        Steps(t, AfterFirst(ixfr, serial, zone, soa), rest))
  {
    hide Step, Steps, Process;
    var s := Start(ixfr, serial, false, zone);
    SplitAnyhow(t, s, ms);
    var whole := ms[0].(answer := Answers(ms));
    ProcessParts(t, s, whole);
    assert whole.answer[1..] == rest;
  }

  /** An IXFR of a chain of differences, split anyhow: the zone becomes the old zone with
      each difference's deletions and then additions applied in order, and the final SOA. */
  lemma IxfrTransfer(t: Target, serial: U32, zone: Contents, soa: RRset, ds: seq<Diff>, final: RRset, ms: seq<Message>)
    requires t.Valid() && ContentsOk(zone) && soa.Sound() && IsOriginSoa(t, soa) && Advances(serial, soa)
    requires ds != [] && ChainOf(t, AfterFirst(true, serial, zone, soa), ds, final)
    requires AllApplicable(t, RecordsOf(zone), ds)
    requires IsFinal(t, AfterFirst(true, serial, zone, soa), ApplyAll(t, RecordsOf(zone), ds), final)
    requires Carries(t, true, ms, soa, DiffsStream(ds) + [final])
    ensures var (end, error) := Receive(t, Start(true, serial, false, zone), ms);
            && error.None? && Exit(end).done && Exit(end).commits == 1
            && RecordsOf(Exit(end).zone) == WithSoa(t, ApplyAll(t, RecordsOf(zone), ds), final)
  {
    hide ContentsOk, RecordsOf, IsOriginSoa, Carries, ChainOf, IsFinal, Receive, Steps, AllApplicable, ApplyAll,
      WithSoa;
    var s := AfterFirst(true, serial, zone, soa);
    IxfrReplay(t, s, zone, ds, final);
    CarriedRun(t, true, serial, zone, soa, DiffsStream(ds) + [final], ms);
  }

  /** A set that can be exchanged for another, with the SOA replaced. */
  ghost predicate Exchanges(t: Target, rs: iset<Rec>, soa: RRset, del: RRset, add: RRset)
    requires t.Valid()
  {
    && InZone(t, soa) && Deletable(t, rs, del) && SoaPlaceable(t, rs - RecsOf(t, del), soa)
    && Addable(t, WithSoa(t, rs - RecsOf(t, del), soa), add)
    && SoaPlaceable(t, WithSoa(t, rs - RecsOf(t, del), soa) + RecsOf(t, add), soa)
  }

  /** The records after the exchange: those of the SOA, and where no other SOA was, those that
      came and those that were there and did not go. */
  ghost predicate Exchanged(t: Target, rs: iset<Rec>, soa: RRset, del: RRset, add: RRset, after: iset<Rec>)
    requires t.Valid() && InZone(t, soa) && InZone(t, del) && InZone(t, add)
  {
    forall r: Rec :: r in after <==>
      || r in RecsOf(t, soa)
      || (!(r.name == KeyName(t, soa.name) && r.key == soa.Set().Key())
          && (r in RecsOf(t, add) || (r in rs && r !in RecsOf(t, del))))
  }

  /** One difference in one message: the new SOA, the one before and what goes, the new one and
      what comes, and the new SOA again.  What went is gone, what came is there, and nothing
      else but the SOA has changed. */
  lemma OneDifference(t: Target, serial: U32, zone: Contents, soa: RRset, was: RRset, del: RRset, add: RRset)
    requires t.Valid() && ContentsOk(zone) && soa.Sound() && IsOriginSoa(t, soa) && Advances(serial, soa)
    requires was.Sound() && IsOriginSoa(t, was) && was.Serial() == serial && !was.Set().Equals(soa.Set())
    requires Exchanges(t, RecordsOf(zone), soa, del, add)
    ensures var m := Message(0, [], [soa, was, del, soa, add, soa]);
            && m.Valid() && InZone(t, soa) && InZone(t, del) && InZone(t, add)
            && var (end, error) := Receive(t, Start(true, serial, false, zone), [m]);
               && error.None? && Exit(end).commits == 1
               && Exchanged(t, RecordsOf(zone), soa, del, add, RecordsOf(Exit(end).zone))
  {
    hide ContentsOk, RecordsOf, IsOriginSoa, Receive, WithSoa, Advances, InZone, Exchanged, Exchanges;
    hide Rdataset.Equals, RecsOf, RRset.Serial, AfterFirst, ApplyAll, AllApplicable, Carries, ChainOf, SoaPlaceable;
    var d := Diff(was, [del], soa, [add]);
    var rs := RecordsOf(zone);
    OneDiff(t, rs, d, del, add);
    var s := AfterFirst(true, serial, zone, soa);
    FirstState(serial, zone, soa);
    OneLink(t, s, d, soa);
    var m := Message(0, [], [soa, was, del, soa, add, soa]);
    var rest := [was, del, soa, add, soa];
    OneStream(d, soa);
    OneMessage(t, m, soa, rest);
    IxfrTransfer(t, serial, zone, soa, [d], soa, [m]);
  }

  lemma FirstState(serial: U32, zone: Contents, soa: RRset)
    ensures AfterFirst(true, serial, zone, soa).serial == serial
    ensures AfterFirst(true, serial, zone, soa).soa == Some(soa.Set())
  {
  }

  lemma OneDiff(t: Target, rs: iset<Rec>, d: Diff, del: RRset, add: RRset)
    requires t.Valid() && d.dels == [del] && d.adds == [add] && Exchanges(t, rs, d.newSoa, del, add)
    ensures del.Sound() && add.Sound() && InZone(t, d.newSoa) && InZone(t, del) && InZone(t, add)
    ensures AllApplicable(t, rs, [d]) && SoaPlaceable(t, ApplyAll(t, rs, [d]), d.newSoa)
    ensures Exchanged(t, rs, d.newSoa, del, add, WithSoa(t, ApplyAll(t, rs, [d]), d.newSoa))
  {
    hide NoConflict, RecsOf, IsOriginSoa;
    assert d.dels[1..] == [] && d.adds[1..] == [] && [d][1..] == [];
    var left := rs - RecsOf(t, del);
    OneDeleted(t, rs, d.dels, del);
    var placed := WithSoa(t, left, d.newSoa);
    OneAdded(t, placed, d.adds, add);
    assert Applicable(t, rs, d);
    assert ApplyAll(t, rs, [d]) == ApplyAll(t, Apply(t, rs, d), []);
  }

  lemma OneDeleted(t: Target, rs: iset<Rec>, dels: seq<RRset>, del: RRset)
    requires t.Valid() && dels == [del] && Deletable(t, rs, del)
    ensures AllDeletable(t, rs, dels) && DeleteAll(t, rs, dels) == rs - RecsOf(t, del)
  {
    hide RecsOf;
    assert dels[1..] == [];
    assert DeleteAll(t, rs - RecsOf(t, del), []) == rs - RecsOf(t, del);
  }

  lemma OneAdded(t: Target, rs: iset<Rec>, adds: seq<RRset>, add: RRset)
    requires t.Valid() && adds == [add] && Addable(t, rs, add)
    ensures AllAddable(t, rs, adds) && AddAll(t, rs, adds) == rs + RecsOf(t, add)
  {
    hide RecsOf;
    assert adds[1..] == [];
    assert AddAll(t, rs + RecsOf(t, add), []) == rs + RecsOf(t, add);
  }

  lemma OneLink(t: Target, s: State, d: Diff, final: RRset)
    requires t.Valid() && s.soa == Some(final.Set()) && d.newSoa == final && final.Sound()
    requires d.oldSoa.Sound() && IsOriginSoa(t, d.oldSoa) && d.oldSoa.Serial() == s.serial
    requires !d.oldSoa.Set().Equals(final.Set())
    ensures ChainOf(t, s, [d], final) && final.Set().Equals(s.soa.value)
  {
    hide IsOriginSoa, RRset.Serial;
    assert [d][1..] == [];
    var s1 := s.(serial := final.Serial());
    assert ChainOf(t, s1, [], final);
  }

  lemma OneStream(d: Diff, soa: RRset)
    requires |d.dels| == 1 && |d.adds| == 1
    ensures DiffsStream([d]) + [soa] == [d.oldSoa, d.dels[0], d.newSoa, d.adds[0], soa]
  {
    assert [d][1..] == [];
  }

  lemma OneMessage(t: Target, m: Message, soa: RRset, rest: seq<RRset>)
    requires t.Valid() && m.Valid() && m.rcode == 0 && m.question == [] && m.answer == [soa] + rest
    ensures Carries(t, true, [m], soa, rest)
  {
    assert [m][1..] == [];
    assert Answers([m]) == m.answer + Answers([]) == m.answer;
  }

  /** The records of a whole zone between its SOA twice, from an empty version on. */
  lemma WholeSteps(t: Target, s: State, rrs: seq<RRset>, final: RRset)
    requires t.Valid() && Within(s, map[], false) && !s.ixfr && !s.expectingSoa
    requires AllAddable(t, iset{}, rrs) && IsFinal(t, s, AddAll(t, iset{}, rrs), final)
    ensures Named(rrs + [final])
    ensures var (end, error) := Steps(t, s, rrs + [final]);
            && error.None? && end.done && end.commits == s.commits + 1
            && RecordsOf(end.zone) == WithSoa(t, AddAll(t, iset{}, rrs), final)
  {
    hide ContentsOk, ReplaceSet, AtOrigin, Rdataset.Equals, WithSoa, NoConflict;
    assert RecordsOf(map[]) == iset{};
    var c := AddSteps(t, s, map[], rrs);
    SoaOne(t, c, final);
    StepsConcat(t, s, rrs, [final]);
    var mid := s.(txn := Some(c));
    assert Steps(t, mid, [final]) == Step(t, mid, final);
  }

  /** An AXFR, split anyhow: the zone becomes exactly the records sent, whatever it held. */
  lemma AxfrTransfer(t: Target, serial: U32, zone: Contents, soa: RRset, rrs: seq<RRset>, final: RRset,
                     ms: seq<Message>)
    requires t.Valid() && soa.Sound() && IsOriginSoa(t, soa)
    requires AllAddable(t, iset{}, rrs)
    requires IsFinal(t, AfterFirst(false, serial, zone, soa), AddAll(t, iset{}, rrs), final)
    requires Carries(t, false, ms, soa, rrs + [final])
    ensures var (end, error) := Receive(t, Start(false, serial, false, zone), ms);
            && error.None? && Exit(end).done && Exit(end).commits == 1
            && RecordsOf(Exit(end).zone) == WithSoa(t, AddAll(t, iset{}, rrs), final)
  {
    hide RecordsOf, IsOriginSoa, Carries, IsFinal, Receive, Steps, AllAddable, AddAll, WithSoa;
    WholeSteps(t, AfterFirst(false, serial, zone, soa), rrs, final);
    CarriedRun(t, false, serial, zone, soa, rrs + [final], ms);
  }

  /** An IXFR answered in the style of an AXFR: the same, from the first record that is no
      origin SOA. */
  lemma FallbackTransfer(t: Target, serial: U32, zone: Contents, soa: RRset, rrs: seq<RRset>, final: RRset,
                         ms: seq<Message>)
    requires t.Valid() && soa.Sound() && IsOriginSoa(t, soa) && Advances(serial, soa)
    requires rrs != [] && AllAddable(t, iset{}, rrs)
    requires IsFinal(t, AfterFirst(false, serial, zone, soa), AddAll(t, iset{}, rrs), final)
    requires Carries(t, true, ms, soa, rrs + [final])
    ensures var (end, error) := Receive(t, Start(true, serial, false, zone), ms);
            && error.None? && Exit(end).done && Exit(end).commits == 1
            && RecordsOf(Exit(end).zone) == WithSoa(t, AddAll(t, iset{}, rrs), final)
  {
    hide RecordsOf, IsOriginSoa, Carries, IsFinal, Receive, AllAddable, AddAll, WithSoa, Add, Step;
    WholeSteps(t, AfterFirst(false, serial, zone, soa), rrs, final);
    FallsBack(t, serial, zone, soa, rrs);
    var stream := rrs + [final];
    assert stream[0] == rrs[0];
    CarriedRun(t, true, serial, zone, soa, stream, ms);
  }

  lemma FallsBack(t: Target, serial: U32, zone: Contents, soa: RRset, rrs: seq<RRset>)
    requires t.Valid() && rrs != [] && AllAddable(t, iset{}, rrs)
    ensures Step(t, AfterFirst(true, serial, zone, soa), rrs[0])
      == Step(t, AfterFirst(false, serial, zone, soa), rrs[0])
  {
    hide Add;
  }

  /** A message that repeats the question of the IXFR request is refused exactly when the
      transfer has fallen back to an AXFR, whatever else it holds and whether or not a
      transaction is open; as long as the transfer is an IXFR, the question makes no
      difference. */
  lemma RepeatedQuestion(t: Target, s: State, m: Message)
    requires t.Valid() && m.Valid() && m.rcode == 0
    requires m.question != [] && AtOrigin(t.naming, m.question[0].name) && m.question[0].rdtype == IXFR
    ensures Process(t, s, m).1 == Some(WrongQuestion) <==> !s.ixfr
    ensures !s.ixfr ==> Process(t, s, m).0 == Opened(s)
    ensures s.ixfr ==> Process(t, s, m) == Process(t, s, m.(question := []))
  {
    hide AtOrigin, Steps, First;
    var s0 := Opened(s);
    if s.ixfr {
      var (s1, error) := if s0.soa.None? then First(t, s0, m.answer) else (s0, None);
      FirstNotQuestion(t, s0, m.answer);
      if error.None? {
        StepsNotQuestion(t, s1, if s0.soa.None? then m.answer[1..] else m.answer);
      }
    }
  }

  lemma FirstNotQuestion(t: Target, s: State, answer: seq<RRset>)
    requires t.Valid()
    ensures First(t, s, answer).1 != Some(WrongQuestion)
  {
  }

  lemma {:induction false} StepsNotQuestion(t: Target, s: State, rrs: seq<RRset>)
    requires t.Valid() && s.soa.Some? && (s.txn.Some? || s.done) && Named(rrs)
    ensures Steps(t, s, rrs).1 != Some(WrongQuestion)
    decreases |rrs|
  {
    hide ReplaceSet, Add, DeleteExact, IsOriginSoa, Rdataset.Equals, RRset.Serial;
    if rrs != [] && Step(t, s, rrs[0]).1.None? {
      StepsNotQuestion(t, Step(t, s, rrs[0]).0, rrs[1..]);
    }
  }

  /** So a server that answers an IXFR in the style of an AXFR, and repeats the question in
      every message, is refused at its second message; here the first one holds the SOA and
      one set of another type. */
  lemma RefusedAfterFallback(t: Target, serial: U32, zone: Contents, question: Question, soa: RRset, rr: RRset,
                             answer: seq<RRset>)
    requires t.Valid() && soa.Sound() && IsOriginSoa(t, soa) && Advances(serial, soa)
    requires rr.Sound() && !IsOriginSoa(t, rr) && rr.rdclass == t.rdclass && rr.rdtype != R.SOA
    requires ValidateName(t.naming, rr.name).Ok? && Named(answer)
    requires AtOrigin(t.naming, question.name) && question.rdtype == IXFR
    ensures var (s, error) := Process(t, Start(true, serial, false, zone), Message(0, [question], [soa, rr]));
            error.None? && Process(t, s, Message(0, [question], answer)).1 == Some(WrongQuestion)
  {
    hide AtOrigin, ValidateName, Rdataset.Union, Replace, RRset.Serial;
    var m := Message(0, [question], [soa, rr]);
    var s1 := AfterFirst(true, serial, zone, soa);
    assert [soa, rr][1..] == [rr];
    assert Steps(t, s1, [rr]) == Step(t, s1, rr);
    RepeatedQuestion(t, Process(t, Start(true, serial, false, zone), m).0, Message(0, [question], answer));
  }
}
