/** Inbound zone transfers (dns/xfr.py): AXFR as in section 2.2 of RFC 5936 and IXFR as in
    section 4 of RFC 1995, driving one write transaction at a time. */
module Xfr {
  import opened Common
  import opened Names
  import opened ZoneData
  import opened ZoneVersion
  import opened Transactions
  import R = Records

  const IXFR: U16 := 251
  const AXFR: U16 := 252

  /** One set of an answer section: of one record, if the answers were read one record to a
      set, as those to an IXFR are; of all with its name and type, if they were not. */
  datatype RRset = RRset(name: Name, rdclass: U16, rdtype: U16, covers: U16, ttl: U32, items: seq<Rdata>)
  {
    /** What reading a message makes of its records. */
    predicate Sound() {
      ValidName(name) && items != [] && Set().Valid()
    }

    function Set(): Rdataset {
      Rdataset(rdclass, rdtype, covers, ttl, items)
    }

    function Serial(): U32 {
      if items == [] then 0 else SoaSerial(items[0])
    }
  }

  datatype Question = Question(name: Name, rdtype: U16)

  datatype Message = Message(rcode: nat, question: seq<Question>, answer: seq<RRset>)
  {
    predicate Valid() {
      forall i :: 0 <= i < |answer| ==> answer[i].Sound()
    }
  }

  datatype XfrError =
    | TransferError(rcode: nat)
    | WrongQuestion
    | NoSoa
    | SerialWentBackwards
    | UseTCP
    | AnswersAfterFinal
    | EmptyIxfr
    | UnexpectedEnd
    | UnexpectedUdpEnd
    | BaseMismatch
    | UnexpectedSoa
    | InTransaction(error: TxnError)

  /** Serial arithmetic of RFC 1982 in 32 bits: dns.serial.Serial.__lt__. */
  predicate SerialLess(a: U32, b: U32) {
    (a < b && b - a < 0x8000_0000) || (a > b && a - b > 0x8000_0000)
  }

  /** The zone a transfer works for. */
  datatype Target = Target(naming: Naming, rdclass: U16)
  {
    predicate Valid() {
      Usable(naming)
    }
  }

  /** The state machine: the request, what has been seen, the open transaction, and the zone
      as last committed. */
  datatype State = State(ixfr: bool, serial: U32, isUdp: bool, soa: Option<Rdataset>, done: bool, expectingSoa: bool,
                         deleteMode: bool, txn: Option<Contents>, zone: Contents, commits: nat)

  /** txn_manager.writer(replacement). */
  function Begin(s: State, replacement: bool): State {
    s.(txn := Some(if replacement then map[] else s.zone))
  }

  predicate IsOriginSoa(t: Target, rr: RRset)
    requires t.Valid()
  {
    rr.rdtype == R.SOA && AtOrigin(t.naming, rr.name)
  }

  function InTxn(s: State, out: Outcome): (State, Option<XfrError>) {
    (s.(txn := Some(out.contents)), if out.error.Some? then Some(InTransaction(out.error.value)) else None)
  }

  /** An origin SOA after the first. */
  function StepSoa(t: Target, s: State, rr: RRset): (r: (State, Option<XfrError>))
    requires t.Valid() && s.txn.Some? && s.soa.Some? && rr.Sound()
  {
    var s1 := if s.ixfr then s.(deleteMode := !s.deleteMode) else s;
    if rr.Set().Equals(s.soa.value) && (!s.ixfr || s1.deleteMode) then
      if s1.expectingSoa then (s1, Some(EmptyIxfr))
      else if s.ixfr && s1.serial != rr.Serial() then (s1, Some(UnexpectedEnd))
      else
        var out := ReplaceSet(t.naming, t.rdclass, s1.txn.value, rr.name, rr.Set());
        if out.error.Some? then InTxn(s1, out)
        else (s1.(txn := None, zone := out.contents, commits := s1.commits + 1, done := true), None)
    else
      var s2 := s1.(expectingSoa := false);
      if !s.ixfr then (s2, Some(UnexpectedSoa))
      else if s2.deleteMode then
        if rr.Serial() != s2.serial then (s2, Some(BaseMismatch)) else (s2, None)
      else
        var s3 := s2.(serial := rr.Serial());
        InTxn(s3, ReplaceSet(t.naming, t.rdclass, s3.txn.value, rr.name, rr.Set()))
  }

  /** Any other record. */
  function StepData(t: Target, s: State, rr: RRset): (r: (State, Option<XfrError>))
    requires t.Valid() && s.txn.Some? && rr.Sound()
  {
    // an IXFR request answered in the style of an AXFR starts over
    var s1 := if s.expectingSoa then Begin(s.(ixfr := false, expectingSoa := false, deleteMode := false), true) else s;
    InTxn(s1, if s1.deleteMode then DeleteExact(t.naming, t.rdclass, s1.txn.value, rr.name, rr.Set())
              else Add(t.naming, t.rdclass, s1.txn.value, rr.name, rr.Set()))
  }

  /** The body of the loop over the answer section. */
  function Step(t: Target, s: State, rr: RRset): (r: (State, Option<XfrError>))
    requires t.Valid() && s.soa.Some? && (s.txn.Some? || s.done) && rr.Sound()
    ensures r.0.soa == s.soa && r.0.isUdp == s.isUdp
    ensures r.0.txn.Some? || r.0.done
  {
    if s.done then (s, Some(AnswersAfterFinal))
    else if IsOriginSoa(t, rr) then StepSoa(t, s, rr)
    else StepData(t, s, rr)
  }

  function Steps(t: Target, s: State, rrs: seq<RRset>): (r: (State, Option<XfrError>))
    requires t.Valid() && s.soa.Some? && (s.txn.Some? || s.done)
    requires forall i :: 0 <= i < |rrs| ==> rrs[i].Sound()
    ensures r.0.soa == s.soa && r.0.isUdp == s.isUdp
    ensures r.0.txn.Some? || r.0.done
    decreases |rrs|
  {
    if rrs == [] then (s, None)
    else
      var (s1, error) := Step(t, s, rrs[0]);
      if error.Some? then (s1, error) else Steps(t, s1, rrs[1..])
  }

  /** The first record of the first message: it must be the SOA of the origin. */
  function First(t: Target, s: State, answer: seq<RRset>): (r: (State, Option<XfrError>))
    requires t.Valid()
    ensures r.1.None? ==> r.0.soa.Some? && answer != [] && r.0.txn == s.txn
    ensures r.0.isUdp == s.isUdp
  {
    if answer == [] || !AtOrigin(t.naming, answer[0].name) || answer[0].rdtype != R.SOA then (s, Some(NoSoa))
    else
      var s1 := s.(soa := Some(answer[0].Set()));
      if !s.ixfr then (s1, None)
      else if answer[0].Serial() == s.serial then (s1.(done := true), None)
      else if SerialLess(answer[0].Serial(), s.serial) then (s1, Some(SerialWentBackwards))
      else if s.isUdp && |answer| == 1 then (s1, Some(UseTCP))
      else (s1.(expectingSoa := true), None)
  }

  predicate QuestionOk(t: Target, s: State, m: Message)
    requires t.Valid()
  {
    m.question != [] ==>
      AtOrigin(t.naming, m.question[0].name) && m.question[0].rdtype == if s.ixfr then IXFR else AXFR
  }

  /** The transaction a message works in. */
  function Opened(s: State): State {
    if s.txn.None? then Begin(s, !s.ixfr) else s
  }

  /** The machine once the first record, if still to come, was seen. */
  function Entered(t: Target, s: State, answer: seq<RRset>): (r: (State, Option<XfrError>))
    requires t.Valid()
    ensures r.1.None? ==> r.0.soa.Some? && r.0.txn == s.txn
    ensures s.soa.None? && r.1.None? ==> answer != []
    ensures r.0.isUdp == s.isUdp
  {
    if s.soa.None? then First(t, s, answer) else (s, None)
  }

  /** How process_message leaves the loop. */
  function Finish(r: (State, Option<XfrError>)): (State, Option<XfrError>) {
    if r.1.None? && r.0.isUdp && !r.0.done then (r.0, Some(UnexpectedUdpEnd)) else r
  }

  /** process_message. */
  function Process(t: Target, s: State, m: Message): (r: (State, Option<XfrError>))
    requires t.Valid() && m.Valid()
  {
    var s0 := Opened(s);
    if m.rcode != 0 then (s0, Some(TransferError(m.rcode)))
    else if !QuestionOk(t, s0, m) then (s0, Some(WrongQuestion))
    else
      var (s1, error) := Entered(t, s0, m.answer);
      if error.Some? then (s1, error)
      else Finish(Steps(t, s1, if s0.soa.None? then m.answer[1..] else m.answer))
  }

  /** __exit__: whatever is still open is rolled back. */
  function Exit(s: State): State {
    s.(txn := None)
  }

  function Start(ixfr: bool, serial: U32, isUdp: bool, zone: Contents): State {
    State(ixfr, serial, isUdp, None, false, false, false, None, zone, 0)
  }

  // ---------------------------------------------------------------- verdicts, by number

  /** One serial comes before another when what has to be added to it to reach the other, in
      32 bits, is less than half of all serials, and not nothing. */
  lemma SerialLessMeans(a: U32, b: U32)
    ensures SerialLess(a, b) <==> 0 < (b - a) % 0x1_0000_0000 < 0x8000_0000
  {
    assert (b - a) % 0x1_0000_0000 == if a <= b then b - a else b - a + 0x1_0000_0000;
  }

  /** What the first message of a transfer may raise before any record changes anything: its
      error code if it has one; that its question, if it has one, is not for the origin and
      type 251 or 252; that no SOA (6) of the origin comes first; and in an IXFR, that its
      serial is behind the one asked from, or that it comes alone and is ahead of it over
      UDP.  An IXFR from the serial announced is done at once. */
  lemma FirstMessage(t: Target, s: State, m: Message)
    requires t.Valid() && m.Valid() && s.soa.None? && !s.done
    ensures var (after, error) := Process(t, s, m);
            if m.rcode != 0 then error == Some(TransferError(m.rcode))
            else if m.question != []
                    && (!AtOrigin(t.naming, m.question[0].name) || m.question[0].rdtype != if s.ixfr then 251 else 252)
            then error == Some(WrongQuestion)
            else if m.answer == [] || !AtOrigin(t.naming, m.answer[0].name) || m.answer[0].rdtype != 6
            then error == Some(NoSoa)
            else
              s.ixfr ==>
                var behind := (s.serial - m.answer[0].Serial()) % 0x1_0000_0000;
                if behind == 0 then |m.answer| == 1 ==> error == None && after.done && after.commits == s.commits
                else if behind < 0x8000_0000 then error == Some(SerialWentBackwards)
                else s.isUdp && |m.answer| == 1 ==> error == Some(UseTCP)
    ensures Process(t, s, m).1 == None && s.isUdp ==> Process(t, s, m).0.done
  {
    hide AtOrigin, Step;
    if m.answer != [] {
      SerialLessMeans(m.answer[0].Serial(), s.serial);
      if |m.answer| == 1 {
        assert m.answer[1..] == [];
      }
    }
  }

  /** What a record may raise: one after the end of the transfer; in an AXFR, an SOA (6) of the
      origin that is not the first one again; and in an IXFR, where a difference is to begin,
      the first SOA again before any difference or at another serial than was reached, and
      another SOA whose serial was not reached.  Everything else comes from the zone. */
  lemma StepErrors(t: Target, s: State, rr: RRset)
    requires t.Valid() && s.soa.Some? && (s.txn.Some? || s.done) && rr.Sound()
    ensures var error := Step(t, s, rr).1;
            var origin := !s.done && rr.rdtype == 6 && SameName(rr.name, t.naming.Effective());
            var again := rr.Set().Equals(s.soa.value);
            var begins := origin && s.ixfr && !s.deleteMode;
            && (error == Some(AnswersAfterFinal) <==> s.done)
            && (error == Some(UnexpectedSoa) <==> origin && !s.ixfr && !again)
            && (error == Some(EmptyIxfr) <==> (begins || (origin && !s.ixfr)) && again && s.expectingSoa)
            && (error == Some(UnexpectedEnd) <==> begins && again && !s.expectingSoa && rr.Serial() != s.serial)
            && (error == Some(BaseMismatch) <==> begins && !again && rr.Serial() != s.serial)
            && (error.Some? ==>
                  || error.value.InTransaction?
                  || error.value in {AnswersAfterFinal, UnexpectedSoa, EmptyIxfr, UnexpectedEnd, BaseMismatch})
  {
    hide ReplaceSet, Add, DeleteExact, SameName, Rdataset.Equals, RRset.Serial;
  }

  // ---------------------------------------------------------------- atomicity

  /** All that can have happened to the zone: nothing, or one commit that ended the transfer. */
  ghost predicate Atomic(s: State, zone: Contents) {
    s.commits <= 1 && (s.commits == 0 ==> s.zone == zone) && (s.commits == 1 ==> s.done)
  }

  /** A commit takes place only at the final SOA: an origin SOA equal to the first one, where
      an IXFR has reached the serial it announces. */
  lemma StepCommits(t: Target, s: State, rr: RRset)
    requires t.Valid() && s.soa.Some? && (s.txn.Some? || s.done) && rr.Sound()
    ensures var s' := Step(t, s, rr).0;
            if s'.commits != s.commits
            then s'.commits == s.commits + 1 && !s.done && s'.done
                 && IsOriginSoa(t, rr) && rr.Set().Equals(s.soa.value) && !s.expectingSoa
                 && (s.ixfr ==> !s.deleteMode && s.serial == rr.Serial())
                 && s'.zone == ReplaceSet(t.naming, t.rdclass, s.txn.value, rr.name, rr.Set()).contents
            else s'.zone == s.zone && s'.done == s.done
  {
    hide Add, DeleteExact, ReplaceSet, AtOrigin, Rdataset.Equals;
  }

  lemma {:induction false} StepsAtomic(t: Target, s: State, rrs: seq<RRset>, zone: Contents)
    requires t.Valid() && s.soa.Some? && (s.txn.Some? || s.done) && Atomic(s, zone)
    requires forall i :: 0 <= i < |rrs| ==> rrs[i].Sound()
    ensures Atomic(Steps(t, s, rrs).0, zone)
    decreases |rrs|
  {
    if rrs != [] {
      StepCommits(t, s, rrs[0]);
      var (s1, error) := Step(t, s, rrs[0]);
      if error.None? {
        StepsAtomic(t, s1, rrs[1..], zone);
      }
    }
  }

  lemma BeginAtomic(s: State, zone: Contents)
    requires Atomic(s, zone)
    ensures Atomic(Opened(s), zone) && Opened(s).txn.Some?
  {
  }

  lemma FirstAtomic(t: Target, s: State, answer: seq<RRset>, zone: Contents)
    requires t.Valid() && Atomic(s, zone)
    ensures Atomic(Entered(t, s, answer).0, zone)
  {
  }

  lemma ProcessAtomic(t: Target, s: State, m: Message, zone: Contents)
    requires t.Valid() && m.Valid() && Atomic(s, zone)
    ensures Atomic(Process(t, s, m).0, zone)
  {
    hide Step, Steps, First, QuestionOk, Atomic, Opened, Entered;
    var s0 := Opened(s);
    BeginAtomic(s, zone);
    if m.rcode == 0 && QuestionOk(t, s0, m) {
      var (s1, error) := Entered(t, s0, m.answer);
      FirstAtomic(t, s0, m.answer, zone);
      if error.None? {
        StepsAtomic(t, s1, if s0.soa.None? then m.answer[1..] else m.answer, zone);
      }
    }
  }

  /** Messages one after another, whatever each of them raised. */
  function Run(t: Target, s: State, ms: seq<Message>): State
    requires t.Valid() && forall i :: 0 <= i < |ms| ==> ms[i].Valid()
    decreases |ms|
  {
    if ms == [] then s else Run(t, Process(t, s, ms[0]).0, ms[1..])
  }

  /** Transfer atomicity: for any messages at all, valid or not, followed by __exit__, the
      transfer has committed at most once; unless it committed, and so was done, the zone is
      exactly what it was and no transaction is left open. */
  lemma {:induction false} TransferAtomic(t: Target, s: State, ms: seq<Message>, zone: Contents)
    requires t.Valid() && (forall i :: 0 <= i < |ms| ==> ms[i].Valid()) && Atomic(s, zone)
    ensures Atomic(Exit(Run(t, s, ms)), zone) && Exit(Run(t, s, ms)).txn.None?
    decreases |ms|
  {
    hide Process;
    if ms != [] {
      ProcessAtomic(t, s, ms[0], zone);
      TransferAtomic(t, Process(t, s, ms[0]).0, ms[1..], zone);
    }
  }
}
