/** The transfer machine with its fields updated in place (dns/xfr.py, class Inbound). */
module XfrInbound {
  import opened Common
  import opened Names
  import opened ZoneData
  import opened ZoneVersion
  import opened Transactions
  import opened Xfr
  import opened XfrRuns
  import R = Records

  class Inbound {
    const target: Target
    const isUdp: bool
    // the zone when the transfer began
    ghost const base: Contents
    var ixfr: bool
    var serial: U32
    var soa: Option<Rdataset>
    var done: bool
    var expectingSoa: bool
    var deleteMode: bool
    var txn: Option<Contents>
    // the transaction manager: the zone as last committed
    var zone: Contents
    var commits: nat

    ghost function Now(): (s: State)
      reads this
    {
      State(ixfr, serial, isUdp, soa, done, expectingSoa, deleteMode, txn, zone, commits)
    }

    /** The machine between two records of an answer. */
    ghost predicate Open()
      reads this
    {
      target.Valid() && soa.Some? && (txn.Some? || done)
    }

    constructor (target: Target, ixfr: bool, serial: U32, isUdp: bool, zone: Contents)
      ensures this.target == target && base == zone && Now() == Start(ixfr, serial, isUdp, zone)
      ensures Atomic(Now(), base)
    {
      this.target, this.ixfr, this.serial, this.isUdp, this.zone := target, ixfr, serial, isUdp, zone;
      base := zone;
      soa, done, expectingSoa, deleteMode, txn, commits := None, false, false, false, None, 0;
    }

    /** txn_manager.writer(replacement). */
    method Writer(replacement: bool)
      modifies this`txn
      ensures Now() == Begin(old(Now()), replacement)
    {
      txn := Some(if replacement then map[] else zone);
    }

    /** An operation of the open transaction. */
    method Apply(out: Outcome) returns (error: Option<XfrError>)
      modifies this`txn
      ensures (Now(), error) == InTxn(old(Now()), out)
    {
      txn := Some(out.contents);
      error := if out.error.Some? then Some(InTransaction(out.error.value)) else None;
    }

    method Commit()
      requires txn.Some?
      modifies this`txn, this`zone, this`commits
      ensures Now() == old(Now()).(txn := None, zone := old(txn).value, commits := old(commits) + 1)
    {
      zone, commits, txn := txn.value, commits + 1, None;
    }

    /** The branch for an origin SOA after the first. */
    method ReceiveSoa(rr: RRset) returns (error: Option<XfrError>)
      requires Open() && txn.Some? && rr.Sound()
      modifies this
      ensures (Now(), error) == StepSoa(target, old(Now()), rr)
    {
      hide ReplaceSet, Rdataset.Equals;
      if ixfr {
        deleteMode := !deleteMode;
      }
      if rr.Set().Equals(soa.value) && (!ixfr || deleteMode) {
        if expectingSoa {
          return Some(EmptyIxfr);
        }
        if ixfr && serial != rr.Serial() {
          return Some(UnexpectedEnd);
        }
        error := Apply(ReplaceSet(target.naming, target.rdclass, txn.value, rr.name, rr.Set()));
        if error.None? {
          Commit();
          done := true;
        }
      } else {
        expectingSoa := false;
        if !ixfr {
          return Some(UnexpectedSoa);
        }
        if deleteMode {
          return if rr.Serial() != serial then Some(BaseMismatch) else None;
        }
        serial := rr.Serial();
        error := Apply(ReplaceSet(target.naming, target.rdclass, txn.value, rr.name, rr.Set()));
      }
    }

    /** The branch for any other record. */
    method ReceiveData(rr: RRset) returns (error: Option<XfrError>)
      requires Open() && txn.Some? && rr.Sound()
      modifies this
      ensures (Now(), error) == StepData(target, old(Now()), rr)
    {
      hide Add, DeleteExact;
      if expectingSoa {
        ixfr, expectingSoa, deleteMode := false, false, false;
        Writer(true);
      }
      if deleteMode {
        error := Apply(DeleteExact(target.naming, target.rdclass, txn.value, rr.name, rr.Set()));
      } else {
        error := Apply(Add(target.naming, target.rdclass, txn.value, rr.name, rr.Set()));
      }
    }

    /** The loop over the answer section, from record `from` on. */
    method ReceiveAll(answer: seq<RRset>, from: nat) returns (error: Option<XfrError>)
      requires Open() && from <= |answer| && forall i :: 0 <= i < |answer| ==> answer[i].Sound()
      modifies this
      ensures (Now(), error) == Steps(target, old(Now()), answer[from..])
    {
      hide StepSoa, StepData, IsOriginSoa;
      var i := from;
      while i < |answer|
        invariant from <= i <= |answer| && Open()
        invariant Steps(target, Now(), answer[i..]) == Steps(target, old(Now()), answer[from..])
      {
        var rr := answer[i];
        assert answer[i..][0] == rr && answer[i..][1..] == answer[i + 1..];
        ghost var stepped := Step(target, Now(), rr);
        if done {
          return Some(AnswersAfterFinal);
        }
        if IsOriginSoa(target, rr) {
          error := ReceiveSoa(rr);
        } else {
          error := ReceiveData(rr);
        }
        assert (Now(), error) == stepped;
        if error.Some? {
          return;
        }
        i := i + 1;
      }
      error := None;
    }

    /** The first message's first record. */
    method ReceiveFirst(answer: seq<RRset>) returns (error: Option<XfrError>)
      requires target.Valid()
      modifies this`soa, this`done, this`expectingSoa
      ensures (Now(), error) == First(target, old(Now()), answer)
    {
      if |answer| == 0 || !AtOrigin(target.naming, answer[0].name) {
        return Some(NoSoa);
      }
      if answer[0].rdtype != R.SOA {
        return Some(NoSoa);
      }
      soa := Some(answer[0].Set());
      if ixfr {
        if answer[0].Serial() == serial {
          done := true;
        } else if SerialLess(answer[0].Serial(), serial) {
          return Some(SerialWentBackwards);
        } else {
          if isUdp && |answer[1..]| == 0 {
            return Some(UseTCP);
          }
          expectingSoa := true;
        }
      }
      error := None;
    }

    /** The start of a message: a transaction is opened, and the error code and the question
        are looked at. */
    method Accept(m: Message) returns (error: Option<XfrError>)
      requires target.Valid() && m.Valid()
      modifies this`txn
      ensures Now() == Opened(old(Now()))
      ensures error == if m.rcode != 0 then Some(TransferError(m.rcode))
                       else if !QuestionOk(target, Now(), m) then Some(WrongQuestion) else None
    {
      if txn.None? {
        Writer(!ixfr);
      }
      if m.rcode != 0 {
        return Some(TransferError(m.rcode));
      }
      if |m.question| > 0 {
        if !AtOrigin(target.naming, m.question[0].name) {
          return Some(WrongQuestion);
        }
        if m.question[0].rdtype != if ixfr then IXFR else AXFR {
          return Some(WrongQuestion);
        }
      }
      error := None;
    }

    /** process_message: what it raises, or whether the transfer is complete.  Either way the
        zone is as it was, or there was one commit, and that ended the transfer. */
    method ProcessMessage(m: Message) returns (r: Result<bool, XfrError>)
      requires target.Valid() && m.Valid() && Atomic(Now(), base)
      modifies this
      ensures Atomic(Now(), base)
      ensures var (s, error) := Process(target, old(Now()), m);
              Now() == s && r == if error.Some? then Err(error.value) else Ok(done)
    {
      hide Steps, First, QuestionOk, Atomic, Process;
      ProcessAtomic(target, Now(), m, base);
      ProcessSteps(target, Now(), m);
      var refused := Accept(m);
      if refused.Some? {
        return Err(refused.value);
      }
      var from := 0;
      if soa.None? {
        from := 1;
        var first := ReceiveFirst(m.answer);
        if first.Some? {
          return Err(first.value);
        }
      }
      assert m.answer[0..] == m.answer;
      var error := ReceiveAll(m.answer, from);
      if error.Some? {
        return Err(error.value);
      }
      if isUdp && !done {
        return Err(UnexpectedUdpEnd);
      }
      r := Ok(done);
    }

    /** __exit__: no transaction stays open, and unless one message completed the transfer the
        zone is what it was when the transfer began. */
    method Leave()
      requires Atomic(Now(), base)
      modifies this`txn
      ensures Now() == Exit(old(Now())) && Atomic(Now(), base)
      ensures txn.None? && (!done ==> zone == base && commits == 0)
    {
      txn := None;
    }
  }

  /** process_message, case by case. */
  lemma ProcessSteps(t: Target, s: State, m: Message)
    requires t.Valid() && m.Valid()
    ensures var s0 := Opened(s);
            if m.rcode != 0 then Process(t, s, m) == (s0, Some(TransferError(m.rcode)))
            else if !QuestionOk(t, s0, m) then Process(t, s, m) == (s0, Some(WrongQuestion))
            else if s0.soa.Some? then Process(t, s, m) == Finish(Steps(t, s0, m.answer))
            else var (s1, error) := First(t, s0, m.answer);
              Process(t, s, m) == if error.Some? then (s1, error) else Finish(Steps(t, s1, m.answer[1..]))
  {
    hide Steps, First, QuestionOk;
  }
}
