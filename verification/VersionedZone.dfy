/** A zone with many readers and one writer at a time (dns/versioned.py).  Each method is
    one step that the zone's lock, or the transaction's own thread, makes atomic; a run is
    any sequence of them. */
module VersionedZone {
  import opened Common
  import opened Names
  import opened ZoneData
  import opened ZoneVersion
  import R = Records
  import Wire = NameWire

  /** A threading.Event, made by a call of writer() that has to wait.  Calls are numbered
      in the order in which they first took the lock. */
  class Event {
    ghost const call: nat
    var isSet: bool

    constructor (ghost call: nat)
      ensures this.call == call && !isSet
    {
      this.call := call;
      isSet := false;
    }
  }

  /** A write transaction: made with the slot, given its version outside the lock. */
  class Transaction {
    const replacement: bool
    ghost const call: nat
    var version: WritableVersion?

    constructor (replacement: bool, ghost call: nat)
      ensures this.replacement == replacement && this.call == call && version == null
    {
      this.replacement, this.call := replacement, call;
      version := null;
    }
  }

  /** A committed version: its nodes are never written again. */
  datatype Version = Version(id: nat, nodes: NodeMap)

  /** Should a version go?  A policy is asked about the oldest version, and may look at the
      retained versions, the zone and the time: here it is given how often it was asked
      before, so that every single answer may be any. */
  type Policy = (nat, seq<nat>, nat) -> bool

  datatype ReaderError = IdNotFound | SerialNotFound

  function Ids(versions: seq<Version>): (ids: seq<nat>)
    ensures |ids| == |versions|
    ensures forall i :: 0 <= i < |ids| ==> ids[i] == versions[i].id
  {
    seq(|versions|, i requires 0 <= i < |versions| => versions[i].id)
  }

  // ---------------------------------------------------------------- what the zone keeps

  /** Retained versions are the last of the history, numbered from one, and each still holds
      what it held when it was committed; every open reader's version, and all after it, is
      retained. */
  ghost predicate VersionsOk(versions: seq<Version>, nodes: NodeMap, history: seq<Contents>, frozen: set<Node>,
                             readers: map<nat, nat>)
    reads frozen
  {
    && 0 < |versions| <= |history|
    && (forall i :: 0 <= i < |versions| ==> versions[i].id == |history| - |versions| + i + 1)
    && (forall i :: 0 <= i < |versions| ==> VersionOk(versions[i], history, frozen))
    && nodes == versions[|versions| - 1].nodes
    && (forall r :: r in readers ==> versions[0].id <= readers[r] <= |history|)
  }

  ghost predicate VersionOk(v: Version, history: seq<Contents>, frozen: set<Node>)
    reads frozen
  {
    && v.nodes.Values <= frozen && 0 < v.id <= |history|
    && ContentsOf(v.nodes) == history[v.id - 1]
  }

  /** Names of the zone's own relativity. */
  predicate NodesOk(naming: Naming, nodes: NodeMap) {
    naming.Valid() && forall k :: k in nodes ==> IsAbsolute(k) == !naming.relativize
  }

  /** The queue of writers: `granted` calls have had the write slot, then comes the call
      that has been woken, if any, then the waiting ones, up to the last to arrive.  With no
      live writer and nobody woken, nobody is waiting. */
  ghost predicate QueueOk(writeTxn: Transaction?, writeEvent: Event?, waiters: seq<Event>, arrived: nat, granted: nat,
                          ended: nat)
    reads waiters, writeEvent
  {
    var woken := if writeEvent == null then 0 else 1;
    && granted + woken + |waiters| == arrived
    && ended + (if writeTxn != null then 1 else 0) == granted
    && (writeTxn != null ==> writeEvent == null && writeTxn.call == granted - 1)
    && (writeEvent != null ==> writeEvent.isSet && writeEvent.call == granted)
    && (forall i :: 0 <= i < |waiters| ==> !waiters[i].isSet && waiters[i].call == granted + woken + i)
    && (writeTxn == null && writeEvent == null ==> waiters == [])
  }

  /** An event that is set belongs to the call that is next in line. */
  lemma WokenIsNext(writeTxn: Transaction?, writeEvent: Event?, waiters: seq<Event>, arrived: nat, granted: nat,
                    ended: nat, event: Event)
    requires QueueOk(writeTxn, writeEvent, waiters, arrived, granted, ended)
    requires (event == writeEvent || event in waiters) && event.isSet
    ensures event == writeEvent && writeTxn == null && event.call == granted
  {
  }

  /** The free slot goes to the call that was woken, or to one that finds nobody waiting. */
  lemma QueueServed(writeEvent: Event?, waiters: seq<Event>, arrived: nat, granted: nat, ended: nat, txn: Transaction)
    requires QueueOk(null, writeEvent, waiters, arrived, granted, ended) && txn.call == granted
    ensures QueueOk(txn, null, waiters, if writeEvent == null then arrived + 1 else arrived, granted + 1, ended)
    ensures writeEvent == null ==> granted == arrived
  {
  }

  lemma QueueJoined(writeTxn: Transaction?, writeEvent: Event?, waiters: seq<Event>, arrived: nat, granted: nat,
                    ended: nat, mine: Event)
    requires QueueOk(writeTxn, writeEvent, waiters, arrived, granted, ended) && (writeTxn != null || writeEvent != null)
    requires mine.call == arrived && !mine.isSet
    ensures QueueOk(writeTxn, writeEvent, waiters + [mine], arrived + 1, granted, ended)
  {
  }

  /** The version being written: numbered next, started from the current one or from
      nothing, and sharing no node of its own with any committed version. */
  ghost predicate WriterOk(w: WritableVersion, naming: Naming, rdclass: U16, history: seq<Contents>, frozen: set<Node>,
                           nodes: NodeMap)
    reads w
  {
    && w.Valid() && w.naming == naming && w.rdclass == rdclass && w.id == |history| + 1
    && w.owned !! frozen && (w.base == nodes || w.base == map[])
  }

  class Zone {
    const naming: Naming
    const rdclass: U16
    var versions: seq<Version>
    var nodes: NodeMap
    var policy: Policy
    var checks: nat
    var readers: map<nat, nat>
    var writeTxn: Transaction?
    var writeEvent: Event?
    var waiters: seq<Event>
    ghost var history: seq<Contents>
    ghost var frozen: set<Node>
    ghost var arrived: nat
    ghost var granted: nat
    ghost var ended: nat

    ghost predicate Valid()
      reads this, frozen, waiters, writeEvent, writeTxn
      reads if writeTxn == null then null else writeTxn.version
    {
      && NodesOk(naming, nodes) && VersionsOk(versions, nodes, history, frozen, readers)
      && QueueOk(writeTxn, writeEvent, waiters, arrived, granted, ended)
      && (writeTxn != null && writeTxn.version != null ==>
            WriterOk(writeTxn.version, naming, rdclass, history, frozen, nodes))
    }

    constructor (naming: Naming, rdclass: U16, policy: Policy)
      requires naming.Valid()
      ensures Valid() && history == [map[]] && Ids(versions) == [1] && readers == map[]
      ensures writeTxn == null && arrived == 0
      ensures this.naming == naming && this.rdclass == rdclass && this.policy == policy
    {
      this.naming, this.rdclass, this.policy := naming, rdclass, policy;
      checks := 0;
      versions, nodes, readers := [Version(1, map[])], map[], map[];
      writeTxn, writeEvent, waiters := null, null, [];
      history, frozen, arrived, granted, ended := [map[]], {}, 0, 0, 0;
    }

    // ---------------------------------------------------------------- the write slot

    /** One pass of the loop in writer(): the first (event is null), or one after the call's
        event was set.  The slot goes to the call if it is free and nobody else has been
        woken for it; otherwise the call joins the queue with an event of its own. */
    method TryWriter(event: Event?, replacement: bool) returns (r: Option<Event>)
      requires Valid()
      requires event != null ==> (event == writeEvent || event in waiters) && event.isSet
      modifies this`writeTxn, this`writeEvent, this`waiters, this`arrived, this`granted
      ensures Valid()
      ensures arrived == if event == null then old(arrived) + 1 else old(arrived)
      // a call that was woken never has to wait again, and it is the next in line
      ensures event != null ==> r.None? && event.call == old(granted)
      // whoever gets the slot finds it free, and is the earliest call not yet served
      ensures r.None? ==>
        && old(writeTxn) == null && fresh(writeTxn) && writeTxn.version == null && writeTxn.replacement == replacement
        && writeTxn.call == old(granted) && granted == old(granted) + 1
        && (event == null ==> old(granted) == old(arrived))
      ensures r.Some? ==>
        && writeTxn == old(writeTxn) && granted == old(granted)
        && fresh(r.value) && r.value.call == old(arrived) && waiters == old(waiters) + [r.value]
    {
      hide VersionsOk, WriterOk, QueueOk, NodesOk;
      if event != null {
        WokenIsNext(writeTxn, writeEvent, waiters, arrived, granted, ended, event);
      }
      if writeTxn == null && event == writeEvent {
        var txn := new Transaction(replacement, granted);
        QueueServed(writeEvent, waiters, arrived, granted, ended, txn);
        if event == null {
          arrived := arrived + 1;
        }
        granted := granted + 1;
        writeTxn := txn;
        writeEvent := null;
        return None;
      }
      var mine := new Event(arrived);
      QueueJoined(writeTxn, writeEvent, waiters, arrived, granted, ended, mine);
      waiters := waiters + [mine];
      arrived := arrived + 1;
      r := Some(mine);
    }

    /** The deferred _setup_version, outside the lock: nothing that other threads did since
        the slot was granted changes the number or the contents it starts from. */
    method SetupVersion()
      requires Valid() && writeTxn != null && writeTxn.version == null
      modifies writeTxn
      ensures Valid() && writeTxn.version != null && fresh(writeTxn.version)
      ensures writeTxn.version.id == |history| + 1 && writeTxn.version.changed == {}
      ensures writeTxn.version.Holds() == if writeTxn.replacement then map[] else history[|history| - 1]
    {
      var w := new WritableVersion(naming, rdclass, NextId(), nodes, writeTxn.replacement);
      writeTxn.version := w;
    }

    /** _get_next_version_id. */
    function NextId(): (id: nat)
      requires Valid()
      reads this, frozen, waiters, writeEvent, writeTxn
      reads if writeTxn == null then null else writeTxn.version
      ensures id == |history| + 1
    {
      versions[|versions| - 1].id + 1
    }

    /** _end_write_unlocked: free the slot and wake the first in the queue. */
    method EndWriteUnlocked()
      requires QueueOk(writeTxn, writeEvent, waiters, arrived, granted, ended) && writeTxn != null
      modifies this`writeTxn, this`writeEvent, this`waiters, this`ended, waiters
      ensures QueueOk(writeTxn, writeEvent, waiters, arrived, granted, ended)
      ensures writeTxn == null && ended == old(ended) + 1
      ensures old(waiters) == [] ==> writeEvent == null && waiters == []
      ensures old(waiters) != [] ==>
        writeEvent == old(waiters)[0] && writeEvent.isSet && waiters == old(waiters)[1..]
    {
      writeTxn := null;
      ended := ended + 1;
      if |waiters| > 0 {
        writeEvent := waiters[0];
        waiters := waiters[1..];
        writeEvent.isSet := true;
      }
    }

    /** Ending a transaction without changes to keep. */
    method EndWrite()
      requires Valid() && writeTxn != null
      modifies this`writeTxn, this`writeEvent, this`waiters, this`ended, waiters
      ensures Valid() && writeTxn == null && ended == old(ended) + 1
      ensures versions == old(versions) && nodes == old(nodes) && history == old(history) && readers == old(readers)
    {
      EndWriteUnlocked();
    }

    // ---------------------------------------------------------------- writing and committing

    /** The steps of the live writer touch only its own version: the zone stays as it is and,
        the history being unchanged, so does what every committed version holds. */
    method Put(name: Name, rds: Rdataset) returns (r: Result<(), NameFault>)
      requires Valid() && writeTxn != null && writeTxn.version != null && ValidName(name)
      modifies writeTxn.version, writeTxn.version.owned
      ensures Valid()
      ensures match ValidateName(naming, name)
              case Err(e) => r == Err(e) && writeTxn.version.Holds() == old(writeTxn.version.Holds())
              case Ok(n) =>
                r == Ok(()) && writeTxn.version.Holds() == PutSet(old(writeTxn.version.Holds()), Fold(n), rds)
    {
      hide QueueOk, ValidateName, Replace, ShapeOk;
      r := writeTxn.version.PutRdataset(name, rds);
    }

    method DeleteName(name: Name) returns (r: Result<(), NameFault>)
      requires Valid() && writeTxn != null && writeTxn.version != null && ValidName(name)
      modifies writeTxn.version
      ensures Valid()
      ensures match ValidateName(naming, name)
              case Err(e) => r == Err(e) && writeTxn.version.Holds() == old(writeTxn.version.Holds())
              case Ok(n) => r == Ok(()) && writeTxn.version.Holds() == old(writeTxn.version.Holds()) - {Fold(n)}
    {
      hide QueueOk, ValidateName, ShapeOk;
      r := writeTxn.version.DeleteNode(name);
    }

    method Delete(name: Name, rdtype: U16, covers: U16) returns (r: Result<(), DeleteFault>)
      requires Valid() && writeTxn != null && writeTxn.version != null && ValidName(name)
      modifies writeTxn.version, writeTxn.version.owned
      ensures Valid()
      ensures match ValidateName(naming, name)
              case Err(e) => r == Err(BadName(e)) && writeTxn.version.Holds() == old(writeTxn.version.Holds())
              case Ok(n) =>
                var c, k := old(writeTxn.version.Holds()), Fold(n);
                if DeleteRaises(naming, name, SetsAt(c, k), (rdclass, rdtype, covers))
                then r == Err(KeyError) && writeTxn.version.Holds() == c[k := []]
                else r == Ok(()) && writeTxn.version.Holds() == DeleteSet(c, k, (rdclass, rdtype, covers))
    {
      hide QueueOk, Remove, ShapeOk, ValidateName;
      r := writeTxn.version.DeleteRdataset(name, rdtype, covers);
    }

    /** ImmutableVersion: the changed nodes as nodes that are never written again. */
    method Freeze(w: WritableVersion) returns (result: NodeMap)
      requires w.Valid()
      ensures result.Keys == w.nodes.Keys && ContentsOf(result) == w.Holds()
      ensures forall k :: k in result ==> result[k] == w.nodes[k] || fresh(result[k])
      ensures forall k :: k in result && k in w.changed && result[k].rdatasets != [] ==> fresh(result[k])
    {
      result := w.nodes;
      var toVisit := w.changed;
      while toVisit != {}
        invariant result.Keys == w.nodes.Keys && toVisit <= w.changed
        invariant forall k :: k in result ==> result[k].rdatasets == w.nodes[k].rdatasets
        invariant forall k :: k in result ==> result[k] == w.nodes[k] || fresh(result[k])
        invariant forall k :: k in result && k in w.changed && k !in toVisit && result[k].rdatasets != [] ==>
          fresh(result[k])
        decreases toVisit
      {
        var name :| name in toVisit;
        toVisit := toVisit - {name};
        if name in result && |result[name].rdatasets| > 0 {
          var immutable := new Node(result[name].rdatasets);
          result := result[name := immutable];
        }
      }
    }

    /** The part of _commit_version_unlocked that concerns versions. */
    method AppendVersion(id: nat, result: NodeMap, ghost held: Contents)
      requires VersionsOk(versions, nodes, history, frozen, readers)
      requires id == |history| + 1 && ContentsOf(result) == held
      modifies this`versions, this`nodes, this`history, this`frozen, this`checks
      ensures VersionsOk(versions, nodes, history, frozen, readers)
      ensures nodes == result && history == old(history) + [held] && frozen == old(frozen) + result.Values
      ensures PrunedFor(old(versions) + [Version(id, result)], versions, readers, |history|, policy, old(checks))
    {
      hide VersionsOk;
      CommitKeeps(versions, nodes, history, frozen, readers, Version(id, result), held);
      versions := versions + [Version(id, result)];
      nodes := result;
      frozen := frozen + result.Values;
      history := history + [held];
      PruneVersionsUnlocked();
    }

    /** _end_transaction with commit: a version with changes joins the history; one without
        is dropped.  Either way the slot goes on. */
    method Commit()
      requires Valid() && writeTxn != null && writeTxn.version != null
      modifies this`versions, this`nodes, this`history, this`frozen, this`checks
      modifies this`writeTxn, this`writeEvent, this`waiters, this`ended, waiters
      ensures Valid() && writeTxn == null && ended == old(ended) + 1 && readers == old(readers)
      ensures old(writeTxn.version.changed) == {} ==> history == old(history) && versions == old(versions)
      ensures old(writeTxn.version.changed) != {} ==>
        && history == old(history) + [old(writeTxn.version.Holds())]
        && PrunedFor(old(versions) + [Version(|history|, nodes)], versions, readers, |history|, policy, old(checks))
    {
      hide QueueOk, VersionsOk, WriterOk, NodesOk, PrunedFor, WritableVersion.Valid;
      var w := writeTxn.version;
      WriterFacts(w, naming, rdclass, history, frozen, nodes);
      if w.changed == {} {
        EndWrite();
        return;
      }
      var result := Freeze(w);
      Frozen(w, result);
      AppendVersion(w.id, result, w.Holds());
      EndWriteUnlocked();
    }

    // ---------------------------------------------------------------- readers and pruning

    /** The oldest version a reader has open, or the current one when there is no reader. */
    method LeastKept() returns (id: nat)
      requires VersionsOk(versions, nodes, history, frozen, readers)
      ensures versions[0].id <= id <= |history|
      ensures forall r :: r in readers ==> id <= readers[r]
      ensures readers == map[] ==> id == |history|
      ensures readers != map[] ==> id in readers.Values
    {
      hide QueueOk, WriterOk, VersionOk;
      id := versions[|versions| - 1].id;
      var toVisit := readers.Keys;
      while toVisit != {}
        invariant toVisit <= readers.Keys && versions[0].id <= id <= |history|
        invariant forall r :: r in readers && r !in toVisit ==> id <= readers[r]
        invariant id == |history| || id in readers.Values
        invariant id !in readers.Values ==> toVisit == readers.Keys || id == |history|
        decreases toVisit
      {
        var r :| r in toVisit;
        assert readers[r] in readers.Values;
        toVisit := toVisit - {r};
        if readers[r] <= id {
          id := readers[r];
        }
      }
      if readers != map[] {
        var r :| r in readers;
        assert readers[r] <= |history|;
      }
    }

    /** _prune_versions_unlocked: from the oldest on, versions go for as long as nobody could
        still need them and the policy agrees. */
    method PruneVersionsUnlocked()
      requires VersionsOk(versions, nodes, history, frozen, readers)
      modifies this`versions, this`checks
      ensures VersionsOk(versions, nodes, history, frozen, readers)
      ensures PrunedFor(old(versions), versions, readers, |history|, policy, old(checks))
    {
      hide QueueOk, WriterOk, VersionsOk, Pruned, Ids, PrunedFor;
      var leastKept := LeastKept();
      VersionsShape(versions, nodes, history, frozen, readers);
      var n := checks;
      while versions[0].id < leastKept && policy(n, Ids(versions), versions[0].id)
        invariant VersionsOk(versions, nodes, history, frozen, readers)
        invariant 0 < |versions| && versions[|versions| - 1].id == |history|
        invariant Pruned(versions, leastKept, policy, n) == Pruned(old(versions), leastKept, policy, old(checks))
        decreases |versions|
      {
        DropOldest(versions, nodes, history, frozen, readers, leastKept);
        PrunedStep(versions, leastKept, policy, n);
        versions := versions[1..];
        n := n + 1;
        VersionsShape(versions, nodes, history, frozen, readers);
      }
      PrunedStep(versions, leastKept, policy, n);
      PrunedTo(old(versions), versions, readers, |history|, policy, old(checks), leastKept);
      checks := n + 1;
    }

    /** A new reader of the current version. */
    method OpenReader(txn: nat) returns (version: Version)
      requires Valid() && txn !in readers
      modifies this`readers
      ensures Valid() && version.id == |history|
      ensures readers == old(readers)[txn := version.id]
      ensures ContentsOf(version.nodes) == history[version.id - 1]
    {
      version := versions[|versions| - 1];
      readers := readers[txn := version.id];
    }

    /** A new reader of the version with a given number. */
    method OpenReaderAt(txn: nat, id: nat) returns (r: Result<Version, ReaderError>)
      requires Valid() && txn !in readers
      modifies this`readers
      ensures Valid()
      ensures r.Ok? <==> id in Ids(versions)
      ensures r.Ok? ==>
        && r.value.id == id && readers == old(readers)[txn := id]
        && 0 < id <= |history| && ContentsOf(r.value.nodes) == history[id - 1]
      ensures r.Err? ==> r == Err(IdNotFound) && readers == old(readers)
    {
      hide QueueOk, WriterOk, VersionsOk;
      var i := |versions|;
      while i > 0
        invariant 0 <= i <= |versions|
        invariant forall j :: i <= j < |versions| ==> versions[j].id != id
      {
        i := i - 1;
        if versions[i].id == id {
          RetainedOk(versions, nodes, history, frozen, readers, i);
          ReaderAdded(versions, nodes, history, frozen, readers, txn, i);
          readers := readers[txn := id];
          assert Ids(versions)[i] == id;
          return Ok(versions[i]);
        }
      }
      r := Err(IdNotFound);
    }

    /** The latest retained version whose SOA at the origin has a serial. */
    method FindSerial(serial: U32) returns (r: Option<nat>)
      requires Valid() && (naming.relativize || naming.origin.Some?)
      ensures r.None? <==> forall i :: 0 <= i < |versions| ==> SerialAt(i) != Some(serial)
      ensures r.Some? ==>
        && r.value < |versions| && SerialAt(r.value) == Some(serial)
        && forall i :: r.value < i < |versions| ==> SerialAt(i) != Some(serial)
    {
      hide QueueOk, WriterOk, SerialOf, VersionsOk;
      var i := |versions|;
      while i > 0
        invariant 0 <= i <= |versions|
        invariant forall j :: i <= j < |versions| ==> SerialAt(j) != Some(serial)
      {
        i := i - 1;
        RetainedOk(versions, nodes, history, frozen, readers, i);
        var found := VersionSerial(versions[i].nodes);
        assert SerialAt(i) == found;
        if found == Some(serial) {
          return Some(i);
        }
      }
      r := None;
    }

    /** The serial a retained version was committed with. */
    ghost function SerialAt(i: nat): Option<U32>
      requires i < |versions| && (naming.relativize || naming.origin.Some?)
      reads this`versions, this`history
    {
      if 0 < versions[i].id <= |history| then SerialOf(history[versions[i].id - 1], naming, rdclass) else None
    }

    /** A new reader of that version. */
    method OpenReaderBySerial(txn: nat, serial: U32) returns (r: Result<Version, ReaderError>)
      requires Valid() && txn !in readers && (naming.relativize || naming.origin.Some?)
      modifies this`readers
      ensures Valid()
      ensures r.Err? <==> forall i :: 0 <= i < |versions| ==> SerialAt(i) != Some(serial)
      ensures r.Err? ==> r == Err(SerialNotFound) && readers == old(readers)
      ensures r.Ok? ==>
        exists i :: 0 <= i < |versions| && r.value == versions[i] && readers == old(readers)[txn := r.value.id]
                    && SerialAt(i) == Some(serial) && forall j :: i < j < |versions| ==> SerialAt(j) != Some(serial)
    {
      hide QueueOk, WriterOk, SerialAt, VersionsOk;
      var found := FindSerial(serial);
      if found.None? {
        return Err(SerialNotFound);
      }
      ReaderAdded(versions, nodes, history, frozen, readers, txn, found.value);
      var i := found.value;
      readers := readers[txn := versions[i].id];
      r := Ok(versions[i]);
      assert 0 <= i < |versions| && r.value == versions[i] && SerialAt(i) == Some(serial);
    }

    function VersionSerial(nodes: NodeMap): (r: Option<U32>)
      requires naming.relativize || naming.origin.Some?
      reads nodes.Values
      ensures r == SerialOf(ContentsOf(nodes), naming, rdclass)
    {
      var oname := Fold(naming.Effective());
      if oname !in nodes then None
      else
        var soa := Find(nodes[oname].rdatasets, (rdclass, R.SOA, 0));
        if soa.Some? && soa.value.items != [] then Some(SoaSerial(soa.value.items[0])) else None
    }

    /** _end_read. */
    method EndRead(txn: nat)
      requires Valid() && txn in readers
      modifies this`readers, this`versions, this`checks
      ensures Valid() && readers == old(readers) - {txn}
      ensures PrunedFor(old(versions), versions, readers, |history|, policy, old(checks))
    {
      hide QueueOk, WriterOk, VersionOk, PrunedFor;
      readers := readers - {txn};
      PruneVersionsUnlocked();
    }

    /** set_max_versions: keep up to so many versions. */
    method SetMaxVersions(maxVersions: Option<int>) returns (ok: bool)
      requires Valid()
      modifies this`policy, this`versions, this`checks
      ensures Valid() && ok == (maxVersions.None? || maxVersions.value >= 1)
      ensures !ok ==> policy == old(policy) && versions == old(versions)
      ensures ok && maxVersions.None? ==> versions == old(versions)
      ensures ok && maxVersions.Some? ==> NewestKept(old(versions), versions, readers, |history|, maxVersions.value)
      ensures ok && maxVersions.Some? && readers == map[] ==> |versions| == Min(|old(versions)|, maxVersions.value)
    {
      if maxVersions.Some? && maxVersions.value < 1 {
        return false;
      }
      hide VersionsOk, QueueOk, WriterOk, PrunedFor, Ids;
      VersionsShape(versions, nodes, history, frozen, readers);
      SetPruningPolicy(if maxVersions.None? then ((n, ids, id) => false)
                       else ((n, ids, id) => |ids| > maxVersions.value));
      if maxVersions.Some? {
        CountKept(old(versions), versions, readers, |history|, policy, old(checks), maxVersions.value);
      } else {
        AllKept(old(versions), versions, readers, |history|, policy, old(checks));
      }
      ok := true;
    }

    method SetPruningPolicy(policy: Policy)
      requires Valid()
      modifies this`policy, this`versions, this`checks
      ensures Valid() && this.policy == policy
      ensures PrunedFor(old(versions), versions, readers, |history|, policy, old(checks))
    {
      hide VersionsOk, WriterOk, QueueOk, PrunedFor;
      this.policy := policy;
      PruneVersionsUnlocked();
    }
  }

  lemma Frozen(w: WritableVersion, result: NodeMap)
    requires w.Valid() && result.Keys == w.nodes.Keys
    ensures NodesOk(w.naming, result)
  {
    assert forall k :: k in result ==> k in w.nodes;
  }

  lemma WriterFacts(w: WritableVersion, naming: Naming, rdclass: U16, history: seq<Contents>, frozen: set<Node>,
                    nodes: NodeMap)
    requires WriterOk(w, naming, rdclass, history, frozen, nodes)
    ensures w.Valid() && w.naming == naming && w.id == |history| + 1
  {
  }

  lemma CommitKeeps(versions: seq<Version>, nodes: NodeMap, history: seq<Contents>, frozen: set<Node>,
                    readers: map<nat, nat>, v: Version, held: Contents)
    requires VersionsOk(versions, nodes, history, frozen, readers)
    requires v.id == |history| + 1 && ContentsOf(v.nodes) == held
    ensures VersionsOk(versions + [v], v.nodes, history + [held], frozen + v.nodes.Values, readers)
  {
    var all, past := versions + [v], history + [held];
    forall i | 0 <= i < |all| ensures VersionOk(all[i], past, frozen + v.nodes.Values) {
      if i < |versions| {
        assert VersionOk(versions[i], history, frozen);
      }
    }
  }

  /** The serial of the zone's own SOA. */
  function SerialOf(c: Contents, naming: Naming, rdclass: U16): Option<U32>
    requires naming.relativize || naming.origin.Some?
  {
    var soa := Find(SetsAt(c, Fold(naming.Effective())), (rdclass, R.SOA, 0));
    if soa.Some? && soa.value.items != [] then Some(SoaSerial(soa.value.items[0])) else None
  }

  /** The serial of a version whose own SOA (6) is of any two names and five numbers is the
      first of these; a version without one has none. */
  lemma SerialOfVersion(c: Contents, naming: Naming, rdclass: U16, rds: Rdataset, mname: Name, rname: Name, serial: U32,
                        refresh: U32, retry: U32, expire: U32, minimum: U32)
    requires naming.relativize || naming.origin.Some?
    requires ValidName(mname) && IsAbsolute(mname) && ValidName(rname) && IsAbsolute(rname)
    ensures var rd := SoaRdata(mname, rname, serial, refresh, retry, expire, minimum);
            Wire.Writable(rd) && rds.items == [R.Digest(rd)]
            && Find(SetsAt(c, Fold(naming.Effective())), (rdclass, 6, 0)) == Some(rds)
            ==> SerialOf(c, naming, rdclass) == Some(serial)
    ensures Find(SetsAt(c, Fold(naming.Effective())), (rdclass, 6, 0)) == None ==> SerialOf(c, naming, rdclass) == None
  {
    hide SoaSerial, R.Digest, SoaRdata;
    SerialInPlace(mname, rname, serial, refresh, retry, expire, minimum);
  }

  /** What pruning leaves. */
  function Pruned(versions: seq<Version>, least: nat, policy: Policy, n: nat): seq<Version> {
    if versions == [] || versions[0].id >= least || !policy(n, Ids(versions), versions[0].id) then versions
    else Pruned(versions[1..], least, policy, n + 1)
  }

  /** The oldest version a reader has open, or the current one. */
  ghost predicate IsLeast(least: nat, readers: map<nat, nat>, current: nat) {
    && (forall r :: r in readers ==> least <= readers[r]) && least <= current
    && (readers == map[] ==> least == current) && (readers != map[] ==> least in readers.Values)
  }

  /** Pruned up to the oldest version a reader has open, or the current one. */
  ghost predicate PrunedFor(before: seq<Version>, after: seq<Version>, readers: map<nat, nat>, current: nat,
                            policy: Policy, n: nat) {
    exists least: nat :: IsLeast(least, readers, current) && after == Pruned(before, least, policy, n)
  }

  lemma PrunedTo(before: seq<Version>, after: seq<Version>, readers: map<nat, nat>, current: nat, policy: Policy,
                 n: nat, least: nat)
    requires IsLeast(least, readers, current) && after == Pruned(before, least, policy, n)
    ensures PrunedFor(before, after, readers, current, policy, n)
  {
    hide Pruned;
  }

  /** The newest versions are left: as many as the maximum says, more if an older one is open,
      and all if there are not so many. */
  ghost predicate NewestKept(before: seq<Version>, after: seq<Version>, readers: map<nat, nat>, current: nat,
                             max: int) {
    exists least: nat ::
      && IsLeast(least, readers, current)
      && |after| == Min(|before|, Max(max, current - least + 1)) && after == before[|before| - |after|..]
  }

  lemma CountKept(before: seq<Version>, after: seq<Version>, readers: map<nat, nat>, current: nat, policy: Policy,
                  n: nat, max: int)
    requires PrunedFor(before, after, readers, current, policy, n) && max >= 1
    requires forall i :: 0 <= i < |before| ==> before[i].id == current - |before| + i + 1
    requires forall n, ids, id :: policy(n, ids, id) == (|ids| > max)
    ensures NewestKept(before, after, readers, current, max)
  {
    hide Ids, Pruned;
    var least: nat :| IsLeast(least, readers, current) && after == Pruned(before, least, policy, n);
    PrunedTail(before, least, policy, n);
    var gone := |before| - |after|;
    if gone > 0 {
      PrunedByLeave(before, least, policy, n, gone - 1);
    }
    if after != [] {
      assert after[0] == before[gone];
    }
  }

  lemma AllKept(before: seq<Version>, after: seq<Version>, readers: map<nat, nat>, current: nat, policy: Policy, n: nat)
    requires PrunedFor(before, after, readers, current, policy, n)
    requires forall n, ids, id :: !policy(n, ids, id)
    ensures after == before
  {
    hide Ids;
  }

  lemma PrunedStep(versions: seq<Version>, least: nat, policy: Policy, n: nat)
    requires versions != []
    ensures Pruned(versions, least, policy, n)
            == if versions[0].id < least && policy(n, Ids(versions), versions[0].id)
               then Pruned(versions[1..], least, policy, n + 1) else versions
  {
    hide Ids;
  }

  lemma VersionsShape(versions: seq<Version>, nodes: NodeMap, history: seq<Contents>, frozen: set<Node>,
                      readers: map<nat, nat>)
    requires VersionsOk(versions, nodes, history, frozen, readers)
    ensures 0 < |versions| <= |history| && versions[|versions| - 1].id == |history|
    ensures forall i :: 0 <= i < |versions| ==> versions[i].id == |history| - |versions| + i + 1
  {
  }

  lemma RetainedOk(versions: seq<Version>, nodes: NodeMap, history: seq<Contents>, frozen: set<Node>,
                   readers: map<nat, nat>, i: nat)
    requires VersionsOk(versions, nodes, history, frozen, readers) && i < |versions|
    ensures VersionOk(versions[i], history, frozen)
  {
  }

  lemma ReaderAdded(versions: seq<Version>, nodes: NodeMap, history: seq<Contents>, frozen: set<Node>,
                    readers: map<nat, nat>, txn: nat, i: nat)
    requires VersionsOk(versions, nodes, history, frozen, readers) && i < |versions|
    ensures VersionsOk(versions, nodes, history, frozen, readers[txn := versions[i].id])
  {
  }

  lemma DropOldest(versions: seq<Version>, nodes: NodeMap, history: seq<Contents>, frozen: set<Node>,
                   readers: map<nat, nat>, least: nat)
    requires VersionsOk(versions, nodes, history, frozen, readers)
    requires versions[0].id < least <= |history| && forall r :: r in readers ==> least <= readers[r]
    ensures VersionsOk(versions[1..], nodes, history, frozen, readers)
  {
  }

  lemma {:induction false} PrunedTail(versions: seq<Version>, least: nat, policy: Policy, n: nat)
    ensures var kept := Pruned(versions, least, policy, n);
            && |kept| <= |versions| && kept == versions[|versions| - |kept|..]
            && (kept != [] ==> kept[0].id >= least || !policy(n + |versions| - |kept|, Ids(kept), kept[0].id))
    decreases |versions|
  {
    hide Ids;
    if versions != [] && versions[0].id < least && policy(n, Ids(versions), versions[0].id) {
      PrunedTail(versions[1..], least, policy, n + 1);
      var kept := Pruned(versions[1..], least, policy, n + 1);
      assert versions[1..][|versions| - 1 - |kept|..] == versions[|versions| - |kept|..];
    } else {
      assert versions[0..] == versions;
    }
  }

  /** Each version that went was before `least`, and went by the policy's own leave. */
  lemma {:induction false} PrunedByLeave(versions: seq<Version>, least: nat, policy: Policy, n: nat, i: nat)
    requires i < |versions| - |Pruned(versions, least, policy, n)|
    ensures versions[i].id < least && policy(n + i, Ids(versions[i..]), versions[i].id)
    decreases |versions|
  {
    hide Ids;
    assert versions[0..] == versions;
    if i > 0 {
      PrunedByLeave(versions[1..], least, policy, n + 1, i - 1);
      assert versions[1..][i - 1..] == versions[i..];
    }
  }

  /** However the policy decides, pruning only takes versions from the old end and never one
      at or after `least`; and it stops at the first version the policy wants kept. */
  lemma {:induction false} PrunedIsSuffix(versions: seq<Version>, least: nat, policy: Policy, n: nat)
    ensures var kept := Pruned(versions, least, policy, n);
            && |kept| <= |versions| && kept == versions[|versions| - |kept|..]
            && (forall v :: v in versions && v.id >= least ==> v in kept)
            && (kept != [] ==> kept[0].id >= least || !policy(n + |versions| - |kept|, Ids(kept), kept[0].id))
            && (forall i :: 0 <= i < |versions| - |kept| ==>
                  versions[i].id < least && policy(n + i, Ids(versions[i..]), versions[i].id))
  {
    hide Ids, Pruned;
    PrunedTail(versions, least, policy, n);
    var kept := Pruned(versions, least, policy, n);
    forall i | 0 <= i < |versions| - |kept|
      ensures versions[i].id < least && policy(n + i, Ids(versions[i..]), versions[i].id)
    {
      PrunedByLeave(versions, least, policy, n, i);
    }
    forall v | v in versions && v.id >= least ensures v in kept {
      var i :| 0 <= i < |versions| && versions[i] == v;
      assert kept[i - (|versions| - |kept|)] == v;
    }
  }
}
