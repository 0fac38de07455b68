/** A bulk request from the database to the name servers: what is committed is what is served, and repeating a request
    does nothing. */
module BulkReplication {
  import opened Dns
  import opened ChangeTracker
  import opened Replication
  import opened PdnsChangeTracker
  import opened Records
  import opened ApiDatabase
  import opened BulkUpdate

  /** Carrying out a batch a second time is accepted again and changes nothing. */
  lemma RepeatedBatchChangesNothing(canon: Canonicalizer, z: Zone, index: map<Key, Row>)
    requires WellKeyed(index) && Accepted(canon, z, index)
    ensures Accepted(canon, Merged(canon, z, index), index)
    ensures Merged(canon, Merged(canon, z, index), index) == Merged(canon, z, index)
  {
    var m := Merged(canon, z, index);
    forall k | k in index ensures RowOk(canon, m, index[k]) && Same(canon, m, index[k]) {
      assert RowOk(canon, z, index[k]);
      assert k in m <==> !IsEmpty(index[k]);
    }
    UnchangedIffSame(canon, m, index);
  }

  lemma {:induction false} RecreatedNeedsBoth(evs: seq<Event>, d: Name, k: Key)
    requires Recreated(evs, d, k)
    ensures RRsetDeleted(d, k) in evs && exists ttl :: RRsetCreated(d, k, ttl) in evs
  {
    var init, e := evs[..|evs|-1], evs[|evs|-1];
    assert evs == init + [e];
    if Recreated(init, d, k) {
      RecreatedNeedsBoth(init, d, k);
      var ttl :| RRsetCreated(d, k, ttl) in init;
      assert RRsetCreated(d, k, ttl) in evs;
    } else {
      assert RRsetCreated(d, k, e.ttl) in evs;
    }
  }

  /** If no key is both created and deleted, nothing is forgotten. */
  lemma NothingForgotten(db0: Database, evs: seq<Event>)
    requires forall d, k, ttl :: RRsetDeleted(d, k) in evs ==> RRsetCreated(d, k, ttl) !in evs
    ensures forall d, k :: !Forgotten(db0, evs, d, k)
  {
    forall d, k ensures !Forgotten(db0, evs, d, k) {
      if Recreated(evs, d, k) {
        RecreatedNeedsBoth(evs, d, k);
      }
    }
  }

  lemma {:induction false} NoDomainEvents(db0: Database, evs: seq<Event>)
    requires forall e :: e in evs ==> e.RRsetCreated? || e.RRsetModified? || e.RRsetDeleted?
    ensures Replay(db0, evs).Keys == db0.Keys
  {
    if evs != [] {
      var init, e := evs[..|evs|-1], evs[|evs|-1];
      assert evs == init + [e];
      NoDomainEvents(db0, init);
      assert e in evs;
    }
  }

  /** Only RRsets change in the run, and no key is both created and deleted. */
  ghost predicate OneWay(evs: seq<Event>) {
    && (forall e :: e in evs ==> e.RRsetCreated? || e.RRsetModified? || e.RRsetDeleted?)
    && (forall d, k, ttl :: RRsetDeleted(d, k) in evs ==> RRsetCreated(d, k, ttl) !in evs)
  }

  /** Such a run leaves both name servers with exactly the non-empty RRsets of the database. */
  lemma OneWayRunReplicates(db0: Database, evs: seq<Event>, dels: seq<Name>, ups: seq<Name>, ns: RRset)
    requires ValidRun(db0, evs) && OneWay(evs)
    requires Enumerates(dels, Track(evs).0.domainDeletions) && Enumerates(ups, UpdatedDomains(Track(evs).0))
    ensures var db := Replay(db0, evs);
            var r := Commit(Track(evs).0, db, View(db0), View(db0), dels, ups, ns);
            r.Ok? && r.value.db == db && r.value.lord == View(db) && r.value.master == View(db)
  {
    hide Track, Commit, Forgotten, View;
    NothingForgotten(db0, evs);
    NoDomainEvents(db0, evs);
    CommitReplicates(db0, evs, dels, ups, ns);
    ZonesEqualDatabaseIff(db0, evs, dels, ups, ns);
    assert WithDefaultNs(db0, Replay(db0, evs), ns) == Replay(db0, evs);
  }

  lemma TransactionIsOneWay(t: Transaction)
    requires t.Valid() && t.created !! t.deleted
    ensures ValidRun(t.start, t.signals) && Replay(t.start, t.signals) == t.db && OneWay(t.signals)
  {
  }

  lemma CommitOfTransaction(t: Transaction, dels: seq<Name>, ups: seq<Name>, ns: RRset)
    requires t.Valid()
    requires Enumerates(dels, Track(t.signals).0.domainDeletions) && Enumerates(ups, UpdatedDomains(Track(t.signals).0))
    ensures ValidRun(t.start, t.signals) && Replay(t.start, t.signals) == t.db
    ensures var r := Commit(Track(t.signals).0, t.db, View(t.start), View(t.start), dels, ups, ns);
            && r.Ok? && r.value.db == t.db && r.value.master == r.value.lord
            && (r.value.lord == View(t.db) <==> forall d, k :: !Forgotten(t.start, t.signals, d, k))
  {
    hide Track, Commit, Forgotten, View;
    NoDomainEvents(t.start, t.signals);
    CommitReplicates(t.start, t.signals, dels, ups, ns);
    ZonesEqualDatabaseIff(t.start, t.signals, dels, ups, ns);
    assert WithDefaultNs(t.start, t.db, ns) == t.db;
  }

  /** The end of a tracked block around a transaction on RRsets: its signals have reached the tracker, and the changes are
      compiled and executed against the name servers. */
  method CommitTransaction(db0: Database, t: Transaction, ns: RRset) returns (w: World, changes: seq<Change>)
    requires t.Valid() && t.start == db0
    ensures w.db == t.db && w.master == w.lord
    ensures w.lord == View(w.db) <==> forall d, k :: !Forgotten(db0, t.signals, d, k)
    ensures t.signals == [] ==> changes == []
  {
    hide Commit, View, Compile, Transaction.Valid, Forgotten, ValidRun;
    RunOf(t);
    var db, signals := t.db, t.signals;
    var lord := View(db0);
    var tracker := Notify(db0, signals);
    ghost var dels, ups;
    changes, dels, ups := tracker.ComputeChanges(db);
    var executed := PDNSChangeTracker.Execute(World(db, lord, lord, {}), changes, ns);
    CommitOfTransaction(t, dels, ups, ns);
    CommitIsExecution(Track(signals).0, db, lord, dels, ups, ns);
    if signals == [] {
      SilentTransaction(db, dels, ups);
    }
    w := PDNSChangeTracker.TransferZones(executed.value);
  }

  /** A tracked bulk request: the update runs inside a transaction, its signals reach the tracker, and on success the
      changes are compiled and executed against the name servers. */
  method TrackedUpdate(db0: Database, canon: Canonicalizer, d: Name, data: seq<Row>, ns: RRset)
    returns (r: Result<World, UpdateError>, changes: seq<Change>)
    requires AllExclusive(db0) && d in db0
    ensures r.Ok? <==> Accepted(canon, db0[d], Index(data))
    ensures r.Ok? ==> r.value.db == db0[d := Merged(canon, db0[d], Index(data))]
    ensures r.Ok? ==> r.value.lord == View(r.value.db) && r.value.master == View(r.value.db)
    ensures r.Ok? <==> CanCarryOut(canon, db0[d], Index(data))
    ensures r.Ok? ==> Serves(r.value.lord, r.value.db) && Serves(r.value.master, r.value.db)
    ensures r.Ok? ==> d in r.value.db && forall k :: CarriedOut(canon, db0[d], Index(data), r.value.db[d], k)
    ensures r.Ok? && r.value.db == db0 ==> changes == []
    ensures r.Err? ==> changes == []
  {
    hide AllExclusive, Accepted, Merged, View, Transaction.Valid, Forgotten, CanCarryOut, CarriedOut, Serves;
    var t := new Transaction(db0);
    var e := Update(t, canon, d, data);
    if e.Some? {
      return Err(e.value), [];
    }
    assert t.created !! t.deleted;
    TransactionIsOneWay(t);
    NothingForgotten(db0, t.signals);
    var w;
    w, changes := CommitTransaction(db0, t, ns);
    ViewIffServes(w.lord, w.db);
    return Ok(w), changes;
  }

  /** Repeating an accepted request compiles to the empty change list and leaves database and zones alone. */
  method RepeatedUpdate(db0: Database, canon: Canonicalizer, d: Name, data: seq<Row>, ns: RRset)
    returns (first: Result<World, UpdateError>, second: Result<World, UpdateError>, changes: seq<Change>)
    requires AllExclusive(db0) && d in db0 && Accepted(canon, db0[d], Index(data))
    ensures first.Ok? && second.Ok? && changes == []
    ensures second.value.db == first.value.db && second.value.lord == first.value.lord
  {
    hide View;
    var ignored;
    first, ignored := TrackedUpdate(db0, canon, d, data, ns);
    IndexMembers(data);
    RepeatedBatchChangesNothing(canon, db0[d], Index(data));
    assert AllExclusive(first.value.db) by {
      forall c | c in first.value.db ensures Exclusive(first.value.db[c].Keys) {
      }
    }
    second, changes := TrackedUpdate(first.value.db, canon, d, data, ns);
    RestoredIff(first.value.db, d, Merged(canon, db0[d], Index(data)));
  }

  /** A tracker that has received the signals of a run. */
  method Notify(ghost db0: Database, signals: seq<Event>) returns (tracker: PDNSChangeTracker)
    requires ValidRun(db0, signals)
    ensures fresh(tracker) && tracker.Valid() && tracker.State() == Track(signals).0
  {
    tracker := new PDNSChangeTracker();
    TrackerRefinesAutomaton(db0, signals);
    DomainSetsAreNetChanges(db0, signals);
    for i := 0 to |signals|
      invariant Track(signals[..i]) == (tracker.State(), Handled)
    {
      assert signals[..i + 1][..i] == signals[..i];
      HandledPrefix(signals, i + 1);
      var o := tracker.On(signals[i]);
    }
    assert signals[..|signals|] == signals;
  }

  lemma CommitIsExecution(t: Tracker, db: Database, v: Database, dels: seq<Name>, ups: seq<Name>, ns: RRset)
    ensures Commit(t, db, v, v, dels, ups, ns)
         == match DoAll(World(db, v, v, {}), Compile(t, db, dels, ups), ns)
            case Err(e) => Err(e) case Ok(w) => Ok(Transfer(w))
  {
  }

  lemma SilentTransaction(db: Database, dels: seq<Name>, ups: seq<Name>)
    requires Enumerates(dels, INITIAL.domainDeletions) && Enumerates(ups, UpdatedDomains(INITIAL))
    ensures Compile(INITIAL, db, dels, ups) == []
  {
    assert forall i :: 0 <= i < |dels| ==> dels[i] in dels;
    assert forall i :: 0 <= i < |ups| ==> ups[i] in ups;
  }

  lemma {:induction false} HandledPrefix(evs: seq<Event>, n: nat)
    requires n <= |evs| && Track(evs).1 == Handled
    ensures Track(evs[..n]).1 == Handled
    decreases |evs|
  {
    if n == |evs| {
      assert evs[..n] == evs;
    } else {
      assert evs[..|evs|-1][..n] == evs[..n];
      HandledPrefix(evs[..|evs|-1], n);
    }
  }
}
