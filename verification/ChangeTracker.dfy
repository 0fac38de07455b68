/** The change tracker that replicates committed API database changes to PowerDNS.

    While a request runs, model signals feed the tracker; on a clean exit it compiles the recorded sets into a list of
    zone operations and executes them. */
module ChangeTracker {
  import opened Dns

  // ---------------------------------------------------------------------------------------------------------------
  // Database events.  Each is one row operation together with the signal it sends.
  // ---------------------------------------------------------------------------------------------------------------

  /** `RRsetModified` stands for post_save of an existing RRset and for post_save and post_delete of one of its RRs:
      the RRset has the given value afterwards.  Django deletes children before parents, so a domain's RRsets are gone
      (with their own events) when `DomainDeleted` happens. */
  datatype Event =
    | DomainCreated(name: Name)
    | DomainSaved(name: Name)
    | DomainDeleted(name: Name)
    | RRsetCreated(name: Name, key: Key, ttl: nat)
    | RRsetModified(name: Name, key: Key, value: RRset)
    | RRsetDeleted(name: Name, key: Key)

  predicate Enabled(db: Database, e: Event) {
    match e
    case DomainCreated(d) => d !in db
    case DomainSaved(d) => d in db
    case DomainDeleted(d) => d in db && db[d] == map[]
    case RRsetCreated(d, k, _) => d in db && k !in db[d]
    case RRsetModified(d, k, _) => d in db && k in db[d]
    case RRsetDeleted(d, k) => d in db && k in db[d]
  }

  function Apply(db: Database, e: Event): Database
    requires Enabled(db, e)
  {
    match e
    case DomainCreated(d) => db[d := map[]]
    case DomainSaved(_) => db
    case DomainDeleted(d) => db - {d}
    case RRsetCreated(d, k, ttl) => db[d := db[d][k := RRset(ttl, {})]]
    case RRsetModified(d, k, v) => db[d := db[d][k := v]]
    case RRsetDeleted(d, k) => db[d := db[d] - {k}]
  }

  /** A run the database accepts: every event is enabled where it happens. */
  predicate ValidRun(db: Database, evs: seq<Event>) {
    evs == [] || (ValidRun(db, evs[..|evs|-1]) && Enabled(Replay(db, evs[..|evs|-1]), evs[|evs|-1]))
  }

  /** The database after a run; the failure of a later event leaves it where it is. */
  function Replay(db: Database, evs: seq<Event>): Database {
    if evs == [] then db
    else
      var before := Replay(db, evs[..|evs|-1]);
      if Enabled(before, evs[|evs|-1]) then Apply(before, evs[|evs|-1]) else before
  }

  // ---------------------------------------------------------------------------------------------------------------
  // The tracker's state and its signal handlers, on values.
  // ---------------------------------------------------------------------------------------------------------------

  type KeySets = map<Name, set<Key>>

  datatype Tracker = Tracker(domainAdditions: set<Name>, domainDeletions: set<Name>,
                             additions: KeySets, modifications: KeySets, deletions: KeySets)

  const INITIAL := Tracker({}, {}, map[], map[], map[])

  /** What a signal handler does: it returns, fails an assertion, or raises ValueError. */
  datatype Outcome = Handled | AssertionFailed | ValueError

  function At(m: KeySets, d: Name): set<Key> {
    if d in m then m[d] else {}
  }

  function WithDomain(t: Tracker, d: Name): Tracker {
    if d in t.modifications then t
    else t.(additions := t.additions[d := {}], modifications := t.modifications[d := {}],
            deletions := t.deletions[d := {}])
  }

  predicate SameDomains(t: Tracker) {
    t.additions.Keys == t.modifications.Keys == t.deletions.Keys
  }

  function OnRRset(t0: Tracker, d: Name, k: Key, deleted: bool, created: bool): (r: (Tracker, Outcome))
    requires SameDomains(t0)
    ensures SameDomains(r.0)
  {
    var t := WithDomain(t0, d);
    if created && !deleted then
      var t1 := t.(additions := t.additions[d := t.additions[d] + {k}]);
      if k in t.modifications[d] then (t1, AssertionFailed)
      else (t1.(deletions := t.deletions[d := t.deletions[d] - {k}]), Handled)
    else if deleted && !created then
      var t1 := t.(modifications := t.modifications[d := t.modifications[d] - {k}]);
      if k in t.additions[d] then (t1.(additions := t.additions[d := t.additions[d] - {k}]), Handled)
      else (t1.(deletions := t.deletions[d := t.deletions[d] + {k}]), Handled)
    else if !created && !deleted then
      var t1 := t.(modifications := t.modifications[d := t.modifications[d] + {k}]);
      (t1, if k in t.deletions[d] then AssertionFailed else Handled)
    else
      (t, ValueError)
  }

  function OnDomain(t: Tracker, d: Name, created: bool, deleted: bool): (Tracker, Outcome) {
    if !created && !deleted then (t, Handled)
    else if created && deleted then (t, ValueError)
    else if created then
      if d in t.domainDeletions then (t.(domainDeletions := t.domainDeletions - {d}), Handled)
      else (t.(domainAdditions := t.domainAdditions + {d}), Handled)
    else
      if d in t.domainAdditions then (t.(domainAdditions := t.domainAdditions - {d}), Handled)
      else (t.(domainDeletions := t.domainDeletions + {d}), Handled)
  }

  /** Which handler call each signal leads to. */
  function Handle(t: Tracker, e: Event): (r: (Tracker, Outcome))
    requires SameDomains(t)
    ensures SameDomains(r.0)
  {
    match e
    case DomainCreated(d) => OnDomain(t, d, true, false)
    case DomainSaved(d) => OnDomain(t, d, false, false)
    case DomainDeleted(d) => OnDomain(t, d, false, true)
    case RRsetCreated(d, k, _) => OnRRset(t, d, k, false, true)
    case RRsetModified(d, k, _) => OnRRset(t, d, k, false, false)
    case RRsetDeleted(d, k) => OnRRset(t, d, k, true, false)
  }

  /** The tracker after a run, or the first exception one of its handlers raised. */
  function Track(evs: seq<Event>): (r: (Tracker, Outcome))
    ensures SameDomains(r.0)
  {
    if evs == [] then (INITIAL, Handled)
    else
      var before := Track(evs[..|evs|-1]);
      if before.1 != Handled then before else Handle(before.0, evs[|evs|-1])
  }

  // ---------------------------------------------------------------------------------------------------------------
  // Per key, the three sets encode a five-state automaton.
  // ---------------------------------------------------------------------------------------------------------------

  datatype Status = Untouched | Added | AddedModified | Modified | Deleted

  /** The automaton's transitions; creating an existing key or modifying a deleted one is not among them. */
  function Next(s: Status, deleted: bool, created: bool): Status {
    if created then Added
    else if deleted then (if s == Added || s == AddedModified then Untouched else Deleted)
    else (if s == Added || s == AddedModified then AddedModified else Modified)
  }

  /** The automaton driven by the events on one key only. */
  function StatusOf(evs: seq<Event>, d: Name, k: Key): Status {
    if evs == [] then Untouched
    else
      var s := StatusOf(evs[..|evs|-1], d, k);
      var e := evs[|evs|-1];
      if OnKey(e, d, k) then Next(s, e.RRsetDeleted?, e.RRsetCreated?) else s
  }

  predicate OnKey(e: Event, d: Name, k: Key) {
    (e.RRsetCreated? || e.RRsetModified? || e.RRsetDeleted?) && e.name == d && e.key == k
  }

  /** What the tracker's sets say about a key. */
  function Recorded(t: Tracker, d: Name, k: Key): Status {
    if k in At(t.deletions, d) then Deleted
    else if k in At(t.additions, d) then (if k in At(t.modifications, d) then AddedModified else Added)
    else if k in At(t.modifications, d) then Modified
    else Untouched
  }

  /** The key was deleted and created again later in the run. */
  predicate Recreated(evs: seq<Event>, d: Name, k: Key) {
    evs != [] &&
    (Recreated(evs[..|evs|-1], d, k) ||
     (var e := evs[|evs|-1]; e.RRsetCreated? && e.name == d && e.key == k && RRsetDeleted(d, k) in evs[..|evs|-1]))
  }

  /** The class documentation's guarantee. */
  ghost predicate Disjoint(t: Tracker) {
    forall d, k :: k in At(t.deletions, d) ==> k !in At(t.additions, d) && k !in At(t.modifications, d)
  }

  ghost predicate Present(db: Database, d: Name, k: Key) {
    d in db && k in db[d]
  }

  /** What the automaton's state of a key means, given where the run started and where it is now. */
  ghost predicate Meaning(db0: Database, db: Database, evs: seq<Event>, d: Name, k: Key) {
    var existed, exists_, reborn := Present(db0, d, k), Present(db, d, k), Recreated(evs, d, k);
    match StatusOf(evs, d, k)
    case Untouched =>
      if exists_ then existed && db[d][k] == db0[d][k] && RRsetDeleted(d, k) !in evs
      else !existed || reborn
    case Added => exists_ && db[d][k].records == {} && (existed ==> reborn)
    case AddedModified => exists_ && (existed ==> reborn)
    case Modified => exists_ && existed && RRsetDeleted(d, k) !in evs
    case Deleted => !exists_ && existed && RRsetDeleted(d, k) in evs && !reborn
  }

  lemma {:induction false} RecreatedNeedsDeletion(evs: seq<Event>, d: Name, k: Key)
    ensures Recreated(evs, d, k) ==> RRsetDeleted(d, k) in evs
  {
    if evs != [] {
      RecreatedNeedsDeletion(evs[..|evs|-1], d, k);
      assert evs == evs[..|evs|-1] + [evs[|evs|-1]];
    }
  }

  lemma {:induction false} MeaningHolds(db0: Database, evs: seq<Event>, d: Name, k: Key)
    requires ValidRun(db0, evs)
    ensures Meaning(db0, Replay(db0, evs), evs, d, k)
  {
    if evs != [] {
      var before, e := evs[..|evs|-1], evs[|evs|-1];
      MeaningHolds(db0, before, d, k);
      RecreatedNeedsDeletion(before, d, k);
      assert evs == before + [e];
    }
  }

  /** What each kind of handler call does to the three dictionaries. */
  lemma CreationMaps(t: Tracker, d: Name, k: Key)
    requires SameDomains(t) && k !in At(t.modifications, d)
    ensures var (t', o) := OnRRset(t, d, k, false, true);
            && o == Handled && t' == t.(additions := t'.additions, modifications := t'.modifications, deletions := t'.deletions)
            && t'.additions == t.additions[d := At(t.additions, d) + {k}]
            && t'.modifications == t.modifications[d := At(t.modifications, d)]
            && t'.deletions == t.deletions[d := At(t.deletions, d) - {k}]
  {
  }

  lemma DeletionMaps(t: Tracker, d: Name, k: Key)
    requires SameDomains(t)
    ensures var (t', o) := OnRRset(t, d, k, true, false);
            && o == Handled && t' == t.(additions := t'.additions, modifications := t'.modifications, deletions := t'.deletions)
            && t'.additions == t.additions[d := At(t.additions, d) - {k}]
            && t'.modifications == t.modifications[d := At(t.modifications, d) - {k}]
            && t'.deletions
               == t.deletions[d := if k in At(t.additions, d) then At(t.deletions, d) else At(t.deletions, d) + {k}]
  {
    var a := At(t.additions, d);
    assert k !in a ==> a - {k} == a;
  }

  lemma ModificationMaps(t: Tracker, d: Name, k: Key)
    requires SameDomains(t) && k !in At(t.deletions, d)
    ensures var (t', o) := OnRRset(t, d, k, false, false);
            && o == Handled && t' == t.(additions := t'.additions, modifications := t'.modifications, deletions := t'.deletions)
            && t'.additions == t.additions[d := At(t.additions, d)]
            && t'.modifications == t.modifications[d := At(t.modifications, d) + {k}]
            && t'.deletions == t.deletions[d := At(t.deletions, d)]
  {
  }

  /** One handler call rewrites the three sets of its domain and leaves those of the other domains alone. */
  lemma HandlerSets(t: Tracker, d: Name, k: Key, deleted: bool, created: bool)
    requires SameDomains(t) && !(deleted && created)
    requires created ==> k !in At(t.modifications, d)
    requires !created && !deleted ==> k !in At(t.deletions, d)
    ensures var (t', o) := OnRRset(t, d, k, deleted, created);
            var a, m, x := At(t.additions, d), At(t.modifications, d), At(t.deletions, d);
            && o == Handled
            && t'.domainAdditions == t.domainAdditions && t'.domainDeletions == t.domainDeletions
            && (forall c :: c != d ==> At(t'.additions, c) == At(t.additions, c))
            && (forall c :: c != d ==> At(t'.modifications, c) == At(t.modifications, c))
            && (forall c :: c != d ==> At(t'.deletions, c) == At(t.deletions, c))
            && At(t'.additions, d) == (if created then a + {k} else if deleted then a - {k} else a)
            && At(t'.modifications, d) == (if created then m else if deleted then m - {k} else m + {k})
            && At(t'.deletions, d) == (if created then x - {k} else if deleted && k !in a then x + {k} else x)
  {
    hide OnRRset;
    if created {
      CreationMaps(t, d, k);
    } else if deleted {
      DeletionMaps(t, d, k);
    } else {
      ModificationMaps(t, d, k);
    }
  }

  /** One handler call is one automaton step on its key and leaves the other keys alone. */
  lemma HandlerStep(t: Tracker, d: Name, k: Key, deleted: bool, created: bool, c: Name, j: Key)
    requires SameDomains(t) && Disjoint(t) && !(deleted && created)
    requires created ==> k !in At(t.modifications, d)
    requires !created && !deleted ==> k !in At(t.deletions, d)
    ensures var t' := OnRRset(t, d, k, deleted, created).0;
            && Recorded(t', c, j)
               == (if c == d && j == k then Next(Recorded(t, d, k), deleted, created) else Recorded(t, c, j))
            && (j in At(t'.deletions, c) ==> j !in At(t'.additions, c) && j !in At(t'.modifications, c))
  {
    HandlerSets(t, d, k, deleted, created);
    if c != d {
      assert Recorded(OnRRset(t, d, k, deleted, created).0, c, j) == Recorded(t, c, j);
    }
  }

  /** On every run the database accepts, no handler raises, the three dictionaries have the same domains, additions and
      modifications stay disjoint from deletions, and the sets say of each key exactly what the automaton says. */
  lemma {:induction false} TrackerRefinesAutomaton(db0: Database, evs: seq<Event>)
    requires ValidRun(db0, evs)
    ensures Track(evs).1 == Handled
    ensures SameDomains(Track(evs).0) && Disjoint(Track(evs).0)
    ensures forall d, k :: Recorded(Track(evs).0, d, k) == StatusOf(evs, d, k)
  {
    hide OnRRset, OnDomain, Recreated;
    if evs != [] {
      var before, e := evs[..|evs|-1], evs[|evs|-1];
      TrackerRefinesAutomaton(db0, before);
      HandlerDomains(Track(before).0, e);
      var t := Track(before).0;
      if e.RRsetCreated? || e.RRsetModified? || e.RRsetDeleted? {
        MeaningHolds(db0, before, e.name, e.key);
        assert Recorded(t, e.name, e.key) == StatusOf(before, e.name, e.key);
        HandlerSets(t, e.name, e.key, e.RRsetDeleted?, e.RRsetCreated?);
        forall d, k
          ensures Recorded(Track(evs).0, d, k) == StatusOf(evs, d, k)
          ensures k in At(Track(evs).0.deletions, d) ==>
                    k !in At(Track(evs).0.additions, d) && k !in At(Track(evs).0.modifications, d)
        {
          assert Recorded(t, d, k) == StatusOf(before, d, k);
          HandlerStep(t, e.name, e.key, e.RRsetDeleted?, e.RRsetCreated?, d, k);
        }
      } else {
        forall d, k ensures Recorded(Track(evs).0, d, k) == StatusOf(evs, d, k) {
          assert Recorded(t, d, k) == StatusOf(before, d, k);
        }
      }
    }
  }

  lemma HandlerDomains(t: Tracker, e: Event)
    requires SameDomains(t)
    ensures var t', d := Handle(t, e).0, {e.name};
            && t'.domainAdditions == (if e.DomainCreated? && e.name !in t.domainDeletions then t.domainAdditions + d
                                      else if e.DomainDeleted? then t.domainAdditions - d else t.domainAdditions)
            && t'.domainDeletions == (if e.DomainDeleted? && e.name !in t.domainAdditions then t.domainDeletions + d
                                      else if e.DomainCreated? then t.domainDeletions - d else t.domainDeletions)
            && (e.DomainCreated? || e.DomainSaved? || e.DomainDeleted? ==>
                  Handle(t, e).1 == Handled
                  && t' == t.(domainAdditions := t'.domainAdditions, domainDeletions := t'.domainDeletions))
  {
  }

  /** The domain sets hold exactly the net changes: a domain created and deleted again in the run is in neither. */
  lemma {:induction false} DomainSetsAreNetChanges(db0: Database, evs: seq<Event>)
    requires ValidRun(db0, evs)
    ensures Track(evs).0.domainAdditions == Replay(db0, evs).Keys - db0.Keys
    ensures Track(evs).0.domainDeletions == db0.Keys - Replay(db0, evs).Keys
  {
    hide OnRRset, OnDomain, Handle, Disjoint, Recorded, StatusOf, SameDomains;
    if evs != [] {
      var before, e := evs[..|evs|-1], evs[|evs|-1];
      DomainSetsAreNetChanges(db0, before);
      TrackerRefinesAutomaton(db0, before);
      HandlerDomains(Track(before).0, e);
    }
  }

  // ---------------------------------------------------------------------------------------------------------------
  // Runs are possible: from every database to every other one
  // ---------------------------------------------------------------------------------------------------------------

  ghost predicate Reaches(db0: Database, db: Database) {
    exists evs :: ValidRun(db0, evs) && Replay(db0, evs) == db
  }

  lemma ReachesOn(db0: Database, db: Database, e: Event)
    requires Reaches(db0, db) && Enabled(db, e)
    ensures Reaches(db0, Apply(db, e))
  {
    var evs :| ValidRun(db0, evs) && Replay(db0, evs) == db;
    assert (evs + [e])[..|evs|] == evs;
    assert ValidRun(db0, evs + [e]) && Replay(db0, evs + [e]) == Apply(db, e);
  }

  lemma {:induction false} RRsetsDeleted(db0: Database, db: Database, d: Name)
    requires Reaches(db0, db) && d in db
    ensures Reaches(db0, db[d := map[]])
    decreases |db[d]|
  {
    hide Reaches;
    if db[d] == map[] {
      assert db[d := map[]] == db;
    } else {
      var k :| k in db[d];
      ReachesOn(db0, db, RRsetDeleted(d, k));
      var db1 := db[d := db[d] - {k}];
      assert |db[d] - {k}| < |db[d]| by {
        FewerKeys(db[d], k);
      }
      RRsetsDeleted(db0, db1, d);
      assert db1[d := map[]] == db[d := map[]];
    }
  }

  lemma FewerKeys<K, V>(m: map<K, V>, k: K)
    requires k in m
    ensures |m - {k}| < |m|
  {
    assert (m - {k}).Keys == m.Keys - {k};
    assert |(m - {k}).Keys| == |m - {k}| && |m.Keys| == |m|;
  }

  lemma {:induction false} DomainsDeleted(db0: Database, db: Database)
    requires Reaches(db0, db)
    ensures Reaches(db0, map[])
    decreases |db|
  {
    hide Reaches;
    if db != map[] {
      var d :| d in db;
      RRsetsDeleted(db0, db, d);
      ReachesOn(db0, db[d := map[]], DomainDeleted(d));
      assert db[d := map[]] - {d} == db - {d};
      FewerKeys(db, d);
      DomainsDeleted(db0, db - {d});
    }
  }

  lemma {:induction false} RRsetsCreated(db0: Database, db: Database, d: Name, z: Zone, todo: set<Key>)
    requires Reaches(db0, db) && d in db && todo <= z.Keys && db[d] == z - todo
    ensures Reaches(db0, db[d := z])
    decreases todo
  {
    hide Reaches;
    if todo == {} {
      assert z - todo == z && db[d := z] == db;
    } else {
      var k :| k in todo;
      ReachesOn(db0, db, RRsetCreated(d, k, z[k].ttl));
      var db1 := Apply(db, RRsetCreated(d, k, z[k].ttl));
      ReachesOn(db0, db1, RRsetModified(d, k, z[k]));
      var db2 := Apply(db1, RRsetModified(d, k, z[k]));
      assert db2[d] == z - (todo - {k});
      RRsetsCreated(db0, db2, d, z, todo - {k});
      assert db2[d := z] == db[d := z];
    }
  }

  lemma {:induction false} DomainsCreated(db0: Database, db: Database, todo: set<Name>)
    requires todo <= db.Keys && Reaches(db0, db - todo)
    ensures Reaches(db0, db)
    decreases todo
  {
    hide Reaches;
    if todo == {} {
      assert db - todo == db;
    } else {
      var d :| d in todo;
      ReachesOn(db0, db - todo, DomainCreated(d));
      var db1 := (db - todo)[d := map[]];
      ReachesOn(db0, db1, DomainSaved(d));
      assert db[d] - db[d].Keys == map[];
      RRsetsCreated(db0, db1, d, db[d], db[d].Keys);
      assert db1[d := db[d]] == db - (todo - {d});
      DomainsCreated(db0, db, todo - {d});
    }
  }

  /** From every database, a run that is accepted leads to every other one. */
  lemma EveryDatabaseReachable(db0: Database, db: Database)
    ensures exists evs :: ValidRun(db0, evs) && Replay(db0, evs) == db
  {
    assert Reaches(db0, db0) by {
      assert ValidRun(db0, []) && Replay(db0, []) == db0;
    }
    DomainsDeleted(db0, db0);
    assert db - db.Keys == map[];
    DomainsCreated(db0, db, db.Keys);
  }
}
