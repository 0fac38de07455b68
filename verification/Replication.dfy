/** Compiling the tracked sets into zone operations, executing them, and what the backend holds afterwards. */
module Replication {
  import opened Dns
  import opened ChangeTracker

  // ---------------------------------------------------------------------------------------------------------------
  // Compilation
  // ---------------------------------------------------------------------------------------------------------------

  datatype Change =
    | CreateDomain(name: Name)
    | DeleteDomain(name: Name)
    | UpdateRRsets(name: Name, additions: set<Key>, modifications: set<Key>, deletions: set<Key>)

  /** Additions worth sending: a new RRset that still has no records does not exist for PowerDNS. */
  function NonEmptyAdditions(t: Tracker, db: Database, d: Name): set<Key> {
    set k | k in At(t.additions, d) && HasRecords(db, d, k)
  }

  function ChangesFor(t: Tracker, db: Database, d: Name): seq<Change> {
    (if d in t.domainAdditions then [CreateDomain(d)] else []) + UpdateOf(t, db, d)
  }

  function UpdateOf(t: Tracker, db: Database, d: Name): seq<Change> {
    var a, m, x := NonEmptyAdditions(t, db, d), At(t.modifications, d), At(t.deletions, d);
    if a + m + x != {} then [UpdateRRsets(d, a, m, x)] else []
  }

  function CompileUpdates(t: Tracker, db: Database, ups: seq<Name>): seq<Change> {
    if ups == [] then [] else CompileUpdates(t, db, ups[..|ups|-1]) + ChangesFor(t, db, ups[|ups|-1])
  }

  function CompileDeletes(dels: seq<Name>): seq<Change> {
    if dels == [] then [] else CompileDeletes(dels[..|dels|-1]) + [DeleteDomain(dels[|dels|-1])]
  }

  /** The domains visited by the second loop, after the first one has popped the deleted domains. */
  function UpdatedDomains(t: Tracker): set<Name> {
    (t.additions.Keys - t.domainDeletions) + t.domainAdditions
  }

  /** The change list, given the orders in which the two loops happen to visit their sets. */
  function Compile(t: Tracker, db: Database, dels: seq<Name>, ups: seq<Name>): seq<Change> {
    CompileDeletes(dels) + CompileUpdates(t, db, ups)
  }

  // ---------------------------------------------------------------------------------------------------------------
  // Execution
  // ---------------------------------------------------------------------------------------------------------------

  /** The database inside the transaction, the zones on nslord and nsmaster, and the zones to be transferred. */
  datatype World = World(db: Database, lord: Database, master: Database, axfr: set<Name>)

  datatype Failure = ZoneExists | ZoneMissing | RowMissing | ConstraintViolated

  const APEX_NS := Key("NS", "")
  const APEX_CNAME := Key("CNAME", "")

  /** Inserting the apex NS RRset would violate uniqueness or CNAME exclusivity. */
  predicate NsBlocked(z: Zone) {
    APEX_NS in z || APEX_CNAME in z
  }

  /** A PATCH that replaces the `deletions` by nothing and then the `keys` by what `source` has for them. */
  function Patch(zone: Zone, source: Zone, keys: set<Key>, deletions: set<Key>): Zone {
    map k | k in zone.Keys + keys && (if k in keys then k in source && source[k].records != {} else k !in deletions)
      :: if k in keys then source[k] else zone[k]
  }

  function ZoneOf(db: Database, d: Name): Zone {
    if d in db then db[d] else map[]
  }

  /** One change: its `pdns_do` followed by its `api_do`.  `ns` is the default NS RRset of new domains. */
  function Do(w: World, c: Change, ns: RRset): Result<World, Failure> {
    match c
    case CreateDomain(d) =>
      if d in w.lord || d in w.master then Err(ZoneExists)
      else if d !in w.db then Err(RowMissing)
      else if NsBlocked(w.db[d]) then Err(ConstraintViolated)
      else Ok(World(w.db[d := w.db[d][APEX_NS := ns]], w.lord[d := NonEmpty(map[APEX_NS := ns])],
                    w.master[d := map[]], w.axfr + {d}))
    case DeleteDomain(d) =>
      if d !in w.lord || d !in w.master then Err(ZoneMissing)
      else Ok(w.(lord := w.lord - {d}, master := w.master - {d}))
    case UpdateRRsets(d, a, m, x) =>
      var keys := (a + m) - x;
      var source := ZoneOf(w.db, d);
      if !(keys <= source.Keys) then Err(RowMissing)
      else if keys + x == {} then Ok(w.(axfr := w.axfr + {d}))
      else if d !in w.lord then Err(ZoneMissing)
      else Ok(w.(lord := w.lord[d := Patch(w.lord[d], source, keys, x)], axfr := w.axfr + {d}))
  }

  function DoAll(w: World, cs: seq<Change>, ns: RRset): Result<World, Failure> {
    if cs == [] then Ok(w)
    else match DoAll(w, cs[..|cs|-1], ns)
      case Err(e) => Err(e)
      case Ok(w') => Do(w', cs[|cs|-1], ns)
  }

  /** After the commit, nsmaster retrieves the requested zones from nslord. */
  function Transfer(w: World): World {
    w.(master := map d | d in w.master :: if d in w.axfr && d in w.lord then w.lord[d] else w.master[d])
  }

  function Commit(t: Tracker, db: Database, lord: Database, master: Database, dels: seq<Name>, ups: seq<Name>,
                  ns: RRset): Result<World, Failure> {
    match DoAll(World(db, lord, master, {}), Compile(t, db, dels, ups), ns)
    case Err(e) => Err(e)
    case Ok(w) => Ok(Transfer(w))
  }

  // ---------------------------------------------------------------------------------------------------------------
  // The effect of a whole change list
  // ---------------------------------------------------------------------------------------------------------------

  lemma {:induction false} DoAllAppend(w: World, a: seq<Change>, b: seq<Change>, ns: RRset)
    ensures DoAll(w, a + b, ns) == match DoAll(w, a, ns) case Err(e) => Err(e) case Ok(w') => DoAll(w', b, ns)
  {
    if b == [] {
      assert a + b == a;
    } else {
      DoAllAppend(w, a, b[..|b|-1], ns);
      assert (a + b)[..|a + b|-1] == a + b[..|b|-1];
    }
  }

  lemma {:induction false} DeletesExecute(w: World, dels: seq<Name>, ns: RRset)
    requires forall i, j :: 0 <= i < j < |dels| ==> dels[i] != dels[j]
    requires forall d :: d in dels ==> d in w.lord && d in w.master
    ensures DoAll(w, CompileDeletes(dels), ns)
         == Ok(w.(lord := w.lord - Elems(dels), master := w.master - Elems(dels)))
  {
    if dels == [] {
      Without(w.lord, {}, {});
      Without(w.master, {}, {});
      assert Elems(dels) == {} && w.lord - {} == w.lord && w.master - {} == w.master;
    } else {
      var init, d := dels[..|dels|-1], dels[|dels|-1];
      DeletesExecute(w, init, ns);
      ElemsLast(dels);
      Without(w.lord, Elems(init), {d});
      Without(w.master, Elems(init), {d});
      assert d in w.lord - Elems(init) && d in w.master - Elems(init);
      assert CompileDeletes(dels)[..|CompileDeletes(dels)|-1] == CompileDeletes(init);
    }
  }

  lemma Without(m: Database, s: set<Name>, s': set<Name>)
    ensures (m - s) - s' == m - (s + s')
  {
  }

  /** A domain's RRsets in the database after its changes: a new domain gets the default NS RRset. */
  function NewZone(t: Tracker, db: Database, d: Name, ns: RRset): Zone {
    if d in t.domainAdditions then ZoneOf(db, d)[APEX_NS := ns] else ZoneOf(db, d)
  }

  /** A domain's zone on nslord after its changes. */
  function Replicated(t: Tracker, db: Database, lord: Database, d: Name, ns: RRset): Zone {
    var base := if d in t.domainAdditions then NonEmpty(map[APEX_NS := ns]) else ZoneOf(lord, d);
    var x := At(t.deletions, d);
    Patch(base, NewZone(t, db, d, ns), NonEmptyAdditions(t, db, d) + At(t.modifications, d) - x, x)
  }

  /** The backend and the database fit the tracker's record for domain `d`. */
  predicate Ready(w: World, t: Tracker, d: Name) {
    && d in w.db && At(t.additions, d) + At(t.modifications, d) <= w.db[d].Keys
    && (if d in t.domainAdditions then d !in w.lord && d !in w.master else d in w.lord)
  }

  predicate Blocked(w: World, t: Tracker, d: Name) {
    d in t.domainAdditions && d in w.db && NsBlocked(w.db[d])
  }

  lemma DoSingle(w: World, c: Change, ns: RRset)
    ensures DoAll(w, [c], ns) == Do(w, c, ns)
  {
    assert [c][..0] == [];
  }

  /** The update of a domain, once the domain exists in the backend. */
  lemma UpdateExecutes(w: World, w1: World, t: Tracker, d: Name, ns: RRset)
    requires Ready(w, t, d) && Disjoint(t)
    requires d in w1.db && w1.db[d] == NewZone(t, w.db, d, ns)
    requires d in w1.lord && w1.lord[d] == if d in t.domainAdditions then NonEmpty(map[APEX_NS := ns]) else w.lord[d]
    ensures DoAll(w1, UpdateOf(t, w.db, d), ns)
         == Ok(w1.(lord := w1.lord[d := Replicated(t, w.db, w.lord, d, ns)],
                   axfr := w1.axfr + if UpdateOf(t, w.db, d) != [] then {d} else {}))
  {
    var a, m, x := NonEmptyAdditions(t, w.db, d), At(t.modifications, d), At(t.deletions, d);
    if a + m + x == {} {
      assert a + m - x == {} && x == {} && a == {} && m == {};
      assert w1.axfr + {} == w1.axfr;
      assert Replicated(t, w.db, w.lord, d, ns) == w1.lord[d];
      assert w1.lord[d := w1.lord[d]] == w1.lord;
    } else {
      DoSingle(w1, UpdateRRsets(d, a, m, x), ns);
      assert a + m - x + x == a + m + x;
    }
  }

  /** The changes of one domain, executed where other domains may already have been processed. */
  lemma OneDomainExecutes(w: World, w': World, t: Tracker, d: Name, ns: RRset)
    requires Ready(w, t, d) && Disjoint(t)
    requires d in w'.db && w'.db[d] == w.db[d]
    requires d in w'.lord <==> d in w.lord
    requires d in w'.master <==> d in w.master
    requires d in w.lord ==> w'.lord[d] == w.lord[d]
    ensures var r := DoAll(w', ChangesFor(t, w.db, d), ns);
            if Blocked(w, t, d) then r.Err?
            else r == Ok(World(w'.db[d := NewZone(t, w.db, d, ns)],
                               w'.lord[d := Replicated(t, w.db, w.lord, d, ns)],
                               if d in t.domainAdditions then w'.master[d := map[]] else w'.master,
                               w'.axfr + if ChangesFor(t, w.db, d) != [] then {d} else {}))
  {
    var upd := UpdateOf(t, w.db, d);
    if d in t.domainAdditions {
      assert ChangesFor(t, w.db, d) == [CreateDomain(d)] + upd;
      DoAllAppend(w', [CreateDomain(d)], upd, ns);
      DoSingle(w', CreateDomain(d), ns);
      if !Blocked(w, t, d) {
        var w1 := Do(w', CreateDomain(d), ns).value;
        UpdateExecutes(w, w1, t, d, ns);
        var z := Replicated(t, w.db, w.lord, d, ns);
        assert w1.lord[d := z] == w'.lord[d := z];
        assert w1.axfr + (if upd != [] then {d} else {}) == w'.axfr + {d};
      }
    } else {
      assert ChangesFor(t, w.db, d) == upd;
      assert w'.db[d := w.db[d]] == w'.db;
      UpdateExecutes(w, w', t, d, ns);
    }
  }

  ghost predicate KeysProcessed(w: World, w': World, t: Tracker, s: set<Name>) {
    && (forall d :: d in w'.db <==> d in w.db)
    && (forall d :: d in w'.lord <==> d in w.lord || d in s)
    && (forall d :: d in w'.master <==> d in w.master || (d in s && d in t.domainAdditions))
  }

  ghost predicate DatabaseProcessed(w: World, w': World, t: Tracker, s: set<Name>, ns: RRset) {
    forall d :: d in w.db && d in w'.db ==> w'.db[d] == if d in s then NewZone(t, w.db, d, ns) else w.db[d]
  }

  ghost predicate LordProcessed(w: World, w': World, t: Tracker, s: set<Name>, ns: RRset) {
    forall d :: d in w'.lord && (d in w.lord || d in s) ==>
      w'.lord[d] == if d in s then Replicated(t, w.db, w.lord, d, ns) else w.lord[d]
  }

  ghost predicate MasterProcessed(w: World, w': World, t: Tracker, s: set<Name>) {
    && (forall d :: d in w.master && d in w'.master ==> w'.master[d] == w.master[d])
    && (forall d :: d in w'.axfr <==> d in w.axfr || (d in s && ChangesFor(t, w.db, d) != []))
  }

  /** `w'` is what becomes of `w` when exactly the domains in `s` have been processed. */
  ghost predicate Processed(w: World, w': World, t: Tracker, s: set<Name>, ns: RRset) {
    && KeysProcessed(w, w', t, s) && DatabaseProcessed(w, w', t, s, ns)
    && LordProcessed(w, w', t, s, ns) && MasterProcessed(w, w', t, s)
  }

  lemma KeysStep(w: World, w1: World, w2: World, t: Tracker, s: set<Name>, d: Name)
    requires KeysProcessed(w, w1, t, s) && d in w.db
    requires w2.db.Keys == w1.db.Keys + {d} && w2.lord.Keys == w1.lord.Keys + {d}
    requires w2.master.Keys == if d in t.domainAdditions then w1.master.Keys + {d} else w1.master.Keys
    ensures KeysProcessed(w, w2, t, s + {d})
  {
  }

  lemma LordStep(w: World, w1: World, w2: World, t: Tracker, s: set<Name>, d: Name, ns: RRset)
    requires LordProcessed(w, w1, t, s, ns) && KeysProcessed(w, w1, t, s)
    requires w2.lord == w1.lord[d := Replicated(t, w.db, w.lord, d, ns)]
    ensures LordProcessed(w, w2, t, s + {d}, ns)
  {
  }

  lemma DatabaseStep(w: World, w1: World, w2: World, t: Tracker, s: set<Name>, d: Name, ns: RRset)
    requires DatabaseProcessed(w, w1, t, s, ns) && KeysProcessed(w, w1, t, s) && d in w.db
    requires w2.db == w1.db[d := NewZone(t, w.db, d, ns)]
    ensures DatabaseProcessed(w, w2, t, s + {d}, ns)
  {
  }

  lemma MasterStep(w: World, w1: World, w2: World, t: Tracker, s: set<Name>, d: Name)
    requires MasterProcessed(w, w1, t, s) && KeysProcessed(w, w1, t, s) && Ready(w, t, d)
    requires w2.master == if d in t.domainAdditions then w1.master[d := map[]] else w1.master
    requires w2.axfr == w1.axfr + if ChangesFor(t, w.db, d) != [] then {d} else {}
    ensures MasterProcessed(w, w2, t, s + {d})
  {
  }

  /** Nothing is recorded about `d`, or only what its creation and deletion in the same run have left: empty sets. */
  predicate Idle(t: Tracker, d: Name) {
    d !in t.domainAdditions && At(t.additions, d) == At(t.modifications, d) == At(t.deletions, d) == {}
  }

  lemma UnprocessedDomain(w: World, w1: World, t: Tracker, s: set<Name>, d: Name, ns: RRset)
    requires Processed(w, w1, t, s, ns) && d !in s && Ready(w, t, d)
    ensures d in w1.db && w1.db[d] == w.db[d]
    ensures (d in w1.lord <==> d in w.lord) && (d in w1.master <==> d in w.master)
    ensures d in w.lord ==> w1.lord[d] == w.lord[d]
  {
  }

  lemma ProcessedStep(w: World, w1: World, w2: World, t: Tracker, s: set<Name>, d: Name, ns: RRset)
    requires Processed(w, w1, t, s, ns) && Ready(w, t, d)
    requires w2 == World(w1.db[d := NewZone(t, w.db, d, ns)], w1.lord[d := Replicated(t, w.db, w.lord, d, ns)],
                         if d in t.domainAdditions then w1.master[d := map[]] else w1.master,
                         w1.axfr + if ChangesFor(t, w.db, d) != [] then {d} else {})
    ensures Processed(w, w2, t, s + {d}, ns)
  {
    hide KeysProcessed, DatabaseProcessed, LordProcessed, MasterProcessed, NewZone, Replicated, ChangesFor;
    KeysStep(w, w1, w2, t, s, d);
    DatabaseStep(w, w1, w2, t, s, d, ns);
    LordStep(w, w1, w2, t, s, d, ns);
    MasterStep(w, w1, w2, t, s, d);
  }

  lemma UpdateStep(w: World, w1: World, t: Tracker, s: set<Name>, d: Name, ns: RRset)
    requires Processed(w, w1, t, s, ns) && d !in s && Disjoint(t) && Ready(w, t, d)
    ensures var r := DoAll(w1, ChangesFor(t, w.db, d), ns);
            if Blocked(w, t, d) then r.Err? else r.Ok? && Processed(w, r.value, t, s + {d}, ns)
  {
    UnprocessedDomain(w, w1, t, s, d, ns);
    OneDomainExecutes(w, w1, t, d, ns);
    if !Blocked(w, t, d) {
      var w2 := DoAll(w1, ChangesFor(t, w.db, d), ns).value;
      ProcessedStep(w, w1, w2, t, s, d, ns);
    }
  }

  lemma IdleStep(w1: World, t: Tracker, db: Database, d: Name, ns: RRset)
    requires Idle(t, d)
    ensures DoAll(w1, ChangesFor(t, db, d), ns) == Ok(w1)
  {
    assert NonEmptyAdditions(t, db, d) == {};
    assert ChangesFor(t, db, d) == [];
  }

  lemma NothingProcessed(w: World, t: Tracker, ns: RRset)
    ensures Processed(w, w, t, {}, ns)
  {
  }

  lemma {:induction false} UpdatesExecute(w: World, t: Tracker, ups: seq<Name>, ns: RRset)
    requires forall i, j :: 0 <= i < j < |ups| ==> ups[i] != ups[j]
    requires forall d :: d in ups ==> if d in w.db then Ready(w, t, d) else Idle(t, d)
    requires Disjoint(t)
    ensures var r := DoAll(w, CompileUpdates(t, w.db, ups), ns);
            if exists d :: d in ups && Blocked(w, t, d) then r.Err?
            else r.Ok? && Processed(w, r.value, t, Elems(ups) * w.db.Keys, ns)
  {
    hide Ready, Idle, ChangesFor, UpdateOf, Processed, Disjoint, Do, NsBlocked;
    if ups == [] {
      NothingProcessed(w, t, ns);
      assert Elems(ups) * w.db.Keys == {};
    } else {
      var init, d := ups[..|ups|-1], ups[|ups|-1];
      ElemsLast(ups);
      assert ups == init + [d];
      UpdatesExecute(w, t, init, ns);
      DoAllAppend(w, CompileUpdates(t, w.db, init), ChangesFor(t, w.db, d), ns);
      if !exists d :: d in init && Blocked(w, t, d) {
        var w1 := DoAll(w, CompileUpdates(t, w.db, init), ns).value;
        var s := Elems(init) * w.db.Keys;
        if d in w.db {
          UpdateStep(w, w1, t, s, d, ns);
          assert Elems(ups) * w.db.Keys == s + {d};
        } else {
          IdleStep(w1, t, w.db, d, ns);
          assert Elems(ups) * w.db.Keys == s;
        }
      }
    }
  }

  // ---------------------------------------------------------------------------------------------------------------
  // End to end: the zones equal the non-empty view of the database, exactly when no deleted RRset was forgotten
  // ---------------------------------------------------------------------------------------------------------------

  /** The path on which the tracker forgets that PowerDNS still has the RRset: it held records when the run started, was
      deleted and created again, and then deleted once more or left without a modification. */
  predicate Forgotten(db0: Database, evs: seq<Event>, d: Name, k: Key) {
    HasRecords(db0, d, k) && d in Replay(db0, evs) && Recreated(evs, d, k) && StatusOf(evs, d, k) != AddedModified
  }

  /** The database after the commit: new domains have got their default NS RRset. */
  function WithDefaultNs(db0: Database, db: Database, ns: RRset): Database {
    map d | d in db :: if d in db0 then db[d] else db[d][APEX_NS := ns]
  }

  lemma TrackedKeys(db0: Database, evs: seq<Event>, d: Name)
    requires ValidRun(db0, evs)
    ensures var t, db := Track(evs).0, Replay(db0, evs);
            if d in db then At(t.additions, d) + At(t.modifications, d) <= db[d].Keys
            else d !in db0 ==> Idle(t, d)
  {
    var t, db := Track(evs).0, Replay(db0, evs);
    TrackerRefinesAutomaton(db0, evs);
    DomainSetsAreNetChanges(db0, evs);
    forall k
      ensures k in At(t.additions, d) + At(t.modifications, d) ==> Present(db, d, k)
      ensures k in At(t.deletions, d) ==> Present(db0, d, k)
    {
      assert Recorded(t, d, k) == StatusOf(evs, d, k);
      MeaningHolds(db0, evs, d, k);
    }
  }

  /** One key of one surviving domain, in the zone that the commit leaves on nslord. */
  lemma KeyReplicated(db0: Database, evs: seq<Event>, d: Name, k: Key, ns: RRset)
    requires ValidRun(db0, evs)
    requires d in Replay(db0, evs) && (d !in db0 ==> !NsBlocked(Replay(db0, evs)[d]))
    ensures var t, db := Track(evs).0, Replay(db0, evs);
            var z := Replicated(t, db, View(db0), d, ns);
            var target := NonEmpty(NewZone(t, db, d, ns));
            if Forgotten(db0, evs, d, k) then k in z && z[k] == db0[d][k] && k !in target
            else (k in z <==> k in target) && (k in z ==> z[k] == target[k])
  {
    var t, db := Track(evs).0, Replay(db0, evs);
    TrackerRefinesAutomaton(db0, evs);
    DomainSetsAreNetChanges(db0, evs);
    MeaningHolds(db0, evs, d, k);
    RecreatedNeedsDeletion(evs, d, k);
    assert Recorded(t, d, k) == StatusOf(evs, d, k);
  }

  lemma UnchangedKeepsZone(t: Tracker, db: Database, lord: Database, d: Name, ns: RRset)
    requires ChangesFor(t, db, d) == []
    ensures d !in t.domainAdditions && Replicated(t, db, lord, d, ns) == ZoneOf(lord, d)
  {
    var a, m, x := NonEmptyAdditions(t, db, d), At(t.modifications, d), At(t.deletions, d);
    assert a + m + x == {};
    assert a + m - x == {} && x == {};
  }

  /** How the executed change list looks domain by domain, and when executing it fails. */
  lemma ChangesExecute(db0: Database, evs: seq<Event>, dels: seq<Name>, ups: seq<Name>, ns: RRset)
    requires ValidRun(db0, evs)
    requires Enumerates(dels, Track(evs).0.domainDeletions) && Enumerates(ups, UpdatedDomains(Track(evs).0))
    ensures var t, db, v := Track(evs).0, Replay(db0, evs), View(db0);
            var r := DoAll(World(db, v, v, {}), Compile(t, db, dels, ups), ns);
            var w := World(db, v - t.domainDeletions, v - t.domainDeletions, {});
            if exists d :: d in db && d !in db0 && NsBlocked(db[d]) then r.Err?
            else r.Ok? && Processed(w, r.value, t, UpdatedDomains(t) * db.Keys, ns)
  {
    var t, db, v := Track(evs).0, Replay(db0, evs), View(db0);
    TrackerRefinesAutomaton(db0, evs);
    DomainSetsAreNetChanges(db0, evs);
    assert Elems(dels) == t.domainDeletions && Elems(ups) == UpdatedDomains(t);
    DoAllAppend(World(db, v, v, {}), CompileDeletes(dels), CompileUpdates(t, db, ups), ns);
    DeletesExecute(World(db, v, v, {}), dels, ns);
    var w := World(db, v - t.domainDeletions, v - t.domainDeletions, {});
    forall d | d in ups ensures if d in w.db then Ready(w, t, d) else Idle(t, d) {
      TrackedKeys(db0, evs, d);
    }
    UpdatesExecute(w, t, ups, ns);
    assert forall d :: Blocked(w, t, d) <==> d in db && d !in db0 && NsBlocked(db[d]);
    assert forall d :: Blocked(w, t, d) ==> d in ups;
  }

  /** The zones of the surviving domains once all changes are executed. */
  function FinalZones(t: Tracker, db: Database, lord: Database, ns: RRset): Database {
    map d | d in db :: Replicated(t, db, lord, d, ns)
  }

  /** A surviving domain once all changes are executed; a zone that is not to be transferred has not changed. */
  ghost predicate Settled(db: Database, zones: Database, w: World, d: Name)
    requires d in db && d in zones
  {
    && d in w.db && w.db[d] == db[d]
    && d in w.lord && w.lord[d] == zones[d]
    && d in w.master && (d !in w.axfr ==> w.master[d] == zones[d])
  }

  lemma ProcessedAt(w: World, w1: World, t: Tracker, s: set<Name>, d: Name, ns: RRset)
    requires Processed(w, w1, t, s, ns) && d in w.db && (d in w.lord || d in s)
    ensures d in w1.db && w1.db[d] == if d in s then NewZone(t, w.db, d, ns) else w.db[d]
    ensures d in w1.lord && w1.lord[d] == if d in s then Replicated(t, w.db, w.lord, d, ns) else w.lord[d]
    ensures d in w1.master <==> d in w.master || (d in s && d in t.domainAdditions)
    ensures d in w.master && d in w1.master ==> w1.master[d] == w.master[d]
    ensures d in w1.axfr <==> d in w.axfr || (d in s && ChangesFor(t, w.db, d) != [])
  {
    hide NewZone, Replicated, ChangesFor;
  }

  lemma DomainSettles(db0: Database, evs: seq<Event>, w: World, w1: World, d: Name, ns: RRset)
    requires ValidRun(db0, evs) && d in Replay(db0, evs)
    requires var t := Track(evs).0; var kept := View(db0) - t.domainDeletions;
             && w == World(Replay(db0, evs), kept, kept, {})
             && Processed(w, w1, t, UpdatedDomains(t) * w.db.Keys, ns)
    ensures Settled(WithDefaultNs(db0, w.db, ns), FinalZones(Track(evs).0, w.db, View(db0), ns), w1, d)
  {
    hide Track, Replay, StatusOf, Recorded, ValidRun, Processed;
    var t := Track(evs).0;
    DomainSetsAreNetChanges(db0, evs);
    TrackerRefinesAutomaton(db0, evs);
    assert ZoneOf(w.lord, d) == ZoneOf(View(db0), d);
    ProcessedAt(w, w1, t, UpdatedDomains(t) * w.db.Keys, d, ns);
    if d !in UpdatedDomains(t) {
      assert NonEmptyAdditions(t, w.db, d) == {};
      assert ChangesFor(t, w.db, d) == [];
    }
    if ChangesFor(t, w.db, d) == [] {
      UnchangedKeepsZone(t, w.db, View(db0), d, ns);
    }
  }

  lemma SettledIsFinal(db: Database, zones: Database, w: World)
    requires db.Keys == zones.Keys == w.db.Keys == w.lord.Keys == w.master.Keys
    requires forall d :: d in db ==> Settled(db, zones, w, d)
    ensures Transfer(w) == World(db, zones, zones, w.axfr)
  {
  }

  lemma SettledDomains(db0: Database, t: Tracker, w: World, w1: World)
    requires var kept := View(db0) - t.domainDeletions; w.lord == kept && w.master == kept
    requires KeysProcessed(w, w1, t, UpdatedDomains(t) * w.db.Keys)
    requires t.domainAdditions == w.db.Keys - db0.Keys && t.domainDeletions == db0.Keys - w.db.Keys
    ensures w1.db.Keys == w1.lord.Keys == w1.master.Keys == w.db.Keys
  {
    assert forall d :: d in w.lord <==> d in db0 && d in w.db;
    assert forall d :: d in w1.lord <==> d in w.db;
    assert forall d :: d in w1.master <==> d in w.db;
  }

  lemma TransferredDomains(db0: Database, evs: seq<Event>, w: World, w1: World, ns: RRset)
    requires ValidRun(db0, evs) && w.db == Replay(db0, evs) && w.axfr == {}
    requires Processed(w, w1, Track(evs).0, UpdatedDomains(Track(evs).0) * w.db.Keys, ns)
    ensures w1.axfr == set d | d in UpdatedDomains(Track(evs).0) && ChangesFor(Track(evs).0, w.db, d) != []
  {
    var t := Track(evs).0;
    DomainSetsAreNetChanges(db0, evs);
    forall d | d in UpdatedDomains(t) && d !in w.db ensures ChangesFor(t, w.db, d) == [] {
      TrackedKeys(db0, evs, d);
      assert NonEmptyAdditions(t, w.db, d) == {};
    }
  }

  lemma ExecutedIsCommitted(db0: Database, evs: seq<Event>, w: World, w1: World, ns: RRset)
    requires ValidRun(db0, evs)
    requires var kept := View(db0) - Track(evs).0.domainDeletions; w == World(Replay(db0, evs), kept, kept, {})
    requires Processed(w, w1, Track(evs).0, UpdatedDomains(Track(evs).0) * w.db.Keys, ns)
    ensures var t, db := Track(evs).0, Replay(db0, evs);
            var zones := FinalZones(t, db, View(db0), ns);
            Transfer(w1) == World(WithDefaultNs(db0, db, ns), zones, zones,
                                  set d | d in UpdatedDomains(t) && ChangesFor(t, db, d) != [])
  {
    var t, db := Track(evs).0, Replay(db0, evs);
    DomainSetsAreNetChanges(db0, evs);
    SettledDomains(db0, t, w, w1);
    TransferredDomains(db0, evs, w, w1, ns);
    var after, zones := WithDefaultNs(db0, db, ns), FinalZones(t, db, View(db0), ns);
    forall d | d in after ensures Settled(after, zones, w1, d) {
      DomainSettles(db0, evs, w, w1, d, ns);
    }
    SettledIsFinal(after, zones, w1);
  }

  /** What a commit does, in terms of the tracker's final state: it depends on neither loop order. */
  lemma CommitShape(db0: Database, evs: seq<Event>, dels: seq<Name>, ups: seq<Name>, ns: RRset)
    requires ValidRun(db0, evs)
    requires Enumerates(dels, Track(evs).0.domainDeletions) && Enumerates(ups, UpdatedDomains(Track(evs).0))
    ensures var t, db := Track(evs).0, Replay(db0, evs);
            var zones := FinalZones(t, db, View(db0), ns);
            var r := Commit(t, db, View(db0), View(db0), dels, ups, ns);
            if exists d :: d in db && d !in db0 && NsBlocked(db[d]) then r.Err?
            else r == Ok(World(WithDefaultNs(db0, db, ns), zones, zones,
                               set d | d in UpdatedDomains(t) && ChangesFor(t, db, d) != []))
  {
    var t, db, v := Track(evs).0, Replay(db0, evs), View(db0);
    ChangesExecute(db0, evs, dels, ups, ns);
    var r := DoAll(World(db, v, v, {}), Compile(t, db, dels, ups), ns);
    if r.Ok? {
      var kept := v - t.domainDeletions;
      ExecutedIsCommitted(db0, evs, World(db, kept, kept, {}), r.value, ns);
    }
  }

  /** The zone has for this key what the database has. */
  ghost predicate InSync(db: Database, lord: Database, d: Name, k: Key) {
    d in lord && (k in lord[d] <==> HasRecords(db, d, k)) && (k in lord[d] ==> lord[d][k] == db[d][k])
  }

  /** The zone still has for this key what it had at entry, while the database has no records for it. */
  ghost predicate LeftBehind(db0: Database, db: Database, lord: Database, d: Name, k: Key) {
    HasRecords(db0, d, k) && d in lord && k in lord[d] && lord[d][k] == db0[d][k] && !HasRecords(db, d, k)
  }

  lemma KeyAfterCommit(db0: Database, evs: seq<Event>, d: Name, k: Key, ns: RRset)
    requires ValidRun(db0, evs)
    requires d in Replay(db0, evs) && (d !in db0 ==> !NsBlocked(Replay(db0, evs)[d]))
    ensures var db := Replay(db0, evs);
            var after, zones := WithDefaultNs(db0, db, ns), FinalZones(Track(evs).0, db, View(db0), ns);
            if Forgotten(db0, evs, d, k) then LeftBehind(db0, after, zones, d, k) else InSync(after, zones, d, k)
  {
    DomainSetsAreNetChanges(db0, evs);
    KeyReplicated(db0, evs, d, k, ns);
    assert WithDefaultNs(db0, Replay(db0, evs), ns)[d] == NewZone(Track(evs).0, Replay(db0, evs), d, ns);
  }

  lemma KeysAfterCommit(db0: Database, evs: seq<Event>, ns: RRset)
    requires ValidRun(db0, evs)
    requires forall d :: d in Replay(db0, evs) && d !in db0 ==> !NsBlocked(Replay(db0, evs)[d])
    ensures var db := Replay(db0, evs);
            var after, zones := WithDefaultNs(db0, db, ns), FinalZones(Track(evs).0, db, View(db0), ns);
            forall d, k :: d in db ==>
              if Forgotten(db0, evs, d, k) then LeftBehind(db0, after, zones, d, k) else InSync(after, zones, d, k)
  {
    hide *;
    var db := Replay(db0, evs);
    var after, zones := WithDefaultNs(db0, db, ns), FinalZones(Track(evs).0, db, View(db0), ns);
    forall d, k | d in db
      ensures if Forgotten(db0, evs, d, k) then LeftBehind(db0, after, zones, d, k) else InSync(after, zones, d, k)
    {
      KeyAfterCommit(db0, evs, d, k, ns);
    }
  }

  /** A commit succeeds unless some new domain already has an RRset in the way of the default apex NS RRset.  Then both
      name servers agree, and every key of every zone is what the database says, except the forgotten ones: those keep
      the RRset they had when the run started. */
  lemma CommitReplicates(db0: Database, evs: seq<Event>, dels: seq<Name>, ups: seq<Name>, ns: RRset)
    requires ValidRun(db0, evs)
    requires Enumerates(dels, Track(evs).0.domainDeletions) && Enumerates(ups, UpdatedDomains(Track(evs).0))
    ensures var db := Replay(db0, evs);
            var r := Commit(Track(evs).0, db, View(db0), View(db0), dels, ups, ns);
            && (r.Ok? <==> forall d :: d in db && d !in db0 ==> !NsBlocked(db[d]))
            && (r.Ok? ==>
                  && r.value.db == WithDefaultNs(db0, db, ns)
                  && r.value.lord.Keys == db.Keys && r.value.master == r.value.lord
                  && forall d, k :: d in db ==>
                       if Forgotten(db0, evs, d, k) then LeftBehind(db0, r.value.db, r.value.lord, d, k)
                       else InSync(r.value.db, r.value.lord, d, k))
  {
    hide Track, Replay, ValidRun, Commit, Forgotten, LeftBehind, InSync;
    hide NsBlocked, Enumerates, Replicated, UpdatedDomains, ChangesFor;
    CommitShape(db0, evs, dels, ups, ns);
    var db := Replay(db0, evs);
    if forall d :: d in db && d !in db0 ==> !NsBlocked(db[d]) {
      KeysAfterCommit(db0, evs, ns);
    }
  }

  lemma InSyncEverywhere(db: Database, lord: Database)
    requires lord.Keys == db.Keys
    ensures lord == View(db) <==> forall d, k :: d in db ==> InSync(db, lord, d, k)
  {
    if forall d, k :: d in db ==> InSync(db, lord, d, k) {
      forall d | d in lord ensures lord[d] == NonEmpty(db[d]) {
        forall k ensures (k in lord[d] <==> k in NonEmpty(db[d])) && (k in lord[d] ==> lord[d][k] == db[d][k]) {
          assert InSync(db, lord, d, k);
        }
      }
    }
  }

  /** The replication theorem: after a commit the zones are the non-empty view of the database if and only if no key that
      had records was deleted, created again, and then left unmodified or deleted once more. */
  lemma ZonesEqualDatabaseIff(db0: Database, evs: seq<Event>, dels: seq<Name>, ups: seq<Name>, ns: RRset)
    requires ValidRun(db0, evs)
    requires Enumerates(dels, Track(evs).0.domainDeletions) && Enumerates(ups, UpdatedDomains(Track(evs).0))
    ensures var r := Commit(Track(evs).0, Replay(db0, evs), View(db0), View(db0), dels, ups, ns);
            r.Ok? ==> (r.value.lord == View(r.value.db) <==> forall d, k :: !Forgotten(db0, evs, d, k))
  {
    CommitReplicates(db0, evs, dels, ups, ns);
    var r := Commit(Track(evs).0, Replay(db0, evs), View(db0), View(db0), dels, ups, ns);
    if r.Ok? {
      InSyncEverywhere(r.value.db, r.value.lord);
    }
  }

  /** What a new domain has after the commit: the default NS RRset at its apex, in the zone too if there are default name
      servers, and all other RRsets as the run left them, in the zone if they have records. */
  ghost predicate CreatedWith(z: Zone, after: Zone, zone: Zone, ns: RRset) {
    && Key("NS", "") in after && after[Key("NS", "")] == ns
    && (Key("NS", "") in zone <==> ns.records != {}) && (Key("NS", "") in zone ==> zone[Key("NS", "")] == ns)
    && (forall k :: k != Key("NS", "") ==>
          && (k in after <==> k in z) && (k in z && k in after ==> after[k] == z[k])
          && (k in zone <==> k in z && z[k].records != {}) && (k in z && k in zone ==> zone[k] == z[k]))
  }

  /** A commit succeeds if and only if no new domain has an NS or a CNAME RRset at its apex.  Then every new domain has its
      zone on both servers, and domains that existed before keep what the run left. */
  lemma NewDomainsCommit(db0: Database, evs: seq<Event>, dels: seq<Name>, ups: seq<Name>, ns: RRset)
    requires ValidRun(db0, evs)
    requires Enumerates(dels, Track(evs).0.domainDeletions) && Enumerates(ups, UpdatedDomains(Track(evs).0))
    ensures var db := Replay(db0, evs);
            var r := Commit(Track(evs).0, db, View(db0), View(db0), dels, ups, ns);
            && (r.Ok? <==> forall d :: d in db && d !in db0 ==> Key("NS", "") !in db[d] && Key("CNAME", "") !in db[d])
            && (r.Ok? ==>
                  && r.value.db.Keys == r.value.lord.Keys == db.Keys && r.value.master == r.value.lord
                  && (forall d :: d in db && d in db0 ==> r.value.db[d] == db[d])
                  && (forall d :: d in db && d !in db0 ==> CreatedWith(db[d], r.value.db[d], r.value.lord[d], ns)))
  {
    hide Track, Replay, ValidRun, Commit, Forgotten, InSync, LeftBehind, CreatedWith, Enumerates, UpdatedDomains;
    CommitReplicates(db0, evs, dels, ups, ns);
    var db := Replay(db0, evs);
    var r := Commit(Track(evs).0, db, View(db0), View(db0), dels, ups, ns);
    if r.Ok? {
      forall d | d in db && d !in db0 ensures CreatedWith(db[d], r.value.db[d], r.value.lord[d], ns) {
        forall k ensures InSync(r.value.db, r.value.lord, d, k) {
          NewNotForgotten(db0, evs, d, k);
        }
        CreatedInSync(db0, db, r.value.lord, d, ns);
      }
    }
  }

  lemma NewNotForgotten(db0: Database, evs: seq<Event>, d: Name, k: Key)
    requires d !in db0
    ensures !Forgotten(db0, evs, d, k)
  {
  }

  lemma CreatedInSync(db0: Database, db: Database, lord: Database, d: Name, ns: RRset)
    requires d in db && d !in db0 && d in lord && Key("NS", "") !in db[d]
    requires forall k :: InSync(WithDefaultNs(db0, db, ns), lord, d, k)
    ensures CreatedWith(db[d], WithDefaultNs(db0, db, ns)[d], lord[d], ns)
  {
    var after := WithDefaultNs(db0, db, ns);
    assert InSync(after, lord, d, Key("NS", ""));
    forall k | k != Key("NS", "")
      ensures k in lord[d] <==> k in db[d] && db[d][k].records != {}
      ensures k in db[d] && k in lord[d] ==> lord[d][k] == db[d][k]
    {
      assert InSync(after, lord, d, k);
    }
  }

  /** The signals of replacing a DS RRset that has a record by one without: the record goes first, then the RRset. */
  function ReplacedByNothing(d: Name, k: Key): seq<Event> {
    [RRsetModified(d, k, RRset(300, {})), RRsetDeleted(d, k), RRsetCreated(d, k, 300)]
  }

  lemma ReplacedIsForgotten(db0: Database, d: Name, k: Key)
    requires HasRecords(db0, d, k)
    ensures var evs := ReplacedByNothing(d, k);
            ValidRun(db0, evs) && Forgotten(db0, evs, d, k) && Replay(db0, evs).Keys == db0.Keys
  {
    hide ValidRun, Replay, StatusOf, Recreated;
    var e0, e1, e2 := RRsetModified(d, k, RRset(300, {})), RRsetDeleted(d, k), RRsetCreated(d, k, 300);
    EmptyRun(db0, d, k);
    assert [] + [e0] == [e0] && [e0] + [e1] == [e0, e1] && [e0, e1] + [e2] == ReplacedByNothing(d, k);
    RunWith(db0, [], e0, d, k);
    RunWith(db0, [e0], e1, d, k);
    assert e1 in [e0, e1];
    RunWith(db0, [e0, e1], e2, d, k);
  }

  lemma EmptyRun(db: Database, d: Name, k: Key)
    ensures ValidRun(db, []) && Replay(db, []) == db && StatusOf([], d, k) == Untouched && !Recreated([], d, k)
  {
  }

  /** One more event on a key. */
  lemma RunWith(db: Database, evs: seq<Event>, e: Event, d: Name, k: Key)
    requires ValidRun(db, evs) && Enabled(Replay(db, evs), e) && OnKey(e, d, k)
    ensures ValidRun(db, evs + [e]) && Replay(db, evs + [e]) == Apply(Replay(db, evs), e)
    ensures StatusOf(evs + [e], d, k) == Next(StatusOf(evs, d, k), e.RRsetDeleted?, e.RRsetCreated?)
    ensures e.RRsetCreated? && RRsetDeleted(d, k) in evs ==> Recreated(evs + [e], d, k)
  {
    assert (evs + [e])[..|evs|] == evs && (evs + [e])[|evs|] == e;
  }

  /** A concrete run after which the zones and the database differ: a child domain is delegated again without DS contents.
      The commit succeeds. */
  lemma ForgottenExists(dels: seq<Name>, ups: seq<Name>, ns: RRset)
    requires var evs := ReplacedByNothing("dedyn.example", Key("DS", "child"));
             Enumerates(dels, Track(evs).0.domainDeletions) && Enumerates(ups, UpdatedDomains(Track(evs).0))
    ensures var k := Key("DS", "child");
            var db0: Database := map["dedyn.example" := map[k := RRset(300, {"6454 8 2 5CBA"})]];
            var evs := ReplacedByNothing("dedyn.example", k);
            var r := Commit(Track(evs).0, Replay(db0, evs), View(db0), View(db0), dels, ups, ns);
            ValidRun(db0, evs) && r.Ok? && r.value.lord != View(r.value.db)
  {
    hide Track, Commit, Forgotten, View, ReplacedByNothing;
    var k := Key("DS", "child");
    var db0: Database := map["dedyn.example" := map[k := RRset(300, {"6454 8 2 5CBA"})]];
    var evs := ReplacedByNothing("dedyn.example", k);
    assert "6454 8 2 5CBA" in db0["dedyn.example"][k].records;
    ReplacedIsForgotten(db0, "dedyn.example", k);
    CommitReplicates(db0, evs, dels, ups, ns);
    ZonesEqualDatabaseIff(db0, evs, dels, ups, ns);
  }

  // ---------------------------------------------------------------------------------------------------------------
  // The change list
  // ---------------------------------------------------------------------------------------------------------------

  lemma {:induction false} ListedUpdates(t: Tracker, db: Database, ups: seq<Name>, c: Change)
    ensures c in CompileUpdates(t, db, ups) <==> c.name in ups && c in ChangesFor(t, db, c.name)
  {
    if ups != [] {
      var init, d := ups[..|ups|-1], ups[|ups|-1];
      assert ups == init + [d];
      ListedUpdates(t, db, init, c);
      assert c in ChangesFor(t, db, d) ==> c.name == d;
    }
  }

  lemma {:induction false} ListedDeletes(dels: seq<Name>, c: Change)
    ensures c in CompileDeletes(dels) <==> c.DeleteDomain? && c.name in dels
  {
    if dels != [] {
      ListedDeletes(dels[..|dels|-1], c);
      assert dels == dels[..|dels|-1] + [dels[|dels|-1]];
    }
  }

  /** Two changes to one domain can only be its creation directly followed by its update. */
  ghost predicate CreateThenUpdate(cs: seq<Change>) {
    forall i, j :: 0 <= i < j < |cs| && cs[i].name == cs[j].name ==>
      cs[i].CreateDomain? && cs[j].UpdateRRsets? && j == i + 1
  }

  lemma AppendChanges(a: seq<Change>, b: seq<Change>)
    requires CreateThenUpdate(a) && CreateThenUpdate(b)
    requires forall c, c' :: c in a && c' in b ==> c.name != c'.name
    ensures CreateThenUpdate(a + b)
  {
    forall i, j | 0 <= i < |a| && |a| <= j < |a + b| ensures (a + b)[i].name != (a + b)[j].name {
      assert a[i] in a && b[j - |a|] in b;
    }
  }

  lemma {:induction false} UpdatesAreOrdered(t: Tracker, db: Database, ups: seq<Name>)
    requires forall i, j :: 0 <= i < j < |ups| ==> ups[i] != ups[j]
    ensures CreateThenUpdate(CompileUpdates(t, db, ups))
  {
    if ups != [] {
      var init, d := ups[..|ups|-1], ups[|ups|-1];
      UpdatesAreOrdered(t, db, init);
      forall c, c' | c in CompileUpdates(t, db, init) && c' in ChangesFor(t, db, d) ensures c.name != c'.name {
        ListedUpdates(t, db, init, c);
      }
      AppendChanges(CompileUpdates(t, db, init), ChangesFor(t, db, d));
    }
  }

  lemma {:induction false} DeletesAreDistinct(dels: seq<Name>)
    requires forall i, j :: 0 <= i < j < |dels| ==> dels[i] != dels[j]
    ensures CreateThenUpdate(CompileDeletes(dels))
  {
    if dels != [] {
      var init, d := dels[..|dels|-1], dels[|dels|-1];
      DeletesAreDistinct(init);
      forall c, c' | c in CompileDeletes(init) && c' in [DeleteDomain(d)] ensures c.name != c'.name {
        ListedDeletes(init, c);
      }
      AppendChanges(CompileDeletes(init), [DeleteDomain(d)]);
    }
  }

  lemma UpdatedSurvives(db0: Database, evs: seq<Event>, d: Name)
    requires ValidRun(db0, evs) && d in UpdatedDomains(Track(evs).0)
    requires ChangesFor(Track(evs).0, Replay(db0, evs), d) != []
    ensures d in Replay(db0, evs)
  {
    DomainSetsAreNetChanges(db0, evs);
    TrackedKeys(db0, evs, d);
  }

  lemma ListedChange(t: Tracker, db: Database, c: Change)
    ensures c in ChangesFor(t, db, c.name) ==> !c.DeleteDomain?
    ensures c.CreateDomain? ==> (c in ChangesFor(t, db, c.name) <==> c.name in t.domainAdditions)
  {
  }

  lemma DeletionsFirst(del: seq<Change>, upd: seq<Change>)
    requires forall c :: c in del ==> c.DeleteDomain?
    requires forall c :: c in upd ==> !c.DeleteDomain?
    ensures var cs := del + upd; forall i, j :: 0 <= i < j < |cs| && cs[j].DeleteDomain? ==> cs[i].DeleteDomain?
  {
    var cs := del + upd;
    forall j | |del| <= j < |cs| ensures !cs[j].DeleteDomain? {
      assert cs[j] == upd[j - |del|] && upd[j - |del|] in upd;
    }
    forall i | 0 <= i < |del| ensures cs[i].DeleteDomain? {
      assert cs[i] == del[i] && del[i] in del;
    }
  }

  /** For every run, deletions come first; creations and deletions are the net changes of the domain set; two changes to one domain can only
      be its creation directly followed by its update.  So a deleted domain has no other change, and a domain created
      and deleted in the run has none at all. */
  lemma ChangeListWellFormed(db0: Database, evs: seq<Event>, dels: seq<Name>, ups: seq<Name>)
    requires ValidRun(db0, evs)
    requires Enumerates(dels, Track(evs).0.domainDeletions) && Enumerates(ups, UpdatedDomains(Track(evs).0))
    ensures var db := Replay(db0, evs);
            var cs := Compile(Track(evs).0, db, dels, ups);
            && (forall d :: CreateDomain(d) in cs <==> d in db && d !in db0)
            && (forall d :: DeleteDomain(d) in cs <==> d in db0 && d !in db)
            && (forall c :: c in cs && c.UpdateRRsets? ==> c.name in db)
            && (forall i, j :: 0 <= i < j < |cs| && cs[j].DeleteDomain? ==> cs[i].DeleteDomain?)
            && CreateThenUpdate(cs)
  {
    hide Track, Replay, ValidRun, CompileDeletes, CompileUpdates, ChangesFor;
    var t, db := Track(evs).0, Replay(db0, evs);
    var del, upd := CompileDeletes(dels), CompileUpdates(t, db, ups);
    DomainSetsAreNetChanges(db0, evs);
    forall c
      ensures c in del <==> c.DeleteDomain? && c.name in t.domainDeletions
      ensures c in upd <==> c.name in UpdatedDomains(t) && c in ChangesFor(t, db, c.name)
      ensures c in upd ==> c.name in db && !c.DeleteDomain?
      ensures c.CreateDomain? ==> (c in upd <==> c.name in t.domainAdditions)
    {
      ListedDeletes(dels, c);
      ListedUpdates(t, db, ups, c);
      ListedChange(t, db, c);
      if c in upd {
        UpdatedSurvives(db0, evs, c.name);
      }
    }
    UpdatesAreOrdered(t, db, ups);
    DeletesAreDistinct(dels);
    AppendChanges(del, upd);
    DeletionsFirst(del, upd);
    assert forall c :: c in Compile(t, db, dels, ups) <==> c in del || c in upd;
    assert forall d :: CreateDomain(d).name == d && DeleteDomain(d).name == d;
  }

  /** An update is listed if and only if it is not empty, its domain exists, and it has exactly the keys on record: as
      additions the created ones that have records, as modifications the modified ones, and as deletions those deleted. */
  lemma UpdateListedIff(db0: Database, evs: seq<Event>, dels: seq<Name>, ups: seq<Name>, c: Change)
    requires ValidRun(db0, evs) && c.UpdateRRsets?
    requires Enumerates(dels, Track(evs).0.domainDeletions) && Enumerates(ups, UpdatedDomains(Track(evs).0))
    ensures var db := Replay(db0, evs);
            c in Compile(Track(evs).0, db, dels, ups)
            <==> (&& c.name in db && (c.additions != {} || c.modifications != {} || c.deletions != {})
                  && forall k :: var s := StatusOf(evs, c.name, k);
                       && (k in c.additions <==> (s == Added || s == AddedModified) && HasRecords(db, c.name, k))
                       && (k in c.modifications <==> s == AddedModified || s == Modified)
                       && (k in c.deletions <==> s == Deleted))
  {
    hide Track, Replay, ValidRun, CompileDeletes, CompileUpdates, HasRecords, StatusOf;
    var t, db, d := Track(evs).0, Replay(db0, evs), c.name;
    ListedDeletes(dels, c);
    ListedUpdates(t, db, ups, c);
    DomainSetsAreNetChanges(db0, evs);
    TrackerRefinesAutomaton(db0, evs);
    if c in ChangesFor(t, db, d) && d in UpdatedDomains(t) {
      UpdatedSurvives(db0, evs, d);
    }
    var a, m, x := NonEmptyAdditions(t, db, d), At(t.modifications, d), At(t.deletions, d);
    assert c in ChangesFor(t, db, d) <==> a + m + x != {} && c == UpdateRRsets(d, a, m, x);
    forall k
      ensures k in At(t.additions, d) <==> StatusOf(evs, d, k) == Added || StatusOf(evs, d, k) == AddedModified
      ensures k in m <==> StatusOf(evs, d, k) == AddedModified || StatusOf(evs, d, k) == Modified
      ensures k in x <==> StatusOf(evs, d, k) == Deleted
    {
      assert Recorded(t, d, k) == StatusOf(evs, d, k);
    }
  }

  /** The zones transferred to nsmaster are exactly those with a creation or an update. */
  lemma TransfersAreChangedZones(db0: Database, evs: seq<Event>, dels: seq<Name>, ups: seq<Name>, ns: RRset, d: Name)
    requires ValidRun(db0, evs)
    requires Enumerates(dels, Track(evs).0.domainDeletions) && Enumerates(ups, UpdatedDomains(Track(evs).0))
    ensures var t, db := Track(evs).0, Replay(db0, evs);
            var r := Commit(t, db, View(db0), View(db0), dels, ups, ns);
            r.Ok? ==> (d in r.value.axfr <==>
                       exists c :: c in Compile(t, db, dels, ups) && c.name == d && !c.DeleteDomain?)
  {
    CommitShape(db0, evs, dels, ups, ns);
    var t, db := Track(evs).0, Replay(db0, evs);
    forall c
      ensures c in Compile(t, db, dels, ups) && c.name == d && !c.DeleteDomain?
         <==> c in ChangesFor(t, db, d) && d in UpdatedDomains(t)
    {
      ListedDeletes(dels, c);
      ListedUpdates(t, db, ups, c);
    }
    if ChangesFor(t, db, d) != [] {
      assert ChangesFor(t, db, d)[0] in ChangesFor(t, db, d);
    }
  }
}
