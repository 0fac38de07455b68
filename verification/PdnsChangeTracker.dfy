/** The change tracker as an object: handlers and commit update its sets in place. */
module PdnsChangeTracker {
  import opened Dns
  import opened ChangeTracker
  import opened Replication

  lemma Popped(m: KeySets, s: set<Name>, d: Name)
    ensures m - s - {d} == m - (s + {d}) && m - {} == m
  {
  }

  class PDNSChangeTracker {
    var domainAdditions: set<Name>
    var domainDeletions: set<Name>
    var rrSetAdditions: KeySets
    var rrSetModifications: KeySets
    var rrSetDeletions: KeySets

    function State(): Tracker
      reads this
    {
      Tracker(domainAdditions, domainDeletions, rrSetAdditions, rrSetModifications, rrSetDeletions)
    }

    /** What the class documentation guarantees between events. */
    ghost predicate Valid()
      reads this
    {
      SameDomains(State()) && Disjoint(State()) && domainAdditions !! domainDeletions
    }

    constructor ()
      ensures State() == INITIAL
    {
      domainAdditions, domainDeletions := {}, {};
      rrSetAdditions, rrSetModifications, rrSetDeletions := map[], map[], map[];
    }

    method Enter()
      modifies this
      ensures State() == INITIAL
    {
      domainAdditions, domainDeletions := {}, {};
      rrSetAdditions, rrSetModifications, rrSetDeletions := map[], map[], map[];
    }

    method RrSetUpdated(d: Name, item: Key, deleted: bool, created: bool) returns (outcome: Outcome)
      requires SameDomains(State())
      modifies this
      ensures (State(), outcome) == OnRRset(old(State()), d, item, deleted, created)
      ensures outcome == ValueError <==> created && deleted
      ensures outcome == AssertionFailed <==> (&& !deleted && d in old(rrSetModifications)
                                               && if created then item in old(rrSetModifications)[d]
                                                  else item in old(rrSetDeletions)[d])
    {
      if d !in rrSetModifications {
        rrSetAdditions := rrSetAdditions[d := {}];
        rrSetModifications := rrSetModifications[d := {}];
        rrSetDeletions := rrSetDeletions[d := {}];
      }
      if created && !deleted {
        rrSetAdditions := rrSetAdditions[d := rrSetAdditions[d] + {item}];
        if item in rrSetModifications[d] {
          return AssertionFailed;
        }
        rrSetDeletions := rrSetDeletions[d := rrSetDeletions[d] - {item}];
      } else if !created && deleted {
        if item in rrSetAdditions[d] {
          rrSetAdditions := rrSetAdditions[d := rrSetAdditions[d] - {item}];
          rrSetModifications := rrSetModifications[d := rrSetModifications[d] - {item}];
        } else {
          rrSetModifications := rrSetModifications[d := rrSetModifications[d] - {item}];
          rrSetDeletions := rrSetDeletions[d := rrSetDeletions[d] + {item}];
        }
      } else if !created && !deleted {
        rrSetModifications := rrSetModifications[d := rrSetModifications[d] + {item}];
        if item in rrSetDeletions[d] {
          return AssertionFailed;
        }
      } else {
        return ValueError;
      }
      return Handled;
    }

    method DomainUpdated(d: Name, created: bool, deleted: bool) returns (outcome: Outcome)
      modifies this
      ensures (State(), outcome) == OnDomain(old(State()), d, created, deleted)
      ensures outcome == if created && deleted then ValueError else Handled
    {
      if !created && !deleted {
        return Handled;
      }
      if created && deleted {
        return ValueError;
      }
      if created {
        if d in domainDeletions {
          domainDeletions := domainDeletions - {d};
        } else {
          domainAdditions := domainAdditions + {d};
        }
      } else {
        if d in domainAdditions {
          domainAdditions := domainAdditions - {d};
        } else {
          domainDeletions := domainDeletions + {d};
        }
      }
      return Handled;
    }

    /** The signal dispatch. */
    method On(e: Event) returns (outcome: Outcome)
      requires SameDomains(State())
      modifies this
      ensures (State(), outcome) == Handle(old(State()), e)
    {
      match e
      case DomainCreated(d) => outcome := DomainUpdated(d, true, false);
      case DomainSaved(d) => outcome := DomainUpdated(d, false, false);
      case DomainDeleted(d) => outcome := DomainUpdated(d, false, true);
      case RRsetCreated(d, k, _) => outcome := RrSetUpdated(d, k, false, true);
      case RRsetModified(d, k, _) => outcome := RrSetUpdated(d, k, false, false);
      case RRsetDeleted(d, k) => outcome := RrSetUpdated(d, k, true, false);
    }

    /** The first loop: deletions are listed and what was recorded below the deleted domains is dropped. */
    method CompileDeletedDomains() returns (changes: seq<Change>, ghost dels: seq<Name>)
      modifies this
      ensures Enumerates(dels, domainDeletions) && changes == CompileDeletes(dels)
      ensures domainAdditions == old(domainAdditions) && domainDeletions == old(domainDeletions)
      ensures rrSetAdditions == old(rrSetAdditions) - domainDeletions
      ensures rrSetModifications == old(rrSetModifications) - domainDeletions
      ensures rrSetDeletions == old(rrSetDeletions) - domainDeletions
    {
      changes, dels := [], [];
      var todo := domainDeletions;
      while todo != {}
        invariant todo <= domainDeletions
        invariant domainAdditions == old(domainAdditions) && domainDeletions == old(domainDeletions)
        invariant Enumerates(dels, domainDeletions - todo)
        invariant changes == CompileDeletes(dels)
        invariant rrSetAdditions == old(rrSetAdditions) - (domainDeletions - todo)
        invariant rrSetModifications == old(rrSetModifications) - (domainDeletions - todo)
        invariant rrSetDeletions == old(rrSetDeletions) - (domainDeletions - todo)
        decreases todo
      {
        var d :| d in todo;
        rrSetAdditions := rrSetAdditions - {d};
        rrSetModifications := rrSetModifications - {d};
        rrSetDeletions := rrSetDeletions - {d};
        changes := changes + [DeleteDomain(d)];
        assert (dels + [d])[..|dels|] == dels;
        dels := dels + [d];
        Popped(old(rrSetAdditions), domainDeletions - todo, d);
        Popped(old(rrSetModifications), domainDeletions - todo, d);
        Popped(old(rrSetDeletions), domainDeletions - todo, d);
        assert domainDeletions - (todo - {d}) == domainDeletions - todo + {d};
        todo := todo - {d};
      }
      assert domainDeletions - todo == domainDeletions;
    }

    /** The body of the second loop: the changes of one domain; its additions shrink to the non-empty ones. */
    method CompileDomain(db: Database, d: Name) returns (changes: seq<Change>)
      requires SameDomains(State()) && Disjoint(State())
      modifies this`rrSetAdditions
      ensures changes == ChangesFor(old(State()), db, d)
      ensures rrSetAdditions == if d in old(rrSetAdditions)
                                then old(rrSetAdditions)[d := NonEmptyAdditions(old(State()), db, d)]
                                else old(rrSetAdditions)
    {
      changes := if d in domainAdditions then [CreateDomain(d)] else [];
      var additions, modifications, deletions := At(rrSetAdditions, d), At(rrSetModifications, d), At(rrSetDeletions, d);
      assert additions * deletions == {};
      assert modifications * deletions == {};
      ghost var sent := NonEmptyAdditions(State(), db, d);
      additions := additions - set k | k in additions && !HasRecords(db, d, k);
      assert additions == sent;
      if d in rrSetAdditions {
        rrSetAdditions := rrSetAdditions[d := additions];
      }
      if additions + modifications + deletions != {} {
        changes := changes + [UpdateRRsets(d, additions, modifications, deletions)];
      }
    }

    /** The second loop. */
    method CompileUpdatedDomains(db: Database) returns (changes: seq<Change>, ghost ups: seq<Name>)
      requires SameDomains(State()) && Disjoint(State())
      modifies this`rrSetAdditions
      ensures Enumerates(ups, old(rrSetAdditions).Keys + domainAdditions)
      ensures changes == CompileUpdates(old(State()), db, ups)
      ensures State() == Shrunk(old(State()), db, old(rrSetAdditions).Keys + domainAdditions)
    {
      hide Shrunk, Disjoint, ChangesFor;
      ghost var t := State();
      changes, ups := [], [];
      var todo := rrSetAdditions.Keys + domainAdditions;
      ghost var all := todo;
      ShrunkNothing(t, db);
      assert all - todo == {};
      while todo != {}
        invariant todo <= all
        invariant Enumerates(ups, all - todo)
        invariant changes == CompileUpdates(t, db, ups)
        invariant State() == Shrunk(t, db, all - todo)
        decreases todo
      {
        var d :| d in todo;
        ShrinkStep(t, db, all - todo, d);
        var more := CompileDomain(db, d);
        changes := changes + more;
        assert (ups + [d])[..|ups|] == ups;
        ups := ups + [d];
        assert all - (todo - {d}) == (all - todo) + {d};
        todo := todo - {d};
      }
      assert all - todo == all;
    }

    /** Compiles the change list.  The two loops visit their sets in any order; `dels` and `ups` record which.  What was
        recorded for deleted domains is dropped, and the additions shrink to the non-empty ones. */
    method ComputeChanges(db: Database) returns (changes: seq<Change>, ghost dels: seq<Name>, ghost ups: seq<Name>)
      requires Valid()
      modifies this
      ensures Enumerates(dels, old(domainDeletions)) && Enumerates(ups, UpdatedDomains(old(State())))
      ensures changes == Compile(old(State()), db, dels, ups)
      ensures State() == Shrunk(WithoutDeleted(old(State())), db, UpdatedDomains(old(State())))
    {
      hide Shrunk;
      ghost var t := State();
      changes, dels := CompileDeletedDomains();
      WithoutDeletedDisjoint(t);
      var more;
      more, ups := CompileUpdatedDomains(db);
      forall d | d in ups ensures ChangesFor(WithoutDeleted(t), db, d) == ChangesFor(t, db, d) {
        SameRecord(t, WithoutDeleted(t), db, d);
      }
      SameChanges(t, WithoutDeleted(t), db, ups);
      changes := changes + more;
    }

    /** Executes the changes one by one; a failing change aborts the transaction. */
    static method Execute(w0: World, changes: seq<Change>, ns: RRset) returns (r: Result<World, Failure>)
      ensures r == DoAll(w0, changes, ns)
    {
      var w := w0;
      for i := 0 to |changes|
        invariant DoAll(w0, changes[..i], ns) == Ok(w)
      {
        assert changes[..i + 1][..i] == changes[..i];
        match Do(w, changes[i], ns)
        case Err(e) =>
          FailureStays(w0, changes, i + 1, ns);
          return Err(e);
        case Ok(w') => w := w';
      }
      assert changes[..|changes|] == changes;
      return Ok(w);
    }

    /** Transfers the changed zones to nsmaster, in any order. */
    static method TransferZones(w: World) returns (r: World)
      ensures r == Transfer(w)
      ensures r.db == w.db && r.lord == w.lord && r.axfr == w.axfr && r.master.Keys == w.master.Keys
      ensures forall d :: d in r.master ==> r.master[d] == if d in w.axfr && d in w.lord then w.lord[d] else w.master[d]
    {
      var pending := w.axfr;
      var master := w.master;
      while pending != {}
        invariant pending <= w.axfr
        invariant master.Keys == w.master.Keys
        invariant forall d :: d in master ==>
                    master[d] == if d in w.axfr - pending && d in w.lord then w.lord[d] else w.master[d]
        decreases pending
      {
        var d :| d in pending;
        if d in master && d in w.lord {
          master := master[d := w.lord[d]];
        }
        pending := pending - {d};
      }
      assert master == Transfer(w).master;
      return w.(master := master);
    }

    /** Leaving the tracked block.  After an exception nothing is sent; otherwise the changes are compiled and executed,
        and the changed zones are transferred. */
    method Exit(raised: bool, db: Database, lord: Database, master: Database, ns: RRset)
      returns (r: Option<Result<World, Failure>>, ghost dels: seq<Name>, ghost ups: seq<Name>)
      requires Valid()
      modifies this
      ensures raised ==> r == None && State() == old(State())
      ensures !raised ==>
                && Enumerates(dels, old(domainDeletions)) && Enumerates(ups, UpdatedDomains(old(State())))
                && r == Some(Commit(old(State()), db, lord, master, dels, ups, ns))
    {
      if raised {
        return None, [], [];
      }
      var changes;
      changes, dels, ups := ComputeChanges(db);
      var executed := Execute(World(db, lord, master, {}), changes, ns);
      match executed
      case Err(e) => r := Some(Err(e));
      case Ok(w) =>
        var w' := TransferZones(w);
        r := Some(Ok(w'));
    }
  }

  function WithoutDeleted(t: Tracker): Tracker {
    t.(additions := t.additions - t.domainDeletions, modifications := t.modifications - t.domainDeletions,
       deletions := t.deletions - t.domainDeletions)
  }

  lemma WithoutDeletedDisjoint(t: Tracker)
    requires SameDomains(t) && Disjoint(t)
    ensures SameDomains(WithoutDeleted(t)) && Disjoint(WithoutDeleted(t))
  {
    forall d, k | k in At(WithoutDeleted(t).deletions, d) ensures k in At(t.deletions, d) {
    }
  }

  /** The tracker once the second loop has been through the domains in `done`. */
  function Shrunk(t: Tracker, db: Database, done: set<Name>): Tracker {
    t.(additions := map d | d in t.additions :: if d in done then NonEmptyAdditions(t, db, d) else t.additions[d])
  }

  lemma ShrunkNothing(t: Tracker, db: Database)
    ensures Shrunk(t, db, {}) == t
  {
  }

  lemma ShrinkStep(t: Tracker, db: Database, done: set<Name>, d: Name)
    requires SameDomains(t) && Disjoint(t) && d !in done
    ensures var s := Shrunk(t, db, done);
            && SameDomains(s) && Disjoint(s) && ChangesFor(s, db, d) == ChangesFor(t, db, d)
            && Shrunk(t, db, done + {d})
               == if d in s.additions then s.(additions := s.additions[d := NonEmptyAdditions(s, db, d)]) else s
  {
    var s := Shrunk(t, db, done);
    SameRecord(t, s, db, d);
    forall c, k | k in At(s.deletions, c) ensures k !in At(s.additions, c) && k !in At(s.modifications, c) {
      assert k in At(t.deletions, c);
    }
  }

  lemma SameRecord(t: Tracker, t1: Tracker, db: Database, d: Name)
    requires d in t.domainAdditions <==> d in t1.domainAdditions
    requires At(t1.additions, d) == At(t.additions, d)
    requires At(t1.modifications, d) == At(t.modifications, d)
    requires At(t1.deletions, d) == At(t.deletions, d)
    ensures ChangesFor(t1, db, d) == ChangesFor(t, db, d)
    ensures NonEmptyAdditions(t1, db, d) == NonEmptyAdditions(t, db, d)
  {
  }

  lemma {:induction false} SameChanges(t: Tracker, t1: Tracker, db: Database, ups: seq<Name>)
    requires forall d :: d in ups ==> ChangesFor(t1, db, d) == ChangesFor(t, db, d)
    ensures CompileUpdates(t1, db, ups) == CompileUpdates(t, db, ups)
  {
    if ups != [] {
      SameChanges(t, t1, db, ups[..|ups|-1]);
    }
  }

  /** Once a change has failed, the rest of the list does not matter. */
  lemma {:induction false} FailureStays(w: World, cs: seq<Change>, n: nat, ns: RRset)
    requires n <= |cs| && DoAll(w, cs[..n], ns).Err?
    ensures DoAll(w, cs, ns) == DoAll(w, cs[..n], ns)
    decreases |cs|
  {
    if n == |cs| {
      assert cs[..n] == cs;
    } else {
      assert cs[..|cs|-1][..n] == cs[..n];
      FailureStays(w, cs[..|cs|-1], n, ns);
    }
  }
}
