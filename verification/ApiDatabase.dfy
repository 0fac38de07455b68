/** The API database during one tracked transaction: row operations, the constraints they run into, and the signals
    they send. */
module ApiDatabase {
  import opened Dns
  import opened ChangeTracker
  import opened Records

  ghost predicate AllExclusive(db: Database) {
    forall d :: d in db ==> Exclusive(db[d].Keys)
  }

  /** CNAME exclusivity holds at the start and after each event. */
  ghost predicate AlwaysExclusive(db: Database, evs: seq<Event>) {
    AllExclusive(Replay(db, evs)) && (evs != [] ==> AlwaysExclusive(db, evs[..|evs|-1]))
  }

  /** A transaction that leads from `start` to `db`, sending `evs`, and never leaving the database constraints. */
  ghost predicate Leads(start: Database, evs: seq<Event>, db: Database) {
    ValidRun(start, evs) && Replay(start, evs) == db && AlwaysExclusive(start, evs)
  }

  lemma LeadsOn(start: Database, evs: seq<Event>, db: Database, e: Event)
    requires Leads(start, evs, db) && Enabled(db, e) && AllExclusive(Apply(db, e))
    ensures Leads(start, evs + [e], Apply(db, e))
  {
    assert (evs + [e])[..|evs|] == evs;
  }

  /** The exclusion constraint, checked when a row is inserted. */
  predicate Conflicts(z: Zone, k: Key) {
    exists l :: l in z && l.subname == k.subname && (l.rrtype == "CNAME") != (k.rrtype == "CNAME")
  }

  function Put(db: Database, d: Name, k: Key, v: RRset): Database
    requires d in db
  {
    db[d := db[d][k := v]]
  }

  lemma PutPut(db: Database, d: Name, k: Key, v: RRset, v': RRset)
    requires d in db
    ensures Put(Put(db, d, k, v), d, k, v') == Put(db, d, k, v')
    ensures k in db[d] ==> Put(db, d, k, db[d][k]) == db
  {
    assert db[d][k := v][k := v'] == db[d][k := v'];
    assert k in db[d] ==> db[d][k := db[d][k]] == db[d];
    assert db[d := db[d]] == db;
  }

  lemma DeletionKeepsExclusive(db: Database, d: Name, k: Key)
    requires AllExclusive(db) && d in db
    ensures AllExclusive(db[d := db[d] - {k}])
  {
  }

  class Transaction {
    var db: Database
    var signals: seq<Event>
    ghost const start: Database
    ghost var created: set<(Name, Key)>
    ghost var deleted: set<(Name, Key)>

    ghost predicate Valid()
      reads this
    {
      && Leads(start, signals, db) && AllExclusive(db)
      && (forall e :: e in signals ==>
            match e
            case RRsetCreated(d, k, _) => (d, k) in created
            case RRsetDeleted(d, k) => (d, k) in deleted
            case RRsetModified(_, _, _) => true
            case _ => false)
    }

    constructor (db0: Database)
      requires AllExclusive(db0)
      ensures Valid() && start == db == db0 && signals == [] && created == deleted == {}
    {
      db, signals, start, created, deleted := db0, [], db0, {}, {};
    }

    /** Inserts an RRset row without records.  The database refuses a second row for the key, and a CNAME next to
        another type. */
    method InsertRRset(d: Name, k: Key, ttl: nat) returns (ok: bool)
      requires Valid() && d in db
      modifies this
      ensures Valid()
      ensures ok <==> k !in old(db)[d] && !Conflicts(old(db)[d], k)
      ensures ok ==> db == Put(old(db), d, k, RRset(ttl, {}))
      ensures ok ==> signals == old(signals) + [RRsetCreated(d, k, ttl)]
      ensures ok ==> created == old(created) + {(d, k)} && deleted == old(deleted)
      ensures !ok ==> unchanged(this)
    {
      if k in db[d] || Conflicts(db[d], k) {
        return false;
      }
      var e := RRsetCreated(d, k, ttl);
      assert AllExclusive(Apply(db, e)) by {
        forall c | c in db && c != d ensures Exclusive(Apply(db, e)[c].Keys) {
        }
      }
      LeadsOn(start, signals, db, e);
      db, signals := db[d := db[d][k := RRset(ttl, {})]], signals + [e];
      created := created + {(d, k)};
      return true;
    }

    /** Gives an existing RRset another value; the row operation sends a post_save or, for a deleted RR, post_delete. */
    method Modify(d: Name, k: Key, v: RRset)
      requires Valid() && d in db && k in db[d]
      modifies this`db, this`signals
      ensures Valid()
      ensures db == Put(old(db), d, k, v)
      ensures signals == old(signals) + [RRsetModified(d, k, v)]
    {
      var e := RRsetModified(d, k, v);
      assert db[d][k := v].Keys == db[d].Keys;
      LeadsOn(start, signals, db, e);
      db, signals := db[d := db[d][k := v]], signals + [e];
    }

    /** Deletes RRs one by one, each with its signal. */
    method DeleteRecords(d: Name, k: Key, gone: set<string>)
      requires Valid() && d in db && k in db[d] && gone <= db[d][k].records
      modifies this`db, this`signals
      ensures Valid()
      ensures db == Put(old(db), d, k, RRset(old(db)[d][k].ttl, old(db)[d][k].records - gone))
      ensures old(signals) <= signals
      ensures signals == old(signals) <==> gone == {}
    {
      var todo := gone;
      var rrset := db[d][k];
      assert rrset.records - (gone - todo) == rrset.records;
      PutPut(db, d, k, rrset, rrset);
      while todo != {}
        invariant Valid() && todo <= gone && d in db && k in db[d]
        invariant db == Put(old(db), d, k, RRset(rrset.ttl, rrset.records - (gone - todo)))
        invariant old(signals) <= signals
        invariant signals == old(signals) <==> todo == gone
        decreases todo
      {
        var r :| r in todo;
        var now := db[d][k].records - {r};
        todo := todo - {r};
        assert now == rrset.records - (gone - todo);
        PutPut(old(db), d, k, db[d][k], RRset(rrset.ttl, now));
        Modify(d, k, RRset(rrset.ttl, now));
      }
      assert gone - todo == gone;
    }

    /** Deletes an RRset; its RRs go first. */
    method DeleteRRset(d: Name, k: Key)
      requires Valid() && d in db && k in db[d]
      modifies this
      ensures Valid()
      ensures db == old(db)[d := old(db)[d] - {k}]
      ensures old(signals) < signals
      ensures deleted == old(deleted) + {(d, k)} && created == old(created)
    {
      hide Leads, AllExclusive;
      DeleteRecords(d, k, db[d][k].records);
      var e := RRsetDeleted(d, k);
      DeletionKeepsExclusive(db, d, k);
      LeadsOn(start, signals, db, e);
      assert db[d] - {k} == old(db)[d] - {k};
      db, signals := db[d := db[d] - {k}], signals + [e];
      deleted := deleted + {(d, k)};
    }

    /** Replaces the records of an RRset.  Only records that leave or enter the set are touched, and there is a signal
        exactly if the set changes; unacceptable records change nothing. */
    method SaveRecords(canon: Canonicalizer, d: Name, k: Key, records: seq<string>)
      returns (r: Result<(set<string>, set<string>), seq<RecordError>>)
      requires Valid() && d in db && k in db[d]
      modifies this`db, this`signals
      ensures Valid() && d in old(db) && k in old(db)[d]
      ensures r.Ok? <==> Acceptable(canon, k, records)
      ensures r.Err? ==> db == old(db) && signals == old(signals)
                         && r.error == SetErrors(k, |records|) + RecordErrors(canon, k.rrtype, records)
      ensures r.Ok? ==>
                var before, after := old(db)[d][k].records, CanonicalSet(canon, k.rrtype, records);
                && db == Put(old(db), d, k, RRset(old(db)[d][k].ttl, after))
                && r.value == (before - after, after - before)
                && old(signals) <= signals && (signals == old(signals) <==> before == after)
    {
      hide Leads, AllExclusive, Acceptable, CanonicalSet;
      var cleaned := CleanRecords(canon, k, records);
      if cleaned.Err? {
        return Err(cleaned.error);
      }
      var newRecords := cleaned.value;
      ghost var before := db[d][k];
      var removed := db[d][k].records - newRecords;
      DeleteRecords(d, k, removed);
      var unchangedRecords := db[d][k].records;
      var added := newRecords - unchangedRecords;
      assert unchangedRecords + added == newRecords && added == newRecords - before.records;
      PutPut(old(db), d, k, RRset(before.ttl, unchangedRecords), RRset(before.ttl, newRecords));
      if added != {} {
        Modify(d, k, RRset(db[d][k].ttl, unchangedRecords + added));
      } else {
        assert unchangedRecords == newRecords;
      }
      return Ok((removed, added));
    }
  }

  lemma RunOf(t: Transaction)
    requires t.Valid()
    ensures ValidRun(t.start, t.signals) && Replay(t.start, t.signals) == t.db
  {
  }
}
