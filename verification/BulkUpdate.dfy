/** The bulk RRset update: what a validated batch does to a domain's RRsets. */
module BulkUpdate {
  import opened Dns
  import opened ChangeTracker
  import opened Records
  import opened ApiDatabase

  /** A validated row.  PATCH may leave out the TTL or the records of a known RRset. */
  datatype Row = Row(key: Key, ttl: Option<nat>, records: Option<seq<string>>)

  predicate IsEmpty(row: Row) {
    row.records == Some([])
  }

  /** The batch by key: of several rows with the same key, the last one. */
  function LastRows(data: seq<Row>): map<Key, Row> {
    if data == [] then map[] else LastRows(data[..|data|-1])[data[|data|-1].key := data[|data|-1]]
  }

  /** The row that counts for each key: one that empties the RRset if there is one, otherwise the last. */
  function Index(data: seq<Row>): map<Key, Row> {
    if data == [] then map[]
    else
      var before, row := Index(data[..|data|-1]), data[|data|-1];
      if row.key in before && IsEmpty(before[row.key]) then before else before[row.key := row]
  }

  ghost predicate DistinctKeys(data: seq<Row>) {
    forall i, j :: 0 <= i < j < |data| ==> data[i].key != data[j].key
  }

  lemma {:induction false} IndexMembers(data: seq<Row>)
    ensures WellKeyed(Index(data)) && Index(data).Keys == LastRows(data).Keys
    ensures forall row :: row in data ==> row.key in Index(data) && (IsEmpty(row) ==> IsEmpty(Index(data)[row.key]))
    ensures forall k :: k in Index(data) ==> Index(data)[k] in data
    ensures forall k :: k in Index(data) && !IsEmpty(Index(data)[k]) ==> LastRows(data)[k] == Index(data)[k]
  {
    if data != [] {
      IndexMembers(data[..|data|-1]);
      assert data == data[..|data|-1] + [data[|data|-1]];
    }
  }

  /** A row that comes last for its key is the last one. */
  lemma {:induction false} LastRowsAreLast(data: seq<Row>, i: nat)
    requires i < |data| && forall j :: i < j < |data| ==> data[j].key != data[i].key
    ensures data[i].key in LastRows(data) && LastRows(data)[data[i].key] == data[i]
  {
    if i < |data| - 1 {
      LastRowsAreLast(data[..|data|-1], i);
    }
  }

  lemma {:induction false} IndexHasRows(data: seq<Row>)
    requires DistinctKeys(data)
    ensures forall row :: row in data ==> row.key in Index(data) && Index(data)[row.key] == row
    ensures forall k :: k in Index(data) ==> Index(data)[k] in data && Index(data)[k].key == k
  {
    IndexMembers(data);
    forall row | row in data ensures row.key in Index(data) && Index(data)[row.key] == row {
      var i :| 0 <= i < |data| && data[i] == row;
      var j :| 0 <= j < |data| && data[j] == Index(data)[row.key];
      assert data[i].key == data[j].key;
    }
  }

  // ---------------------------------------------------------------------------------------------------------------
  // The key-wise merge of a zone and a batch
  // ---------------------------------------------------------------------------------------------------------------

  /** What the RRset of a row's key becomes: gone, changed where the row says something, or created. */
  function RowValue(canon: Canonicalizer, z: Zone, row: Row): Option<RRset> {
    if IsEmpty(row) then None
    else
      var records := if row.records.Some? then CanonicalSet(canon, row.key.rrtype, row.records.value)
                     else if row.key in z then z[row.key].records else {};
      var ttl := if row.ttl.Some? && (row.ttl.value != 0 || row.key !in z) then row.ttl.value
                 else if row.key in z then z[row.key].ttl else 0;
      Some(RRset(ttl, records))
  }

  /** The row can be carried out: its records make up an RRset, and a creation has a TTL and records. */
  ghost predicate RowOk(canon: Canonicalizer, z: Zone, row: Row) {
    IsEmpty(row) || (&& (row.records.Some? ==> Acceptable(canon, row.key, row.records.value))
                     && (row.key !in z ==> row.records.Some? && row.ttl.Some?))
  }

  /** The zone when the rows of the keys in `done` have been carried out. */
  function Partial(canon: Canonicalizer, z: Zone, index: map<Key, Row>, done: set<Key>): Zone {
    map k | k in z.Keys + (done * index.Keys) && (k in done && k in index ==> RowValue(canon, z, index[k]).Some?)
      :: if k in done && k in index then RowValue(canon, z, index[k]).value else z[k]
  }

  function Merged(canon: Canonicalizer, z: Zone, index: map<Key, Row>): Zone {
    Partial(canon, z, index, index.Keys)
  }

  /** The row changes nothing. */
  predicate Same(canon: Canonicalizer, z: Zone, row: Row) {
    RowValue(canon, z, row) == if row.key in z then Some(z[row.key]) else None
  }

  ghost predicate WellKeyed(index: map<Key, Row>) {
    forall k :: k in index ==> index[k].key == k
  }

  lemma PartialStep(canon: Canonicalizer, z: Zone, index: map<Key, Row>, done: set<Key>, k: Key)
    requires k in index && k !in done
    ensures var before, after := Partial(canon, z, index, done), Partial(canon, z, index, done + {k});
            after == match RowValue(canon, z, index[k]) case None => before - {k} case Some(v) => before[k := v]
    ensures var before := Partial(canon, z, index, done);
            (k in before <==> k in z) && (k in before ==> before[k] == z[k])
  {
  }

  lemma UnchangedIffSame(canon: Canonicalizer, z: Zone, index: map<Key, Row>)
    requires WellKeyed(index)
    ensures Merged(canon, z, index) == z <==> forall k :: k in index ==> Same(canon, z, index[k])
  {
    var m := Merged(canon, z, index);
    if m == z {
      forall k | k in index ensures Same(canon, z, index[k]) {
        assert k in m <==> k in z;
      }
    }
    if forall k :: k in index ==> Same(canon, z, index[k]) {
      assert forall k :: k in m <==> k in z;
    }
  }

  // ---------------------------------------------------------------------------------------------------------------
  // The update
  // ---------------------------------------------------------------------------------------------------------------

  datatype UpdateError = MissingField | IntegrityError | BadRecords(errors: seq<RecordError>)

  /** The serializer's `create` for one unknown, non-empty row. */
  method CreateRow(t: Transaction, canon: Canonicalizer, d: Name, row: Row) returns (e: Option<UpdateError>)
    requires t.Valid() && d in t.db && row.key !in t.db[d] && !IsEmpty(row)
    modifies t
    ensures t.Valid() && d in old(t.db)
    ensures e == None <==> RowOk(canon, old(t.db)[d], row) && !Conflicts(old(t.db)[d], row.key)
    ensures e == Some(MissingField) <==> row.records == None || row.ttl == None
    ensures e == Some(IntegrityError) <==> row.records.Some? && row.ttl.Some? && Conflicts(old(t.db)[d], row.key)
    ensures e.Some? && e.value.BadRecords? ==>
              e.value.errors == SetErrors(row.key, |row.records.value|) + RecordErrors(canon, row.key.rrtype, row.records.value)
    ensures e == None ==>
              && t.db == Put(old(t.db), d, row.key, RowValue(canon, old(t.db)[d], row).value)
              && old(t.signals) < t.signals
              && t.created == old(t.created) + {(d, row.key)} && t.deleted == old(t.deleted)
  {
    if row.records.None? || row.ttl.None? {
      return Some(MissingField);
    }
    var ok := t.InsertRRset(d, row.key, row.ttl.value);
    if !ok {
      return Some(IntegrityError);
    }
    ghost var v := RowValue(canon, old(t.db)[d], row).value;
    PutPut(old(t.db), d, row.key, RRset(row.ttl.value, {}), v);
    var saved := t.SaveRecords(canon, d, row.key, row.records.value);
    if saved.Err? {
      return Some(BadRecords(saved.error));
    }
    return None;
  }

  /** The serializer's `update` for one known, non-empty row.  An unchanged TTL only touches a timestamp. */
  method UpdateRow(t: Transaction, canon: Canonicalizer, d: Name, row: Row) returns (e: Option<UpdateError>)
    requires t.Valid() && d in t.db && row.key in t.db[d] && !IsEmpty(row)
    modifies t`db, t`signals
    ensures t.Valid() && d in old(t.db)
    ensures e == None <==> RowOk(canon, old(t.db)[d], row)
    ensures e.Some? ==> row.records.Some? && e.value == BadRecords(
              SetErrors(row.key, |row.records.value|) + RecordErrors(canon, row.key.rrtype, row.records.value))
    ensures e == None ==>
              && t.db == Put(old(t.db), d, row.key, RowValue(canon, old(t.db)[d], row).value)
              && old(t.signals) <= t.signals
              && (t.signals == old(t.signals) <==> Same(canon, old(t.db)[d], row))
  {
    ghost var before := t.db[d][row.key];
    ghost var v := RowValue(canon, t.db[d], row).value;
    PutPut(t.db, d, row.key, before, before);
    PutPut(t.db, d, row.key, RRset(before.ttl, v.records), v);
    if row.records.Some? {
      var saved := t.SaveRecords(canon, d, row.key, row.records.value);
      if saved.Err? {
        return Some(BadRecords(saved.error));
      }
    }
    assert t.db == Put(old(t.db), d, row.key, RRset(before.ttl, v.records));
    if row.ttl.Some? && row.ttl.value != 0 && t.db[d][row.key].ttl != row.ttl.value {
      t.Modify(d, row.key, RRset(row.ttl.value, t.db[d][row.key].records));
    }
    return None;
  }

  function Tagged(d: Name, keys: set<Key>): set<(Name, Key)> {
    set k | k in keys :: (d, k)
  }

  /** Unknown, non-empty keys are created; known, empty ones deleted. */
  function CreatedKeys(z: Zone, index: map<Key, Row>): set<Key> {
    set k | k in index && k !in z && !IsEmpty(index[k])
  }

  function DeletedKeys(z: Zone, index: map<Key, Row>): set<Key> {
    set k | k in index && k in z && IsEmpty(index[k])
  }

  /** How far an update has come: exactly the rows of the keys in `done` have been carried out, and a signal was sent
      exactly if one of them changed something. */
  ghost predicate Progress(t: Transaction, canon: Canonicalizer, db0: Database, signals0: seq<Event>, d: Name,
                           index: map<Key, Row>, done: set<Key>)
    reads t
  {
    && t.Valid() && WellKeyed(index) && done <= index.Keys
    && d in db0 && t.db == db0[d := Partial(canon, db0[d], index, done)]
    && signals0 <= t.signals
    && (t.signals == signals0 <==> forall k :: k in done ==> Same(canon, db0[d], index[k]))
  }

  /** Rows depend on the zone at their own key only. */
  lemma RowIsLocal(canon: Canonicalizer, z: Zone, z': Zone, row: Row)
    requires row.key in z <==> row.key in z'
    requires row.key in z ==> z[row.key] == z'[row.key]
    ensures RowValue(canon, z, row) == RowValue(canon, z', row)
    ensures RowOk(canon, z, row) <==> RowOk(canon, z', row)
    ensures Same(canon, z, row) <==> Same(canon, z', row)
  {
  }

  lemma ProgressStep(canon: Canonicalizer, db0: Database, d: Name, index: map<Key, Row>, done: set<Key>, k: Key)
    requires d in db0 && WellKeyed(index) && k in index && k !in done
    ensures var z := Partial(canon, db0[d], index, done);
            var now := db0[d := z];
            var next := db0[d := Partial(canon, db0[d], index, done + {k})];
            && (k in z <==> k in db0[d])
            && (RowValue(canon, z, index[k]).None? <==> IsEmpty(index[k]))
            && (Same(canon, db0[d], index[k]) ==> (k in z <==> !IsEmpty(index[k])))
            && RowValue(canon, db0[d], index[k]) == RowValue(canon, z, index[k])
            && (RowOk(canon, db0[d], index[k]) <==> RowOk(canon, z, index[k]))
            && (Same(canon, db0[d], index[k]) <==> Same(canon, z, index[k]))
            && next == match RowValue(canon, z, index[k])
                       case None => now[d := z - {k}] case Some(v) => Put(now, d, k, v)
  {
    PartialStep(canon, db0[d], index, done, k);
    RowIsLocal(canon, db0[d], Partial(canon, db0[d], index, done), index[k]);
  }

  /** Deletions come first, to get possible exclusivity collisions out of the way. */
  method DeleteAll(t: Transaction, ghost canon: Canonicalizer, d: Name, ghost index: map<Key, Row>, keys: set<Key>,
                   ghost db0: Database, ghost signals0: seq<Event>, ghost done: set<Key>)
    requires Progress(t, canon, db0, signals0, d, index, done)
    requires keys <= index.Keys * db0[d].Keys && keys !! done
    requires forall k :: k in keys ==> IsEmpty(index[k])
    modifies t
    ensures Progress(t, canon, db0, signals0, d, index, done + keys)
    ensures t.deleted == old(t.deleted) + Tagged(d, keys) && t.created == old(t.created)
  {
    hide Partial, RowValue, RowOk, Same, Leads, AllExclusive, Transaction.Valid;
    var todo := keys;
    assert done + (keys - todo) == done;
    while todo != {}
      invariant todo <= keys
      invariant Progress(t, canon, db0, signals0, d, index, done + (keys - todo))
      invariant t.deleted == old(t.deleted) + Tagged(d, keys - todo) && t.created == old(t.created)
      decreases todo
    {
      var k :| k in todo;
      ProgressStep(canon, db0, d, index, done + (keys - todo), k);
      t.DeleteRRset(d, k);
      assert done + (keys - todo) + {k} == done + (keys - (todo - {k}));
      todo := todo - {k};
    }
    assert keys - todo == keys;
  }

  method CreateAll(t: Transaction, canon: Canonicalizer, d: Name, dataIndex: map<Key, Row>, keys: set<Key>,
                   ghost index: map<Key, Row>, ghost db0: Database, ghost signals0: seq<Event>, ghost done: set<Key>)
    returns (e: Option<UpdateError>, ghost failed: Option<Key>)
    requires Progress(t, canon, db0, signals0, d, index, done)
    requires keys <= index.Keys - db0[d].Keys && keys !! done
    requires forall k :: k in keys ==> k in dataIndex && dataIndex[k] == index[k] && !IsEmpty(index[k])
    modifies t
    ensures t.Valid() && (e == None <==> failed == None)
    ensures e == None ==> Progress(t, canon, db0, signals0, d, index, done + keys)
    ensures e == None ==> t.created == old(t.created) + Tagged(d, keys) && t.deleted == old(t.deleted)
    ensures e == None ==> forall k :: k in keys ==> RowOk(canon, db0[d], index[k])
    ensures failed.Some? ==>
              && failed.value in keys
              && (!RowOk(canon, db0[d], index[failed.value])
                  || exists some :: done <= some <= done + keys
                                    && Conflicts(Partial(canon, db0[d], index, some), failed.value))
  {
    hide Partial, RowValue, RowOk, Same, Leads, AllExclusive, Transaction.Valid, Conflicts, Put, IsEmpty;
    var todo := keys;
    assert done + (keys - todo) == done;
    while todo != {}
      invariant todo <= keys
      invariant Progress(t, canon, db0, signals0, d, index, done + (keys - todo))
      invariant t.created == old(t.created) + Tagged(d, keys - todo) && t.deleted == old(t.deleted)
      invariant forall k :: k in keys - todo ==> RowOk(canon, db0[d], index[k])
      decreases todo
    {
      var k :| k in todo;
      ghost var some := done + (keys - todo);
      ProgressStep(canon, db0, d, index, some, k);
      e := CreateRow(t, canon, d, dataIndex[k]);
      if e.Some? {
        assert done <= some <= done + keys;
        return e, Some(k);
      }
      assert some + {k} == done + (keys - (todo - {k}));
      todo := todo - {k};
    }
    assert keys - todo == keys;
    return None, None;
  }

  method UpdateAll(t: Transaction, canon: Canonicalizer, d: Name, dataIndex: map<Key, Row>, keys: set<Key>,
                   ghost index: map<Key, Row>, ghost db0: Database, ghost signals0: seq<Event>, ghost done: set<Key>)
    returns (e: Option<UpdateError>, ghost failed: Option<Key>)
    requires Progress(t, canon, db0, signals0, d, index, done)
    requires keys <= index.Keys * db0[d].Keys && keys !! done
    requires forall k :: k in keys ==> k in dataIndex && dataIndex[k] == index[k] && !IsEmpty(index[k])
    modifies t`db, t`signals
    ensures t.Valid() && (e == None <==> failed == None)
    ensures e == None ==> Progress(t, canon, db0, signals0, d, index, done + keys)
    ensures e == None ==> forall k :: k in keys ==> RowOk(canon, db0[d], index[k])
    ensures failed.Some? ==> failed.value in keys && !RowOk(canon, db0[d], index[failed.value])
  {
    hide Partial, RowValue, RowOk, Same, Leads, AllExclusive, Transaction.Valid;
    var todo := keys;
    assert done + (keys - todo) == done;
    while todo != {}
      invariant todo <= keys
      invariant Progress(t, canon, db0, signals0, d, index, done + (keys - todo))
      invariant forall k :: k in keys - todo ==> RowOk(canon, db0[d], index[k])
      decreases todo
    {
      var k :| k in todo;
      ProgressStep(canon, db0, d, index, done + (keys - todo), k);
      e := UpdateRow(t, canon, d, dataIndex[k]);
      if e.Some? {
        return e, Some(k);
      }
      assert done + (keys - todo) + {k} == done + (keys - (todo - {k}));
      todo := todo - {k};
    }
    assert keys - todo == keys;
    return None, None;
  }

  /** The keys of a zone after an update contain every state in between that can block a creation. */
  lemma ConflictPersists(canon: Canonicalizer, z: Zone, index: map<Key, Row>, some: set<Key>, k: Key)
    requires WellKeyed(index) && some <= index.Keys && k in index && k !in z && !IsEmpty(index[k])
    requires forall l :: l in index && l in z && IsEmpty(index[l]) ==> l in some
    requires Conflicts(Partial(canon, z, index, some), k)
    ensures !Exclusive(Merged(canon, z, index).Keys)
  {
    var m := Merged(canon, z, index);
    var l :| l in Partial(canon, z, index, some) && l.subname == k.subname && (l.rrtype == "CNAME") != (k.rrtype == "CNAME");
    assert k in m;
    assert l in m;
  }

  lemma NoopsDoNothing(canon: Canonicalizer, z: Zone, index: map<Key, Row>, done: set<Key>)
    requires WellKeyed(index) && done <= index.Keys
    requires forall k :: k in index && k !in done ==> k !in z && IsEmpty(index[k])
    ensures Partial(canon, z, index, done) == Merged(canon, z, index)
    ensures forall k :: k in index && k !in done ==> RowOk(canon, z, index[k]) && Same(canon, z, index[k])
  {
    var p, m := Partial(canon, z, index, done), Merged(canon, z, index);
    forall k ensures (k in p <==> k in m) && (k in p ==> p[k] == m[k]) {
      if k in index && k !in done {
        assert RowValue(canon, z, index[k]) == None;
      }
    }
  }

  /** The batch can be carried out: each row can, and the merged zone satisfies CNAME exclusivity. */
  ghost predicate Accepted(canon: Canonicalizer, z: Zone, index: map<Key, Row>) {
    && (forall k :: k in index ==> RowOk(canon, z, index[k]))
    && Exclusive(Merged(canon, z, index).Keys)
  }

  // ---------------------------------------------------------------------------------------------------------------
  // The outcome, key by key
  // ---------------------------------------------------------------------------------------------------------------

  /** What has become of a key: a key without a row is as before; an emptied key is gone; any other has the TTL of its row,
      unless that is missing or zero and the key existed, and the canonical forms of the records of its row, or the old
      records if the row gives none. */
  ghost predicate CarriedOut(canon: Canonicalizer, z: Zone, index: map<Key, Row>, after: Zone, k: Key) {
    if k !in index then (k in after <==> k in z) && (k in after && k in z ==> after[k] == z[k])
    else if index[k].records == Some([]) then k !in after
    else
      var row := index[k];
      && k in after
      && (if k in z && (row.ttl == None || row.ttl == Some(0)) then after[k].ttl == z[k].ttl
          else row.ttl == Some(after[k].ttl))
      && (if row.records.Some?
          then forall c :: c in after[k].records <==> exists r :: r in row.records.value && canon(r, k.rrtype) == Some(c)
          else k in z && after[k].records == z[k].records)
  }

  /** The RRsets that a batch leaves. */
  predicate IsLeft(z: Zone, index: map<Key, Row>, k: Key) {
    if k in index then index[k].records != Some([]) else k in z
  }

  /** The batch can be carried out: the records of each row make up an RRset, a row that creates one gives a TTL and records,
      and next to a CNAME RRset no RRset of another type is left. */
  ghost predicate CanCarryOut(canon: Canonicalizer, z: Zone, index: map<Key, Row>) {
    && (forall k :: k in index && index[k].records != Some([]) ==>
          && (index[k].records.Some? ==> MakeRRset(canon, k, index[k].records.value))
          && (k !in z ==> index[k].records.Some? && index[k].ttl.Some?))
    && (forall k, l :: IsLeft(z, index, k) && IsLeft(z, index, l) && k.subname == l.subname ==>
          (k.rrtype == "CNAME" <==> l.rrtype == "CNAME"))
  }

  lemma MergedIsLeft(canon: Canonicalizer, z: Zone, index: map<Key, Row>)
    requires WellKeyed(index)
    ensures forall k :: k in Merged(canon, z, index) <==> IsLeft(z, index, k)
  {
  }

  lemma AcceptedMeans(canon: Canonicalizer, z: Zone, index: map<Key, Row>)
    requires WellKeyed(index)
    ensures Accepted(canon, z, index) <==> CanCarryOut(canon, z, index)
  {
    hide Acceptable, MakeRRset, Merged, IsLeft;
    MergedIsLeft(canon, z, index);
    forall k | k in index && index[k].records.Some?
      ensures Acceptable(canon, k, index[k].records.value) <==> MakeRRset(canon, k, index[k].records.value)
    {
      AcceptableMeans(canon, k, index[k].records.value);
    }
  }

  lemma MergedCarriesOut(canon: Canonicalizer, z: Zone, index: map<Key, Row>, k: Key)
    requires WellKeyed(index) && forall l :: l in index ==> RowOk(canon, z, index[l])
    ensures CarriedOut(canon, z, index, Merged(canon, z, index), k)
  {
    hide Acceptable, CanonicalSet;
    if k in index && index[k].records.Some? {
      forall c
        ensures c in CanonicalSet(canon, k.rrtype, index[k].records.value)
           <==> exists r :: r in index[k].records.value && canon(r, k.rrtype) == Some(c)
      {
        CanonicalSetHolds(canon, k.rrtype, index[k].records.value, c);
      }
    }
  }

  lemma AllCarriedOut(canon: Canonicalizer, z: Zone, index: map<Key, Row>)
    requires WellKeyed(index)
    ensures Accepted(canon, z, index) <==> CanCarryOut(canon, z, index)
    ensures Accepted(canon, z, index) ==> forall k :: CarriedOut(canon, z, index, Merged(canon, z, index), k)
  {
    hide CarriedOut, CanCarryOut, RowOk, Merged;
    AcceptedMeans(canon, z, index);
    if Accepted(canon, z, index) {
      forall k ensures CarriedOut(canon, z, index, Merged(canon, z, index), k) {
        MergedCarriesOut(canon, z, index, k);
      }
    }
  }

  lemma RowRefused(canon: Canonicalizer, z: Zone, index: map<Key, Row>, k: Key)
    requires k in index && !RowOk(canon, z, index[k])
    ensures !Accepted(canon, z, index)
  {
    hide RowOk;
  }

  lemma CreationRefused(canon: Canonicalizer, z: Zone, index: map<Key, Row>, from: set<Key>, to: set<Key>, k: Key)
    requires WellKeyed(index) && to <= index.Keys && k in index && k !in z && !IsEmpty(index[k])
    requires forall l :: l in index && l in z && IsEmpty(index[l]) ==> l in from
    requires (!RowOk(canon, z, index[k])
              || exists some :: from <= some <= to && Conflicts(Partial(canon, z, index, some), k))
    ensures !Accepted(canon, z, index)
  {
    hide RowOk, Partial, Conflicts, Merged;
    if RowOk(canon, z, index[k]) {
      var some :| from <= some <= to && Conflicts(Partial(canon, z, index, some), k);
      ConflictPersists(canon, z, index, some, k);
    }
  }

  /** Once the rows of all keys that need an action have been carried out, so is the batch. */
  lemma Finished(t: Transaction, canon: Canonicalizer, d: Name, index: map<Key, Row>, db0: Database, signals0: seq<Event>,
                 done: set<Key>)
    requires Progress(t, canon, db0, signals0, d, index, done)
    requires forall k :: k in index && k !in done ==> k !in db0[d] && IsEmpty(index[k])
    requires forall k :: k in done && !IsEmpty(index[k]) ==> RowOk(canon, db0[d], index[k])
    ensures t.Valid() && d in db0 && Accepted(canon, db0[d], index)
    ensures t.db == db0[d := Merged(canon, db0[d], index)]
    ensures signals0 <= t.signals && (t.signals == signals0 <==> t.db == db0)
  {
    hide Partial, RowValue, RowOk, Same, Leads, AllExclusive, Conflicts, Merged;
    NoopsDoNothing(canon, db0[d], index, done);
    UnchangedIffSame(canon, db0[d], index);
    ValidZone(t, d);
    forall k | k in index && IsEmpty(index[k]) ensures RowOk(canon, db0[d], index[k]) {
      EmptyRowIsOk(canon, db0[d], index[k]);
    }
    RestoredIff(db0, d, Merged(canon, db0[d], index));
  }

  /** The bulk update.  Whatever order the loops over the created, updated and deleted keys take, it succeeds exactly if
      the batch can be carried out; no state in between violates uniqueness or exclusivity (the transaction stays
      valid); the result is the key-wise merge; and signals are sent exactly if something changed. */
  method Update(t: Transaction, canon: Canonicalizer, d: Name, data: seq<Row>) returns (e: Option<UpdateError>)
    requires t.Valid() && d in t.db
    modifies t
    ensures t.Valid() && d in old(t.db)
    ensures e == None <==> Accepted(canon, old(t.db)[d], Index(data))
    ensures e == None <==> CanCarryOut(canon, old(t.db)[d], Index(data))
    ensures e == None ==> d in t.db && forall k :: CarriedOut(canon, old(t.db)[d], Index(data), t.db[d], k)
    ensures e == None ==> t.db.Keys == old(t.db).Keys && forall c :: c in t.db && c != d ==> t.db[c] == old(t.db)[c]
    ensures e == None ==>
              && t.db == old(t.db)[d := Merged(canon, old(t.db)[d], Index(data))]
              && old(t.signals) <= t.signals && (t.signals == old(t.signals) <==> t.db == old(t.db))
    ensures e == None ==>
              && t.created == old(t.created) + Tagged(d, CreatedKeys(old(t.db)[d], Index(data)))
              && t.deleted == old(t.deleted) + Tagged(d, DeletedKeys(old(t.db)[d], Index(data)))
  {
    hide Partial, RowValue, RowOk, Same, Leads, AllExclusive, Index, LastRows, Conflicts, Merged, Accepted;
    hide CarriedOut, CanCarryOut, Progress, Transaction.Valid, WellKeyed;
    var dataIndex := LastRows(data);
    ghost var index := Index(data);
    IndexMembers(data);
    ghost var db0, z, signals0 := t.db, t.db[d], t.signals;
    AllCarriedOut(canon, z, index);
    var known := dataIndex.Keys * t.db[d].Keys;
    var unknown := dataIndex.Keys - known;
    var empty := set row | row in data && IsEmpty(row) :: row.key;
    var nonempty := dataIndex.Keys - empty;
    assert forall k :: k in index ==> (k in empty <==> IsEmpty(index[k]));
    var deleted, created, updated := known * empty, unknown * nonempty, known * nonempty;
    assert deleted == DeletedKeys(z, index) && created == CreatedKeys(z, index);
    StartsEmpty(t, canon, d, index);
    DeleteAll(t, canon, d, index, deleted, db0, signals0, {});
    ghost var failed;
    e, failed := CreateAll(t, canon, d, dataIndex, created, index, db0, signals0, {} + deleted);
    if e.Some? {
      CreationRefused(canon, z, index, {} + deleted, {} + deleted + created, failed.value);
      return;
    }
    e, failed := UpdateAll(t, canon, d, dataIndex, updated, index, db0, signals0, {} + deleted + created);
    if e.Some? {
      RowRefused(canon, z, index, failed.value);
      return;
    }
    Finished(t, canon, d, index, db0, signals0, {} + deleted + created + updated);
    return None;
  }

  lemma StartsEmpty(t: Transaction, canon: Canonicalizer, d: Name, index: map<Key, Row>)
    requires t.Valid() && d in t.db && WellKeyed(index)
    ensures Progress(t, canon, t.db, t.signals, d, index, {})
  {
    assert Partial(canon, t.db[d], index, {}) == t.db[d];
  }

  lemma ValidZone(t: Transaction, d: Name)
    requires t.Valid() && d in t.db
    ensures Exclusive(t.db[d].Keys)
  {
  }

  lemma EmptyRowIsOk(canon: Canonicalizer, z: Zone, row: Row)
    requires IsEmpty(row)
    ensures RowOk(canon, z, row)
  {
  }

  lemma RestoredIff(db: Database, d: Name, z: Zone)
    requires d in db
    ensures db[d := z] == db <==> z == db[d]
  {
    assert db[d := z][d] == z;
    assert db[d := db[d]] == db;
  }
}
