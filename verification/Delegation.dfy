/** Delegating a locally registered domain from its parent zone: the NS and DS RRsets of the child are always removed and,
    for a real child, created again within the same tracked block. */
module Delegation {
  import opened Dns
  import opened ChangeTracker
  import opened Replication
  import opened ApiDatabase
  import opened BulkReplication
  import Strings

  const NS_TTL := 3600
  const DS_TTL := 300

  datatype DelegationError = NotAChild | NoKeys | IntegrityError

  function NsKey(child: string): Key {
    Key("NS", child)
  }

  function DsKey(child: string): Key {
    Key("DS", child)
  }

  /** The contents of the DS RRset: those of all keys. */
  function Flatten(keys: seq<seq<string>>): seq<string> {
    if keys == [] then [] else keys[0] + Flatten(keys[1..])
  }

  function Contents(defaultNs: seq<string>, keys: seq<seq<string>>, k: Key): seq<string> {
    if k.rrtype == "NS" then defaultNs else Flatten(keys)
  }

  ghost predicate NoDuplicates(s: seq<string>) {
    forall i, j :: 0 <= i < j < |s| ==> s[i] != s[j]
  }

  /** The first label of a name, and the rest. */
  function Partition(name: string): (string, Option<string>) {
    var i := Strings.FirstDot(name);
    if i == |name| then (name, None) else (name[..i], if i + 1 == |name| then None else Some(name[i+1..]))
  }

  /** A name parts into a first label and a parent if and only if it is the two with a dot in between. */
  lemma PartitionIff(name: string, child: string, parent: string)
    requires parent != ""
    ensures Partition(name) == (child, Some(parent)) <==> '.' !in child && name == child + "." + parent
  {
    var i := Strings.FirstDot(name);
    if i < |name| {
      assert name == name[..i] + "." + name[i+1..];
    }
    if '.' !in child && name == child + "." + parent {
      assert name[|child|] == '.';
      assert forall j :: 0 <= j < |child| ==> name[j] == child[j];
      assert name[..|child|] == child && name[|child|+1..] == parent;
    }
  }

  lemma {:induction false} FlattenHolds(keys: seq<seq<string>>, content: string)
    ensures content in Flatten(keys) <==> exists i :: 0 <= i < |keys| && content in keys[i]
  {
    if keys != [] {
      FlattenHolds(keys[1..], content);
      if i :| 0 <= i < |keys[1..]| && content in keys[1..][i] {
        assert content in keys[i+1];
      }
      if i :| 0 <= i < |keys| && content in keys[i] {
        assert i > 0 ==> content in keys[1..][i-1];
      }
    }
  }

  // ---------------------------------------------------------------------------------------------------------------
  // How the automaton runs through a creation with contents
  // ---------------------------------------------------------------------------------------------------------------

  ghost predicate Modifications(mods: seq<Event>, d: Name, k: Key) {
    forall e :: e in mods ==> e.RRsetModified? && e.name == d && e.key == k
  }

  lemma {:induction false} StatusModified(evs: seq<Event>, mods: seq<Event>, d: Name, k: Key)
    requires StatusOf(evs, d, k) == Added && Modifications(mods, d, k)
    ensures StatusOf(evs + mods, d, k) == if mods == [] then Added else AddedModified
  {
    if mods == [] {
      assert evs + mods == evs;
    } else {
      StatusModified(evs, mods[..|mods|-1], d, k);
      assert (evs + mods)[..|evs + mods|-1] == evs + mods[..|mods|-1];
      assert mods[|mods|-1] in mods;
    }
  }

  lemma {:induction false} OtherKeysKeep(evs: seq<Event>, more: seq<Event>, d: Name, k: Key)
    requires forall e :: e in more ==> !OnKey(e, d, k)
    ensures StatusOf(evs + more, d, k) == StatusOf(evs, d, k)
  {
    if more == [] {
      assert evs + more == evs;
    } else {
      OtherKeysKeep(evs, more[..|more|-1], d, k);
      assert (evs + more)[..|evs + more|-1] == evs + more[..|more|-1];
      assert more[|more|-1] in more;
    }
  }

  lemma {:induction false} StaysRecreated(evs: seq<Event>, more: seq<Event>, d: Name, k: Key)
    requires Recreated(evs, d, k)
    ensures Recreated(evs + more, d, k)
  {
    if more == [] {
      assert evs + more == evs;
    } else {
      StaysRecreated(evs, more[..|more|-1], d, k);
      assert (evs + more)[..|evs + more|-1] == evs + more[..|more|-1];
    }
  }

  /** A key that existed at entry and is missing when it is created is created again. */
  lemma CreatedAgain(db0: Database, evs: seq<Event>, d: Name, k: Key, ttl: nat)
    requires ValidRun(db0, evs) && !Present(Replay(db0, evs), d, k)
    ensures StatusOf(evs + [RRsetCreated(d, k, ttl)], d, k) == Added
    ensures Present(db0, d, k) ==> Recreated(evs + [RRsetCreated(d, k, ttl)], d, k)
  {
    hide Replay, ValidRun, Present;
    if Present(db0, d, k) {
      AbsentMeans(db0, evs, d, k);
    }
    var e := RRsetCreated(d, k, ttl);
    assert (evs + [e])[..|evs|] == evs && (evs + [e])[|evs|] == e;
  }

  lemma AbsentMeans(db0: Database, evs: seq<Event>, d: Name, k: Key)
    requires ValidRun(db0, evs) && !Present(Replay(db0, evs), d, k) && Present(db0, d, k)
    ensures RRsetDeleted(d, k) in evs || Recreated(evs, d, k)
  {
    hide Replay, ValidRun, Recreated, StatusOf;
    MeaningHolds(db0, evs, d, k);
  }

  /** What became of a key with these contents since the run started: created, modified if there are contents, and created
      again if it existed. */
  ghost predicate Renewed(db0: Database, evs: seq<Event>, d: Name, k: Key, contents: seq<string>) {
    && StatusOf(evs, d, k) == (if contents == [] then Added else AddedModified)
    && (Present(db0, d, k) ==> Recreated(evs, d, k))
  }

  lemma CreationRenews(db0: Database, evs: seq<Event>, mods: seq<Event>, d: Name, k: Key, ttl: nat, contents: seq<string>)
    requires ValidRun(db0, evs) && !Present(Replay(db0, evs), d, k)
    requires Modifications(mods, d, k) && (mods == [] <==> contents == [])
    ensures Renewed(db0, evs + [RRsetCreated(d, k, ttl)] + mods, d, k, contents)
  {
    var created := evs + [RRsetCreated(d, k, ttl)];
    CreatedAgain(db0, evs, d, k, ttl);
    StatusModified(created, mods, d, k);
    if Present(db0, d, k) {
      StaysRecreated(created, mods, d, k);
    }
  }

  lemma OtherCreationKeeps(db0: Database, evs: seq<Event>, mods: seq<Event>, d: Name, l: Key, ttl: nat, k: Key,
                           contents: seq<string>)
    requires Renewed(db0, evs, d, k, contents) && k != l && Modifications(mods, d, l)
    ensures Renewed(db0, evs + [RRsetCreated(d, l, ttl)] + mods, d, k, contents)
  {
    var more := [RRsetCreated(d, l, ttl)] + mods;
    assert evs + [RRsetCreated(d, l, ttl)] + mods == evs + more;
    OtherKeysKeep(evs, more, d, k);
    if Recreated(evs, d, k) {
      StaysRecreated(evs, more, d, k);
    }
  }

  // ---------------------------------------------------------------------------------------------------------------
  // The update
  // ---------------------------------------------------------------------------------------------------------------

  /** Creates an RRset, then its records one by one; a repeated content violates uniqueness. */
  method CreateRRset(t: Transaction, d: Name, k: Key, ttl: nat, contents: seq<string>) returns (ok: bool, ghost mods: seq<Event>)
    requires t.Valid() && d in t.db
    modifies t
    ensures t.Valid()
    ensures ok <==> k !in old(t.db)[d] && !Conflicts(old(t.db)[d], k) && NoDuplicates(contents)
    ensures ok ==> t.db == Put(old(t.db), d, k, RRset(ttl, Elems(contents)))
    ensures ok ==> t.created == old(t.created) + {(d, k)} && t.deleted == old(t.deleted)
    ensures ok ==> t.signals == old(t.signals) + [RRsetCreated(d, k, ttl)] + mods
    ensures Modifications(mods, d, k) && (ok ==> (mods == [] <==> contents == []))
  {
    hide Leads, AllExclusive, Conflicts;
    mods := [];
    ok := t.InsertRRset(d, k, ttl);
    if !ok {
      return;
    }
    assert contents[..0] == [] && Elems<string>([]) == {};
    label Inserted:
    for i := 0 to |contents|
      invariant t.Valid() && d in t.db
      invariant NoDuplicates(contents[..i])
      invariant t.db == Put(old(t.db), d, k, RRset(ttl, Elems(contents[..i])))
      invariant t.signals == old@Inserted(t.signals) + mods && |mods| == i && Modifications(mods, d, k)
      invariant t.created == old@Inserted(t.created) && t.deleted == old@Inserted(t.deleted)
    {
      assert contents[..i + 1] == contents[..i] + [contents[i]];
      var rrset := t.db[d][k];
      if contents[i] in rrset.records {
        return false, mods;
      }
      PutPut(old(t.db), d, k, rrset, RRset(ttl, rrset.records + {contents[i]}));
      t.Modify(d, k, RRset(ttl, rrset.records + {contents[i]}));
      mods := mods + [RRsetModified(d, k, RRset(ttl, rrset.records + {contents[i]}))];
      assert Elems(contents[..i + 1]) == rrset.records + {contents[i]};
    }
    assert contents[..|contents|] == contents;
  }

  function DelegationKeys(child: string): set<Key> {
    {NsKey(child), DsKey(child)}
  }

  /** Deletes the child's NS and DS RRsets, in any order. */
  method RemoveDelegation(t: Transaction, parent: Name, child: string)
    requires t.Valid() && parent in t.db
    modifies t
    ensures t.Valid()
    ensures t.db == old(t.db)[parent := old(t.db)[parent] - DelegationKeys(child)]
    ensures t.created == old(t.created) && old(t.signals) <= t.signals
  {
    hide Leads, AllExclusive;
    ghost var z := t.db[parent];
    var todo := t.db[parent].Keys * DelegationKeys(child);
    ghost var all := todo;
    assert z - (all - todo) == z && t.db == t.db[parent := z];
    while todo != {}
      invariant todo <= all && all == z.Keys * DelegationKeys(child)
      invariant t.Valid() && parent in t.db && t.db == old(t.db)[parent := z - (all - todo)]
      invariant t.created == old(t.created) && old(t.signals) <= t.signals
      decreases todo
    {
      var k :| k in todo;
      t.DeleteRRset(parent, k);
      assert (z - (all - todo)) - {k} == z - (all - (todo - {k}));
      todo := todo - {k};
    }
    assert all - todo == all;
    assert z - all == z - DelegationKeys(child);
  }

  /** The parent zone after the update; without keys the child is not real. */
  function Delegated(z: Zone, child: string, keys: Option<seq<seq<string>>>, defaultNs: seq<string>): Zone {
    var rest := z - DelegationKeys(child);
    match keys
    case None => rest
    case Some(ks) =>
      rest[NsKey(child) := RRset(NS_TTL, Elems(defaultNs))][DsKey(child) := RRset(DS_TTL, Elems(Flatten(ks)))]
  }

  /** Of the RRsets at the child's name, NS and DS are gone or, for a real child, have the default name servers and what all
      its keys give; all other RRsets are as before. */
  ghost predicate DelegatesTo(z: Zone, after: Zone, child: string, keys: Option<seq<seq<string>>>, defaultNs: seq<string>) {
    && (forall k :: k != Key("NS", child) && k != Key("DS", child) ==>
          (k in after <==> k in z) && (k in z && k in after ==> after[k] == z[k]))
    && match keys
       case None => Key("NS", child) !in after && Key("DS", child) !in after
       case Some(ks) =>
         && Key("NS", child) in after && after[Key("NS", child)] == RRset(3600, set x | x in defaultNs)
         && Key("DS", child) in after && after[Key("DS", child)].ttl == 300
         && forall x :: x in after[Key("DS", child)].records <==> exists i :: 0 <= i < |ks| && x in ks[i]
  }

  lemma DelegatedMeans(z: Zone, child: string, keys: Option<seq<seq<string>>>, defaultNs: seq<string>)
    ensures DelegatesTo(z, Delegated(z, child, keys, defaultNs), child, keys, defaultNs)
  {
    if keys.Some? {
      forall x ensures x in Flatten(keys.value) <==> exists i :: 0 <= i < |keys.value| && x in keys.value[i] {
        FlattenHolds(keys.value, x);
      }
    }
  }

  /** In the parent's zone, and nowhere else, the child has been delegated. */
  ghost predicate IsDelegated(before: Database, after: Database, parent: Name, childDomain: string,
                              keys: Option<seq<seq<string>>>, defaultNs: seq<string>) {
    && after.Keys == before.Keys && (forall c :: c in after && c in before && c != parent ==> after[c] == before[c])
    && forall child :: '.' !in child && childDomain == child + "." + parent && parent != "" ==>
         parent in before && parent in after && DelegatesTo(before[parent], after[parent], child, keys, defaultNs)
  }

  lemma DatabaseDelegated(db: Database, parent: Name, childDomain: string, keys: Option<seq<seq<string>>>, defaultNs: seq<string>)
    requires parent in db
    ensures IsDelegated(db, db[parent := Delegated(db[parent], Partition(childDomain).0, keys, defaultNs)],
                        parent, childDomain, keys, defaultNs)
  {
    hide DelegatesTo, Delegated, Partition;
    DelegatedMeans(db[parent], Partition(childDomain).0, keys, defaultNs);
    forall c | '.' !in c && childDomain == c + "." + parent && parent != "" ensures c == Partition(childDomain).0 {
      PartitionIff(childDomain, c, parent);
    }
  }

  /** Nothing of another type is at the child's name that excludes a delegation. */
  predicate HasAlias(z: Zone, child: string) {
    Key("CNAME", child) in z
  }

  lemma DelegationConflicts(z: Zone, child: string, k: Key)
    requires k in DelegationKeys(child)
    ensures Conflicts(z, k) <==> HasAlias(z, child)
  {
    if l :| l in z && l.subname == k.subname && (l.rrtype == "CNAME") != (k.rrtype == "CNAME") {
      assert l == Key("CNAME", child);
    }
  }

  /** The child is one of the parent's, and if it is real, it has keys and nothing stands in the way of its RRsets. */
  ghost predicate CanDelegate(z: Zone, parent: Name, childDomain: string, keys: Option<seq<seq<string>>>,
                              defaultNs: seq<string>) {
    && Partition(childDomain).1 == Some(parent)
    && (keys.Some? ==> keys.value != [] && NoDuplicates(defaultNs) && NoDuplicates(Flatten(keys.value))
                       && !HasAlias(z, Partition(childDomain).0))
  }

  /** By name and contents: the child has one label more than the parent, and if it is real, it has keys, no name server and no
      DS content occurs twice, and it is no alias. */
  lemma CanDelegateIff(z: Zone, parent: Name, child: string, keys: Option<seq<seq<string>>>, defaultNs: seq<string>)
    requires parent != "" && '.' !in child
    ensures CanDelegate(z, parent, child + "." + parent, keys, defaultNs)
       <==> (keys.Some? ==>
               && keys.value != [] && Key("CNAME", child) !in z
               && (forall i, j :: 0 <= i < j < |defaultNs| ==> defaultNs[i] != defaultNs[j])
               && KeysDistinct(keys.value))
  {
    hide Partition, Flatten;
    PartitionIff(child + "." + parent, child, parent);
    if keys.Some? {
      FlattenDistinct(keys.value);
    }
  }

  /** No content occurs twice, neither under two keys nor under one. */
  ghost predicate KeysDistinct(keys: seq<seq<string>>) {
    && (forall i, j :: 0 <= i < j < |keys| ==> forall x :: x in keys[i] ==> x !in keys[j])
    && (forall i :: 0 <= i < |keys| ==> NoDuplicates(keys[i]))
  }

  lemma {:induction false} FlattenDistinct(keys: seq<seq<string>>)
    ensures NoDuplicates(Flatten(keys)) <==> KeysDistinct(keys)
  {
    if keys != [] {
      hide NoDuplicates, KeysDistinct;
      FlattenDistinct(keys[1..]);
      ConcatDistinct(keys[0], Flatten(keys[1..]));
      forall x ensures x in Flatten(keys[1..]) <==> exists i :: 0 <= i < |keys[1..]| && x in keys[1..][i] {
        FlattenHolds(keys[1..], x);
      }
      KeysStep(keys[0], keys[1..]);
      assert keys == [keys[0]] + keys[1..];
    }
  }

  lemma KeysStep(first: seq<string>, rest: seq<seq<string>>)
    ensures KeysDistinct([first] + rest)
       <==> && NoDuplicates(first) && KeysDistinct(rest)
            && (forall x :: x in first ==> !exists i :: 0 <= i < |rest| && x in rest[i])
  {
    hide NoDuplicates;
    var keys := [first] + rest;
    assert keys[0] == first && forall i :: 0 <= i < |rest| ==> keys[i + 1] == rest[i];
  }

  lemma ConcatDistinct(a: seq<string>, b: seq<string>)
    ensures NoDuplicates(a + b) <==> NoDuplicates(a) && NoDuplicates(b) && forall x :: x in a ==> x !in b
  {
    if NoDuplicates(a + b) {
      forall i, j | 0 <= i < j < |a| ensures a[i] != a[j] {
        assert (a + b)[i] != (a + b)[j];
      }
      forall i, j | 0 <= i < j < |b| ensures b[i] != b[j] {
        assert (a + b)[|a| + i] != (a + b)[|a| + j];
      }
      forall i, j | 0 <= i < |a| && 0 <= j < |b| ensures a[i] != b[j] {
        assert (a + b)[i] != (a + b)[|a| + j];
      }
    }
    if NoDuplicates(a) && NoDuplicates(b) && forall x :: x in a ==> x !in b {
      forall i, j | 0 <= i < j < |a + b| ensures (a + b)[i] != (a + b)[j] {
        assert i < |a| ==> a[i] in a;
        assert j >= |a| ==> b[j - |a|] in b;
        assert i >= |a| ==> b[i - |a|] != b[j - |a|];
      }
    }
  }

  /** Updates the delegation of a child domain in a fresh tracked block. */
  method UpdateDelegation(t: Transaction, parent: Name, childDomain: string, keys: Option<seq<seq<string>>>,
                          defaultNs: seq<string>) returns (e: Option<DelegationError>)
    requires t.Valid() && parent in t.db && t.signals == [] && t.db == t.start
    requires t.created == {}
    modifies t
    ensures t.Valid()
    ensures e == None <==> CanDelegate(t.start[parent], parent, childDomain, keys, defaultNs)
    ensures e == Some(NotAChild) <==> Partition(childDomain).1 != Some(parent)
    ensures e == Some(NoKeys) <==> Partition(childDomain).1 == Some(parent) && keys == Some([])
    ensures e == None ==>
              t.db == t.start[parent := Delegated(t.start[parent], Partition(childDomain).0, keys, defaultNs)]
    ensures e == None ==> IsDelegated(t.start, t.db, parent, childDomain, keys, defaultNs)
    ensures e == None ==> t.created == if keys.Some? then set k | k in DelegationKeys(Partition(childDomain).0) :: (parent, k) else {}
    ensures e == None && keys.Some? ==>
              forall k :: k in DelegationKeys(Partition(childDomain).0) ==>
                Renewed(t.start, t.signals, parent, k, Contents(defaultNs, keys.value, k))
  {
    hide Leads, AllExclusive, Conflicts, Renewed, Elems, Modifications, IsDelegated, Partition;
    var (child, parentName) := Partition(childDomain);
    DatabaseDelegated(t.db, parent, childDomain, keys, defaultNs);
    if parentName != Some(parent) {
      return Some(NotAChild);
    }
    RemoveDelegation(t, parent, child);
    if keys.None? {
      return None;
    }
    if keys.value == [] {
      return Some(NoKeys);
    }
    var ns, ds := NsKey(child), DsKey(child);
    DelegationConflicts(t.db[parent], child, ns);
    ghost var evs := t.signals;
    RunOf(t);
    ghost var mods;
    var ok;
    ok, mods := CreateRRset(t, parent, ns, NS_TTL, defaultNs);
    if !ok {
      return Some(IntegrityError);
    }
    CreationRenews(t.start, evs, mods, parent, ns, NS_TTL, defaultNs);
    DelegationConflicts(t.db[parent], child, ds);
    evs := t.signals;
    RunOf(t);
    ok, mods := CreateRRset(t, parent, ds, DS_TTL, Flatten(keys.value));
    if !ok {
      return Some(IntegrityError);
    }
    CreationRenews(t.start, evs, mods, parent, ds, DS_TTL, Flatten(keys.value));
    OtherCreationKeeps(t.start, evs, mods, parent, ds, DS_TTL, ns, defaultNs);
    return None;
  }

  // ---------------------------------------------------------------------------------------------------------------
  // What the name servers have afterwards
  // ---------------------------------------------------------------------------------------------------------------

  /** No NS or DS RRset of the child that had records is left without. */
  predicate KeepsRecords(z: Zone, child: string, keys: seq<seq<string>>, defaultNs: seq<string>) {
    forall k :: k in DelegationKeys(child) ==> Contents(defaultNs, keys, k) != [] || k !in z || z[k].records == {}
  }

  /** The update forgets exactly the RRsets that had records and are created again without any. */
  lemma ForgottenDelegation(t: Transaction, parent: Name, child: string, keys: Option<seq<seq<string>>>, defaultNs: seq<string>)
    requires t.Valid() && parent in t.start && parent in t.db
    requires t.created == if keys.Some? then set k | k in DelegationKeys(child) :: (parent, k) else {}
    requires keys.Some? ==> forall k :: k in DelegationKeys(child) ==>
                              Renewed(t.start, t.signals, parent, k, Contents(defaultNs, keys.value, k))
    ensures forall d, k :: Forgotten(t.start, t.signals, d, k)
              <==> (keys.Some? && d == parent && k in DelegationKeys(child)
                    && HasRecords(t.start, parent, k) && Contents(defaultNs, keys.value, k) == [])
    ensures (forall d, k :: !Forgotten(t.start, t.signals, d, k))
       <==> keys.None? || KeepsRecords(t.start[parent], child, keys.value, defaultNs)
  {
    hide Leads, AllExclusive, StatusOf, Recreated;
    RunOf(t);
    forall d, k
      ensures Forgotten(t.start, t.signals, d, k)
              <==> (keys.Some? && d == parent && k in DelegationKeys(child)
                    && HasRecords(t.start, parent, k) && Contents(defaultNs, keys.value, k) == [])
    {
      if Recreated(t.signals, d, k) {
        RecreatedNeedsBoth(t.signals, d, k);
        assert (d, k) in t.created;
      }
    }
    if keys.Some? && !KeepsRecords(t.start[parent], child, keys.value, defaultNs) {
      var k :| k in DelegationKeys(child) && Contents(defaultNs, keys.value, k) == [] && HasRecords(t.start, parent, k);
      assert Forgotten(t.start, t.signals, parent, k);
    }
  }

  /** With a configured set of name servers only the DS RRset can be left without records. */
  lemma OnlyDs(z: Zone, child: string, keys: seq<seq<string>>, defaultNs: seq<string>)
    ensures defaultNs != [] ==>
              (KeepsRecords(z, child, keys, defaultNs)
               <==> Flatten(keys) != [] || DsKey(child) !in z || z[DsKey(child)].records == {})
  {
    assert Contents(defaultNs, keys, NsKey(child)) == defaultNs && Contents(defaultNs, keys, DsKey(child)) == Flatten(keys);
    assert NsKey(child) in DelegationKeys(child) && DsKey(child) in DelegationKeys(child);
  }

  /** A tracked delegation update.  Afterwards the zones equal the database if and only if neither the NS nor the DS RRset of
      a real child lost all its records; and if there are default name servers, if and only if there are new DS contents or
      there were no DS records. */
  method TrackedDelegation(db0: Database, parent: Name, childDomain: string, keys: Option<seq<seq<string>>>,
                           defaultNs: seq<string>, ns: RRset) returns (r: Result<World, DelegationError>)
    requires AllExclusive(db0) && parent in db0
    ensures r.Ok? <==> CanDelegate(db0[parent], parent, childDomain, keys, defaultNs)
    ensures r.Err? || r.value.db == db0[parent := Delegated(db0[parent], Partition(childDomain).0, keys, defaultNs)]
    ensures r.Err? || IsDelegated(db0, r.value.db, parent, childDomain, keys, defaultNs)
    ensures r.Err? || r.value.master == r.value.lord
    ensures r.Err? || (r.value.lord == View(r.value.db) <==>
              keys.None? || KeepsRecords(db0[parent], Partition(childDomain).0, keys.value, defaultNs))
    ensures r.Err? || defaultNs == [] || (r.value.lord == View(r.value.db) <==>
              keys.None? || Flatten(keys.value) != [] || !HasRecords(db0, parent, DsKey(Partition(childDomain).0)))
  {
    hide AllExclusive, View, Transaction.Valid, Renewed, Forgotten, Delegated, Flatten, Partition, Contents;
    var t := new Transaction(db0);
    var e := UpdateDelegation(t, parent, childDomain, keys, defaultNs);
    if e.Some? {
      return Err(e.value);
    }
    ForgottenDelegation(t, parent, Partition(childDomain).0, keys, defaultNs);
    if keys.Some? {
      OnlyDs(db0[parent], Partition(childDomain).0, keys.value, defaultNs);
    }
    var w, _ := CommitTransaction(db0, t, ns);
    return Ok(w);
  }
}
