/** The dynDNS update request: the actions per record type and query name become rows of a bulk update. */
module DynDns {
  import opened Dns
  import opened Subnets
  import opened Records
  import opened BulkUpdate

  /** What a request parameter asks for; a parameter may also yield no action at all. */
  datatype Action = SetIPs(ips: seq<string>) | UpdateWithSubnet(subnet: Subnet) | PreserveIPs

  /** The exception that moving addresses into a subnet may raise. */
  datatype Failure = AddressValueError

  /** The new records, or nothing when they are to be left alone. */
  function GetRecords(records: seq<Address>, action: Option<Action>, text: Address -> string)
    : Result<Option<seq<string>>, Failure>
  {
    match action
    case Some(SetIPs(ips)) => Ok(Some(ips))
    case Some(UpdateWithSubnet(subnet)) =>
      (match ReplaceIpSubnet(records, subnet)
       case None => Err(AddressValueError)
       case Some(moved) => Ok(Some(Texts(moved, text))))
    case Some(PreserveIPs) => Ok(None)
    case None => Ok(None)
  }

  function Texts(addresses: seq<Address>, text: Address -> string): (texts: seq<string>)
    ensures |texts| == |addresses| && forall i :: 0 <= i < |texts| ==> texts[i] == text(addresses[i])
  {
    seq(|addresses|, i requires 0 <= i < |addresses| => text(addresses[i]))
  }

  /** A subnet action gives the records of the subnet's family, moved into the subnet, if the subnet's number is not taken
      for an IPv4 address; otherwise it may raise. */
  lemma SubnetRecords(records: seq<Address>, subnet: Subnet, text: Address -> string)
    requires forall a :: a in records ==> ValidAddress(a)
    ensures var r, kept := GetRecords(records, Some(UpdateWithSubnet(subnet)), text), OfFamily(records, subnet.family);
            && (KeepsFamily(subnet) ==> exists moved :: AreMoved(kept, subnet, moved) && r == Ok(Some(Texts(moved, text))))
            && (r.Err? <==> !KeepsFamily(subnet)
                            && exists a :: a in records && a.family == subnet.family
                                           && subnet.address + HostBits(a, subnet) >= Pow2(32))
  {
    hide Pow2, KeepsFamily, ValidAddress, AreMoved;
    ReplaceListIff(records, subnet);
    ReplaceListRaises(records, subnet);
  }

  /** The action for a key: the one given for it in particular, or else that of the request for its type. */
  predicate Addressed(subnames: seq<string>, actions: map<string, Action>, extra: map<Key, Option<Action>>, k: Key) {
    k in extra || (k.subname in subnames && k.rrtype in actions)
  }

  function ActionFor(actions: map<string, Action>, extra: map<Key, Option<Action>>, k: Key): Option<Action> {
    if k in extra then extra[k] else if k.rrtype in actions then Some(actions[k.rrtype]) else None
  }

  /** The records stored at a subname, of both address types. */
  function Stored(stored: map<string, seq<Address>>, s: string): seq<Address> {
    if s in stored then stored[s] else []
  }

  function RecordsFor(actions: map<string, Action>, extra: map<Key, Option<Action>>, stored: map<string, seq<Address>>,
                      text: Address -> string, k: Key): Result<Option<seq<string>>, Failure> {
    GetRecords(Stored(stored, k.subname), ActionFor(actions, extra, k), text)
  }

  /** No action names a subnet whose number is taken for an IPv4 address. */
  ghost predicate SubnetsKeepFamily(subnames: seq<string>, actions: map<string, Action>, extra: map<Key, Option<Action>>) {
    forall k, n: Subnet :: Addressed(subnames, actions, extra, k) && ActionFor(actions, extra, k) == Some(UpdateWithSubnet(n))
      ==> KeepsFamily(n)
  }

  ghost predicate StoredAreValid(stored: map<string, seq<Address>>) {
    forall s, a :: s in stored && a in stored[s] ==> ValidAddress(a)
  }

  /** One row for each of the keys whose action says what its records are, and no other row. */
  ghost predicate AreRows(data: seq<Row>, keys: set<Key>, actions: map<string, Action>, extra: map<Key, Option<Action>>,
                          stored: map<string, seq<Address>>, text: Address -> string) {
    && DistinctKeys(data)
    && (forall row :: row in data ==>
          && row.key in keys && row.ttl == Some(60) && row.records.Some?
          && RecordsFor(actions, extra, stored, text, row.key) == Ok(row.records))
    && (forall k :: k in keys ==>
          && RecordsFor(actions, extra, stored, text, k).Ok?
          && (RecordsFor(actions, extra, stored, text, k) != Ok(None) ==> exists row :: row in data && row.key == k))
  }

  lemma AddRow(data: seq<Row>, keys: set<Key>, actions: map<string, Action>, extra: map<Key, Option<Action>>,
               stored: map<string, seq<Address>>, text: Address -> string, k: Key, records: Option<seq<string>>)
    requires AreRows(data, keys, actions, extra, stored, text) && k !in keys
    requires RecordsFor(actions, extra, stored, text, k) == Ok(records)
    ensures AreRows(if records.Some? then data + [Row(k, Some(60), records)] else data, keys + {k},
                    actions, extra, stored, text)
  {
    hide RecordsFor;
    forall i | 0 <= i < |data| ensures data[i].key != k {
      assert data[i] in data;
    }
    if records.Some? {
      var after := data + [Row(k, Some(60), records)];
      assert after[|data|] in after && forall row :: row in data ==> row in after;
    }
  }

  /** The keys that a request addresses. */
  function AddressedKeys(subnames: seq<string>, actions: map<string, Action>, extra: map<Key, Option<Action>>): (keys: set<Key>)
    ensures forall k :: k in keys <==> Addressed(subnames, actions, extra, k)
  {
    var general := set s, t | s in subnames && t in actions :: Key(t, s);
    assert forall k: Key :: k.subname in subnames && k.rrtype in actions ==> Key(k.rrtype, k.subname) in general;
    extra.Keys + general
  }

  /** What a batch says about a key follows this action: it has no row to leave the records alone, exactly one, with a TTL of
      60, to set addresses, and exactly one with the stored addresses moved to change the subnet. */
  ghost predicate Follows(data: seq<Row>, k: Key, action: Option<Action>, addresses: seq<Address>, text: Address -> string) {
    match action
    case None => forall row :: row in data ==> row.key != k
    case Some(PreserveIPs) => forall row :: row in data ==> row.key != k
    case Some(SetIPs(ips)) => IsOnlyRow(data, Row(k, Some(60), Some(ips)))
    case Some(UpdateWithSubnet(subnet)) =>
      && ReplaceIpSubnet(addresses, subnet).Some?
      && IsOnlyRow(data, Row(k, Some(60), Some(Texts(ReplaceIpSubnet(addresses, subnet).value, text))))
  }

  ghost predicate IsOnlyRow(data: seq<Row>, row: Row) {
    exists i :: 0 <= i < |data| && data[i] == row && forall j :: 0 <= j < |data| && j != i ==> data[j].key != row.key
  }

  /** Carrying out the action raises an exception. */
  predicate Fails(action: Option<Action>, addresses: seq<Address>) {
    action.Some? && action.value.UpdateWithSubnet? && ReplaceIpSubnet(addresses, action.value.subnet) == None
  }

  lemma RowFollows(data: seq<Row>, keys: set<Key>, actions: map<string, Action>, extra: map<Key, Option<Action>>,
                   stored: map<string, seq<Address>>, text: Address -> string, k: Key)
    requires AreRows(data, keys, actions, extra, stored, text) && k in keys
    ensures Follows(data, k, ActionFor(actions, extra, k), Stored(stored, k.subname), text)
  {
    hide ReplaceIpSubnet;
    if row :| row in data && row.key == k {
      var i :| 0 <= i < |data| && data[i] == row;
      forall j | 0 <= j < |data| && j != i ensures data[j].key != k {
        assert data[i].key == k;
      }
    }
  }

  /** A key that no action changes keeps its RRset in the bulk update. */
  lemma UnchangedStays(canon: Canonicalizer, z: Zone, data: seq<Row>, k: Key, action: Option<Action>, addresses: seq<Address>,
                       text: Address -> string)
    requires Follows(data, k, action, addresses, text) && (action == None || action == Some(PreserveIPs))
    ensures CarriedOut(canon, z, Index(data), Merged(canon, z, Index(data)), k)
    ensures (k in Merged(canon, z, Index(data)) <==> k in z) && (k in z ==> Merged(canon, z, Index(data))[k] == z[k])
  {
    IndexMembers(data);
    assert forall l :: l in Index(data) ==> Index(data)[l] in data && Index(data)[l].key == l;
  }

  /** The data of a request: general actions for all its subnames, overridden by the particular ones; each key gets at
      most one row, and has one exactly if an action says what its records are.  It fails exactly if some action does, which
      takes a subnet whose number is taken for an IPv4 address. */
  method BuildData(subnames: seq<string>, actions: map<string, Action>, extra: map<Key, Option<Action>>,
                   stored: map<string, seq<Address>>, text: Address -> string) returns (r: Result<seq<Row>, Failure>)
    ensures r.Ok? ==> AreRows(r.value, AddressedKeys(subnames, actions, extra), actions, extra, stored, text)
    ensures r.Err? ==> exists k :: Addressed(subnames, actions, extra, k) && RecordsFor(actions, extra, stored, text, k).Err?
    ensures StoredAreValid(stored) && SubnetsKeepFamily(subnames, actions, extra) ==> r.Ok?
    ensures r.Ok? ==> forall k :: k in extra ==>
              Follows(r.value, k, extra[k], if k.subname in stored then stored[k.subname] else [], text)
    ensures r.Ok? ==> forall k :: k !in extra && k.subname in subnames && k.rrtype in actions ==>
              Follows(r.value, k, Some(actions[k.rrtype]), if k.subname in stored then stored[k.subname] else [], text)
    ensures r.Err? ==> exists k: Key :: if k in extra then Fails(extra[k], if k.subname in stored then stored[k.subname] else [])
              else k.subname in subnames && k.rrtype in actions
                   && Fails(Some(actions[k.rrtype]), if k.subname in stored then stored[k.subname] else [])
    ensures r.Ok? ==> forall row :: row in r.value ==>
              row.key in extra || (row.key.subname in subnames && row.key.rrtype in actions)
  {
    hide GetRecords, AreRows, AddressedKeys, StoredAreValid, SubnetsKeepFamily, Follows, Fails;
    var keys := AddressedKeys(subnames, actions, extra);
    var subnameActions := map k | k in keys && k !in extra :: Some(actions[k.rrtype]);
    subnameActions := subnameActions + extra;
    assert subnameActions.Keys == keys;
    var data: seq<Row> := [];
    var todo := keys;
    NoRows(actions, extra, stored, text);
    assert keys - todo == {};
    while todo != {}
      invariant todo <= keys
      invariant AreRows(data, keys - todo, actions, extra, stored, text)
      decreases todo
    {
      var k :| k in todo;
      var got := GetRecords(Stored(stored, k.subname), subnameActions[k], text);
      assert got == RecordsFor(actions, extra, stored, text, k);
      if got.Err? {
        SafeActions(subnames, actions, extra, stored, text, k);
        FailingAction(ActionFor(actions, extra, k), Stored(stored, k.subname), text);
        return Err(got.error);
      }
      AddRow(data, keys - todo, actions, extra, stored, text, k, got.value);
      if got.value.Some? {
        data := data + [Row(k, Some(60), got.value)];
      }
      assert keys - (todo - {k}) == keys - todo + {k};
      todo := todo - {k};
    }
    assert keys - todo == keys;
    forall k | k in keys ensures Follows(data, k, ActionFor(actions, extra, k), Stored(stored, k.subname), text) {
      RowFollows(data, keys, actions, extra, stored, text, k);
    }
    RowsAddressed(data, keys, actions, extra, stored, text);
    return Ok(data);
  }

  lemma RowsAddressed(data: seq<Row>, keys: set<Key>, actions: map<string, Action>, extra: map<Key, Option<Action>>,
                      stored: map<string, seq<Address>>, text: Address -> string)
    requires AreRows(data, keys, actions, extra, stored, text)
    ensures forall row :: row in data ==> row.key in keys
  {
  }

  lemma FailingAction(action: Option<Action>, addresses: seq<Address>, text: Address -> string)
    ensures GetRecords(addresses, action, text).Err? <==> Fails(action, addresses)
  {
  }

  lemma NoRows(actions: map<string, Action>, extra: map<Key, Option<Action>>, stored: map<string, seq<Address>>,
               text: Address -> string)
    ensures AreRows([], {}, actions, extra, stored, text)
  {
  }

  lemma SafeActions(subnames: seq<string>, actions: map<string, Action>, extra: map<Key, Option<Action>>,
                    stored: map<string, seq<Address>>, text: Address -> string, k: Key)
    requires Addressed(subnames, actions, extra, k)
    ensures StoredAreValid(stored) && SubnetsKeepFamily(subnames, actions, extra)
            ==> RecordsFor(actions, extra, stored, text, k).Ok?
  {
    hide KeepsFamily, ValidAddress;
    var action := ActionFor(actions, extra, k);
    if StoredAreValid(stored) && SubnetsKeepFamily(subnames, actions, extra) {
      if action.Some? && action.value.UpdateWithSubnet? {
        SubnetRecords(Stored(stored, k.subname), action.value.subnet, text);
      }
    }
  }

  /** A key without a row keeps its RRset. */
  lemma PreservedKeyUntouched(canon: Canonicalizer, z: Zone, data: seq<Row>, k: Key)
    requires DistinctKeys(data) && forall row :: row in data ==> row.key != k
    ensures (k in Merged(canon, z, Index(data)) <==> k in z)
    ensures k in z ==> Merged(canon, z, Index(data))[k] == z[k]
  {
    IndexHasRows(data);
  }
}
