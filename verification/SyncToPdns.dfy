/** Syncing one domain to PowerDNS: any zone ends up with its SOA RRset and exactly the non-empty RRsets of the
    database.  Zones here are keyed by full names, as PowerDNS returns them. */
module SyncToPdns {
  import opened Dns
  import opened Names
  import opened Strings
  import R = Replication

  datatype PdnsKey = PdnsKey(name: string, rrtype: string)
  type PdnsZone = map<PdnsKey, RRset>

  const SOA := Key("SOA", "")

  /** An API key as an RRset of the zone, and back, by slicing the name. */
  function ToPdns(k: Key, domain: string): PdnsKey {
    PdnsKey(ConstructName(k.subname, domain), k.rrtype)
  }

  function FromPdns(pk: PdnsKey, domain: string): Key {
    Key(pk.rrtype, SliceSubname(pk.name, domain))
  }

  /** The name is the domain's, or lies below it. */
  predicate InZone(name: string, domain: string) {
    name == domain + "." || (Below(name, domain + ".") && name != "." + domain + ".")
  }

  ghost predicate ProperZone(zone: PdnsZone, domain: string) {
    domain != "" && forall pk :: pk in zone ==> InZone(pk.name, domain)
  }

  lemma KeysCorrespond(k: Key, pk: PdnsKey, domain: string)
    requires domain != ""
    ensures FromPdns(ToPdns(k, domain), domain) == k
    ensures ToPdns(k, domain) == PdnsKey(if k.subname == "" then domain + "." else k.subname + "." + domain + ".", k.rrtype)
    ensures InZone(pk.name, domain) ==> ToPdns(FromPdns(pk, domain), domain) == pk
  {
    SliceInvertsConstruct(k.subname, domain);
    ConstructNameForm(k.subname, domain);
    if InZone(pk.name, domain) {
      ConstructInvertsSlice(pk.name, domain);
    }
  }

  /** What the API sees of a zone: its RRsets by API key. */
  function RRsetDatas(zone: PdnsZone, domain: string): set<Key> {
    set pk | pk in zone :: FromPdns(pk, domain)
  }

  /** The PATCH that `CreateUpdateDeleteRRSets` sends: deletions become empty, the other keys what the database has. */
  function PatchZone(zone: PdnsZone, domain: string, rrsets: Zone, keys: set<Key>, deletions: set<Key>): PdnsZone {
    map pk | pk in zone.Keys + (set k | k in keys :: ToPdns(k, domain))
             && (var k := FromPdns(pk, domain);
                 if k in keys then k in rrsets && rrsets[k].records != {} else pk in zone && k !in deletions)
      :: var k := FromPdns(pk, domain); if k in keys then rrsets[k] else zone[pk]
  }

  /** A fresh zone has an SOA RRset and the default NS RRset. */
  function FreshZone(domain: string, soa: RRset, ns: RRset): PdnsZone {
    var z := R.Patch(map[], map[SOA := soa, R.APEX_NS := ns], {SOA, R.APEX_NS}, {});
    map pk | pk in (set k | k in z :: ToPdns(k, domain)) && FromPdns(pk, domain) in z :: z[FromPdns(pk, domain)]
  }

  /** A fresh zone has, at the domain's name, the SOA and the default NS RRset if they have records, and nothing else. */
  lemma FreshZoneHas(domain: string, soa: RRset, ns: RRset, pk: PdnsKey)
    requires domain != ""
    ensures var zone := FreshZone(domain, soa, ns);
            && (pk in zone <==> pk.name == domain + "."
                                && ((pk.rrtype == "SOA" && soa.records != {}) || (pk.rrtype == "NS" && ns.records != {})))
            && (pk in zone ==> zone[pk] == if pk.rrtype == "SOA" then soa else ns)
  {
    ConstructNameForm("", domain);
    KeysCorrespond(SOA, pk, domain);
    KeysCorrespond(R.APEX_NS, pk, domain);
    assert ToPdns(SOA, domain) == PdnsKey(domain + ".", "SOA") && ToPdns(R.APEX_NS, domain) == PdnsKey(domain + ".", "NS");
  }

  /** The zone has for this key what the database has; the SOA RRset, which the database does not have, stays. */
  ghost predicate SyncedKey(domain: string, rrsets: Zone, before: PdnsZone, zone: PdnsZone, k: Key) {
    var pk := ToPdns(k, domain);
    if k == SOA && k !in rrsets then (pk in zone <==> pk in before) && (pk in zone ==> zone[pk] == before[pk])
    else (pk in zone <==> k in NonEmpty(rrsets)) && (pk in zone ==> zone[pk] == rrsets[k])
  }

  /** Synchronizes a domain: creates the zone unless nslord has it, then replaces what the database has and deletes what
      it does not have, except the SOA RRset, and transfers the zone to nsmaster.  `created` tells whether it was missing on
      both servers.  The transfer fails exactly if the zone is missing on nsmaster alone, where it is then not created. */
  method SyncDomain(domain: string, rrsets: Zone, lord: Option<PdnsZone>, master: Option<PdnsZone>, soa: RRset, ns: RRset)
    returns (zone: PdnsZone, master': Option<PdnsZone>, created: bool, ok: bool, ghost before: PdnsZone)
    requires domain != "" && (lord.Some? ==> ProperZone(lord.value, domain))
    ensures created <==> lord == None && master == None
    ensures ok <==> lord == None || master.Some?
    ensures master' == if ok then Some(zone) else None
    ensures before == if lord.Some? then lord.value else FreshZone(domain, soa, ns)
    ensures lord == None && soa.records != {} ==>
              PdnsKey(domain + ".", "SOA") in before && before[PdnsKey(domain + ".", "SOA")] == soa
    ensures ProperZone(zone, domain)
    ensures forall k :: SyncedKey(domain, rrsets, before, zone, k)
  {
    created := false;
    master' := master;
    var current: PdnsZone;
    if lord.Some? {
      current := lord.value;
    } else {
      current := FreshZone(domain, soa, ns);
      if master == None {
        master' := Some(map[]);
        created := true;
      }
      FreshZoneIsProper(domain, soa, ns);
      FreshZoneHas(domain, soa, ns, PdnsKey(domain + ".", "SOA"));
    }
    before := current;
    var modifications := rrsets.Keys;
    var deletions := RRsetDatas(current, domain) - modifications;
    deletions := deletions - {SOA};
    zone := PatchZone(current, domain, rrsets, {} + modifications - deletions, deletions);
    assert {} + modifications - deletions == modifications;
    forall k
      ensures SyncedKey(domain, rrsets, current, zone, k)
    {
      SyncKey(domain, rrsets, current, deletions, k);
    }
    PatchedZoneIsProper(current, domain, rrsets, modifications, deletions);
    ok := master'.Some?;
    if ok {
      master' := Some(zone);
    }
  }

  lemma SyncKey(domain: string, rrsets: Zone, before: PdnsZone, deletions: set<Key>, k: Key)
    requires ProperZone(before, domain) && deletions == RRsetDatas(before, domain) - rrsets.Keys - {SOA}
    ensures SyncedKey(domain, rrsets, before, PatchZone(before, domain, rrsets, rrsets.Keys, deletions), k)
  {
    var pk := ToPdns(k, domain);
    KeysCorrespond(k, pk, domain);
    if pk in before {
      assert FromPdns(pk, domain) in RRsetDatas(before, domain);
    }
  }

  lemma ConstructedInZone(k: Key, domain: string)
    requires domain != ""
    ensures InZone(ToPdns(k, domain).name, domain)
  {
    ConstructNameForm(k.subname, domain);
    if k.subname != "" {
      var name := k.subname + "." + domain + ".";
      assert name == k.subname + ("." + (domain + "."));
      assert name[|k.subname|..] == "." + (domain + ".");
      assert |name| > |"." + domain + "."|;
    }
  }

  lemma PatchedZoneIsProper(zone: PdnsZone, domain: string, rrsets: Zone, keys: set<Key>, deletions: set<Key>)
    requires ProperZone(zone, domain)
    ensures ProperZone(PatchZone(zone, domain, rrsets, keys, deletions), domain)
  {
    forall k { ConstructedInZone(k, domain); }
  }

  lemma FreshZoneIsProper(domain: string, soa: RRset, ns: RRset)
    requires domain != ""
    ensures ProperZone(FreshZone(domain, soa, ns), domain)
  {
    forall k { ConstructedInZone(k, domain); }
  }
}
