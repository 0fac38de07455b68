/** The catalog zone on nsmaster: patched with every zone created or deleted, and rebuilt from the zones on nslord. */
module Catalog {
  import opened Dns
  import opened Strings
  import opened Replication

  const CATALOG_ZONE := "catalog.internal"

  /** The hex digest of a name. */
  type Hash = string -> string

  /** The digests of these zones, taken of their dotted names, have 40 characters, no dots, and no collisions. */
  ghost predicate GoodHash(hash: Hash, names: set<string>) {
    && (forall z :: z in names ==> |hash(Dotted(z))| == 40 && '.' !in hash(Dotted(z)))
    && (forall y, z :: y in names && z in names && hash(Dotted(y)) == hash(Dotted(z)) ==> Dotted(y) == Dotted(z))
  }

  function LStripDots(s: string): string {
    if s != "" && s[0] == '.' then LStripDots(s[1..]) else s
  }

  /** One RRset of the catalog, or its removal. */
  datatype CatalogKey = CatalogKey(name: string, rrtype: string)
  type Records = map<CatalogKey, string>

  /** f"{subname}.{CATALOG_ZONE}".strip(".") + "." */
  function CatalogName(subname: string): string {
    RStripDots(LStripDots(subname + "." + CATALOG_ZONE)) + "."
  }

  function Dotted(zone: string): string {
    RStripDots(zone) + "."
  }

  /** The PTR RRset of a member zone: its key, and its content, the dotted zone name. */
  function MemberKey(hash: Hash, zone: string): CatalogKey {
    CatalogKey(CatalogName(hash(Dotted(zone)) + ".zones"), "PTR")
  }

  /** `update_catalog`: replaces the member RRset by the zone's name, or by nothing. */
  function UpdateCatalog(hash: Hash, records: Records, zone: string, delete: bool): Records {
    if delete then records - {MemberKey(hash, zone)} else records[MemberKey(hash, zone) := Dotted(zone)]
  }

  const BASE: Records :=
    map[CatalogKey(CatalogName(""), "NS") := "invalid.", CatalogKey(CatalogName("version"), "TXT") := "\"2\""]

  ghost predicate IsMember(hash: Hash, zones: set<string>, key: CatalogKey) {
    exists z :: z in zones && key == MemberKey(hash, z)
  }

  /** The records are exactly the base records and one member record per zone. */
  ghost predicate IsRebuilt(hash: Hash, zones: set<string>, records: Records) {
    && (forall key :: key in records <==> key in BASE || IsMember(hash, zones, key))
    && (forall key :: key in BASE && key in records ==> records[key] == BASE[key])
    && (forall z :: z in zones && MemberKey(hash, z) in records ==> records[MemberKey(hash, z)] == Dotted(z))
  }

  /** The names of the base records. */
  lemma BaseIs()
    ensures BASE == map[CatalogKey("catalog.internal.", "NS") := "invalid.",
                        CatalogKey("version.catalog.internal.", "TXT") := "\"2\""]
  {
    assert CatalogName("") == "catalog.internal." by {
      var s := "" + "." + CATALOG_ZONE;
      assert s[0] == '.' && s[1..] == CATALOG_ZONE;
      assert LStripDots(s) == CATALOG_ZONE;
      assert CATALOG_ZONE[|CATALOG_ZONE|-1] == 'l';
    }
    assert CatalogName("version") == "version.catalog.internal." by {
      var s := "version" + "." + CATALOG_ZONE;
      assert s == "version.catalog.internal" && s[0] == 'v' && s[|s|-1] == 'l';
    }
  }

  /** The member record of a zone: a PTR RRset at the digest of the zone's name with one final dot, which is its content. */
  lemma MemberIs(hash: Hash, zone: string)
    requires Undotted(zone) && hash(zone + ".") != "" && '.' !in hash(zone + ".")
    ensures Dotted(zone) == zone + "." && Dotted(zone + ".") == zone + "."
    ensures MemberKey(hash, zone) == CatalogKey(hash(zone + ".") + ".zones.catalog.internal.", "PTR")
    ensures MemberKey(hash, zone + ".") == MemberKey(hash, zone)
  {
    DottedForms(zone);
    MemberName(hash(zone + "."));
  }

  predicate Undotted(name: string) {
    name != "" && name[|name|-1] != '.'
  }

  lemma MemberName(h: string)
    requires h != "" && '.' !in h
    ensures CatalogName(h + ".zones") == h + ".zones.catalog.internal."
  {
    var s := h + ".zones" + "." + CATALOG_ZONE;
    assert s[0] == h[0] && h[0] in h;
    assert s[|s|-1] == 'l';
    assert ".zones" + ("." + CATALOG_ZONE) == ".zones.catalog.internal";
    assert s + "." == h + ".zones.catalog.internal.";
  }

  /** Different names have different member records, and none of them is a base record. */
  lemma MembersDistinct(hash: Hash, names: set<string>, z: string, z': string)
    requires GoodHash(hash, names) && z in names && z' in names
    ensures MemberKey(hash, z) == MemberKey(hash, z') ==> Dotted(z) == Dotted(z')
    ensures MemberKey(hash, z) !in BASE
  {
    var h, h' := hash(Dotted(z)), hash(Dotted(z'));
    MemberName(h);
    MemberName(h');
    if MemberKey(hash, z) == MemberKey(hash, z') {
      assert h == (h + ".zones.catalog.internal.")[..40] == (h' + ".zones.catalog.internal.")[..40] == h';
    }
  }

  lemma {:induction false} DottedForms(name: string)
    requires Undotted(name)
    ensures Dotted(name) == name + "." && Dotted(name + ".") == name + "."
  {
    assert (name + ".")[..|name|] == name;
  }

  /** A catalog is determined by the zones. */
  lemma RebuiltUnique(hash: Hash, zones: set<string>, r: Records, r': Records)
    requires IsRebuilt(hash, zones, r) && IsRebuilt(hash, zones, r')
    ensures r == r'
  {
    forall key | key in r ensures r[key] == r'[key] {
      if key !in BASE {
        var z :| z in zones && key == MemberKey(hash, z);
      }
    }
  }

  /** The name of a zone's member record, for a zone name without final dot. */
  function MemberNameOf(hash: Hash, zone: string): string {
    hash(zone + ".") + ".zones.catalog.internal."
  }

  /** A rebuilt catalog in full: the two base records, and for each zone one PTR record. */
  lemma RebuiltHolds(hash: Hash, zones: set<string>, r: Records)
    requires GoodHash(hash, zones) && forall z :: z in zones ==> Undotted(z)
    ensures var ns, txt := CatalogKey("catalog.internal.", "NS"), CatalogKey("version.catalog.internal.", "TXT");
            IsRebuilt(hash, zones, r)
            <==> (&& ns in r && r[ns] == "invalid." && txt in r && r[txt] == "\"2\""
                  && (forall z :: z in zones ==> var key := CatalogKey(MemberNameOf(hash, z), "PTR");
                                                 key in r && r[key] == z + ".")
                  && (forall key :: key in r && key != ns && key != txt ==>
                        exists z :: z in zones && key == CatalogKey(MemberNameOf(hash, z), "PTR")))
  {
    hide MemberNameOf, IsRebuilt;
    BaseIs();
    forall z | z in zones ensures Dotted(z) == z + "." && MemberKey(hash, z) == CatalogKey(MemberNameOf(hash, z), "PTR") {
      MemberHolds(hash, z);
    }
    RebuiltByKeys(hash, zones, r, CatalogKey("catalog.internal.", "NS"), CatalogKey("version.catalog.internal.", "TXT"));
  }

  lemma MemberHolds(hash: Hash, z: string)
    requires Undotted(z) && hash(Dotted(z)) != "" && '.' !in hash(Dotted(z))
    ensures Dotted(z) == z + "." && MemberKey(hash, z) == CatalogKey(MemberNameOf(hash, z), "PTR")
  {
    hide MemberKey, Undotted;
    DottedForms(z);
    MemberIs(hash, z);
  }

  lemma RebuiltByKeys(hash: Hash, zones: set<string>, r: Records, ns: CatalogKey, txt: CatalogKey)
    requires ns != txt && forall key :: key in BASE <==> key == ns || key == txt
    requires forall z :: z in zones ==> Dotted(z) == z + "." && MemberKey(hash, z) == CatalogKey(MemberNameOf(hash, z), "PTR")
    ensures IsRebuilt(hash, zones, r)
       <==> (&& ns in r && r[ns] == BASE[ns] && txt in r && r[txt] == BASE[txt]
             && (forall z :: z in zones ==> var key := CatalogKey(MemberNameOf(hash, z), "PTR");
                                            key in r && r[key] == z + ".")
             && (forall key :: key in r && key != ns && key != txt ==>
                   exists z :: z in zones && key == CatalogKey(MemberNameOf(hash, z), "PTR")))
  {
    hide MemberKey, Dotted, BASE, MemberNameOf;
  }

  lemma UndottedDistinct(hash: Hash, names: set<string>, y: string, z: string)
    requires GoodHash(hash, names) && y in names && z in names && Undotted(y) && Undotted(z)
    ensures MemberKey(hash, y) == MemberKey(hash, z) ==> y == z
  {
    hide MemberKey, Dotted;
    MembersDistinct(hash, names, y, z);
    DottedForms(y);
    DottedForms(z);
    assert y == (y + ".")[..|y|] && z == (z + ".")[..|z|];
  }

  lemma UpdateKeepsRebuilt(hash: Hash, names: set<string>, zones: set<string>, r: Records, z: string, delete: bool)
    requires GoodHash(hash, names) && zones + {z} <= names && IsRebuilt(hash, zones, r)
    requires forall y :: y in names ==> Undotted(y)
    ensures IsRebuilt(hash, if delete then zones - {z} else zones + {z}, UpdateCatalog(hash, r, z, delete))
  {
    hide MemberKey, Dotted, GoodHash, BASE;
    forall y | y in zones && MemberKey(hash, y) == MemberKey(hash, z) ensures y == z {
      UndottedDistinct(hash, names, y, z);
    }
    MembersDistinct(hash, names, z, z);
    var zones' := if delete then zones - {z} else zones + {z};
    forall key ensures IsMember(hash, zones', key)
                  <==> if key == MemberKey(hash, z) then !delete else IsMember(hash, zones, key) {
      if !delete && key == MemberKey(hash, z) {
        assert z in zones';
      }
      if y :| y in zones && key == MemberKey(hash, y) && y != z {
        assert y in zones';
      }
    }
  }

  /** What a list of zone changes does to the catalog. */
  function Patched(hash: Hash, records: Records, cs: seq<Change>): Records {
    if cs == [] then records
    else
      var before, c := Patched(hash, records, cs[..|cs|-1]), cs[|cs|-1];
      if c.UpdateRRsets? then before else UpdateCatalog(hash, before, c.name, c.DeleteDomain?)
  }

  lemma ZonesAfter(w: World, c: Change, ns: RRset)
    requires Do(w, c, ns).Ok?
    ensures Do(w, c, ns).value.lord.Keys
            == (match c
                case CreateDomain(d) => w.lord.Keys + {d}
                case DeleteDomain(d) => w.lord.Keys - {d}
                case UpdateRRsets(_, _, _, _) => w.lord.Keys)
  {
  }

  /** Whatever change list is executed, the patched catalog is the one that would be rebuilt from the zones then on
      nslord. */
  lemma {:induction false} CatalogFollowsZones(hash: Hash, names: set<string>, records: Records, w: World, cs: seq<Change>,
                                               ns: RRset)
    requires GoodHash(hash, names) && forall d :: d in names ==> Undotted(d)
    requires w.lord.Keys <= names && IsRebuilt(hash, w.lord.Keys, records)
    requires forall c :: c in cs ==> c.name in names
    requires DoAll(w, cs, ns).Ok?
    ensures IsRebuilt(hash, DoAll(w, cs, ns).value.lord.Keys, Patched(hash, records, cs))
    ensures DoAll(w, cs, ns).value.lord.Keys <= names
  {
    hide UpdateCatalog, IsRebuilt, GoodHash, Undotted, Do;
    if cs != [] {
      var init, c := cs[..|cs|-1], cs[|cs|-1];
      assert cs == init + [c];
      CatalogFollowsZones(hash, names, records, w, init, ns);
      var before := DoAll(w, init, ns).value;
      assert c in cs;
      ZonesAfter(before, c, ns);
      if !c.UpdateRRsets? {
        UpdateKeepsRebuilt(hash, names, before.lord.Keys, Patched(hash, records, init), c.name, c.DeleteDomain?);
      }
    }
  }

  lemma DotChangesNothing(hash: Hash, y: string)
    requires Undotted(y)
    ensures MemberKey(hash, y + ".") == MemberKey(hash, y) && Dotted(y + ".") == Dotted(y)
  {
    DottedForms(y);
  }

  /** The zones as nslord lists them, with a final dot, have the same catalog as those without. */
  lemma ListedZonesSameCatalog(hash: Hash, zones: set<string>, listed: set<string>, r: Records)
    requires forall y :: y in zones ==> Undotted(y)
    requires listed == set y | y in zones :: y + "."
    ensures IsRebuilt(hash, listed, r) <==> IsRebuilt(hash, zones, r)
  {
    hide MemberKey, Dotted, Undotted;
    forall y | y in zones
      ensures y + "." in listed
      ensures MemberKey(hash, y + ".") == MemberKey(hash, y) && Dotted(y + ".") == Dotted(y)
    {
      DotChangesNothing(hash, y);
    }
    forall key ensures IsMember(hash, listed, key) <==> IsMember(hash, zones, key) {
      if y :| y in zones && key == MemberKey(hash, y) {
        assert y + "." in listed;
      }
    }
  }

  // ---------------------------------------------------------------------------------------------------------------
  // Realignment
  // ---------------------------------------------------------------------------------------------------------------

  datatype CatalogZone = CatalogZone(serial: nat, records: Records)

  class NsMaster {
    var catalog: Option<CatalogZone>

    /** Purges the catalog zone and recreates it from the zones on nslord, with a higher serial than before; `initial` is
        the serial that a catalog without predecessor gets. */
    method AlignCatalogZone(hash: Hash, zones: set<string>, initial: nat)
      requires GoodHash(hash, zones)
      modifies this
      ensures catalog.Some? && IsRebuilt(hash, zones, catalog.value.records)
      ensures catalog.value.serial == if old(catalog).Some? then old(catalog).value.serial + 1 else initial
    {
      var serial := if catalog.Some? then Some(catalog.value.serial) else None;
      catalog := None;
      var records := BASE;
      var todo := zones;
      while todo != {}
        invariant todo <= zones
        invariant IsRebuilt(hash, zones - todo, records)
        decreases todo
      {
        var z :| z in todo;
        AddMember(hash, zones, zones - todo, records, z);
        records := UpdateCatalog(hash, records, z, false);
        todo := todo - {z};
        assert zones - todo == zones - (todo + {z}) + {z};
      }
      assert zones - todo == zones;
      catalog := Some(CatalogZone(if serial.Some? then serial.value + 1 else initial, records));
    }
  }

  lemma AddMember(hash: Hash, names: set<string>, zones: set<string>, r: Records, z: string)
    requires GoodHash(hash, names) && zones + {z} <= names && IsRebuilt(hash, zones, r)
    ensures IsRebuilt(hash, zones + {z}, UpdateCatalog(hash, r, z, false))
  {
    hide MemberKey, Dotted;
    MembersDistinct(hash, names, z, z);
    forall y | y in zones && MemberKey(hash, y) == MemberKey(hash, z) ensures Dotted(y) == Dotted(z) {
      MembersDistinct(hash, names, y, z);
    }
  }
}
