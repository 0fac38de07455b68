/** The vocabulary shared by the components: names, RRsets, and zones.

    An RRset is what the API database stores for one (type, subname) pair of a domain: a TTL and a set of record
    contents (contents are unique within an RRset by a database constraint).  A database maps each domain to its RRsets;
    the set of zones known to PowerDNS has the same shape, but never holds an RRset without records. */
module Dns {
  type Name = string
  datatype Key = Key(rrtype: string, subname: string)
  datatype RRset = RRset(ttl: nat, records: set<string>)
  type Zone = map<Key, RRset>
  type Database = map<Name, Zone>

  datatype Option<+T> = None | Some(value: T)
  datatype Result<+T, +E> = Ok(value: T) | Err(error: E)

  /** Zones as PowerDNS can hold them: an RRset without records does not exist. */
  function NonEmpty(z: Zone): Zone {
    map k | k in z && z[k].records != {} :: z[k]
  }

  function View(db: Database): Database {
    map d | d in db :: NonEmpty(db[d])
  }

  /** The zones are those of the database's domains, each with exactly the RRsets that have records. */
  ghost predicate Serves(zones: Database, db: Database) {
    && zones.Keys == db.Keys
    && (forall d, k :: d in zones && d in db ==> (k in zones[d] <==> k in db[d] && db[d][k].records != {}))
    && (forall d, k :: d in zones && d in db && k in zones[d] && k in db[d] ==> zones[d][k] == db[d][k])
  }

  lemma ViewIffServes(zones: Database, db: Database)
    ensures zones == View(db) <==> Serves(zones, db)
  {
    if Serves(zones, db) {
      forall d | d in db ensures zones[d] == NonEmpty(db[d]) {
      }
    }
  }

  predicate HasRecords(db: Database, d: Name, k: Key) {
    d in db && k in db[d] && db[d][k].records != {}
  }

  /** CNAME exclusivity: next to a CNAME RRset there is no RRset of another type at the same subname. */
  ghost predicate Exclusive(keys: set<Key>) {
    forall k, l :: k in keys && l in keys && k.subname == l.subname ==> (k.rrtype == "CNAME" <==> l.rrtype == "CNAME")
  }

  /** The elements of `s` in some order, each exactly once: how a loop over a Python set visits it. */
  ghost predicate Enumerates<T(!new)>(order: seq<T>, s: set<T>) {
    && (forall i, j :: 0 <= i < j < |order| ==> order[i] != order[j])
    && (forall x :: x in order <==> x in s)
  }

  function Elems<T>(s: seq<T>): set<T> {
    set x | x in s
  }

  lemma ElemsLast<T>(s: seq<T>)
    requires s != []
    requires forall i, j :: 0 <= i < j < |s| ==> s[i] != s[j]
    ensures Elems(s) == Elems(s[..|s|-1]) + {s[|s|-1]} && s[|s|-1] !in Elems(s[..|s|-1])
  {
    assert s == s[..|s|-1] + [s[|s|-1]];
  }
}
