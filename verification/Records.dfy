/** Resource records of an RRset: cleaning, and replacing them with the fewest row operations and signals. */
module Records {
  import opened Dns

  /** The canonical presentation format of a record content of the given type, if the content is valid. */
  type Canonicalizer = (string, string) -> Option<string>

  datatype RecordError = MultipleRecords | AtApex | BelowApex | Malformed(record: string) | Duplicate(record: string)

  /** Errors about the RRset as a whole. */
  function SetErrors(k: Key, count: nat): (r: seq<RecordError>)
    ensures r == [] <==> (&& (k.rrtype == "CNAME" || k.rrtype == "DNAME" ==> count <= 1)
                          && (k.rrtype == "CNAME" || k.rrtype == "DS" ==> k.subname != "")
                          && (k.rrtype == "DNSKEY" ==> k.subname == ""))
  {
    (if k.rrtype in {"CNAME", "DNAME"} && count > 1 then [MultipleRecords] else [])
    + (if k.rrtype in {"CNAME", "DS"} && k.subname == "" then [AtApex] else [])
    + (if k.rrtype in {"DNSKEY"} && k.subname != "" then [BelowApex] else [])
  }

  /** Which errors there are about the RRset as a whole. */
  lemma SetErrorsAre(k: Key, count: nat)
    ensures MultipleRecords in SetErrors(k, count) <==> (k.rrtype == "CNAME" || k.rrtype == "DNAME") && count > 1
    ensures AtApex in SetErrors(k, count) <==> (k.rrtype == "CNAME" || k.rrtype == "DS") && k.subname == ""
    ensures BelowApex in SetErrors(k, count) <==> k.rrtype == "DNSKEY" && k.subname != ""
    ensures forall e :: e in SetErrors(k, count) ==> e in {MultipleRecords, AtApex, BelowApex}
  {
  }

  /** The canonical forms of the valid ones among the records. */
  function CanonicalSet(canon: Canonicalizer, rrtype: string, records: seq<string>): set<string> {
    set r | r in records && canon(r, rrtype).Some? :: canon(r, rrtype).value
  }

  /** One error for each record that is invalid, or identical to an earlier one. */
  function RecordErrors(canon: Canonicalizer, rrtype: string, records: seq<string>): seq<RecordError> {
    if records == [] then []
    else
      var init, r := records[..|records|-1], records[|records|-1];
      RecordErrors(canon, rrtype, init)
      + match canon(r, rrtype)
        case None => [Malformed(r)]
        case Some(c) => if c in CanonicalSet(canon, rrtype, init) then [Duplicate(r)] else []
  }

  /** Each record is valid and no two have the same canonical form. */
  ghost predicate Distinct(canon: Canonicalizer, rrtype: string, records: seq<string>) {
    && (forall i :: 0 <= i < |records| ==> canon(records[i], rrtype).Some?)
    && (forall i, j :: 0 <= i < j < |records| ==> canon(records[i], rrtype) != canon(records[j], rrtype))
  }

  /** The records make up an RRset of this type at this name. */
  ghost predicate Acceptable(canon: Canonicalizer, k: Key, records: seq<string>) {
    SetErrors(k, |records|) == [] && Distinct(canon, k.rrtype, records)
  }

  /** In other words: a singleton type has one record, CNAME and DS are below the apex and DNSKEY is at it, and all records
      are valid and differ in their canonical form. */
  ghost predicate MakeRRset(canon: Canonicalizer, k: Key, records: seq<string>) {
    && ((k.rrtype == "CNAME" || k.rrtype == "DNAME") ==> |records| <= 1)
    && ((k.rrtype == "CNAME" || k.rrtype == "DS") ==> k.subname != "")
    && (k.rrtype == "DNSKEY" ==> k.subname == "")
    && (forall r :: r in records ==> canon(r, k.rrtype).Some?)
    && (forall i, j :: 0 <= i < |records| && 0 <= j < |records| && i != j ==>
          canon(records[i], k.rrtype) != canon(records[j], k.rrtype))
  }

  lemma AcceptableMeans(canon: Canonicalizer, k: Key, records: seq<string>)
    ensures Acceptable(canon, k, records) <==> MakeRRset(canon, k, records)
  {
    hide SetErrors;
    assert forall i :: 0 <= i < |records| ==> records[i] in records;
  }

  /** The canonical set holds the canonical forms of the records. */
  lemma CanonicalSetHolds(canon: Canonicalizer, rrtype: string, records: seq<string>, c: string)
    ensures c in CanonicalSet(canon, rrtype, records) <==> exists r :: r in records && canon(r, rrtype) == Some(c)
  {
    if r :| r in records && canon(r, rrtype) == Some(c) {
      assert c in CanonicalSet(canon, rrtype, records);
    }
  }

  /** Malformed records are reported, and those whose canonical form occurs before. */
  lemma {:induction false} RecordErrorsAre(canon: Canonicalizer, rrtype: string, records: seq<string>, r: string)
    ensures Malformed(r) in RecordErrors(canon, rrtype, records) <==> r in records && canon(r, rrtype).None?
    ensures Duplicate(r) in RecordErrors(canon, rrtype, records)
       <==> exists i, j :: 0 <= i < j < |records| && records[j] == r && canon(r, rrtype).Some?
                           && canon(records[i], rrtype) == canon(r, rrtype)
    ensures forall e :: e in RecordErrors(canon, rrtype, records) ==> e.Malformed? || e.Duplicate?
  {
    if records != [] {
      var init, last := records[..|records|-1], records[|records|-1];
      assert records == init + [last];
      RecordErrorsAre(canon, rrtype, init, r);
      if canon(last, rrtype).Some? {
        RepeatsEarlier(canon, rrtype, init, canon(last, rrtype).value);
      }
      RepeatedAt(canon, rrtype, records, r);
    }
  }

  /** A repetition is among the earlier records, or it is the last one that repeats. */
  lemma RepeatedAt(canon: Canonicalizer, rrtype: string, records: seq<string>, r: string)
    requires records != []
    ensures var init := records[..|records|-1];
            (exists i, j :: 0 <= i < j < |records| && records[j] == r && canon(r, rrtype).Some?
                            && canon(records[i], rrtype) == canon(r, rrtype))
            <==> ((exists i, j :: 0 <= i < j < |init| && init[j] == r && canon(r, rrtype).Some?
                                  && canon(init[i], rrtype) == canon(r, rrtype))
                  || (records[|records|-1] == r && canon(r, rrtype).Some?
                      && exists i :: 0 <= i < |init| && canon(init[i], rrtype) == canon(r, rrtype)))
  {
    var init := records[..|records|-1];
    if i, j :| 0 <= i < j < |records| && records[j] == r && canon(r, rrtype).Some?
               && canon(records[i], rrtype) == canon(r, rrtype) {
      assert init[i] == records[i];
      assert j < |init| ==> init[j] == records[j];
    }
    if i, j :| 0 <= i < j < |init| && init[j] == r && canon(r, rrtype).Some? && canon(init[i], rrtype) == canon(r, rrtype) {
      assert records[i] == init[i] && records[j] == init[j];
    }
    if i :| 0 <= i < |init| && canon(init[i], rrtype) == canon(r, rrtype) {
      assert records[i] == init[i];
    }
  }

  lemma CanonicalSetLast(canon: Canonicalizer, rrtype: string, records: seq<string>)
    requires records != []
    ensures CanonicalSet(canon, rrtype, records)
         == CanonicalSet(canon, rrtype, records[..|records|-1])
            + match canon(records[|records|-1], rrtype) case None => {} case Some(c) => {c}
  {
    assert records == records[..|records|-1] + [records[|records|-1]];
  }

  /** Whether the last record repeats an earlier one. */
  lemma RepeatsEarlier(canon: Canonicalizer, rrtype: string, records: seq<string>, c: string)
    ensures c in CanonicalSet(canon, rrtype, records)
       <==> exists j :: 0 <= j < |records| && canon(records[j], rrtype) == Some(c)
  {
    if c in CanonicalSet(canon, rrtype, records) {
      var x :| x in records && canon(x, rrtype) == Some(c);
    }
    if j :| 0 <= j < |records| && canon(records[j], rrtype) == Some(c) {
      assert records[j] in records;
    }
  }

  lemma DistinctLast(canon: Canonicalizer, rrtype: string, records: seq<string>)
    requires records != []
    ensures var init, c := records[..|records|-1], canon(records[|records|-1], rrtype);
            Distinct(canon, rrtype, records)
            <==> Distinct(canon, rrtype, init) && c.Some? && !exists j :: 0 <= j < |init| && canon(init[j], rrtype) == c
  {
  }

  lemma {:induction false} NoErrorsIffDistinct(canon: Canonicalizer, rrtype: string, records: seq<string>)
    ensures RecordErrors(canon, rrtype, records) == [] <==> Distinct(canon, rrtype, records)
    ensures Distinct(canon, rrtype, records) ==> |CanonicalSet(canon, rrtype, records)| == |records|
  {
    if records != [] {
      var init, r := records[..|records|-1], records[|records|-1];
      NoErrorsIffDistinct(canon, rrtype, init);
      CanonicalSetLast(canon, rrtype, records);
      if canon(r, rrtype).Some? {
        RepeatsEarlier(canon, rrtype, init, canon(r, rrtype).value);
      }
      hide CanonicalSet;
      DistinctLast(canon, rrtype, records);
    }
  }

  /** Collects all errors; succeeds, with the set of canonical forms, exactly if the records are acceptable. */
  method CleanRecords(canon: Canonicalizer, k: Key, records: seq<string>)
    returns (r: Result<set<string>, seq<RecordError>>)
    ensures r.Ok? <==> Acceptable(canon, k, records)
    ensures r.Ok? ==> r.value == CanonicalSet(canon, k.rrtype, records) && |r.value| == |records|
    ensures r.Err? ==> r.error == SetErrors(k, |records|) + RecordErrors(canon, k.rrtype, records)
  {
    hide SetErrors, Distinct;
    var errors := SetErrors(k, |records|);
    var canonical: set<string> := {};
    for i := 0 to |records|
      invariant canonical == CanonicalSet(canon, k.rrtype, records[..i])
      invariant errors == SetErrors(k, |records|) + RecordErrors(canon, k.rrtype, records[..i])
    {
      CanonicalSetLast(canon, k.rrtype, records[..i + 1]);
      assert records[..i + 1][..i] == records[..i];
      match canon(records[i], k.rrtype)
      case None => errors := errors + [Malformed(records[i])];
      case Some(c) =>
        if c in canonical {
          errors := errors + [Duplicate(records[i])];
        } else {
          canonical := canonical + {c};
        }
    }
    assert records[..|records|] == records;
    NoErrorsIffDistinct(canon, k.rrtype, records);
    return if errors != [] then Err(errors) else Ok(canonical);
  }
}
