/** From query names to domains and subnames, and back. */
module Names {
  import opened Dns
  import opened Strings
  import opened ZoneOwnership

  // ---------------------------------------------------------------------------------------------------------------
  // The domain that owns a query name
  // ---------------------------------------------------------------------------------------------------------------

  function LowerChar(c: char): char {
    if 'A' <= c <= 'Z' then c - 'A' + 'a' else c
  }

  function Lower(s: string): string {
    seq(|s|, i requires 0 <= i < |s| => LowerChar(s[i]))
  }

  function WithoutWildcard(qname: string): string {
    if "*." <= qname then qname[2..] else qname
  }

  /** The filter on domains: none for a malformed query name, otherwise those it ends in at a label boundary. */
  predicate Owns(domains: set<string>, qname: string, d: string) {
    ValidName(Lower(WithoutWildcard(qname))) && d in domains && EndsWith("." + qname, "." + d)
  }

  /** `t` is `s` with the ASCII letters in lower case. */
  predicate IsLowered(s: string, t: string) {
    |t| == |s| && forall i :: 0 <= i < |s| ==> t[i] as int == s[i] as int + if 65 <= s[i] as int <= 90 then 32 else 0
  }

  /** A domain owns a query name if and only if the name is the domain or ends in a dot and the domain, and, in lower case and
      without a leading wildcard label, is a valid name. */
  lemma OwnsIff(domains: set<string>, qname: string, d: string)
    ensures Owns(domains, qname, d)
       <==> (&& d in domains
             && (qname == d || (|qname| > |d| && qname[|qname|-|d|-1] == '.' && qname[|qname|-|d|..] == d))
             && exists t :: ValidName(t)
                            && IsLowered(if |qname| >= 2 && qname[0] == '*' && qname[1] == '.' then qname[2..] else qname, t))
  {
    hide ValidName;
    DottedSuffix(qname, d);
    BelowParts(qname, d);
    var s := WithoutWildcard(qname);
    assert s == if |qname| >= 2 && qname[0] == '*' && qname[1] == '.' then qname[2..] else qname;
    assert IsLowered(s, Lower(s));
    forall t | IsLowered(s, t) ensures t == Lower(s) {
      assert forall i :: 0 <= i < |s| ==> t[i] == Lower(s)[i];
    }
  }

  /** The longest owning domain, by descending length. */
  method OwningDomain(domains: set<string>, qname: string) returns (owner: Option<string>)
    ensures owner == None <==> forall d :: !Owns(domains, qname, d)
    ensures owner.Some? ==> Owns(domains, qname, owner.value)
                            && forall d :: Owns(domains, qname, d) ==> LabelSuffix(owner.value, d)
  {
    owner := None;
    var todo := domains;
    while todo != {}
      invariant todo <= domains
      invariant owner == None ==> forall d :: Owns(domains, qname, d) ==> d in todo
      invariant owner.Some? ==> Owns(domains, qname, owner.value)
                                && forall d :: Owns(domains, qname, d) && d !in todo ==> |d| <= |owner.value|
      decreases todo
    {
      var d :| d in todo;
      if Owns(domains, qname, d) && (owner == None || |d| > |owner.value|) {
        owner := Some(d);
      }
      todo := todo - {d};
    }
    if owner.Some? {
      forall d | Owns(domains, qname, d) ensures LabelSuffix(owner.value, d) {
        DottedSuffix(qname, owner.value);
        DottedSuffix(qname, d);
        SuffixesNest(qname, d, owner.value);
      }
    }
  }

  /** There is only one longest owning domain. */
  lemma OwningDomainUnique(domains: set<string>, qname: string, d: string, d': string)
    requires Owns(domains, qname, d) && Owns(domains, qname, d') && |d| == |d'|
    ensures d == d'
  {
    DottedSuffix(qname, d);
    DottedSuffix(qname, d');
    BelowParts(qname, d);
    BelowParts(qname, d');
  }

  // ---------------------------------------------------------------------------------------------------------------
  // Subnames
  // ---------------------------------------------------------------------------------------------------------------

  /** qname.rpartition(f".{domain}")[0] */
  function SubnameOf(qname: string, domain: string): string {
    match BeforeLast(qname, "." + domain) case Some(s) => s case None => ""
  }

  /** The non-empty ones of the two parts joined by a dot, and a final dot. */
  function ConstructName(subname: string, domain: string): string {
    var parts := (if subname != "" then [subname] else []) + (if domain != "" then [domain] else []);
    Join(parts) + "."
  }

  /** name[: -(len(domain) + 2)], which is empty when there is less to keep. */
  function SliceSubname(name: string, domain: string): string {
    if |name| <= |domain| + 2 then "" else name[..|name|-|domain|-2]
  }

  lemma ConstructNameForm(subname: string, domain: string)
    requires domain != ""
    ensures ConstructName(subname, domain) == (if subname == "" then domain else subname + "." + domain) + "."
  {
    if subname != "" {
      assert [subname] + [domain] == [subname, domain];
      assert [subname, domain][1..] == [domain] && Join([domain]) == domain;
      assert Join([subname, domain]) == subname + "." + domain;
    } else {
      assert [] + [domain] == [domain];
    }
  }

  /** Splitting a query name below a domain and putting it together again gives the query name and a dot, for the apex as
      well.  The only name for which this fails is the domain with a leading dot, which is no valid query name. */
  lemma SubnameRoundTrip(qname: string, domain: string)
    requires domain != "" && LabelSuffix(qname, domain)
    ensures ConstructName(SubnameOf(qname, domain), domain) == qname + "." <==> qname != "." + domain
  {
    ConstructNameForm(SubnameOf(qname, domain), domain);
    if qname != domain {
      BelowPrefix(qname, domain);
      var s := qname[..|qname|-|domain|-1];
      assert qname == s + ("." + domain);
      BeforeLastOfSuffix(s, "." + domain);
      if s == "" {
        assert qname == "." + domain;
        assert |qname + "."| != |domain + "."|;
      }
    }
  }

  /** Slicing inverts the construction of names. */
  lemma SliceInvertsConstruct(subname: string, domain: string)
    requires domain != ""
    ensures SliceSubname(ConstructName(subname, domain), domain) == subname
  {
    ConstructNameForm(subname, domain);
    if subname != "" {
      assert ConstructName(subname, domain)[..|subname|] == subname;
    }
  }

  /** The construction inverts slicing on every name in the zone. */
  lemma ConstructInvertsSlice(name: string, domain: string)
    requires domain != "" && (name == domain + "." || (Below(name, domain + ".") && name != "." + domain + "."))
    ensures ConstructName(SliceSubname(name, domain), domain) == name
  {
    ConstructNameForm(SliceSubname(name, domain), domain);
    if name != domain + "." {
      BelowPrefix(name, domain + ".");
      var p := name[..|name|-|domain|-2];
      assert name == p + ("." + domain + ".");
      assert p == "" ==> name == "." + domain + ".";
      assert name == name[..|name|-|domain|-2] + "." + domain + ".";
    }
  }

  /** So every query name comes back from its owning domain. */
  lemma ValidNamesRoundTrip(domains: set<string>, qname: string, domain: string)
    requires domain != "" && Owns(domains, qname, domain)
    ensures ConstructName(SubnameOf(qname, domain), domain) == qname + "."
  {
    DottedSuffix(qname, domain);
    if qname == "." + domain {
      assert qname[0] == '.' && WithoutWildcard(qname) == qname;
      assert Lower(qname)[0] == '.';
      DotsBetweenLabels(Lower(qname), 0);
    }
    SubnameRoundTrip(qname, domain);
  }
}
