/** Token scoping policies: the lookup query, the domain-deletion check, and the life cycle of a token's policies. */
module TokenPolicies {
  import opened Dns

  /** A stored policy; a missing domain, subname or type matches everything. */
  datatype Policy = Policy(id: nat, domain: Option<nat>, subname: Option<string>, rrtype: Option<string>, permWrite: bool)

  /** The RRset that a lookup is for. */
  datatype Target = Target(domain: nat, subname: string, rrtype: string)

  predicate SameScope(p: Policy, q: Policy) {
    p.domain == q.domain && p.subname == q.subname && p.rrtype == q.rrtype
  }

  /** The unique_policy constraint; nulls count as equal. */
  ghost predicate UniqueScopes(rows: seq<Policy>) {
    forall i, j :: 0 <= i < j < |rows| ==> !SameScope(rows[i], rows[j])
  }

  predicate RepresentsDefault(p: Policy) {
    p.domain == None && p.subname == None && p.rrtype == None
  }

  // ---------------------------------------------------------------------------------------------------------------
  // The lookup query: filter, order with nulls last, take the first
  // ---------------------------------------------------------------------------------------------------------------

  /** The query's filter.  Without an RRset only the default policy matches. */
  predicate Matches(p: Policy, target: Option<Target>) {
    && (p.domain == None || (target.Some? && p.domain == Some(target.value.domain)))
    && (p.subname == None || (target.Some? && p.subname == Some(target.value.subname)))
    && (p.rrtype == None || (target.Some? && p.rrtype == Some(target.value.rrtype)))
  }

  function Filter(rows: seq<Policy>, target: Option<Target>): seq<Policy> {
    if rows == [] then [] else (if Matches(rows[0], target) then [rows[0]] else []) + Filter(rows[1..], target)
  }

  /** Some order on strings in which no string precedes itself. */
  predicate TextBefore(s: string, t: string) {
    t != [] && (s == [] || s[0] < t[0] || (s[0] == t[0] && TextBefore(s[1..], t[1..])))
  }

  lemma {:induction false} TextNotBeforeItself(s: string)
    ensures !TextBefore(s, s)
  {
    if s != [] {
      TextNotBeforeItself(s[1..]);
    }
  }

  predicate NullableTextBefore(s: Option<string>, t: Option<string>) {
    s.Some? && (t.None? || TextBefore(s.value, t.value))
  }

  predicate NullableIdBefore(s: Option<nat>, t: Option<nat>) {
    s.Some? && (t.None? || s.value < t.value)
  }

  /** ORDER BY domain, subname, type, each ascending with nulls last. */
  predicate Before(p: Policy, q: Policy) {
    NullableIdBefore(p.domain, q.domain)
    || (p.domain == q.domain
        && (NullableTextBefore(p.subname, q.subname)
            || (p.subname == q.subname && NullableTextBefore(p.rrtype, q.rrtype))))
  }

  /** A possible outcome of ordering rows: a rearrangement in which nothing precedes the first row. */
  ghost predicate OrderedAs(rows: seq<Policy>, ordered: seq<Policy>) {
    && multiset(rows) == multiset(ordered)
    && (forall i :: 0 < i < |ordered| ==> !Before(ordered[i], ordered[0]))
  }

  // ---------------------------------------------------------------------------------------------------------------
  // The documented meaning: an eight-step fall-through
  // ---------------------------------------------------------------------------------------------------------------

  function Find(rows: seq<Policy>, domain: Option<nat>, subname: Option<string>, rrtype: Option<string>): Option<Policy> {
    if rows == [] then None
    else if rows[0].domain == domain && rows[0].subname == subname && rows[0].rrtype == rrtype then Some(rows[0])
    else Find(rows[1..], domain, subname, rrtype)
  }

  function OrElse(p: Option<Policy>, q: Option<Policy>): Option<Policy> {
    if p.Some? then p else q
  }

  /** Priorities 1 to 8 of the token scoping documentation. */
  function FallThrough(rows: seq<Policy>, target: Option<Target>): Option<Policy> {
    match target
    case None => Find(rows, None, None, None)
    case Some(Target(d, s, t)) =>
      OrElse(Find(rows, Some(d), Some(s), Some(t)),
      OrElse(Find(rows, Some(d), Some(s), None),
      OrElse(Find(rows, Some(d), None, Some(t)),
      OrElse(Find(rows, Some(d), None, None),
      OrElse(Find(rows, None, Some(s), Some(t)),
      OrElse(Find(rows, None, Some(s), None),
      OrElse(Find(rows, None, None, Some(t)),
             Find(rows, None, None, None))))))))
  }

  lemma {:induction false} FindIsMember(rows: seq<Policy>, domain: Option<nat>, subname: Option<string>, rrtype: Option<string>)
    ensures match Find(rows, domain, subname, rrtype)
            case Some(p) => p in rows && p.domain == domain && p.subname == subname && p.rrtype == rrtype
            case None => forall p :: p in rows ==> !(p.domain == domain && p.subname == subname && p.rrtype == rrtype)
  {
    if rows != [] {
      FindIsMember(rows[1..], domain, subname, rrtype);
    }
  }

  lemma {:induction false} FilterMembers(rows: seq<Policy>, target: Option<Target>)
    ensures forall p :: p in Filter(rows, target) <==> p in rows && Matches(p, target)
  {
    if rows != [] {
      FilterMembers(rows[1..], target);
    }
  }

  lemma UniqueMember(rows: seq<Policy>, p: Policy, q: Policy)
    requires UniqueScopes(rows) && p in rows && q in rows && SameScope(p, q)
    ensures p == q
  {
  }

  /** Among matching rows, the order compares how specific they are: the position in the fall-through. */
  function Priority(p: Policy): nat {
    (if p.domain.None? then 4 else 0) + (if p.subname.None? then 2 else 0) + (if p.rrtype.None? then 1 else 0)
  }

  lemma MatchingOrder(p: Policy, q: Policy, target: Option<Target>)
    requires Matches(p, target) && Matches(q, target)
    ensures Before(p, q) <==> Priority(p) < Priority(q)
    ensures Priority(p) == Priority(q) ==> SameScope(p, q)
  {
    if target.Some? {
      TextNotBeforeItself(target.value.subname);
      TextNotBeforeItself(target.value.rrtype);
    }
  }

  /** What the fall-through finds is the matching row of the highest priority. */
  lemma FallThroughIsMostSpecific(rows: seq<Policy>, target: Option<Target>)
    ensures match FallThrough(rows, target)
            case Some(p) => p in rows && Matches(p, target)
                            && forall q :: q in rows && Matches(q, target) ==> Priority(p) <= Priority(q)
            case None => forall q :: q in rows ==> !Matches(q, target)
  {
    FindIsMember(rows, None, None, None);
    match target
    case None =>
    case Some(Target(d, s, t)) =>
      FindIsMember(rows, Some(d), Some(s), Some(t));
      FindIsMember(rows, Some(d), Some(s), None);
      FindIsMember(rows, Some(d), None, Some(t));
      FindIsMember(rows, Some(d), None, None);
      FindIsMember(rows, None, Some(s), Some(t));
      FindIsMember(rows, None, Some(s), None);
      FindIsMember(rows, None, None, Some(t));
  }

  /** However the database stores and orders the rows, the first one is what the fall-through finds. */
  lemma QueryIsFallThrough(rows: seq<Policy>, target: Option<Target>, ordered: seq<Policy>)
    requires UniqueScopes(rows) && OrderedAs(Filter(rows, target), ordered)
    ensures (if ordered == [] then None else Some(ordered[0])) == FallThrough(rows, target)
  {
    FilterMembers(rows, target);
    FallThroughIsMostSpecific(rows, target);
    var filtered := Filter(rows, target);
    assert forall p :: p in filtered <==> p in multiset(filtered);
    assert forall p :: p in ordered <==> p in multiset(ordered);
    forall i | 0 <= i < |ordered| ensures ordered[i] in rows && Matches(ordered[i], target) {
      assert ordered[i] in ordered;
    }
    var found := FallThrough(rows, target);
    if found.Some? {
      assert found.value in ordered;
      var first := ordered[0];
      assert first in ordered;
      var i :| 0 <= i < |ordered| && ordered[i] == found.value;
      MatchingOrder(found.value, first, target);
      MatchingOrder(first, found.value, target);
      UniqueMember(rows, first, found.value);
    }
  }

  lemma NothingToOrder()
    ensures OrderedAs([], [])
  {
  }

  lemma AddInOrder(rows: seq<Policy>, p: Policy, ordered: seq<Policy>, target: Option<Target>)
    requires OrderedAs(rows, ordered) && Matches(p, target)
    requires forall j :: 0 <= j < |ordered| ==> Matches(ordered[j], target)
    ensures OrderedAs(rows + [p], if ordered != [] && Before(p, ordered[0]) then [p] + ordered else ordered + [p])
  {
    hide Before, Matches;
    if ordered != [] && Before(p, ordered[0]) {
      forall j | 0 <= j < |ordered| ensures !Before(ordered[j], p) {
        MatchingOrder(ordered[j], p, target);
        MatchingOrder(p, ordered[0], target);
        MatchingOrder(ordered[j], ordered[0], target);
      }
    }
  }

  /** The lookup.  The loop keeps the rows seen so far with a most specific one in front. */
  method GetPolicy(rows: seq<Policy>, target: Option<Target>) returns (policy: Option<Policy>)
    requires UniqueScopes(rows)
    ensures policy == FallThrough(rows, target)
  {
    hide Before, Matches, OrderedAs, FallThrough, UniqueScopes;
    var filtered := Filter(rows, target);
    FilterMembers(rows, target);
    var ordered: seq<Policy> := [];
    NothingToOrder();
    for i := 0 to |filtered|
      invariant OrderedAs(filtered[..i], ordered)
      invariant forall j :: 0 <= j < |ordered| ==> Matches(ordered[j], target)
    {
      assert filtered[..i + 1] == filtered[..i] + [filtered[i]];
      assert filtered[i] in filtered;
      AddInOrder(filtered[..i], filtered[i], ordered, target);
      if ordered != [] && Before(filtered[i], ordered[0]) {
        ordered := [filtered[i]] + ordered;
      } else {
        ordered := ordered + [filtered[i]];
      }
    }
    assert filtered[..|filtered|] == filtered;
    QueryIsFallThrough(rows, target, ordered);
    return if ordered == [] then None else Some(ordered[0]);
  }

  /** The decision depends on which policies are stored, not on how they are stored. */
  lemma StorageOrderIrrelevant(rows: seq<Policy>, rows': seq<Policy>, target: Option<Target>)
    requires UniqueScopes(rows) && (forall p :: p in rows <==> p in rows')
    ensures FallThrough(rows, target) == FallThrough(rows', target)
  {
    FallThroughIsMostSpecific(rows, target);
    FallThroughIsMostSpecific(rows', target);
    var found, found' := FallThrough(rows, target), FallThrough(rows', target);
    if found.Some? && found'.Some? {
      MatchingOrder(found.value, found'.value, target);
      UniqueMember(rows, found.value, found'.value);
    }
  }

  /** The policy's domain, subname and type each are that of the RRset or missing. */
  predicate Applies(p: Policy, target: Target) {
    && (p.domain == Some(target.domain) || p.domain == None)
    && (p.subname == Some(target.subname) || p.subname == None)
    && (p.rrtype == Some(target.rrtype) || p.rrtype == None)
  }

  /** In the first of domain, subname and type in which they differ, `p` has a value and `q` has none. */
  predicate MoreSpecific(p: Policy, q: Policy) {
    if p.domain != q.domain then q.domain == None
    else if p.subname != q.subname then q.subname == None
    else p.rrtype != q.rrtype && q.rrtype == None
  }

  /** The lookup finds a policy if and only if it applies and is more specific than all others that apply. */
  lemma LookupIff(rows: seq<Policy>, target: Target, p: Policy)
    requires UniqueScopes(rows)
    ensures FallThrough(rows, Some(target)) == Some(p)
       <==> p in rows && Applies(p, target) && forall q :: q in rows && Applies(q, target) && q != p ==> MoreSpecific(p, q)
    ensures FallThrough(rows, Some(target)) == None <==> forall q :: q in rows ==> !Applies(q, target)
  {
    hide UniqueScopes, FallThrough;
    FallThroughIsMostSpecific(rows, Some(target));
    var found := FallThrough(rows, Some(target));
    assert forall q :: Applies(q, target) <==> Matches(q, Some(target));
    if found.Some? {
      forall q | q in rows && Applies(q, target) && q != found.value
        ensures MoreSpecific(found.value, q) && !MoreSpecific(q, found.value)
      {
        OneIsMoreSpecific(rows, found.value, q, target);
      }
    }
  }

  lemma OneIsMoreSpecific(rows: seq<Policy>, p: Policy, q: Policy, target: Target)
    requires UniqueScopes(rows) && p in rows && q in rows && p != q && Priority(p) <= Priority(q)
    requires Applies(p, target) && Applies(q, target)
    ensures MoreSpecific(p, q) && !MoreSpecific(q, p)
  {
    if SameScope(p, q) {
      UniqueMember(rows, p, q);
    }
  }

  /** Without an RRset, the lookup finds the policy without domain, subname and type. */
  lemma DefaultLookupIff(rows: seq<Policy>, p: Policy)
    requires UniqueScopes(rows)
    ensures FallThrough(rows, None) == Some(p) <==> p in rows && p.domain == None && p.subname == None && p.rrtype == None
  {
    DefaultLookup(rows);
  }

  /** Writing is allowed if and only if the applicable policy that is more specific than all others, if there is one, permits
      it. */
  lemma MayWriteIff(rows: seq<Policy>, target: Target)
    requires UniqueScopes(rows)
    ensures MayWrite(rows, target)
       <==> forall p :: (p in rows && Applies(p, target)
                         && forall q :: q in rows && Applies(q, target) && q != p ==> MoreSpecific(p, q)) ==> p.permWrite
  {
    hide UniqueScopes, FallThrough, Applies, MoreSpecific;
    forall p
      ensures FallThrough(rows, Some(target)) == Some(p)
         <==> (p in rows && Applies(p, target)
               && forall q :: q in rows && Applies(q, target) && q != p ==> MoreSpecific(p, q))
    {
      LookupIff(rows, target, p);
    }
  }

  /** Writing is allowed if no policy applies or the applicable one permits it. */
  predicate MayWrite(rows: seq<Policy>, target: Target) {
    match FallThrough(rows, Some(target)) case None => true case Some(p) => p.permWrite
  }

  // ---------------------------------------------------------------------------------------------------------------
  // May the token delete the domain?
  // ---------------------------------------------------------------------------------------------------------------

  predicate CanSafelyDeleteDomain(rows: seq<Policy>, d: nat) {
    var forbidden :=
      || (exists p :: p in rows && p.domain == Some(d) && !p.permWrite)
      || (&& !(exists p :: p in rows && p.domain == Some(d) && p.subname == None && p.rrtype == None && p.permWrite)
          && (exists p :: p in rows && p.domain == None && !p.permWrite));
    !forbidden
  }

  /** The check passes if and only if all policies of the domain permit writing, and so do all policies without a domain
      unless the domain has a default policy. */
  lemma SafeDeletionIff(rows: seq<Policy>, d: nat)
    ensures CanSafelyDeleteDomain(rows, d)
       <==> && (forall p :: p in rows && p.domain == Some(d) ==> p.permWrite)
            && ((exists p :: p in rows && p.domain == Some(d) && p.subname == None && p.rrtype == None)
                || forall p :: p in rows && p.domain == None ==> p.permWrite)
  {
  }

  /** Soundness: a token that passes the check may write every RRset of the domain. */
  lemma SafeDeletionIsSound(rows: seq<Policy>, target: Target)
    requires CanSafelyDeleteDomain(rows, target.domain)
    ensures MayWrite(rows, target)
  {
    FallThroughIsMostSpecific(rows, Some(target));
    forall p | p in rows && p.domain == Some(target.domain) && p.subname == None && p.rrtype == None
      ensures Matches(p, Some(target)) && Priority(p) == 3
    {
    }
  }

  /** The check is conservative: here every RRset of the domain that a policy restricts elsewhere is permitted by a more
      specific policy, yet the check fails. */
  lemma SafeDeletionIsConservative(s: string, t: string)
    ensures var rows := [Policy(0, None, None, None, true), Policy(1, None, Some("www"), None, false),
                         Policy(2, Some(7), Some("www"), None, true)];
            MayWrite(rows, Target(7, s, t)) && !CanSafelyDeleteDomain(rows, 7)
  {
    var p0, p1, p2 := Policy(0, None, None, None, true), Policy(1, None, Some("www"), None, false),
                      Policy(2, Some(7), Some("www"), None, true);
    var rows := [p0, p1, p2];
    assert p1 in rows;
    FallThroughIsMostSpecific(rows, Some(Target(7, s, t)));
    assert rows[1..] == [p1, p2];
    var found := FallThrough(rows, Some(Target(7, s, t))).value;
    if found == p1 {
      assert Matches(p2, Some(Target(7, s, t))) && p2 in rows;
    }
  }

  /** The policy that domain creation adds under auto_policy. */
  function AutoPolicy(id: nat, d: nat): Policy {
    Policy(id, Some(d), None, None, true)
  }

  /** Under auto_policy a new domain becomes deletable by the token, and nothing changes for other domains. */
  lemma AutoPolicyOpensNewDomainOnly(rows: seq<Policy>, id: nat, d: nat, target: Target)
    requires UniqueScopes(rows)
    requires forall p :: p in rows ==> p.domain != Some(d)
    ensures CanSafelyDeleteDomain(rows + [AutoPolicy(id, d)], d)
    ensures target.domain != d ==>
              && FallThrough(rows + [AutoPolicy(id, d)], Some(target)) == FallThrough(rows, Some(target))
              && (CanSafelyDeleteDomain(rows + [AutoPolicy(id, d)], target.domain)
                  <==> CanSafelyDeleteDomain(rows, target.domain))
  {
    var p := AutoPolicy(id, d);
    var rows' := rows + [p];
    assert p in rows';
    if target.domain != d {
      FallThroughIsMostSpecific(rows, Some(target));
      FallThroughIsMostSpecific(rows', Some(target));
      var found, found' := FallThrough(rows, Some(target)), FallThrough(rows', Some(target));
      if found.Some? && found'.Some? {
        MatchingOrder(found.value, found'.value, Some(target));
        UniqueMember(rows, found.value, found'.value);
      }
      assert forall q :: q in rows ==> q in rows';
    }
  }

  /** The automatic policy is always accepted for a domain without policies. */
  lemma AutoPolicyIsAccepted(rows: seq<Policy>, id: nat, d: nat)
    requires Consistent(true, rows) && forall p :: p in rows ==> p.domain != Some(d) && p.id != id
    ensures Consistent(true, rows + [AutoPolicy(id, d)])
  {
    var p :| p in rows && RepresentsDefault(p);
    assert p in rows + [AutoPolicy(id, d)];
  }

  // ---------------------------------------------------------------------------------------------------------------
  // Life cycle
  // ---------------------------------------------------------------------------------------------------------------

  ghost predicate HasDefault(rows: seq<Policy>) {
    exists p :: p in rows && RepresentsDefault(p)
  }

  /** What holds of a token's policies between operations: unique ids and scopes, a default policy as soon as there is any
      policy, and under auto_policy a default policy that does not permit writing. */
  ghost predicate Consistent(autoPolicy: bool, rows: seq<Policy>) {
    && UniqueScopes(rows)
    && (forall i, j :: 0 <= i < j < |rows| ==> rows[i].id != rows[j].id)
    && (rows != [] ==> HasDefault(rows))
    && (autoPolicy ==> HasDefault(rows) && forall p :: p in rows && RepresentsDefault(p) ==> !p.permWrite)
  }

  /** Once a token has a policy, every lookup finds one, and there is exactly one default policy. */
  lemma AnyPolicyMeansEveryLookupFinds(autoPolicy: bool, rows: seq<Policy>, target: Option<Target>)
    requires Consistent(autoPolicy, rows) && rows != []
    ensures FallThrough(rows, target).Some?
    ensures exists p :: p in rows && RepresentsDefault(p) && forall q :: q in rows && RepresentsDefault(q) ==> q == p
  {
    FallThroughIsMostSpecific(rows, target);
    var p :| p in rows && RepresentsDefault(p);
    assert Matches(p, target);
    forall q | q in rows && RepresentsDefault(q) ensures q == p {
      UniqueMember(rows, p, q);
    }
  }

  lemma DefaultLookup(rows: seq<Policy>)
    requires UniqueScopes(rows)
    ensures match FallThrough(rows, None)
            case Some(p) => p in rows && RepresentsDefault(p)
                            && forall q :: q in rows && RepresentsDefault(q) ==> q == p
            case None => !HasDefault(rows)
  {
    FindIsMember(rows, None, None, None);
    var found := FallThrough(rows, None);
    if found.Some? {
      forall q | q in rows && RepresentsDefault(q) ensures q == found.value {
        UniqueMember(rows, found.value, q);
      }
    }
  }

  /** Another row has the same scope: the database's unique constraint refuses `p`. */
  predicate ScopeTaken(rows: seq<Policy>, p: Policy) {
    exists q :: q in rows && q.id != p.id && SameScope(p, q)
  }

  function WithoutId(rows: seq<Policy>, id: nat): seq<Policy> {
    if rows == [] then [] else (if rows[0].id == id then [] else [rows[0]]) + WithoutId(rows[1..], id)
  }

  function WithoutDomain(rows: seq<Policy>, d: nat): seq<Policy> {
    if rows == [] then [] else (if rows[0].domain == Some(d) then [] else [rows[0]]) + WithoutDomain(rows[1..], d)
  }

  function Replace(rows: seq<Policy>, p: Policy): seq<Policy> {
    seq(|rows|, i requires 0 <= i < |rows| => if rows[i].id == p.id then p else rows[i])
  }

  ghost predicate Distinct(rows: seq<Policy>) {
    UniqueScopes(rows) && forall i, j :: 0 <= i < j < |rows| ==> rows[i].id != rows[j].id
  }

  lemma DistinctTail(rows: seq<Policy>)
    requires Distinct(rows) && rows != []
    ensures Distinct(rows[1..])
    ensures forall p :: p in rows <==> p == rows[0] || p in rows[1..]
    ensures forall p :: p in rows[1..] ==> !SameScope(rows[0], p) && rows[0].id != p.id
  {
  }

  lemma DistinctCons(p: Policy, rows: seq<Policy>)
    requires Distinct(rows) && forall q :: q in rows ==> !SameScope(p, q) && p.id != q.id
    ensures Distinct([p] + rows)
  {
  }

  lemma {:induction false} WithoutIdMembers(rows: seq<Policy>, id: nat)
    requires Distinct(rows)
    ensures Distinct(WithoutId(rows, id))
    ensures forall p :: p in WithoutId(rows, id) <==> p in rows && p.id != id
  {
    hide Distinct, SameScope;
    if rows == [] {
      assert WithoutId(rows, id) == rows;
    } else {
      DistinctTail(rows);
      WithoutIdMembers(rows[1..], id);
      var rest := WithoutId(rows[1..], id);
      DistinctCons(rows[0], rest);
      assert WithoutId(rows, id) == if rows[0].id == id then rest else [rows[0]] + rest;
    }
  }

  lemma {:induction false} WithoutDomainMembers(rows: seq<Policy>, d: nat)
    requires Distinct(rows)
    ensures Distinct(WithoutDomain(rows, d))
    ensures forall p :: p in WithoutDomain(rows, d) <==> p in rows && p.domain != Some(d)
  {
    hide Distinct, SameScope;
    if rows == [] {
      assert WithoutDomain(rows, d) == rows;
    } else {
      DistinctTail(rows);
      WithoutDomainMembers(rows[1..], d);
      var rest := WithoutDomain(rows[1..], d);
      DistinctCons(rows[0], rest);
      assert WithoutDomain(rows, d) == if rows[0].domain == Some(d) then rest else [rows[0]] + rest;
    }
  }

  lemma ReplaceMembers(rows: seq<Policy>, old_: Policy, p: Policy)
    requires Distinct(rows) && old_ in rows && old_.id == p.id
    ensures forall q :: q in Replace(rows, p) <==> q == p || (q in rows && q.id != p.id)
    ensures Distinct(Replace(rows, p)) <==> !ScopeTaken(rows, p)
  {
    var rows' := Replace(rows, p);
    var n :| 0 <= n < |rows| && rows[n] == old_;
    assert rows'[n] == p;
    forall q ensures q in rows' <==> q == p || (q in rows && q.id != p.id) {
      if q in rows && q.id != p.id {
        var i :| 0 <= i < |rows| && rows[i] == q;
        assert rows'[i] == q;
      }
    }
    if q :| q in rows && q.id != p.id && SameScope(p, q) {
      var i :| 0 <= i < |rows| && rows[i] == q;
      assert rows'[i] == q;
    }
  }

  /** A token and its policies.  Each operation checks what the application checks and what the database constrains; a
      rejected operation changes nothing. */
  class Token {
    var autoPolicy: bool
    var policies: seq<Policy>

    ghost predicate Valid()
      reads this
    {
      Consistent(autoPolicy, policies)
    }

    constructor ()
      ensures Valid() && !autoPolicy && policies == []
    {
      autoPolicy, policies := false, [];
    }

    /** Creating a policy is accepted exactly if the result is consistent, so the deferred triggers never fire. */
    method CreatePolicy(p: Policy) returns (ok: bool)
      requires Valid() && forall q :: q in policies ==> q.id != p.id
      modifies this`policies
      ensures Valid()
      ensures ok <==> Consistent(autoPolicy, old(policies) + [p])
      ensures ok <==> (&& (RepresentsDefault(p) || exists q :: q in old(policies) && RepresentsDefault(q))
                       && forall q :: q in old(policies) ==>
                            q.domain != p.domain || q.subname != p.subname || q.rrtype != p.rrtype)
      ensures policies == if ok then old(policies) + [p] else old(policies)
    {
      DefaultLookup(policies);
      var defaultPolicy := GetPolicy(policies, None);
      assert p in policies + [p];
      assert forall q :: q in policies ==> q in policies + [p];
      if defaultPolicy == None && !RepresentsDefault(p) {
        return false;
      }
      if ScopeTaken(policies, p) {
        ghost var q :| q in policies && q.id != p.id && SameScope(p, q);
        ghost var i :| 0 <= i < |policies| && policies[i] == q;
        assert (policies + [p])[i] == q && (policies + [p])[|policies|] == p;
        return false;
      }
      assert forall q :: q in policies ==> !SameScope(p, q);
      policies := policies + [p];
      return true;
    }

    /** Updating a policy, any of its fields, is accepted exactly if the result is consistent. */
    method UpdatePolicy(p: Policy) returns (ok: bool)
      requires Valid() && exists q :: q in policies && q.id == p.id
      modifies this`policies
      ensures Valid()
      ensures ok <==> Consistent(autoPolicy, Replace(old(policies), p))
      ensures ok <==> (&& (forall q :: q in old(policies) && q.id == p.id ==> (RepresentsDefault(q) <==> RepresentsDefault(p)))
                       && !(p.permWrite && RepresentsDefault(p) && autoPolicy)
                       && forall q :: q in old(policies) && q.id != p.id ==>
                            q.domain != p.domain || q.subname != p.subname || q.rrtype != p.rrtype)
      ensures ok ==> forall q :: q in policies <==> q == p || (q in old(policies) && q.id != p.id)
      ensures policies == if ok then Replace(old(policies), p) else old(policies)
    {
      ghost var before :| before in policies && before.id == p.id;
      ReplaceMembers(policies, before, p);
      DefaultLookup(policies);
      var defaultPolicy := GetPolicy(policies, None);
      var isDefault := defaultPolicy.Some? && defaultPolicy.value.id == p.id;
      if isDefault != RepresentsDefault(p) {
        assert p in Replace(policies, p);
        return false;
      }
      if p.permWrite && isDefault && autoPolicy {
        assert p in Replace(policies, p);
        return false;
      }
      if ScopeTaken(policies, p) {
        return false;
      }
      assert HasDefault(Replace(policies, p)) by {
        assert defaultPolicy.value in policies;
        assert (if isDefault then p else defaultPolicy.value) in Replace(policies, p);
      }
      policies := Replace(policies, p);
      return true;
    }

    /** Deleting a policy is accepted exactly if the result is consistent. */
    method DeletePolicy(p: Policy) returns (ok: bool)
      requires Valid() && p in policies
      modifies this`policies
      ensures Valid()
      ensures ok <==> Consistent(autoPolicy, WithoutId(old(policies), p.id))
      ensures ok <==> !(RepresentsDefault(p) && (autoPolicy || exists q :: q in old(policies) && q != p))
      ensures ok ==> forall q :: q in policies <==> q in old(policies) && q != p
      ensures policies == if ok then WithoutId(old(policies), p.id) else old(policies)
    {
      WithoutIdMembers(policies, p.id);
      DefaultLookup(policies);
      var defaultPolicy := GetPolicy(policies, None);
      var isDefault := defaultPolicy.Some? && defaultPolicy.value.id == p.id;
      var others := exists q :: q in policies && q.id != p.id;
      ghost var rest := WithoutId(policies, p.id);
      if isDefault && others {
        ghost var q :| q in policies && q.id != p.id;
        assert q in rest && !HasDefault(rest);
        return false;
      }
      if isDefault && autoPolicy {
        assert !HasDefault(rest);
        return false;
      }
      if !isDefault && policies != [] {
        assert defaultPolicy.value in rest;
      }
      policies := WithoutId(policies, p.id);
      return true;
    }

    /** Saving the token.  Switching auto_policy on needs a restrictive default policy, which is created (with the fresh
        id given) if there is none; it is accepted exactly if no permissive default policy stands in the way. */
    method Save(auto: bool, freshId: nat) returns (ok: bool)
      requires Valid() && forall q :: q in policies ==> q.id != freshId
      modifies this
      ensures Valid()
      ensures ok <==> (auto ==> forall p :: p in old(policies) && RepresentsDefault(p) ==> !p.permWrite)
      ensures !ok ==> autoPolicy == old(autoPolicy) && policies == old(policies)
      ensures ok ==> autoPolicy == auto
      ensures ok <==> (auto ==> forall p :: p in old(policies) && RepresentsDefault(p) ==> !p.permWrite)
      ensures ok ==> policies == if auto && old(policies) == []
                                 then [Policy(freshId, None, None, None, false)] else old(policies)
    {
      DefaultLookup(policies);
      var defaultPolicy := GetPolicy(policies, None);
      if auto && defaultPolicy.Some? && defaultPolicy.value.permWrite {
        return false;
      }
      if auto && defaultPolicy == None {
        assert policies == [];
        autoPolicy := false; // the constraint on auto_policy is deferred until the default policy exists
        var restrictive := Policy(freshId, None, None, None, false);
        assert [] + [restrictive] == [restrictive] && restrictive in [restrictive];
        var created := CreatePolicy(restrictive);
      }
      autoPolicy := auto;
      return true;
    }

    /** Deleting a domain takes its policies with it, without asking; the rest stays consistent. */
    method CascadeDomainDeletion(d: nat)
      requires Valid()
      modifies this`policies
      ensures Valid()
      ensures policies == WithoutDomain(old(policies), d)
      ensures forall q :: q in policies <==> q in old(policies) && q.domain != Some(d)
      ensures forall t: Target :: t.domain != d ==>
                FallThrough(policies, Some(t)) == FallThrough(old(policies), Some(t))
    {
      WithoutDomainMembers(policies, d);
      ghost var before := policies;
      policies := WithoutDomain(policies, d);
      assert policies != [] ==> policies[0] in before;
      assert HasDefault(before) ==> HasDefault(policies);
      forall t: Target | t.domain != d ensures FallThrough(policies, Some(t)) == FallThrough(before, Some(t)) {
        OtherDomainsUnaffected(before, policies, d, t);
      }
    }
  }

  lemma OtherDomainsUnaffected(rows: seq<Policy>, rows': seq<Policy>, d: nat, target: Target)
    requires UniqueScopes(rows) && target.domain != d
    requires forall p :: p in rows' ==> p in rows
    requires forall p :: p in rows && p.domain != Some(d) ==> p in rows'
    ensures FallThrough(rows', Some(target)) == FallThrough(rows, Some(target))
  {
    FallThroughIsMostSpecific(rows, Some(target));
    FallThroughIsMostSpecific(rows', Some(target));
    var found, found' := FallThrough(rows, Some(target)), FallThrough(rows', Some(target));
    if found.Some? && found'.Some? {
      MatchingOrder(found.value, found'.value, Some(target));
      UniqueMember(rows, found.value, found'.value);
    }
  }
}
