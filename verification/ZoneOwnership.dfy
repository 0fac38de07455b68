/** Which domain names a user may register, and why no zone ever lies between another user's zone and its public
    suffix. */
module ZoneOwnership {
  import opened Dns
  import opened Strings

  // ---------------------------------------------------------------------------------------------------------------
  // Public suffixes
  // ---------------------------------------------------------------------------------------------------------------

  /** What the public suffix list says about a name, or nothing when it cannot be reached: the suffix, and whether the
      name itself is one. */
  type SuffixList = string -> Option<(string, bool)>

  /** Without the list, the top-level domain counts as the public suffix. */
  function TopLevel(name: string): string {
    var labels := Split(name);
    labels[|labels|-1]
  }

  function ListedSuffix(psl: SuffixList, name: string): (string, bool) {
    match psl(name)
    case Some(answer) => answer
    case None => (TopLevel(name), FirstDot(name) == |name|)
  }

  predicate Applicable(local: set<string>, name: string, l: string) {
    l in local && EndsWith("." + name, "." + l)
  }

  /** The public suffix of a name: the listed one if the name is a public suffix, otherwise the longest among the listed
      one and the applicable local ones. */
  ghost predicate IsPublicSuffix(psl: SuffixList, local: set<string>, name: string, ps: string) {
    var (listed, whole) := ListedSuffix(psl, name);
    if whole then ps == listed
    else
      && (ps == listed || Applicable(local, name, ps))
      && |listed| <= |ps|
      && (forall l :: Applicable(local, name, l) ==> |l| <= |ps|)
  }

  lemma DottedSuffix(name: string, l: string)
    ensures EndsWith("." + name, "." + l) <==> LabelSuffix(name, l)
  {
    BelowParts(name, l);
    var dotted := "." + name;
    if |name| >= |l| {
      assert dotted[|name|-|l|] == if |name| == |l| then '.' else name[|name|-|l|-1];
      assert dotted[|name|-|l|..][1..] == name[|name|-|l|..];
      assert dotted[|name|-|l|..] == [dotted[|name|-|l|]] + name[|name|-|l|..];
    }
  }

  lemma TopLevelIsSuffix(name: string)
    ensures LabelSuffix(name, TopLevel(name))
  {
    var n := |Split(name)| - 1;
    JoinedTails(name, n);
    assert Split(name)[n..] == [TopLevel(name)];
    AncestorIffSuffix(name, TopLevel(name));
  }

  /** The list answers with suffixes of the name, the name itself for a public suffix. */
  ghost predicate ProperList(psl: SuffixList) {
    forall name :: psl(name).Some? ==>
      LabelSuffix(name, psl(name).value.0) && (psl(name).value.1 ==> psl(name).value.0 == name)
  }

  lemma ListedIsSuffix(psl: SuffixList, name: string)
    requires ProperList(psl)
    ensures LabelSuffix(name, ListedSuffix(psl, name).0)
  {
    TopLevelIsSuffix(name);
  }

  /** There is only one public suffix, so the order in which the loop visits the local ones does not matter. */
  lemma PublicSuffixUnique(psl: SuffixList, local: set<string>, name: string, ps: string, ps': string)
    requires ProperList(psl)
    requires IsPublicSuffix(psl, local, name, ps) && IsPublicSuffix(psl, local, name, ps')
    ensures ps == ps' && LabelSuffix(name, ps)
  {
    ListedIsSuffix(psl, name);
    DottedSuffix(name, ps);
    DottedSuffix(name, ps');
    BelowParts(name, ps);
    BelowParts(name, ps');
  }

  /** The top-level domain is what follows the last dot. */
  lemma {:induction false} TopLevelIs(name: string)
    ensures '.' !in TopLevel(name)
    ensures TopLevel(name) == name || exists p :: name == p + "." + TopLevel(name)
  {
    TopLevelIsSuffix(name);
    NoDotInLast(name);
    if TopLevel(name) != name {
      BelowPrefix(name, TopLevel(name));
    }
  }

  lemma {:induction false} NoDotInLast(name: string)
    ensures '.' !in TopLevel(name)
    decreases |name|
  {
    var i := FirstDot(name);
    if i < |name| {
      NoDotInLast(name[i+1..]);
      assert Split(name)[1..] == Split(name[i+1..]);
    }
  }

  lemma WithoutDots(name: string)
    requires '.' !in name
    ensures FirstDot(name) == |name| && TopLevel(name) == name
  {
    assert forall j :: 0 <= j < |name| ==> name[j] != '.';
  }

  /** The public suffix of a name: what the list says if that is the name itself; the name itself if it has no dot and the list
      cannot be reached; otherwise the longest among the local suffixes that apply and what the list says, or, without the
      list, the top-level domain. */
  method PublicSuffix(psl: SuffixList, local: set<string>, name: string) returns (ps: string)
    ensures IsPublicSuffix(psl, local, name, ps)
    ensures psl(name).Some? && psl(name).value.1 ==> ps == psl(name).value.0
    ensures psl(name).None? && '.' !in name ==> ps == name
    ensures (psl(name).Some? && !psl(name).value.1) || (psl(name).None? && '.' in name) ==>
              var listed := if psl(name).Some? then psl(name).value.0 else TopLevel(name);
              && (ps == listed || (ps in local && LabelSuffix(name, ps))) && |listed| <= |ps|
              && (forall l :: l in local && LabelSuffix(name, l) ==> |l| <= |ps|)
  {
    if '.' !in name {
      WithoutDots(name);
    }
    forall l ensures Applicable(local, name, l) <==> l in local && LabelSuffix(name, l) {
      DottedSuffix(name, l);
    }
    var answer := ListedSuffix(psl, name);
    ps := answer.0;
    if answer.1 {
      return;
    }
    ghost var listed := ps;
    var todo := local;
    while todo != {}
      invariant todo <= local
      invariant ps == listed || Applicable(local, name, ps)
      invariant |listed| <= |ps|
      invariant forall l :: l !in todo && Applicable(local, name, l) ==> |l| <= |ps|
      decreases todo
    {
      var l :| l in todo;
      if EndsWith("." + name, "." + l) && |l| > |ps| {
        ps := l;
      }
      todo := todo - {l};
    }
  }

  // ---------------------------------------------------------------------------------------------------------------
  // Registrability
  // ---------------------------------------------------------------------------------------------------------------

  const MAX_NAME_LENGTH := 191

  /** Case is ignored, which lets two letters outside of ASCII pass that are lower-case already. */
  predicate LabelChar(c: char) {
    'a' <= c <= 'z' || '0' <= c <= '9' || c == '-' || c == '_' || c == '\U{131}' || c == '\U{17F}'
  }

  predicate ValidLabel(l: string) {
    1 <= |l| <= 63 && forall i :: 0 <= i < |l| ==> LabelChar(l[i])
  }

  predicate ValidList(labels: seq<string>)
    requires labels != []
  {
    (forall i :: 0 <= i < |labels| ==> ValidLabel(labels[i])) && '_' !in labels[|labels|-1]
  }

  /** Lower-case labels separated by dots; no underscore in the last one. */
  predicate ValidLabels(name: string) {
    ValidList(Split(name))
  }

  function WithoutNewline(name: string): string {
    if name != "" && name[|name|-1] == '\n' then name[..|name|-1] else name
  }

  /** The name pattern, whose end also matches before a final newline, and the length limit. */
  predicate ValidName(name: string) {
    |name| <= MAX_NAME_LENGTH && ValidLabels(WithoutNewline(name))
  }

  /** The names from a domain up to, but excluding, its public suffix, as the ownership check computes them. */
  function PrivateDomains(name: string, ps: string): seq<string> {
    var head := match BeforeLast(name, ps) case Some(p) => p case None => name;
    var private := RStripDots(head);
    if private == "" then []
    else
      var components := Split(private);
      seq(|components|, i requires 0 <= i < |components| => Join(components[i..]) + "." + ps)
  }

  lemma {:induction false} NoEmptyLabels(name: string, i: nat)
    requires forall k :: 0 <= k < |Split(name)| ==> Split(name)[k] != ""
    requires i < |name|
    ensures name[i] == '.' ==> 0 < i < |name| - 1 && name[i-1] != '.'
    decreases |name|
  {
    var d := FirstDot(name);
    if d < |name| {
      var rest := name[d+1..];
      assert Split(name)[0] == name[..d];
      forall k | 0 <= k < |Split(rest)| ensures Split(rest)[k] != "" {
        assert Split(name)[k+1] == Split(rest)[k];
      }
      assert Split(rest)[0] != "";
      if i > d {
        NoEmptyLabels(rest, i - d - 1);
        assert rest[i-d-1] == name[i];
        if name[i] == '.' {
          assert rest[i-d-2] == name[i-1];
        }
      }
    }
  }

  lemma DotsBetweenLabels(name: string, i: nat)
    requires ValidName(name) && i < |name|
    ensures name[i] == '.' ==> 0 < i < |name| - 1 && name[i-1] != '.'
  {
    var s := WithoutNewline(name);
    if i < |s| {
      NoEmptyLabels(s, i);
    }
  }

  predicate HasDot(s: string, from: nat, to: nat)
    requires to <= |s|
  {
    exists i :: from <= i < to && s[i] == '.'
  }

  /** A name pattern by positions: no dot at either end or next to another, 64 characters always have a dot among them, and
      after an underscore there is a dot. */
  ghost predicate PatternHolds(s: string) {
    && s != "" && s[0] != '.' && s[|s|-1] != '.'
    && (forall i :: 0 <= i < |s| ==> s[i] == '.' || LabelChar(s[i]))
    && (forall i :: 0 < i < |s| ==> s[i] != '.' || s[i-1] != '.')
    && (forall i, j :: 0 <= i && j == i + 64 <= |s| ==> HasDot(s, i, j))
    && (forall i :: 0 <= i < |s| && s[i] == '_' ==> HasDot(s, i, |s|))
  }

  lemma ValidListStep(first: string, rest: seq<string>)
    requires rest != []
    ensures ValidList([first] + rest) <==> ValidLabel(first) && ValidList(rest)
  {
    hide ValidLabel;
    var labels := [first] + rest;
    assert labels[0] == first && forall i :: 0 <= i < |rest| ==> labels[i+1] == rest[i];
  }

  lemma ValidLabelsStep(s: string, i: nat)
    requires i == FirstDot(s)
    ensures ValidLabels(s) <==> ValidLabel(s[..i]) && if i == |s| then '_' !in s else ValidLabels(s[i+1..])
  {
    hide ValidLabel, FirstDot, Split, ValidList;
    SplitStep(s, i);
    if i < |s| {
      ValidListStep(s[..i], Split(s[i+1..]));
    } else {
      assert s[..i] == s;
      SingleLabel(s);
    }
  }

  lemma SingleLabel(s: string)
    ensures ValidList([s]) <==> ValidLabel(s) && '_' !in s
  {
    assert [s][0] == s;
  }

  ghost predicate IsFirstDot(s: string, i: nat) {
    i <= |s| && (forall j :: 0 <= j < i ==> s[j] != '.') && (i < |s| ==> s[i] == '.')
  }

  lemma DotsOfRest(s: string, i: nat, from: nat, to: nat)
    requires i < |s| && to <= |s| - i - 1
    ensures HasDot(s, from + i + 1, to + i + 1) <==> HasDot(s[i+1..], from, to)
  {
    var rest := s[i+1..];
    if j :| from + i + 1 <= j < to + i + 1 && s[j] == '.' {
      assert rest[j-i-1] == '.';
    }
    if j :| from <= j < to && rest[j] == '.' {
      assert s[j+i+1] == '.';
    }
  }

  lemma PatternOfRest(s: string, i: nat)
    requires PatternHolds(s) && IsFirstDot(s, i)
    ensures ValidLabel(s[..i]) && if i == |s| then '_' !in s else PatternHolds(s[i+1..])
  {
    assert |s| >= 64 ==> HasDot(s, 0, 64);
    if i < |s| {
      hide HasDot;
      var rest := s[i+1..];
      assert i < |s| - 1;
      forall j, k | 0 <= j && k == j + 64 <= |rest| ensures HasDot(rest, j, k) {
        assert HasDot(s, j + i + 1, k + i + 1);
        DotsOfRest(s, i, j, k);
      }
      forall j | 0 <= j < |rest| && rest[j] == '_' ensures HasDot(rest, j, |rest|) {
        assert s[j+i+1] == '_';
        DotsOfRest(s, i, j, |rest|);
      }
    }
  }

  lemma PatternFromRest(s: string, i: nat)
    requires IsFirstDot(s, i) && ValidLabel(s[..i]) && if i == |s| then '_' !in s else PatternHolds(s[i+1..])
    ensures PatternHolds(s)
  {
    assert forall j :: 0 <= j < i ==> s[..i][j] == s[j];
    if i < |s| {
      var rest := s[i+1..];
      hide HasDot;
      assert forall j :: i < j < |s| ==> s[j] == rest[j-i-1];
      forall j, k | 0 <= j && k == j + 64 <= |s| ensures HasDot(s, j, k) {
        if j <= i {
          DotAt(s, j, i, k);
        } else {
          assert HasDot(rest, j - i - 1, k - i - 1);
          DotsOfRest(s, i, j - i - 1, k - i - 1);
        }
      }
      forall j | 0 <= j < |s| && s[j] == '_' ensures HasDot(s, j, |s|) {
        if j <= i {
          DotAt(s, j, i, |s|);
        } else {
          assert rest[j-i-1] == '_';
          DotsOfRest(s, i, j - i - 1, |rest|);
        }
      }
    }
  }

  lemma DotAt(s: string, from: nat, i: nat, to: nat)
    requires from <= i < to <= |s| && s[i] == '.'
    ensures HasDot(s, from, to)
  {
  }

  lemma {:induction false} ValidLabelsIff(s: string)
    ensures ValidLabels(s) <==> PatternHolds(s)
    decreases |s|
  {
    hide ValidLabels, ValidLabel, PatternHolds, FirstDot;
    var i := FirstDot(s);
    ValidLabelsStep(s, i);
    if i < |s| {
      ValidLabelsIff(s[i+1..]);
    }
    if PatternHolds(s) {
      PatternOfRest(s, i);
    }
    if ValidLabel(s[..i]) && if i == |s| then '_' !in s else PatternHolds(s[i+1..]) {
      PatternFromRest(s, i);
    }
  }

  /** The valid names, by positions. */
  lemma ValidNameIff(name: string)
    ensures ValidName(name)
       <==> |name| <= 191 && (PatternHolds(name)
                              || (name != "" && name[|name|-1] == '\n' && PatternHolds(name[..|name|-1])))
  {
    hide PatternHolds, ValidLabels;
    ValidLabelsIff(WithoutNewline(name));
    if name != "" && name[|name|-1] == '\n' {
      NoNewline(name);
    }
  }

  lemma NoNewline(name: string)
    requires name != "" && name[|name|-1] == '\n'
    ensures !PatternHolds(name)
  {
  }

  /** The string-level computation finds exactly the names that it should: the suffixes of the name, itself included,
      that lie strictly below the public suffix; and rejoining the parts gives the name back, as the code asserts. */
  lemma PrivateDomainsExact(name: string, ps: string, x: string)
    requires ValidName(name) && LabelSuffix(name, ps)
    ensures var private := PrivateDomains(name, ps);
            && name == (if private == [] then ps else private[0])
            && (x in private <==> LabelSuffix(name, x) && Below(x, ps))
  {
    hide ValidName, PrivateDomains, BeforeLast, RStripDots;
    if name == ps {
      NoPrivateDomains(ps);
      BelowParts(x, ps);
      BelowParts(name, x);
    } else {
      hide LabelSuffix, Below;
      var p := PrivatePart(name, ps);
      PrivateMember(p, ps, x);
      UnderSuffix(p, ps, x);
    }
  }

  lemma NoPrivateDomains(ps: string)
    ensures PrivateDomains(ps, ps) == []
  {
    assert "" + ps == ps;
    BeforeLastOfSuffix("", ps);
  }

  /** What precedes the public suffix and its dot. */
  lemma PrivatePart(name: string, ps: string) returns (p: string)
    requires ValidName(name) && LabelSuffix(name, ps) && name != ps
    ensures p != "" && name == p + "." + ps
    ensures RStripDots(p + ".") == p && BeforeLast(p + "." + ps, ps) == Some(p + ".")
  {
    hide ValidName, BeforeLast;
    BelowPrefix(name, ps);
    BelowParts(name, ps);
    p := name[..|name|-|ps|-1];
    assert name == (p + ".") + ps;
    BeforeLastOfSuffix(p + ".", ps);
    DotsBetweenLabels(name, |p|);
    assert (p + ".")[..|p|] == p && p[|p|-1] == name[|p|-1];
  }

  lemma PrivateMember(p: string, ps: string, x: string)
    requires p != "" && RStripDots(p + ".") == p && BeforeLast(p + "." + ps, ps) == Some(p + ".")
    ensures var private := PrivateDomains(p + "." + ps, ps);
            private != [] && private[0] == p + "." + ps
            && (x in private <==> exists q :: q in AncestorsOrSelf(p) && x == q + "." + ps)
  {
    var private, names := PrivateDomains(p + "." + ps, ps), AncestorsOrSelf(p);
    forall i | 0 <= i < |private| ensures |private| == |names| && private[i] == names[i] + "." + ps {
      JoinedTails(p, i);
    }
    JoinedTails(p, 0);
    if x in private {
      var i :| 0 <= i < |private| && private[i] == x;
      assert names[i] in names;
    }
    if q :| q in names && x == q + "." + ps {
      var i :| 0 <= i < |names| && names[i] == q;
      assert private[i] == x;
    }
  }

  lemma AppendSuffix(p: string, q: string, t: string)
    ensures LabelSuffix(p + t, q + t) <==> LabelSuffix(p, q)
  {
    BelowParts(p, q);
    BelowParts(p + t, q + t);
    if |p| >= |q| {
      assert (p + t)[|p|-|q|..] == p[|p|-|q|..] + t;
      assert (p + t)[|p|-|q|..] == q + t ==> p[|p|-|q|..] == q by {
        if (p + t)[|p|-|q|..] == q + t {
          assert (q + t)[..|q|] == q && (p[|p|-|q|..] + t)[..|q|] == p[|p|-|q|..];
        }
      }
    }
    if p + t == q + t {
      assert p == (p + t)[..|p|] && q == (q + t)[..|q|];
    }
  }

  lemma UnderSuffix(p: string, ps: string, x: string)
    ensures (exists q :: q in AncestorsOrSelf(p) && x == q + "." + ps)
       <==> LabelSuffix(p + "." + ps, x) && Below(x, ps)
  {
    assert forall q: string :: q + "." + ps == q + ("." + ps);
    if q :| q in AncestorsOrSelf(p) && x == q + "." + ps {
      AncestorIffSuffix(p, q);
      AppendSuffix(p, q, "." + ps);
      assert x[|x|-|"." + ps|..] == "." + ps;
    }
    if LabelSuffix(p + "." + ps, x) && Below(x, ps) {
      BelowPrefix(x, ps);
      var q := x[..|x|-|ps|-1];
      AppendSuffix(p, q, "." + ps);
      AncestorIffSuffix(p, q);
    }
  }

  type Owners = map<string, nat>

  predicate IsForeign(owners: Owners, zone: string, owner: Option<nat>) {
    zone in owners && Some(owners[zone]) != owner
  }

  predicate IsCoveredByForeignZone(owners: Owners, name: string, ps: string, owner: Option<nat>) {
    exists x :: x in PrivateDomains(name, ps) && IsForeign(owners, x, owner)
  }

  predicate CoversForeignZone(owners: Owners, name: string, owner: Option<nat>) {
    exists y :: y in owners && EndsWith(y, "." + name) && IsForeign(owners, y, owner)
  }

  const RESERVED_PREFIXES := ["_", "autoconfig.", "autodiscover."]

  /** How many labels lie between the public suffix and the start of the name. */
  function PrivateGeneration(name: string, ps: string): int {
    CountDots(name) - CountDots(ps)
  }

  predicate IsRegistrable(owners: Owners, local: set<string>, ps: string, name: string, owner: Option<nat>) {
    var generation := PrivateGeneration(name, ps);
    if EndsWith("." + name, ".internal") then false
    else if generation == 0 && name !in local then false
    else if generation == 1 && exists prefix :: prefix in RESERVED_PREFIXES && prefix <= name then false
    else if IsCoveredByForeignZone(owners, name, ps, owner) then false
    else if CoversForeignZone(owners, name, owner) then false
    else true
  }

  /** The code's assertion on the private generation cannot fail, and generation 0 means the public suffix itself. */
  lemma PrivateGenerationCounts(name: string, ps: string)
    requires LabelSuffix(name, ps)
    ensures PrivateGeneration(name, ps) >= 0
    ensures PrivateGeneration(name, ps) == 0 <==> name == ps
  {
    if name != ps {
      BelowPrefix(name, ps);
      var p := name[..|name|-|ps|-1];
      CountDotsAppend(p + ".", ps);
      CountDotsAppend(p, ".");
      assert CountDots(".") == 1;
    }
  }

  // ---------------------------------------------------------------------------------------------------------------
  // Every run of registrations and deletions
  // ---------------------------------------------------------------------------------------------------------------

  datatype Event = Register(name: string, owner: nat) | Delete(name: string)

  /** The suffix list and the local suffixes, fixed during a run; `suffix` gives each name's public suffix. */
  ghost predicate ProperSuffixes(suffix: string -> string) {
    forall name :: LabelSuffix(name, suffix(name))
  }

  /** The public suffixes that the domain model computes are proper. */
  lemma ComputedSuffixesAreProper(psl: SuffixList, local: set<string>, suffix: string -> string)
    requires ProperList(psl) && forall name :: IsPublicSuffix(psl, local, name, suffix(name))
    ensures ProperSuffixes(suffix)
  {
    forall name ensures LabelSuffix(name, suffix(name)) {
      PublicSuffixUnique(psl, local, name, suffix(name), suffix(name));
    }
  }

  /** Registering requires a valid, registrable name that no one has registered yet. */
  predicate Accepts(owners: Owners, local: set<string>, suffix: string -> string, e: Event) {
    match e
    case Register(name, owner) =>
      ValidName(name) && name !in owners && IsRegistrable(owners, local, suffix(name), name, Some(owner))
    case Delete(name) => name in owners
  }

  /** Refused requests change nothing. */
  function After(owners: Owners, local: set<string>, suffix: string -> string, e: Event): Owners {
    if !Accepts(owners, local, suffix, e) then owners
    else match e
      case Register(name, owner) => owners[name := owner]
      case Delete(name) => owners - {name}
  }

  function Run(local: set<string>, suffix: string -> string, evs: seq<Event>): Owners {
    if evs == [] then map[] else After(Run(local, suffix, evs[..|evs|-1]), local, suffix, evs[|evs|-1])
  }

  /** A zone of another user above `y` is the public suffix of `y` or lies above it. */
  ghost predicate Separated(owners: Owners, suffix: string -> string) {
    forall x, y :: x in owners && y in owners && Below(y, x) && owners[x] != owners[y] ==> LabelSuffix(suffix(y), x)
  }

  /** A newly registered name is not inside another user's zone. */
  lemma RegisteredBelow(owners: Owners, local: set<string>, suffix: string -> string, name: string, owner: nat, x: string)
    requires ProperSuffixes(suffix) && Accepts(owners, local, suffix, Register(name, owner))
    requires x in owners && owners[x] != owner && Below(name, x)
    ensures LabelSuffix(suffix(name), x)
  {
    var ps := suffix(name);
    PrivateDomainsExact(name, ps, x);
    assert IsForeign(owners, x, Some(owner));
    assert !Below(x, ps);
    if |x| <= |ps| {
      SuffixesNest(name, x, ps);
    } else {
      SuffixesNest(name, ps, x);
    }
  }

  /** Over every run of registrations and deletions, users' zones stay apart: if y lies strictly below x and their owners
      differ, then x is the public suffix of y or one of that suffix's ancestors. */
  lemma {:induction false} ZonesStaySeparated(local: set<string>, suffix: string -> string, evs: seq<Event>)
    requires ProperSuffixes(suffix)
    ensures Separated(Run(local, suffix, evs), suffix)
  {
    if evs != [] {
      ZonesStaySeparated(local, suffix, evs[..|evs|-1]);
      var owners, e := Run(local, suffix, evs[..|evs|-1]), evs[|evs|-1];
      var after := Run(local, suffix, evs);
      if e.Register? && Accepts(owners, local, suffix, e) {
        forall x, y | x in after && y in after && Below(y, x) && after[x] != after[y] ensures LabelSuffix(suffix(y), x) {
          if y == e.name {
            BelowParts(y, x);
            RegisteredBelow(owners, local, suffix, e.name, e.owner, x);
          } else if x == e.name {
            assert IsForeign(owners, y, Some(e.owner));
            assert CoversForeignZone(owners, x, Some(e.owner));
            assert false;
          }
        }
      }
    }
  }

  /** The name has exactly one label more than the public suffix. */
  predicate IsDirectChild(name: string, ps: string) {
    Below(name, ps) && |name| > |ps| && '.' !in name[..|name|-|ps|-1]
  }

  lemma {:induction false} NoDots(s: string)
    ensures CountDots(s) == 0 <==> '.' !in s
  {
    if s != [] {
      NoDots(s[1..]);
    }
  }

  lemma FirstGeneration(name: string, ps: string)
    requires LabelSuffix(name, ps)
    ensures PrivateGeneration(name, ps) == 1 <==> IsDirectChild(name, ps)
  {
    BelowParts(name, ps);
    if name != ps {
      BelowPrefix(name, ps);
      var p := name[..|name|-|ps|-1];
      CountDotsAppend(p + ".", ps);
      CountDotsAppend(p, ".");
      assert CountDots(".") == 1;
      NoDots(p);
    }
  }

  /** What a registrable name is not: reserved, a public suffix of others, or a reserved name directly under one. */
  predicate ProperName(local: set<string>, ps: string, name: string) {
    && !LabelSuffix(name, "internal") && (name == ps ==> name in local)
    && (IsDirectChild(name, ps) ==> !("_" <= name) && !("autoconfig." <= name) && !("autodiscover." <= name))
  }

  /** No zone of another user lies between the name, itself included, and its public suffix, or below the name. */
  ghost predicate NoForeignZones(owners: Owners, ps: string, name: string, owner: Option<nat>) {
    forall z :: z in owners && Some(owners[z]) != owner ==> !(LabelSuffix(name, z) && Below(z, ps)) && !Below(z, name)
  }

  lemma ReservedPrefixes(name: string)
    ensures (exists prefix :: prefix in RESERVED_PREFIXES && prefix <= name)
       <==> "_" <= name || "autoconfig." <= name || "autodiscover." <= name
  {
    assert "_" in RESERVED_PREFIXES && "autoconfig." in RESERVED_PREFIXES && "autodiscover." in RESERVED_PREFIXES;
  }

  /** Exactly which valid names are registrable. */
  lemma RegistrableIff(owners: Owners, local: set<string>, ps: string, name: string, owner: Option<nat>)
    requires ValidName(name) && LabelSuffix(name, ps)
    ensures IsRegistrable(owners, local, ps, name, owner)
       <==> ProperName(local, ps, name) && NoForeignZones(owners, ps, name, owner)
  {
    hide LabelSuffix, PrivateGeneration, IsDirectChild, ValidName, IsCoveredByForeignZone, CoversForeignZone, NoForeignZones;
    PrivateGenerationCounts(name, ps);
    FirstGeneration(name, ps);
    DottedSuffix(name, "internal");
    assert "." + "internal" == ".internal";
    ReservedPrefixes(name);
    ForeignZones(owners, ps, name, owner);
  }

  lemma ForeignZones(owners: Owners, ps: string, name: string, owner: Option<nat>)
    requires ValidName(name) && LabelSuffix(name, ps)
    ensures !IsCoveredByForeignZone(owners, name, ps, owner) && !CoversForeignZone(owners, name, owner)
       <==> NoForeignZones(owners, ps, name, owner)
  {
    hide LabelSuffix, ValidName, PrivateDomains;
    forall x ensures x in PrivateDomains(name, ps) <==> LabelSuffix(name, x) && Below(x, ps) {
      PrivateDomainsExact(name, ps, x);
    }
  }

  /** A registration is accepted if and only if the name is valid, new and proper, no zone of another user is one of the
      name's suffixes strictly below its public suffix, and none lies below the name. */
  lemma AcceptedIff(owners: Owners, local: set<string>, suffix: string -> string, name: string, owner: nat)
    requires ProperSuffixes(suffix)
    ensures Accepts(owners, local, suffix, Register(name, owner))
       <==> (&& ValidName(name) && name !in owners && ProperName(local, suffix(name), name)
             && (forall x :: x in owners && owners[x] != owner ==> !(LabelSuffix(name, x) && Below(x, suffix(name))))
             && (forall y :: y in owners && owners[y] != owner ==> !Below(y, name)))
  {
    hide IsRegistrable, ProperName, ValidName, LabelSuffix;
    if ValidName(name) {
      RegistrableIff(owners, local, suffix(name), name, Some(owner));
    }
  }

  /** An accepted registration adds its zone, a deletion removes its zone, and nothing else changes. */
  lemma EventSteps(local: set<string>, suffix: string -> string, evs: seq<Event>, name: string, owner: nat)
    ensures var owners := Run(local, suffix, evs);
            && Run(local, suffix, evs + [Register(name, owner)])
               == (if Accepts(owners, local, suffix, Register(name, owner)) then owners[name := owner] else owners)
            && Run(local, suffix, evs + [Delete(name)]) == owners - {name}
  {
    hide IsRegistrable, ValidName;
    assert (evs + [Register(name, owner)])[..|evs|] == evs && (evs + [Delete(name)])[..|evs|] == evs;
    assert name !in Run(local, suffix, evs) ==> Run(local, suffix, evs) - {name} == Run(local, suffix, evs);
  }

  /** Below one's own zone, in every reachable state: a valid, new and proper name with the same public suffix as the zone is
      accepted if and only if no zone of another user below the own zone lies above, at or below the name. */
  lemma BelowOwnZone(local: set<string>, suffix: string -> string, evs: seq<Event>, x: string, name: string, owner: nat)
    requires ProperSuffixes(suffix)
    requires var owners := Run(local, suffix, evs);
             x in owners && owners[x] == owner && Below(name, x) && suffix(name) == suffix(x) && name !in owners
    requires ValidName(name) && ProperName(local, suffix(name), name)
    ensures var owners := Run(local, suffix, evs);
            (Accepts(owners, local, suffix, Register(name, owner))
             <==> forall y :: y in owners && owners[y] != owner && Below(y, x) ==> !LabelSuffix(name, y) && !Below(y, name))
  {
    hide IsRegistrable, ProperName, ValidName, Run, Accepts, LabelSuffix, Below;
    var owners := Run(local, suffix, evs);
    AcceptedIff(owners, local, suffix, name, owner);
    ZonesStaySeparated(local, suffix, evs);
    forall y | y in owners && owners[y] != owner
      ensures LabelSuffix(name, y) && Below(y, suffix(name)) <==> LabelSuffix(name, y) && Below(y, x)
      ensures Below(y, name) ==> Below(y, x)
    {
      ForeignBelowOwn(owners, suffix, x, name, y);
    }
  }

  lemma ForeignBelowOwn(owners: Owners, suffix: string -> string, x: string, name: string, y: string)
    requires Separated(owners, suffix) && x in owners && y in owners && owners[x] != owners[y]
    requires Below(name, x) && LabelSuffix(x, suffix(x)) && suffix(name) == suffix(x)
    ensures LabelSuffix(name, y) && Below(y, suffix(name)) <==> LabelSuffix(name, y) && Below(y, x)
    ensures Below(y, name) ==> Below(y, x)
  {
    var ps := suffix(x);
    hide EndsWith;
    BelowParts(x, y);
    BelowParts(y, ps);
    BelowParts(ps, y);
    if Below(y, name) {
      BelowTransitive(y, name, x);
    }
    if LabelSuffix(name, y) {
      if |y| <= |x| {
        SuffixesNest(name, y, x);
        assert LabelSuffix(x, y) && x != y;
        assert LabelSuffix(ps, y);
        BelowParts(y, x);
      } else {
        SuffixesNest(name, x, y);
        assert Below(y, x);
        BelowTransitive(y, x, ps);
      }
    }
  }

  /** Over every run, only valid and proper names are registered. */
  lemma {:induction false} OnlyRegistrableNames(local: set<string>, suffix: string -> string, evs: seq<Event>, name: string)
    requires ProperSuffixes(suffix) && name in Run(local, suffix, evs)
    ensures ValidName(name) && ProperName(local, suffix(name), name)
  {
    hide ProperName, IsRegistrable, ValidName;
    var owners, e := Run(local, suffix, evs[..|evs|-1]), evs[|evs|-1];
    if name in owners {
      OnlyRegistrableNames(local, suffix, evs[..|evs|-1], name);
    } else {
      RegistrableIff(owners, local, suffix(name), name, Some(e.owner));
    }
  }
}
