/** The renewal state of unused domains: how the scavenger's job steps, user activity and renewal links move a domain
    through its stages, and what is promised on the way to deletion.

    Times are seconds; a date is the number of the day. */
module Renewal {
  import opened Dns

  const FRESH_DAYS := 183
  const NOTICE_DAYS_NOTIFY := 28
  const NOTICE_DAYS_WARN := 7

  datatype Stage = Immortal | Fresh | Notified | Warned

  datatype Domain =
    Domain(owner: nat, ownerActive: bool, stage: Stage, changed: int, touched: Option<int>, published: Option<int>)

  function Day(t: int): int {
    t / 86400
  }

  lemma DayMonotone(s: int, t: int)
    ensures s <= t ==> Day(s) <= Day(t)
  {
  }

  /** The greater of the two times that are known. */
  function LastActive(d: Domain): Option<int> {
    match (d.touched, d.published)
    case (Some(t), Some(p)) => Some(if t > p then t else p)
    case (Some(t), None) => Some(t)
    case (None, p) => p
  }

  // ---------------------------------------------------------------------------------------------------------------
  // The steps of a job, for one domain
  // ---------------------------------------------------------------------------------------------------------------

  predicate InScope(d: Domain) {
    d.stage != Immortal && d.ownerActive
  }

  predicate RecentlyActive(d: Domain, now: int) {
    InScope(d) && LastActive(d).Some? && Day(LastActive(d).value) >= Day(now) - FRESH_DAYS && d.changed < LastActive(d).value
  }

  function Renewed(d: Domain, now: int): Domain {
    if RecentlyActive(d, now) then d.(stage := Fresh, changed := LastActive(d).value) else d
  }

  /** FRESH domains are notified, NOTIFIED ones warned. */
  function NextStage(s: Stage): Stage
    requires s == Fresh || s == Notified
  {
    if s == Fresh then Notified else Warned
  }

  function InactiveDays(s: Stage): int {
    if s == Fresh then FRESH_DAYS else NOTICE_DAYS_NOTIFY - NOTICE_DAYS_WARN
  }

  function NoticeDays(s: Stage): int {
    if s == Fresh then NOTICE_DAYS_NOTIFY else NOTICE_DAYS_WARN
  }

  predicate IsCandidate(d: Domain, s: Stage, now: int) {
    InScope(d) && d.stage == s && Day(d.changed) <= Day(now) - InactiveDays(s)
  }

  function Announced(d: Domain, s: Stage, now: int): Domain
    requires s == Fresh || s == Notified
  {
    if IsCandidate(d, s, now) then d.(stage := NextStage(s), changed := now) else d
  }

  predicate IsExpired(d: Domain, now: int) {
    && InScope(d) && d.stage == Warned && Day(d.changed) <= Day(now) - NOTICE_DAYS_WARN
    && LastActive(d).Some? && Day(LastActive(d).value) <= Day(now) - (FRESH_DAYS + NOTICE_DAYS_NOTIFY)
  }

  // ---------------------------------------------------------------------------------------------------------------
  // The steps in days, by the times that a domain has
  // ---------------------------------------------------------------------------------------------------------------

  lemma DayIs(t: int, k: int)
    ensures Day(t) == k <==> 86400 * k <= t < 86400 * (k + 1)
  {
  }

  /** The time is known, at most 183 days ago, and after the last change. */
  predicate IsRecent(time: Option<int>, changed: int, now: int) {
    time.Some? && Day(time.value) >= Day(now) - 183 && changed < time.value
  }

  /** The time is unknown or at least 211 days ago. */
  predicate IsLongAgo(time: Option<int>, now: int) {
    time.None? || Day(time.value) <= Day(now) - 211
  }

  /** The domain was last active at this time: one of the two times, and none is later. */
  predicate LastActiveAt(d: Domain, time: int) {
    && (d.touched == Some(time) || d.published == Some(time))
    && (d.touched.Some? ==> d.touched.value <= time) && (d.published.Some? ==> d.published.value <= time)
  }

  /** A domain in scope is renewed if and only if it was touched or published recently; it becomes FRESH, and the greater of
      the times becomes the time of the renewal. */
  lemma RenewedIff(d: Domain, now: int)
    ensures var after := Renewed(d, now);
            if d.stage != Immortal && d.ownerActive && (IsRecent(d.touched, d.changed, now) || IsRecent(d.published, d.changed, now))
            then LastActiveAt(d, after.changed) && after == d.(stage := Fresh, changed := after.changed)
            else after == d
  {
    if d.touched.Some? && d.published.Some? {
      DayMonotone(d.touched.value, d.published.value);
      DayMonotone(d.published.value, d.touched.value);
    }
  }

  /** A FRESH domain is notified after 183 days without change, a NOTIFIED one warned after 21; the deletion dates are 28 and 7
      days ahead. */
  lemma AnnouncedIff(d: Domain, now: int)
    ensures Announced(d, Fresh, now)
         == if d.ownerActive && d.stage == Fresh && Day(d.changed) <= Day(now) - 183
            then d.(stage := Notified, changed := now) else d
    ensures Announced(d, Notified, now)
         == if d.ownerActive && d.stage == Notified && Day(d.changed) <= Day(now) - 21
            then d.(stage := Warned, changed := now) else d
    ensures NoticeDays(Fresh) == 28 && NoticeDays(Notified) == 7
  {
  }

  /** A domain is expired if and only if it was warned at least 7 days ago, has at least one of the two times, and each that it
      has is at least 211 days ago. */
  lemma ExpiredIff(d: Domain, now: int)
    ensures IsExpired(d, now)
       <==> (&& d.ownerActive && d.stage == Warned && Day(d.changed) <= Day(now) - 7
             && (d.touched.Some? || d.published.Some?) && IsLongAgo(d.touched, now) && IsLongAgo(d.published, now))
  {
    if d.touched.Some? && d.published.Some? {
      DayMonotone(d.touched.value, d.published.value);
      DayMonotone(d.published.value, d.touched.value);
    }
  }

  /** A domain that was recently touched or published when a job of less than four weeks began is not deleted by it. */
  lemma RecentlyActiveSurvives(d: Domain, t1: int, t2: int, t3: int, t4: int)
    requires t1 <= t2 <= t3 <= t4 && Day(t4) - Day(t1) < 28
    requires d.stage != Immortal && d.ownerActive
    requires IsRecent(d.touched, d.changed, t1) || IsRecent(d.published, d.changed, t1)
    ensures Renewed(d, t1).stage == Fresh
    ensures !IsExpired(Announced(Announced(Renewed(d, t1), Fresh, t2), Notified, t3), t4)
  {
    hide Renewed, Announced, IsExpired, Day;
    var renewed := Renewed(d, t1);
    RenewedIff(d, t1);
    AnnouncedIff(renewed, t2);
    AnnouncedIff(Announced(renewed, Fresh, t2), t3);
    ExpiredIff(Announced(Announced(renewed, Fresh, t2), Notified, t3), t4);
  }

  /** A job that takes less than a week advances a domain by at most one stage, deletion included: a domain that the job
      deletes had been WARNED before it began. */
  lemma OneStagePerJob(d: Domain, t1: int, t2: int, t3: int, t4: int)
    requires t1 <= t2 <= t3 <= t4 && Day(t4) - Day(t1) < NOTICE_DAYS_WARN
    ensures var after := Announced(Announced(Renewed(d, t1), Fresh, t2), Notified, t3);
            && (after.stage == Warned ==> d.stage == Warned || d.stage == Notified)
            && (after.stage == Immortal <==> d.stage == Immortal)
            && (IsExpired(after, t4) ==> after == d)
  {
    DayMonotone(t1, t2);
    DayMonotone(t2, t3);
    DayMonotone(t3, t4);
  }

  // ---------------------------------------------------------------------------------------------------------------
  // Runs
  // ---------------------------------------------------------------------------------------------------------------

  /** A mailed announcement: when, and the deletion date it gives. */
  datatype Notice = Notice(at: int, deletionDate: int)

  /** A domain with what has happened since it last became FRESH: when that was, the `renewal_changed` it got, and the
      announcements since. */
  datatype Entry = Entry(domain: Domain, freshSince: int, freshChanged: int, notices: seq<Notice>)

  /** The state that a renewal link is bound to.  The state hash is injective, so the link carries the state itself. */
  datatype Link = Link(id: nat, owner: nat, changed: int)

  /** `Touch` stands for a change that makes the latest touch of the domain's RRsets now; `DropRRset` for the loss of an
      RRset, which may leave an earlier latest touch or none; `Announce` for a step of the job that
      reached these users, `DeleteExpired` for one that reached these domains. */
  datatype Event =
    | Create(id: nat, owner: nat, locallyRegistrable: bool)
    | Touch(id: nat)
    | DropRRset(id: nat, remaining: Option<int>)
    | Publish(id: nat)
    | SetOwnerActive(id: nat, active: bool)
    | RenewTouched
    | Announce(stage: Stage, mailed: set<nat>)
    | DeleteExpired(reached: set<nat>)
    | Remove(id: nat)
    | Confirm(link: Link)

  datatype Timed = Timed(at: int, event: Event)

  /** All domains by id, and the ids ever used; an id is not used again. */
  datatype World = World(entries: map<nat, Entry>, used: set<nat>)

  predicate LinkValid(w: World, link: Link) {
    link.id in w.entries && w.entries[link.id].domain.owner == link.owner && w.entries[link.id].domain.changed == link.changed
  }

  predicate Enabled(w: World, e: Event) {
    match e
    case Create(id, _, _) => id !in w.used
    case Touch(id) => id in w.entries
    case DropRRset(id, remaining) =>
      && id in w.entries
      && (remaining.Some? ==> w.entries[id].domain.touched.Some? && remaining.value <= w.entries[id].domain.touched.value)
    case Publish(id) => id in w.entries
    case SetOwnerActive(id, _) => id in w.entries
    case Announce(s, _) => s == Fresh || s == Notified
    case Remove(id) => id in w.entries
    case Confirm(link) => LinkValid(w, link) && w.entries[link.id].domain.ownerActive
    case _ => true
  }

  /** The entry of an existing domain after an event that does not remove it. */
  function EntryAfter(n: Entry, id: nat, e: Event, now: int): Entry {
    var d := n.domain;
    match e
    case Touch(i) => if i == id then n.(domain := d.(touched := Some(now))) else n
    case DropRRset(i, remaining) => if i == id then n.(domain := d.(touched := remaining)) else n
    case Publish(i) => if i == id then n.(domain := d.(published := Some(now))) else n
    case SetOwnerActive(i, active) => if i == id then n.(domain := d.(ownerActive := active)) else n
    case RenewTouched =>
      if RecentlyActive(d, now) then Entry(Renewed(d, now), now, LastActive(d).value, []) else n
    case Announce(s, mailed) =>
      if (s == Fresh || s == Notified) && IsCandidate(d, s, now) && d.owner in mailed
      then n.(domain := Announced(d, s, now), notices := n.notices + [Notice(now, Day(now) + NoticeDays(s))]) else n
    case Confirm(link) => if link.id == id then Entry(d.(stage := Fresh, changed := now), now, now, []) else n
    case _ => n
  }

  predicate Removes(n: Entry, id: nat, e: Event, now: int) {
    (e == Remove(id)) || (e.DeleteExpired? && id in e.reached && IsExpired(n.domain, now))
  }

  function After(w: World, e: Event, now: int): World {
    match e
    case Create(id, owner, local) =>
      var d := Domain(owner, true, if local then Fresh else Immortal, now, None, None);
      World(w.entries[id := Entry(d, now, now, [])], w.used + {id})
    case _ =>
      w.(entries := map id | id in w.entries && !Removes(w.entries[id], id, e, now)
                      :: EntryAfter(w.entries[id], id, e, now))
  }

  /** Events that are not possible change nothing. */
  function Run(evs: seq<Timed>): World {
    if evs == [] then World(map[], {})
    else
      var w := Run(evs[..|evs|-1]);
      if Enabled(w, evs[|evs|-1].event) then After(w, evs[|evs|-1].event, evs[|evs|-1].at) else w
  }

  /** What an event, if it is possible, makes of a domain with this id. */
  predicate Becomes(d: Domain, after: Domain, id: nat, e: Event, now: int) {
    match e
    case Touch(i) => after == if i == id then d.(touched := Some(now)) else d
    case DropRRset(i, remaining) =>
      if i == id && (remaining.Some? ==> d.touched.Some? && remaining.value <= d.touched.value)
      then after == d.(touched := remaining) else after == d
    case Publish(i) => after == if i == id then d.(published := Some(now)) else d
    case SetOwnerActive(i, active) => after == if i == id then d.(ownerActive := active) else d
    case RenewTouched => after == Renewed(d, now)
    case Announce(s, mailed) =>
      if (s == Fresh || s == Notified) && d.owner in mailed then after == Announced(d, s, now) else after == d
    case Confirm(link) =>
      if link == Link(id, d.owner, d.changed) && d.ownerActive then after == d.(stage := Fresh, changed := now)
      else after == d
    case _ => after == d
  }

  /** What becomes of a domain that exists: it goes if it is removed, or deleted when expired, and else the event says. */
  lemma EventSteps(evs: seq<Timed>, id: nat, e: Event, now: int)
    requires id in Run(evs).entries
    ensures var d, after := Run(evs).entries[id].domain, Run(evs + [Timed(now, e)]).entries;
            && (id in after <==> e != Remove(id) && !(e.DeleteExpired? && id in e.reached && IsExpired(d, now)))
            && (id in after ==> Becomes(d, after[id].domain, id, e, now))
  {
    hide RecentlyActive, IsCandidate, IsExpired, Run;
    UsedIds(evs);
    OneMore(evs, Timed(now, e));
  }

  lemma OneMore(evs: seq<Timed>, t: Timed)
    ensures Run(evs + [t]) == if Enabled(Run(evs), t.event) then After(Run(evs), t.event, t.at) else Run(evs)
  {
    assert (evs + [t])[..|evs|] == evs;
  }

  lemma {:induction false} UsedIds(evs: seq<Timed>)
    ensures Run(evs).entries.Keys <= Run(evs).used
  {
    if evs != [] {
      UsedIds(evs[..|evs|-1]);
    }
  }

  /** A new domain is FRESH if it is locally registrable and IMMORTAL otherwise.  It is created if and only if its id was
      never used. */
  lemma CreationStep(evs: seq<Timed>, id: nat, e: Event, now: int)
    requires id !in Run(evs).entries
    ensures var w, w' := Run(evs), Run(evs + [Timed(now, e)]);
            && (id in w'.entries <==> e.Create? && e.id == id && id !in w.used)
            && (id in w'.entries ==>
                  w'.entries[id].domain == Domain(e.owner, true, if e.locallyRegistrable then Fresh else Immortal, now, None, None))
            && (id in w'.used <==> id in w.used || (e.Create? && e.id == id))
  {
    hide Run, EntryAfter, Removes;
    OneMore(evs, Timed(now, e));
  }

  ghost predicate Clocked(evs: seq<Timed>) {
    forall i, j :: 0 <= i < j < |evs| ==> evs[i].at <= evs[j].at
  }

  ghost predicate StrictlyClocked(evs: seq<Timed>) {
    forall i, j :: 0 <= i < j < |evs| ==> evs[i].at < evs[j].at
  }

  /** The stage, the time of the last change, and the announcements made since the domain was last FRESH fit together. */
  ghost predicate Consistent(n: Entry, clock: int) {
    var d, k := n.domain, n.notices;
    && d.changed <= clock && n.freshSince <= clock && n.freshChanged <= n.freshSince
    && (d.touched.Some? ==> d.touched.value <= clock) && (d.published.Some? ==> d.published.value <= clock)
    && Day(n.freshChanged) >= Day(n.freshSince) - FRESH_DAYS
    && (d.stage == Fresh || d.stage == Immortal ==> k == [] && d.changed == n.freshChanged)
    && (d.stage == Notified || d.stage == Warned ==>
          && k != [] && Day(k[0].at) >= Day(n.freshChanged) + FRESH_DAYS
          && k[0].deletionDate == Day(k[0].at) + NOTICE_DAYS_NOTIFY)
    && (d.stage == Notified ==> |k| == 1 && d.changed == k[0].at)
    && (d.stage == Warned ==>
          && |k| == 2 && d.changed == k[1].at && k[1].deletionDate == Day(k[1].at) + NOTICE_DAYS_WARN
          && Day(k[1].at) >= Day(k[0].at) + NOTICE_DAYS_NOTIFY - NOTICE_DAYS_WARN)
  }

  lemma EntryStaysConsistent(n: Entry, id: nat, e: Event, clock: int, now: int)
    requires Consistent(n, clock) && clock <= now
    requires (e.DropRRset? && e.id == id && e.remaining.Some?
              ==> n.domain.touched.Some? && e.remaining.value <= n.domain.touched.value)
    ensures Consistent(EntryAfter(n, id, e, now), now)
  {
    hide IsExpired;
    DayMonotone(clock, now);
  }

  function LastTime(evs: seq<Timed>): int {
    if evs == [] then 0 else evs[|evs|-1].at
  }

  lemma {:induction false} RunConsistent(evs: seq<Timed>)
    requires Clocked(evs)
    ensures Run(evs).entries.Keys <= Run(evs).used
    ensures forall id :: id in Run(evs).entries ==> Consistent(Run(evs).entries[id], LastTime(evs))
  {
    if evs != [] {
      var init, now := evs[..|evs|-1], evs[|evs|-1].at;
      RunConsistent(init);
      var w, e := Run(init), evs[|evs|-1].event;
      assert init != [] ==> LastTime(init) == evs[|evs|-2].at <= now;
      forall id | id in w.entries
        ensures (Enabled(w, e) ==> Consistent(EntryAfter(w.entries[id], id, e, now), now)) && Consistent(w.entries[id], now)
      {
        if Enabled(w, e) {
          EntryStaysConsistent(w.entries[id], id, e, LastTime(init), now);
        }
        DayMonotone(LastTime(init), now);
      }
    }
  }

  /** The promise on deletion.  Over every run, a domain that the job deletes has been announced exactly twice since it
      was last FRESH and both announced deletion dates have come; it has been inactive for 211 days; its last renewal
      counts from at least 211 days ago; and it became FRESH at least 28 days ago. */
  lemma DeletionPromise(evs: seq<Timed>, id: nat, now: int)
    requires Clocked(evs) && (evs != [] ==> LastTime(evs) <= now)
    requires id in Run(evs).entries && IsExpired(Run(evs).entries[id].domain, now)
    ensures var n := Run(evs).entries[id];
            && |n.notices| == 2 && (forall k :: k in n.notices ==> k.deletionDate <= Day(now))
            && (n.domain.touched.Some? || n.domain.published.Some?)
            && IsLongAgo(n.domain.touched, now) && IsLongAgo(n.domain.published, now)
            && Day(n.freshChanged) <= Day(now) - 211
            && Day(n.freshSince) <= Day(now) - 28
  {
    hide Run, Clocked;
    RunConsistent(evs);
    var n := Run(evs).entries[id];
    assert Consistent(n, LastTime(evs));
    ExpiredIff(n.domain, now);
  }

  // ---------------------------------------------------------------------------------------------------------------
  // The time of the last change, and renewal links
  // ---------------------------------------------------------------------------------------------------------------

  lemma RunStep(evs: seq<Timed>, j: nat)
    requires j < |evs|
    ensures var w := Run(evs[..j]);
            Run(evs[..j+1]) == if Enabled(w, evs[j].event) then After(w, evs[j].event, evs[j].at) else w
  {
    assert evs[..j+1][..j] == evs[..j];
  }

  lemma ClockedPrefix(evs: seq<Timed>, j: nat)
    requires Clocked(evs) && j <= |evs|
    ensures Clocked(evs[..j]) && (j < |evs| && j > 0 ==> LastTime(evs[..j]) <= evs[j].at)
  {
  }

  /** As long as a domain exists its owner stays the same and `renewal_changed` never decreases; and a domain that is gone
      does not come back. */
  lemma {:induction false} ChangedMonotone(evs: seq<Timed>, i: nat, j: nat, id: nat)
    requires Clocked(evs) && i <= j <= |evs| && id in Run(evs[..i]).used
    ensures id in Run(evs[..j]).used
    ensures id in Run(evs[..j]).entries ==>
              && id in Run(evs[..i]).entries
              && Run(evs[..i]).entries[id].domain.owner == Run(evs[..j]).entries[id].domain.owner
              && Run(evs[..i]).entries[id].domain.changed <= Run(evs[..j]).entries[id].domain.changed
    decreases j - i
  {
    hide Run, Clocked, Consistent, EntryAfter, Removes;
    if i < j {
      ChangedMonotone(evs, i, j - 1, id);
      RunStep(evs, j - 1);
      ClockedPrefix(evs, j - 1);
      RunConsistent(evs[..j-1]);
      var w := Run(evs[..j-1]);
      if id in w.entries {
        if j == 1 {
          NotEmpty(evs[..j-1], id);
        }
        StepKeepsOrder(w.entries[id], id, evs[j-1].event, LastTime(evs[..j-1]), evs[j-1].at);
      }
    }
  }

  lemma StepKeepsOrder(n: Entry, id: nat, e: Event, clock: int, now: int)
    requires Consistent(n, clock) && clock <= now
    ensures EntryAfter(n, id, e, now).domain.owner == n.domain.owner
    ensures n.domain.changed <= EntryAfter(n, id, e, now).domain.changed
  {
  }

  /** A link that has stopped working does not work again. */
  lemma LinkNeverRevives(evs: seq<Timed>, i: nat, j: nat, l: nat, link: Link)
    requires Clocked(evs) && i <= j <= l <= |evs|
    requires LinkValid(Run(evs[..i]), link) && !LinkValid(Run(evs[..j]), link)
    ensures !LinkValid(Run(evs[..l]), link)
  {
    ClockedPrefix(evs, i);
    RunConsistent(evs[..i]);
    ChangedMonotone(evs, i, j, link.id);
    ChangedMonotone(evs, j, l, link.id);
  }

  /** The event moves the domain to another stage or makes it FRESH. */
  predicate Moves(n: Entry, id: nat, e: Event, now: int) {
    || (e == RenewTouched && RecentlyActive(n.domain, now))
    || (e.Announce? && (e.stage == Fresh || e.stage == Notified) && IsCandidate(n.domain, e.stage, now)
        && n.domain.owner in e.mailed)
    || (e.Confirm? && e.link.id == id)
  }

  /** With a strict clock, each renewal link works at most once, and never after a later announcement or renewal of its
      domain: if the link is valid at some point and the next event moves the domain, it is invalid ever after. */
  lemma LinkDiesWithMove(evs: seq<Timed>, i: nat, l: nat, link: Link)
    requires StrictlyClocked(evs) && i < l <= |evs|
    requires LinkValid(Run(evs[..i]), link) && Enabled(Run(evs[..i]), evs[i].event)
    requires Moves(Run(evs[..i]).entries[link.id], link.id, evs[i].event, evs[i].at)
    ensures !LinkValid(Run(evs[..l]), link)
  {
    ClockedPrefix(evs, i);
    RunConsistent(evs[..i]);
    RunStep(evs, i);
    var n := Run(evs[..i]).entries[link.id];
    assert Consistent(n, LastTime(evs[..i]));
    assert i > 0 by {
      assert Run([]).entries == map[];
      assert evs[..0] == [];
    }
    assert LastTime(evs[..i]) == evs[i-1].at < evs[i].at;
    LinkNeverRevives(evs, i, i + 1, l, link);
  }

  // ---------------------------------------------------------------------------------------------------------------
  // 211 days after the renewal
  // ---------------------------------------------------------------------------------------------------------------

  /** However the run goes on, the domain is not deleted until 211 days after now. */
  ghost predicate KeepsFullTerm(evs: seq<Timed>, id: nat) {
    forall more: seq<Timed>, now: int ::
      Clocked(evs + more) && LastTime(evs + more) <= now
      && id in Run(evs + more).entries && IsExpired(Run(evs + more).entries[id].domain, now)
      ==> Day(now) >= Day(LastTime(evs)) + 211
  }

  /** The recorded time of the last renewal never decreases either. */
  lemma {:induction false} FreshChangedMonotone(evs: seq<Timed>, i: nat, j: nat, id: nat)
    requires Clocked(evs) && i <= j <= |evs| && id in Run(evs[..i]).entries && id in Run(evs[..j]).entries
    ensures Run(evs[..i]).entries[id].freshChanged <= Run(evs[..j]).entries[id].freshChanged
    decreases j - i
  {
    hide Clocked, Consistent, IsExpired;
    if i < j {
      ClockedPrefix(evs, i);
      ClockedPrefix(evs, j - 1);
      RunConsistent(evs[..i]);
      RunConsistent(evs[..j-1]);
      ChangedMonotone(evs, i, j - 1, id);
      RunStep(evs, j - 1);
      FreshChangedMonotone(evs, i, j - 1, id);
      StepKeepsFreshChanged(Run(evs[..j-1]).entries[id], id, evs[j-1].event, LastTime(evs[..j-1]), evs[j-1].at);
    }
  }

  lemma StepKeepsFreshChanged(n: Entry, id: nat, e: Event, clock: int, now: int)
    requires Consistent(n, clock) && clock <= now
    ensures n.freshChanged <= EntryAfter(n, id, e, now).freshChanged
  {
    var d, k := n.domain, n.notices;
    assert n.freshChanged <= d.changed by {
      if d.stage == Notified || d.stage == Warned {
        DayMonotone(k[0].at, n.freshChanged);
        DayMonotone(d.changed, k[0].at);
      }
    }
  }

  lemma FullTermIfRecordedNow(evs: seq<Timed>, id: nat)
    requires Clocked(evs) && id in Run(evs).entries
    requires Day(Run(evs).entries[id].freshChanged) == Day(LastTime(evs))
    ensures KeepsFullTerm(evs, id)
  {
    hide Run, Clocked, IsExpired;
    forall more: seq<Timed>, now: int
      | Clocked(evs + more) && LastTime(evs + more) <= now
        && id in Run(evs + more).entries && IsExpired(Run(evs + more).entries[id].domain, now)
      ensures Day(now) >= Day(LastTime(evs)) + 211
    {
      var all := evs + more;
      assert all[..|evs|] == evs && all[..|all|] == all;
      FreshChangedMonotone(all, |evs|, |all|, id);
      DayMonotone(Run(evs).entries[id].freshChanged, Run(all).entries[id].freshChanged);
      DeletionPromise(all, id, now);
    }
  }

  function EarliestNotice(last: int, changed: int): int {
    var full := changed + FRESH_DAYS * 86400;
    if last > full then last else full
  }

  /** The two announcements that a domain gets as early as possible when nothing else happens. */
  function Announcements(last: int, changed: int, owner: nat): seq<Timed> {
    var t := EarliestNotice(last, changed);
    [Timed(t, Announce(Fresh, {owner})), Timed(t + 1814400, Announce(Notified, {owner}))]
  }

  lemma EntryStep(evs: seq<Timed>, t: Timed, id: nat)
    requires id in Run(evs).entries && Enabled(Run(evs), t.event) && !t.event.Create?
    requires !Removes(Run(evs).entries[id], id, t.event, t.at)
    ensures id in Run(evs + [t]).entries
    ensures Run(evs + [t]).entries[id] == EntryAfter(Run(evs).entries[id], id, t.event, t.at)
  {
    assert (evs + [t])[..|evs|] == evs;
  }

  lemma ClockedExtends(evs: seq<Timed>, t: Timed)
    requires Clocked(evs) && (evs != [] ==> LastTime(evs) <= t.at)
    ensures Clocked(evs + [t]) && LastTime(evs + [t]) == t.at
  {
    var all := evs + [t];
    forall i, j | 0 <= i < j < |all| ensures all[i].at <= all[j].at {
      assert evs != [] && (i < |evs| - 1 ==> evs[i].at <= evs[|evs|-1].at);
    }
  }

  /** A FRESH domain without activity since the renewal can be deleted 211 days after the recorded renewal. */
  lemma DeletedAfterSilence(evs: seq<Timed>, id: nat)
    requires Clocked(evs) && evs != [] && id in Run(evs).entries
    requires var d := Run(evs).entries[id].domain;
             && InScope(d) && d.stage == Fresh && LastActive(d) == Some(d.changed)
             && Day(LastTime(evs)) <= Day(d.changed) + FRESH_DAYS
    ensures var changed := Run(evs).entries[id].domain.changed;
            var all := evs + Announcements(LastTime(evs), changed, Run(evs).entries[id].domain.owner);
            var now := EarliestNotice(LastTime(evs), changed) + 2419200;
            && Clocked(all) && LastTime(all) <= now && id in Run(all).entries
            && IsExpired(Run(all).entries[id].domain, now) && Day(now) == Day(changed) + 211
  {
    hide Run, Clocked;
    var d := Run(evs).entries[id].domain;
    var t := EarliestNotice(LastTime(evs), d.changed);
    assert Day(t) == Day(d.changed) + FRESH_DAYS;
    assert Day(t + 1814400) == Day(t) + 21 && Day(t + 2419200) == Day(t) + 28;
    var first, second := Timed(t, Announce(Fresh, {d.owner})), Timed(t + 1814400, Announce(Notified, {d.owner}));
    ClockedExtends(evs, first);
    EntryStep(evs, first, id);
    ClockedExtends(evs + [first], second);
    EntryStep(evs + [first], second, id);
    assert evs + [first] + [second] == evs + Announcements(LastTime(evs), d.changed, d.owner);
  }

  lemma NotEmpty(evs: seq<Timed>, id: nat)
    requires id in Run(evs).entries
    ensures evs != []
  {
  }

  /** When the job renews a domain, the 211 days count from the job if and only if the last activity was on the same day:
      the job records the time of the activity as the time of the renewal. */
  lemma FullTermIff(evs: seq<Timed>, at: int, id: nat)
    requires Clocked(evs + [Timed(at, RenewTouched)]) && id in Run(evs).entries
    requires RecentlyActive(Run(evs).entries[id].domain, at)
    ensures KeepsFullTerm(evs + [Timed(at, RenewTouched)], id)
            <==> Day(LastActive(Run(evs).entries[id].domain).value) == Day(at)
  {
    hide Run, Clocked, IsExpired, Announcements, EarliestNotice;
    var t := Timed(at, RenewTouched);
    var all := evs + [t];
    var n := Run(evs).entries[id];
    var active := LastActive(n.domain).value;
    EntryStep(evs, t, id);
    assert all[..|evs|] == evs;
    ClockedPrefix(all, |evs|);
    RunConsistent(evs);
    assert active <= at by {
      assert Consistent(n, LastTime(evs));
      NotEmpty(evs, id);
    }
    DayMonotone(active, at);
    if Day(active) == Day(at) {
      FullTermIfRecordedNow(all, id);
    } else {
      DeletedAfterSilence(all, id);
    }
  }

  /** So a domain can be deleted less than 211 days after the job that renewed it, here 183 days after its only activity. */
  lemma FreshForLessThan211Days()
    ensures var evs := [Timed(0, Create(1, 7, true)), Timed(86400, Touch(1)), Timed(15897600, RenewTouched)];
            Clocked(evs) && 1 in Run(evs).entries && !KeepsFullTerm(evs, 1)
  {
    hide Run, KeepsFullTerm;
    var created, touched := Timed(0, Create(1, 7, true)), Timed(86400, Touch(1));
    FirstDomain(created, 1, 7);
    EntryStep([created], touched, 1);
    var evs := [created, touched];
    assert [created] + [touched] == evs;
    EntryStep(evs, Timed(15897600, RenewTouched), 1);
    assert evs + [Timed(15897600, RenewTouched)] == [created, touched, Timed(15897600, RenewTouched)];
    FullTermIff(evs, 15897600, 1);
  }

  lemma FirstDomain(t: Timed, id: nat, owner: nat)
    requires t == Timed(0, Create(id, owner, true))
    ensures id in Run([t]).entries
    ensures Run([t]).entries[id] == Entry(Domain(owner, true, Fresh, 0, None, None), 0, 0, [])
  {
    assert [t][..0] == [];
    assert Run([]) == World(map[], {});
  }
}
