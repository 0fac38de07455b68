/** The scavenger's job on the stored domains: the steps of `Renewal` for all domains at once, one mail per user, and the
    run that a job adds to the history. */
module Scavenger {
  import opened Renewal

  datatype Mail = Mail(user: nat, links: seq<Link>, deletionDate: int)

  type Domains = map<nat, Domain>

  predicate Candidate(domains: Domains, stage: Stage, now: int, id: nat) {
    id in domains && IsCandidate(domains[id], stage, now)
  }

  /** The domains by owner: each of `ids` is listed once, at its owner, and each listed owner has one. */
  ghost predicate Groups(groups: map<nat, seq<nat>>, domains: Domains, ids: set<nat>) {
    && ids <= domains.Keys
    && (forall u :: u in groups ==> groups[u] != [] && Distinct(groups[u]))
    && (forall u, id :: u in groups && id in groups[u] ==> id in ids && domains[id].owner == u)
    && (forall id :: id in ids ==> domains[id].owner in groups && id in groups[domains[id].owner])
  }

  ghost predicate Distinct<T(!new)>(s: seq<T>) {
    forall i, j :: 0 <= i < j < |s| ==> s[i] != s[j]
  }

  function Users(mails: seq<Mail>): set<nat> {
    set m | m in mails :: m.user
  }

  /** The mail tells the user of each of their candidates, with a link that is valid once the domain has advanced. */
  ghost predicate Tells(m: Mail, domains: Domains, stage: Stage, now: int) {
    && m.deletionDate == Day(now) + NoticeDays(stage)
    && m.links != [] && Distinct(m.links)
    && (forall link :: link in m.links ==> Candidate(domains, stage, now, link.id) && link == Link(link.id, m.user, now))
    && (forall id :: Candidate(domains, stage, now, id) ==> (domains[id].owner == m.user <==> Link(id, m.user, now) in m.links))
  }

  function AnnouncedTo(domains: Domains, stage: Stage, now: int, mailed: set<nat>): Domains
    requires stage == Fresh || stage == Notified
  {
    map id | id in domains :: if domains[id].owner in mailed then Announced(domains[id], stage, now) else domains[id]
  }

  function RenewedAll(domains: Domains, now: int): Domains {
    map id | id in domains :: Renewed(domains[id], now)
  }

  function ExpiredIds(domains: Domains, now: int): set<nat> {
    set id | id in domains && IsExpired(domains[id], now)
  }

  /** The users that are left without a domain when these domains are gone. */
  ghost predicate Orphaned(domains: Domains, gone: set<nat>, user: nat) {
    && (exists id :: id in gone && id in domains && domains[id].owner == user)
    && (forall id :: id in domains && id !in gone ==> domains[id].owner != user)
  }

  /** Listing one more domain at its owner. */
  lemma AddToGroup(groups: map<nat, seq<nat>>, domains: Domains, ids: set<nat>, id: nat)
    requires Groups(groups, domains, ids) && id in domains && id !in ids
    ensures var owner := domains[id].owner;
            Groups(groups[owner := (if owner in groups then groups[owner] else []) + [id]], domains, ids + {id})
  {
    var owner := domains[id].owner;
    var group := if owner in groups then groups[owner] else [];
    var after := groups[owner := group + [id]];
    assert id !in group;
    assert Distinct(group + [id]);
    forall u, i | u in after && i in after[u] ensures i in ids + {id} && domains[i].owner == u {
      assert u == owner ==> i in group || i == id;
    }
    forall i | i in ids + {id} ensures domains[i].owner in after && i in after[domains[i].owner] {
      assert i in ids && domains[i].owner == owner ==> i in group;
    }
    forall u | u in after ensures after[u] != [] && Distinct(after[u]) {
    }
  }

  lemma UsersAppend(mails: seq<Mail>, m: Mail)
    ensures Users(mails + [m]) == Users(mails) + {m.user}
  {
    forall u | u in Users(mails) + {m.user} ensures u in Users(mails + [m]) {
      if u == m.user {
        assert m in mails + [m];
      } else {
        var other :| other in mails && other.user == u;
        assert other in mails + [m];
      }
    }
  }

  lemma GroupTold(groups: map<nat, seq<nat>>, domains: Domains, ids: set<nat>, m: Mail, stage: Stage, now: int)
    requires Groups(groups, domains, ids) && m.user in groups
    requires forall id :: id in ids <==> Candidate(domains, stage, now, id)
    requires var group := groups[m.user];
             && m.links == seq(|group|, i requires 0 <= i < |group| => Link(group[i], m.user, now))
             && m.deletionDate == Day(now) + NoticeDays(stage)
    ensures Tells(m, domains, stage, now)
  {
    var group := groups[m.user];
    assert |m.links| == |group|;
    forall id | Candidate(domains, stage, now, id)
      ensures domains[id].owner == m.user <==> Link(id, m.user, now) in m.links
    {
      if domains[id].owner == m.user {
        var i :| 0 <= i < |group| && group[i] == id;
        assert m.links[i] == Link(id, m.user, now);
      }
    }
  }

  lemma NoOrphans(domains: Domains)
    ensures forall u :: !Orphaned(domains, {}, u)
  {
  }

  lemma NoMails(domains: Domains, stage: Stage, now: int)
    requires stage == Fresh || stage == Notified
    ensures Users([]) == {} && AnnouncedTo(domains, stage, now, {}) == domains
  {
  }

  /** Advancing one more group adds its owner to those who were told. */
  lemma GroupAdvances(groups: map<nat, seq<nat>>, domains: Domains, ids: set<nat>, user: nat, stage: Stage, now: int,
                      told: set<nat>)
    requires stage == Fresh || stage == Notified
    requires Groups(groups, domains, ids) && user in groups && user !in told
    requires forall id :: id in ids <==> Candidate(domains, stage, now, id)
    ensures var d := AnnouncedTo(domains, stage, now, told);
            && (forall id :: id in groups[user] ==> id in d && d[id].stage == stage)
            && AnnouncedTo(domains, stage, now, told + {user})
               == map id | id in d :: if id in groups[user] then d[id].(stage := NextStage(stage), changed := now) else d[id]
  {
    var d := AnnouncedTo(domains, stage, now, told);
    forall id | id in groups[user] ensures id in d && d[id].stage == stage && domains[id].owner == user {
      assert Candidate(domains, stage, now, id);
    }
    forall id | id in domains && domains[id].owner == user
      ensures id in groups[user] <==> IsCandidate(domains[id], stage, now)
    {
      assert Candidate(domains, stage, now, id) <==> IsCandidate(domains[id], stage, now);
    }
  }

  /** The users who keep a domain or had none before. */
  lemma LeftWithoutDomain(domains: Domains, gone: set<nat>)
    ensures forall user :: !Orphaned(domains, gone, user)
              <==> ((exists id :: id in domains - gone && domains[id].owner == user)
                    || forall id :: id in domains ==> domains[id].owner != user)
  {
  }

  lemma OrphanedStep(domains: Domains, gone: set<nat>, id: nat, user: nat)
    requires id in domains && id !in gone
    ensures Orphaned(domains, gone + {id}, user)
            <==> (Orphaned(domains, gone, user)
                  || (user == domains[id].owner
                      && forall other :: other in domains - (gone + {id}) ==> domains[other].owner != user))
  {
  }

  // ---------------------------------------------------------------------------------------------------------------
  // The steps of the job as events of a run
  // ---------------------------------------------------------------------------------------------------------------

  function DomainsOf(w: World): Domains {
    map id | id in w.entries :: w.entries[id].domain
  }

  /** Each step of the job on the stored domains is what the event of a run does. */
  lemma RenewalIsEvent(w: World, now: int)
    ensures DomainsOf(After(w, RenewTouched, now)) == RenewedAll(DomainsOf(w), now)
  {
    hide RecentlyActive;
  }

  lemma AnnouncementIsEvent(w: World, stage: Stage, now: int, mailed: set<nat>)
    requires stage == Fresh || stage == Notified
    ensures DomainsOf(After(w, Announce(stage, mailed), now)) == AnnouncedTo(DomainsOf(w), stage, now, mailed)
  {
    hide IsCandidate;
  }

  lemma DeletionIsEvent(w: World, now: int, reached: set<nat>)
    requires reached <= ExpiredIds(DomainsOf(w), now)
    ensures DomainsOf(After(w, DeleteExpired(reached), now)) == DomainsOf(w) - reached
  {
    hide IsExpired;
  }

  lemma RunExtends(evs: seq<Timed>, t: Timed)
    requires Enabled(Run(evs), t.event)
    ensures Run(evs + [t]) == After(Run(evs), t.event, t.at)
  {
    assert (evs + [t])[..|evs|] == evs;
  }

  /** Every mailed link is valid after the step, for domains that were candidates and belong to the mailed user. */
  lemma MailedLinksWork(evs: seq<Timed>, m: Mail, stage: Stage, now: int, mailed: set<nat>, link: Link)
    requires (stage == Fresh || stage == Notified) && m.user in mailed && link in m.links
    requires Tells(m, DomainsOf(Run(evs)), stage, now)
    ensures LinkValid(Run(evs + [Timed(now, Announce(stage, mailed))]), link)
  {
    RunExtends(evs, Timed(now, Announce(stage, mailed)));
    assert Candidate(DomainsOf(Run(evs)), stage, now, link.id);
  }

  /** The times at which the four steps of a job look at the clock. */
  datatype Clock = Clock(renew: int, notify: int, warn: int, delete: int)

  function JobEvents(t: Clock, notified: set<nat>, warned: set<nat>, deleted: set<nat>): (job: seq<Timed>)
    ensures |job| == 4
  {
    [Timed(t.renew, RenewTouched), Timed(t.notify, Announce(Fresh, notified)), Timed(t.warn, Announce(Notified, warned)),
     Timed(t.delete, DeleteExpired(deleted))]
  }

  /** What the domains that the job deletes have been promised, told by the run up to the deletion. */
  ghost predicate PromisesKept(before: seq<Timed>, now: int, deleted: set<nat>) {
    forall id :: id in deleted ==>
      && id in Run(before).entries
      && |Run(before).entries[id].notices| == 2
      && forall n :: n in Run(before).entries[id].notices ==> n.deletionDate <= Day(now)
  }

  lemma EventExtends(evs: seq<Timed>, t: Timed)
    requires t.event == RenewTouched || t.event.DeleteExpired?
             || (t.event.Announce? && (t.event.stage == Fresh || t.event.stage == Notified))
    ensures DomainsOf(Run(evs + [t])) == DomainsOf(After(Run(evs), t.event, t.at))
  {
    RunExtends(evs, t);
  }

  lemma JobPrefixes(evs: seq<Timed>, t: Clock, notified: set<nat>, warned: set<nat>, deleted: set<nat>)
    ensures var job := JobEvents(t, notified, warned, deleted);
            && evs + job[..2] == evs + [Timed(t.renew, RenewTouched)] + [Timed(t.notify, Announce(Fresh, notified))]
            && evs + job[..3] == evs + job[..2] + [Timed(t.warn, Announce(Notified, warned))]
            && evs + job[..4] == evs + job[..3] + [Timed(t.delete, DeleteExpired(deleted))]
            && job[..4] == job && job[3].at == t.delete
  {
  }

  lemma Promised(evs: seq<Timed>, job: seq<Timed>, deleted: set<nat>)
    requires |job| == 4
    requires deleted <= ExpiredIds(DomainsOf(Run(evs + job[..3])), job[3].at)
    ensures Clocked(evs + job) ==> PromisesKept(evs + job[..3], job[3].at, deleted)
  {
    var all, before := evs + job, evs + job[..3];
    assert all[..|evs|+3] == before;
    if Clocked(all) {
      ClockedPrefix(all, |evs| + 3);
      forall id | id in deleted
        ensures var n := Run(before).entries[id];
                |n.notices| == 2 && forall k :: k in n.notices ==> k.deletionDate <= Day(job[3].at)
      {
        DeletionPromise(before, id, job[3].at);
      }
    }
  }

  class Command {
    var domains: Domains
    var users: set<nat>

    constructor (domains: Domains, users: set<nat>)
      ensures this.domains == domains && this.users == users
    {
      this.domains := domains;
      this.users := users;
    }

    method RenewTouchedDomains(now: int)
      modifies this`domains
      ensures domains == RenewedAll(old(domains), now)
    {
      domains := map id | id in domains
          :: if RecentlyActive(domains[id], now) then domains[id].(stage := Fresh, changed := LastActive(domains[id]).value)
             else domains[id];
    }

    method GroupByUser(ids: set<nat>) returns (groups: map<nat, seq<nat>>)
      requires ids <= domains.Keys
      ensures Groups(groups, domains, ids)
    {
      groups := map[];
      assert Groups(groups, domains, {}) && ids - ids == {};
      hide Groups;
      var todo := ids;
      while todo != {}
        invariant todo <= ids
        invariant Groups(groups, domains, ids - todo)
        decreases todo
      {
        var id :| id in todo;
        var owner := domains[id].owner;
        AddToGroup(groups, domains, ids - todo, id);
        assert ids - (todo - {id}) == ids - todo + {id};
        if owner !in groups {
          groups := groups[owner := []];
        }
        groups := groups[owner := groups[owner] + [id]];
        todo := todo - {id};
      }
      assert ids - todo == ids;
    }

    /** Mails the users in `bouncing` fail.  A failure undoes the changes to the user's domains and ends the step. */
    method WarnDomainDeletion(stage: Stage, now: int, bouncing: set<nat>) returns (mails: seq<Mail>, ok: bool)
      requires stage == Fresh || stage == Notified
      modifies this`domains
      ensures domains == AnnouncedTo(old(domains), stage, now, Users(mails))
      ensures forall i, j :: 0 <= i < j < |mails| ==> mails[i].user != mails[j].user
      ensures forall m :: m in mails ==> Tells(m, old(domains), stage, now) && m.user !in bouncing
      ensures ok || exists id :: Candidate(old(domains), stage, now, id) && old(domains)[id].owner in bouncing
      ensures ok <==> forall id :: Candidate(old(domains), stage, now, id) ==> old(domains)[id].owner in Users(mails)
    {
      hide Tells, AnnouncedTo, IsCandidate;
      var candidates := set id | id in domains && IsCandidate(domains[id], stage, now);
      var groups := GroupByUser(candidates);
      var todo := groups.Keys;
      mails, ok := [], true;
      NoMails(domains, stage, now);
      while todo != {}
        invariant todo <= groups.Keys && Users(mails) == groups.Keys - todo
        invariant domains == AnnouncedTo(old(domains), stage, now, Users(mails))
        invariant forall i, j :: 0 <= i < j < |mails| ==> mails[i].user != mails[j].user
        invariant forall m :: m in mails ==> Tells(m, old(domains), stage, now) && m.user !in bouncing
        decreases todo
      {
        var user :| user in todo;
        var before := domains;
        GroupAdvances(groups, old(domains), candidates, user, stage, now, Users(mails));
        var mail := Advance(user, groups[user], stage, now);
        if user in bouncing {
          domains := before;
          ok := false;
          assert Candidate(old(domains), stage, now, groups[user][0]);
          return;
        }
        GroupTold(groups, old(domains), candidates, mail, stage, now);
        UsersAppend(mails, mail);
        mails := mails + [mail];
        todo := todo - {user};
      }
    }

    /** Advances the user's domains and composes the mail about them. */
    method Advance(user: nat, ids: seq<nat>, stage: Stage, now: int) returns (mail: Mail)
      requires stage == Fresh || stage == Notified
      requires Distinct(ids) && forall id :: id in ids ==> id in domains && domains[id].stage == stage
      modifies this`domains
      ensures domains == map id | id in old(domains)
                  :: if id in ids then old(domains)[id].(stage := NextStage(stage), changed := now) else old(domains)[id]
      ensures mail == Mail(user, seq(|ids|, i requires 0 <= i < |ids| => Link(ids[i], user, now)), Day(now) + NoticeDays(stage))
    {
      var links := [];
      for i := 0 to |ids|
        invariant domains == map id | id in old(domains)
                      :: if id in ids[..i] then old(domains)[id].(stage := NextStage(stage), changed := now) else old(domains)[id]
        invariant links == seq(i, k requires 0 <= k < i => Link(ids[k], user, now))
      {
        var d := domains[ids[i]];
        domains := domains[ids[i] := d.(stage := NextStage(d.stage), changed := now)];
        links := links + [Link(ids[i], user, now)];
      }
      assert ids[..|ids|] == ids;
      mail := Mail(user, links, Day(now) + NoticeDays(stage));
    }

    /** The tracked deletion of the domains in `stuck` fails, which ends the job after some of the expired domains.  Once all
        are deleted, the delegations of all of them are removed. */
    method DeleteDomains(now: int, stuck: set<nat>) returns (deleted: set<nat>, undelegated: set<nat>, ok: bool)
      modifies this
      ensures deleted <= ExpiredIds(old(domains), now) && deleted !! stuck
      ensures ok <==> deleted == ExpiredIds(old(domains), now)
      ensures ok <==> ExpiredIds(old(domains), now) !! stuck
      ensures domains == old(domains) - deleted
      ensures forall id :: id in old(domains) && !IsExpired(old(domains)[id], now) ==> id in domains
      ensures ok <==> forall id :: id in domains ==> !IsExpired(domains[id], now)
      ensures forall u :: u in users <==> (&& u in old(users)
                                           && ((exists id :: id in domains && domains[id].owner == u)
                                               || forall id :: id in old(domains) ==> old(domains)[id].owner != u))
      ensures forall u :: u in users <==> u in old(users) && !Orphaned(old(domains), deleted, u)
      ensures undelegated == if ok then deleted else {}
    {
      hide Orphaned, IsExpired;
      var expired := set id | id in domains && IsExpired(domains[id], now);
      var todo := expired;
      deleted := {};
      NoOrphans(domains);
      assert domains == domains - deleted;
      while todo != {}
        invariant todo <= expired && deleted == expired - todo && deleted !! stuck
        invariant domains == old(domains) - deleted
        invariant forall u :: u in users <==> u in old(users) && !Orphaned(old(domains), deleted, u)
        decreases todo
      {
        var id :| id in todo;
        if id in stuck {
          assert id in domains && IsExpired(domains[id], now);
          LeftWithoutDomain(old(domains), deleted);
          return deleted, {}, false;
        }
        var owner := domains[id].owner;
        forall u ensures Orphaned(old(domains), deleted + {id}, u)
                         <==> (Orphaned(old(domains), deleted, u)
                               || (u == owner
                                   && forall other :: (other in old(domains) - (deleted + {id}) ==>
                                        old(domains)[other].owner != u)))
        {
          OrphanedStep(old(domains), deleted, id, u);
        }
        domains := domains - {id};
        assert domains == old(domains) - (deleted + {id});
        if forall other :: other in domains ==> domains[other].owner != owner {
          users := users - {owner};
        }
        deleted := deleted + {id};
        todo := todo - {id};
      }
      LeftWithoutDomain(old(domains), deleted);
      return deleted, deleted, true;
    }

    /** The job.  A mail that fails in one of the two announcements ends it, and so does a deletion that fails.  Whatever the
        history of the domains was, the job continues it with its steps, and the history then tells what the deleted domains
        have been promised. */
    method Handle(t: Clock, bouncing: set<nat>, stuck: set<nat>, ghost evs: seq<Timed>)
      returns (notified: seq<Mail>, warned: seq<Mail>, deleted: set<nat>, undelegated: set<nat>, ok: bool, ghost steps: nat)
      requires domains == DomainsOf(Run(evs))
      modifies this
      ensures 2 <= steps <= 4 && (ok ==> steps == 4) && (bouncing == {} ==> steps == 4)
      ensures bouncing == {} && stuck == {} ==> ok
      ensures domains == DomainsOf(Run(evs + JobEvents(t, Users(notified), Users(warned), deleted)[..steps]))
      ensures steps < 4 ==> deleted == {} && users == old(users)
      ensures undelegated == if ok then deleted else {}
      ensures var job := JobEvents(t, Users(notified), Users(warned), deleted);
              Clocked(evs + job) && steps == 4 ==> PromisesKept(evs + job[..3], t.delete, deleted)
    {
      hide *;
      warned, deleted, undelegated := [], {}, {};
      RenewTouchedDomains(t.renew);
      ghost var e1 := Timed(t.renew, RenewTouched);
      EventExtends(evs, e1);
      RenewalIsEvent(Run(evs), t.renew);
      ghost var h1 := evs + [e1];

      notified, ok := WarnDomainDeletion(Fresh, t.notify, bouncing);
      ghost var e2 := Timed(t.notify, Announce(Fresh, Users(notified)));
      EventExtends(h1, e2);
      AnnouncementIsEvent(Run(h1), Fresh, t.notify, Users(notified));
      ghost var h2 := h1 + [e2];
      steps := 2;
      JobPrefixes(evs, t, Users(notified), Users(warned), deleted);
      if !ok {
        return;
      }

      warned, ok := WarnDomainDeletion(Notified, t.warn, bouncing);
      ghost var e3 := Timed(t.warn, Announce(Notified, Users(warned)));
      EventExtends(h2, e3);
      AnnouncementIsEvent(Run(h2), Notified, t.warn, Users(warned));
      steps := 3;
      JobPrefixes(evs, t, Users(notified), Users(warned), deleted);
      if !ok {
        return;
      }

      deleted, undelegated, ok := DeleteDomains(t.delete, stuck);
      EventExtends(h2 + [e3], Timed(t.delete, DeleteExpired(deleted)));
      DeletionIsEvent(Run(h2 + [e3]), t.delete, deleted);
      steps := 4;
      JobPrefixes(evs, t, Users(notified), Users(warned), deleted);
      Promised(evs, JobEvents(t, Users(notified), Users(warned), deleted), deleted);
    }
  }
}
