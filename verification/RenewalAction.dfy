/** The renewal link: an action that is carried out only if the state in the link is the state of the domain now. */
module RenewalAction {
  import opened Dns
  import opened Renewal
  import opened Scavenger

  /** The values that the state of the action is computed from; the hash over them is injective. */
  datatype State = State(user: nat, domain: nat, owner: nat, changed: int)

  function StateOf(domains: Domains, user: nat, id: nat): State
    requires id in domains
  {
    State(user, id, domains[id].owner, domains[id].changed)
  }

  /** The state that the mailed link carries: it is addressed to the owner. */
  function StateIn(link: Link): State {
    State(link.owner, link.id, link.owner, link.changed)
  }

  class AuthenticatedRenewDomainAction {
    const user: nat
    const domain: nat
    var validated: bool
    var failed: bool

    /** The action raises an invalid-state error, here `failed`, if it is given a state that is not the current one. */
    constructor (domains: Domains, user: nat, domain: nat, state: Option<State>)
      requires domain in domains
      ensures this.user == user && this.domain == domain
      ensures validated <==> state == Some(StateOf(domains, user, domain))
      ensures failed <==> state.Some? && !validated
    {
      this.user := user;
      this.domain := domain;
      validated := state.Some? && state.value == StateOf(domains, user, domain);
      failed := state.Some? && state.value != StateOf(domains, user, domain);
    }

    /** Without a validated state nothing happens but an error. */
    method Act(command: Command, now: int) returns (acted: bool)
      requires domain in command.domains
      modifies command`domains
      ensures acted == validated
      ensures command.domains
              == if validated
                 then old(command.domains)[domain := old(command.domains)[domain].(stage := Fresh, changed := now)]
                 else old(command.domains)
    {
      acted := validated;
      if validated {
        command.domains := command.domains[domain := command.domains[domain].(stage := Fresh, changed := now)];
      }
    }
  }

  datatype Response = Accepted | BadRequest | Conflict | Forbidden

  /** A confirmed link.  It is accepted exactly if it is valid in the history of the domains and the owner is active, and in
      any case the stored domains are those of the history continued by the confirmation. */
  method Confirm(command: Command, link: Link, active: bool, now: int, ghost evs: seq<Timed>) returns (response: Response)
    requires command.domains == DomainsOf(Run(evs))
    requires link.id in command.domains && command.domains[link.id].owner == link.owner
             ==> active == command.domains[link.id].ownerActive
    modifies command`domains
    ensures response == Accepted <==> LinkValid(Run(evs), link) && Run(evs).entries[link.id].domain.ownerActive
    ensures var before := DomainsOf(Run(evs));
            && (response == Accepted <==> (&& link.id in before && before[link.id].owner == link.owner
                                           && before[link.id].changed == link.changed && before[link.id].ownerActive))
            && command.domains
               == if response == Accepted then before[link.id := before[link.id].(stage := Fresh, changed := now)] else before
    ensures response == Forbidden <==> !active
    ensures response == BadRequest <==> active && link.id !in DomainsOf(Run(evs))
    ensures command.domains == DomainsOf(Run(evs + [Timed(now, Event.Confirm(link))]))
  {
    ConfirmationStep(evs, link, now);
    if !active {
      return Forbidden;
    }
    if link.id !in command.domains {
      return BadRequest;
    }
    var action := new AuthenticatedRenewDomainAction(command.domains, link.owner, link.id, Some(StateIn(link)));
    if action.failed {
      return Conflict;
    }
    var acted := action.Act(command, now);
    assert acted;
    return Accepted;
  }

  lemma RunIgnores(evs: seq<Timed>, t: Timed)
    requires !Enabled(Run(evs), t.event)
    ensures Run(evs + [t]) == Run(evs)
  {
    assert (evs + [t])[..|evs|] == evs;
  }

  lemma ConfirmationStep(evs: seq<Timed>, link: Link, now: int)
    ensures var domains := DomainsOf(Run(evs));
            DomainsOf(Run(evs + [Timed(now, Event.Confirm(link))]))
            == if LinkValid(Run(evs), link) && domains[link.id].ownerActive
               then domains[link.id := domains[link.id].(stage := Fresh, changed := now)]
               else domains
  {
    hide Run;
    var w := Run(evs);
    if Enabled(w, Event.Confirm(link)) {
      RunExtends(evs, Timed(now, Event.Confirm(link)));
    } else {
      RunIgnores(evs, Timed(now, Event.Confirm(link)));
    }
  }
}
