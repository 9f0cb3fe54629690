/** Which account a request gets from the pool of internal/relay/opencode_proxy_pool.go: read off the open
    leases and the fields of the accounts for one pick, and off the earlier steps for a run. */
module ProxyPicks {
  import opened FailureWindow
  import opened ProxyPool
  import opened ProxyVotes
  import opened Sets
  import opened Wrappers

  // ---- One pick ----

  ghost predicate BannedFor(p: Pool, now: int, session: string, name: string) {
    session in p.banned && name in p.banned[session] && now - p.banned[session][name] < SESSION_TTL
  }

  ghost predicate HeldByOther(leases: map<nat, Lease>, session: string, name: string) {
    session != "" && exists id :: id in leases && leases[id].account == name && leases[id].session !in {"", session}
  }

  /** The account is full, cools down, has not succeeded for too long, serves another session, or has
      refused this one. */
  ghost predicate Out(p: Pool, leases: map<nat, Lease>, now: int, session: string, name: string) {
    name in p.accounts
    && var a := p.accounts[name];
    || |On(leases, name)| >= ACCOUNT_LIMIT
    || now < a.cooldownUntil
    || (a.verified && now - a.lastSuccessAt > SUCCESS_TTL)
    || HeldByOther(leases, session, name)
    || BannedFor(p, now, session, name)
  }

  lemma PruneMeans(p: Pool, now: int)
    ensures Prune(p, now).accounts == p.accounts
    ensures forall s, name :: Banned(Prune(p, now), s, name) <==> BannedFor(p, now, s, name)
    ensures forall s :: s in Prune(p, now).bound <==> s in p.bound && now - p.bound[s].at < SESSION_TTL
    ensures forall s :: s in Prune(p, now).bound ==> Prune(p, now).bound[s] == p.bound[s]
  {
  }

  lemma OutMeans(p: Pool, leases: map<nat, Lease>, now: int, session: string, name: string)
    requires Inv(p, leases) && name in p.accounts
    ensures Out(p, leases, now, session, name)
       <==> !(Usable(p.accounts[name], now) && SessionAvailable(p.accounts[name], session) && !Banned(Prune(p, now), session, name))
  {
    PruneMeans(p, now);
    assert AccountInv(p.accounts[name], name, leases);
    if session != "" {
      AvailableIffNotHeldByOthers(p, leases, name, session);
    }
    hide On, AccountInv, Prune;
  }

  /** The account a session was bound to less than a day ago, if nothing rules it out. */
  ghost predicate Kept(p: Pool, leases: map<nat, Lease>, now: int, session: string, name: string) {
    && session != "" && session in p.bound && p.bound[session].account == name && now - p.bound[session].at < SESSION_TTL
    && name in p.accounts && !Out(p, leases, now, session, name)
  }

  /** Fewer consecutive failures; among equals verified; among verified the later success. */
  ghost predicate NotBehind(a: Account, b: Account) {
    && a.consecutiveFailures <= b.consecutiveFailures
    && (a.consecutiveFailures == b.consecutiveFailures && b.verified ==> a.verified && a.lastSuccessAt >= b.lastSuccessAt)
  }

  lemma NotBehindIff(a: Account, b: Account)
    ensures NotBehind(a, b) <==> !Better(b, a)
  {
  }

  lemma StickyMeans(p: Pool, leases: map<nat, Lease>, now: int, session: string, name: string)
    requires Inv(p, leases)
    ensures Sticky(Prune(p, now), now, session) == Some(name) <==> Kept(p, leases, now, session, name)
  {
    PruneMeans(p, now);
    if name in p.accounts {
      OutMeans(p, leases, now, session, name);
    }
    hide Inv, Out, Usable, SessionAvailable, Banned, Prune;
  }

  lemma CandidateMeans(p: Pool, leases: map<nat, Lease>, now: int, session: string, name: string)
    requires Inv(p, leases) && !Kept(p, leases, now, session, name)
    ensures Candidate(Prune(p, now), now, session, name) <==> name in p.accounts && !Out(p, leases, now, session, name)
  {
    PruneMeans(p, now);
    if name in p.accounts {
      OutMeans(p, leases, now, session, name);
    }
    hide Inv, Out, Usable, SessionAvailable, Banned, Prune;
  }

  /** A pick gives the session the account it is bound to, if that may serve it; else the best ranked of
      those that may; and a new one if and only if every account is ruled out. */
  lemma PickIs(p: Pool, leases: map<nat, Lease>, step: Step, p': Pool, leases': map<nat, Lease>)
    requires Inv(p, leases) && step.Pick? && Next(p, leases, step, p', leases')
    ensures var now, session, name := step.now, step.session, step.name;
            && (forall k :: Kept(p, leases, now, session, k) ==> name == k)
            && (name in p.accounts <==> exists k :: k in p.accounts && !Out(p, leases, now, session, k))
            && (name in p.accounts ==> !Out(p, leases, now, session, name))
            && (name in p.accounts && (forall k :: !Kept(p, leases, now, session, k)) ==>
                  forall k :: k in p.accounts && !Out(p, leases, now, session, k) ==> NotBehind(p.accounts[name], p.accounts[k]))
            && (name !in p.accounts ==> name == step.newName)
  {
    hide Inv, Out, Kept, Sticky, Candidate, Prune, HandOut, Trimmed, Better;
    var now, session := step.now, step.session;
    var q := Prune(p, now);
    PruneMeans(p, now);
    forall k ensures Sticky(q, now, session) == Some(k) <==> Kept(p, leases, now, session, k) {
      StickyMeans(p, leases, now, session, k);
    }
    forall k | !Kept(p, leases, now, session, k)
      ensures Candidate(q, now, session, k) <==> k in p.accounts && !Out(p, leases, now, session, k)
    {
      CandidateMeans(p, leases, now, session, k);
    }
    forall k | Kept(p, leases, now, session, k) ensures k in p.accounts && !Out(p, leases, now, session, k) {
      KeptIsFree(p, leases, now, session, k);
    }
    forall k | k in p.accounts && step.name in p.accounts
      ensures NotBehind(p.accounts[step.name], p.accounts[k]) <==> !Better(p.accounts[k], p.accounts[step.name])
    {
      NotBehindIff(p.accounts[step.name], p.accounts[k]);
    }
  }

  lemma KeptIsFree(p: Pool, leases: map<nat, Lease>, now: int, session: string, name: string)
    requires Kept(p, leases, now, session, name)
    ensures name in p.accounts && !Out(p, leases, now, session, name)
  {
  }

  /** A keyed channel gets its account unless that is ruled out. */
  lemma PickFixedIs(p: Pool, leases: map<nat, Lease>, step: Step, p': Pool, leases': map<nat, Lease>)
    requires Inv(p, leases) && step.PickFixed? && step.now >= 0 && Next(p, leases, step, p', leases')
    ensures step.account in p.accounts ==> (step.picked <==> !Out(p, leases, step.now, step.session, step.account))
    ensures step.account !in p.accounts ==> (step.picked <==> !BannedFor(p, step.now, step.session, step.account))
  {
    PruneMeans(p, step.now);
    if step.account in p.accounts {
      OutMeans(p, leases, step.now, step.session, step.account);
    }
    hide Inv, Out, Prune, HandOut;
  }

  // ---- Over a run ----

  /** The same up to the requests that are open on it. */
  ghost predicate SameMarks(a: Account, b: Account) {
    a.(active := 0, sessions := map[]) == b.(active := 0, sessions := map[])
  }

  /** What a step does to an account that it does not evict. */
  lemma MarksStay(p: Pool, leases: map<nat, Lease>, step: Step, p': Pool, leases': map<nat, Lease>, account: string)
    requires Next(p, leases, step, p', leases') && account in p.accounts && account !in Evicted(step)
    ensures account in p'.accounts
    ensures SameMarks(p'.accounts[account],
                      if step.MarkAccount? && step.account == account then Marked(p.accounts[account], step.mark) else p.accounts[account])
  {
    hide Usable, SessionAvailable, Candidate, Better, Sticky, Marked, Trimmed, Prune;
    match step
    case Pick(now, session, newName, name, id, evicted) =>
      MarksStayPick(p, now, session, newName, name, evicted, p', account);
    case MarkAccount(name, mark, evicted) => MarksStayMark(p, name, mark, evicted, p', account);
    case PickFixed(now, session, name, id, picked) => PruneMeans(p, now);
    case Release(id) =>
    case Ban(now, session, name) =>
    case Vote(now, session, name, quorum) => PruneMeans(p, now);
  }

  lemma MarksStayPick(p: Pool, now: int, session: string, newName: string, name: string, evicted: seq<string>, p': Pool, account: string)
    requires PickStep(p, now, session, newName, name, evicted, p') && newName !in p.accounts
    requires account in p.accounts && account !in evicted
    ensures account in p'.accounts && SameMarks(p'.accounts[account], p.accounts[account])
  {
    hide PickStep, Prune, Trimmed;
    var q := PickedFrom(p, now, session, newName, name, evicted, p');
    PruneMeans(p, now);
    if q != Prune(p, now) {
      SurvivesTrim(Grown(Prune(p, now), newName), newName, MAX_ACCOUNTS, evicted, q, account);
    }
    HandOutChanges(q, session, name, now);
  }

  lemma {:induction false} SurvivesTrim(p: Pool, keep: string, limit: nat, evicted: seq<string>, q: Pool, account: string)
    requires Trimmed(p, keep, limit, evicted, q) && account in p.accounts && account !in evicted
    ensures account in q.accounts && q.accounts[account] == p.accounts[account]
    decreases |evicted|
  {
    hide Trimmed;
    TrimmedStep(p, keep, limit, evicted, q);
    if evicted != [] {
      SurvivesTrim(Evict(p, evicted[0]), keep, limit, evicted[1..], q, account);
    }
  }

  lemma MarksStayMark(p: Pool, name: string, mark: Mark, evicted: seq<string>, p': Pool, account: string)
    requires MarkStep(p, name, mark, evicted, p') && account in p.accounts && account !in evicted
    ensures account in p'.accounts
    ensures SameMarks(p'.accounts[account], if name == account then Marked(p.accounts[account], mark) else p.accounts[account])
  {
    hide Marked, Trimmed;
    if name !in p.accounts {
      var q: Pool :| && name in q.accounts && p' == q.(accounts := q.accounts[name := Marked(q.accounts[name], mark)])
                     && Trimmed(Grown(p, name), name, MAX_ACCOUNTS, evicted, q);
      SurvivesTrim(Grown(p, name), name, MAX_ACCOUNTS, evicted, q, account);
    }
  }

  lemma MarkedNow(p: Pool, step: Step, leases: map<nat, Lease>, p': Pool, leases': map<nat, Lease>)
    requires step.MarkAccount? && Next(p, leases, step, p', leases')
    ensures step.account in p'.accounts
    ensures exists a: Account :: p'.accounts[step.account] == Marked(a, step.mark)
  {
    hide Marked, Trimmed;
    var name := step.account;
    var q: Pool :| && name in q.accounts && p' == q.(accounts := q.accounts[name := Marked(q.accounts[name], step.mark)]);
  }

  /** The step leaves the account in the pool, and its cooldown as it is: failures do not count while it
      lasts. */
  ghost predicate KeepsRest(step: Step, account: string, until: int) {
    && account !in Evicted(step)
    && (step.MarkAccount? && step.account == account ==> step.mark.Failed? && step.mark.now < until)
  }

  lemma {:induction false} RestLasts(states: seq<State>, steps: seq<Step>, i: nat, n: nat, account: string, until: int)
    requires IsRun(states, steps) && i < n <= |steps| && steps[i] == MarkAccount(account, Cooled(until), Evicted(steps[i]))
    requires forall j :: i < j < n ==> KeepsRest(steps[j], account, until)
    ensures account in states[n].pool.accounts && states[n].pool.accounts[account].cooldownUntil == until
    decreases n
  {
    hide Next;
    var k := n - 1;
    assert Next(states[k].pool, states[k].leases, steps[k], states[n].pool, states[n].leases);
    if i == k {
      MarkedNow(states[i].pool, steps[i], states[i].leases, states[n].pool, states[n].leases);
    } else {
      RestLasts(states, steps, i, k, account, until);
      MarksStay(states[k].pool, states[k].leases, steps[k], states[n].pool, states[n].leases, account);
    }
  }

  /** The step does not hand out the account. */
  ghost predicate Spares(step: Step, account: string) {
    && (step.Pick? ==> step.name != account)
    && (step.PickFixed? && step.account == account ==> !step.picked)
  }

  lemma UnusableIsSpared(p: Pool, leases: map<nat, Lease>, step: Step, p': Pool, leases': map<nat, Lease>, account: string)
    requires Next(p, leases, step, p', leases') && account in p.accounts
    requires step.Pick? || step.PickFixed? ==> !Usable(p.accounts[account], step.now)
    ensures Spares(step, account)
  {
    hide Usable, SessionAvailable, Better, HandOut, Trimmed, Prune;
    if step.Pick? || step.PickFixed? {
      PruneMeans(p, step.now);
    }
  }

  /** An account that was put to rest until a time is handed out to nobody before it, unless it succeeds,
      is put to rest anew, or is evicted. */
  lemma CoolingAccountRests(states: seq<State>, steps: seq<Step>, i: nat, n: nat, account: string, until: int)
    requires IsRun(states, steps) && i < n < |steps| && steps[i] == MarkAccount(account, Cooled(until), Evicted(steps[i]))
    requires forall j :: i < j < n ==> KeepsRest(steps[j], account, until)
    requires (steps[n].Pick? || steps[n].PickFixed?) && steps[n].now < until
    ensures Spares(steps[n], account)
  {
    hide Next, Spares, KeepsRest;
    RestLasts(states, steps, i, n, account, until);
    UnusableIsSpared(states[n].pool, states[n].leases, steps[n], states[n + 1].pool, states[n + 1].leases, account);
  }

  /** The step neither evicts the account nor reports a success of it. */
  ghost predicate KeepsSuccess(step: Step, account: string) {
    account !in Evicted(step) && (step.MarkAccount? && step.account == account ==> !step.mark.Succeeded?)
  }

  lemma {:induction false} SuccessLasts(states: seq<State>, steps: seq<Step>, i: nat, n: nat, account: string, at: nat)
    requires IsRun(states, steps) && i < n <= |steps| && steps[i] == MarkAccount(account, Succeeded(at), Evicted(steps[i]))
    requires forall j :: i < j < n ==> KeepsSuccess(steps[j], account)
    ensures account in states[n].pool.accounts
    ensures states[n].pool.accounts[account].verified && states[n].pool.accounts[account].lastSuccessAt == at
    decreases n
  {
    hide Next, RejectCooldown;
    var k := n - 1;
    assert Next(states[k].pool, states[k].leases, steps[k], states[n].pool, states[n].leases);
    if i == k {
      MarkedNow(states[i].pool, steps[i], states[i].leases, states[n].pool, states[n].leases);
    } else {
      SuccessLasts(states, steps, i, k, account, at);
      MarksStay(states[k].pool, states[k].leases, steps[k], states[n].pool, states[n].leases, account);
    }
  }

  lemma {:induction false} MarksLast(states: seq<State>, steps: seq<Step>, i: nat, n: nat)
    requires IsRun(states, steps) && i < n <= |steps| && steps[i].MarkAccount?
    requires forall j :: i < j < n ==> steps[i].account !in Evicted(steps[j]) && !(steps[j].MarkAccount? && steps[j].account == steps[i].account)
    ensures steps[i].account in states[i + 1].pool.accounts && steps[i].account in states[n].pool.accounts
    ensures SameMarks(states[n].pool.accounts[steps[i].account], states[i + 1].pool.accounts[steps[i].account])
    decreases n
  {
    hide Next, Marked;
    var k := n - 1;
    assert Next(states[i].pool, states[i].leases, steps[i], states[i + 1].pool, states[i + 1].leases);
    assert Next(states[k].pool, states[k].leases, steps[k], states[n].pool, states[n].leases);
    MarkedNow(states[i].pool, steps[i], states[i].leases, states[i + 1].pool, states[i + 1].leases);
    if i < k {
      MarksLast(states, steps, i, k);
      MarksStay(states[k].pool, states[k].leases, steps[k], states[n].pool, states[n].leases, steps[i].account);
    }
  }

  /** A success ends a cooldown and puts the account among the best ranked, until the next mark: for a week
      only its open requests and the session's bans can rule it out. */
  lemma SuccessFreesAccount(states: seq<State>, steps: seq<Step>, i: nat, n: nat, now: nat, session: string)
    requires IsRun(states, steps) && i < n <= |steps| && steps[i].MarkAccount? && steps[i].mark.Succeeded?
    requires forall j :: i < j < n ==> steps[i].account !in Evicted(steps[j]) && !(steps[j].MarkAccount? && steps[j].account == steps[i].account)
    requires now - steps[i].mark.now <= SUCCESS_TTL
    ensures var p, leases, name := states[n].pool, states[n].leases, steps[i].account;
            && name in p.accounts && p.accounts[name].consecutiveFailures == 0
            && (Out(p, leases, now, session, name)
                <==> |On(leases, name)| >= ACCOUNT_LIMIT || HeldByOther(leases, session, name) || BannedFor(p, now, session, name))
  {
    hide Next, On, HeldByOther, BannedFor;
    MarksLast(states, steps, i, n);
    assert Next(states[i].pool, states[i].leases, steps[i], states[i + 1].pool, states[i + 1].leases);
    MarkedNow(states[i].pool, steps[i], states[i].leases, states[i + 1].pool, states[i + 1].leases);
  }

  /** An account whose last success is more than a week old is handed out no more. */
  lemma OldSuccessExpires(states: seq<State>, steps: seq<Step>, i: nat, n: nat, account: string, at: nat)
    requires IsRun(states, steps) && i < n < |steps| && steps[i] == MarkAccount(account, Succeeded(at), Evicted(steps[i]))
    requires forall j :: i < j < n ==> KeepsSuccess(steps[j], account)
    requires (steps[n].Pick? || steps[n].PickFixed?) && steps[n].now - at > SUCCESS_TTL
    ensures Spares(steps[n], account)
  {
    hide Next, Spares, KeepsSuccess;
    SuccessLasts(states, steps, i, n, account, at);
    UnusableIsSpared(states[n].pool, states[n].leases, steps[n], states[n + 1].pool, states[n + 1].leases, account);
  }

  // ---- Bans and what is forgotten ----

  lemma StoresAfter(p: Pool, leases: map<nat, Lease>, step: Step, p': Pool, leases': map<nat, Lease>)
    requires Next(p, leases, step, p', leases')
    ensures step.Pick? || step.PickFixed? || step.Vote? ==> p'.banned == Prune(p, step.now).banned
    ensures step.Release? || step.MarkAccount? ==> p'.banned == p.banned
    ensures step.Pick? || step.PickFixed? || step.Vote? ==>
              forall s :: s in p'.bound ==> step.now - p'.bound[s].at < SESSION_TTL
  {
    hide Usable, SessionAvailable, Candidate, Better, Sticky, Take, Return, Marked, Trimmed, Prune;
    match step
    case Pick(now, session, newName, name, id, evicted) => PickStores(p, now, session, newName, name, evicted, p');
    case MarkAccount(account, mark, evicted) => MarkStores(p, account, mark, evicted, p');
    case PickFixed(now, session, account, id, picked) => PruneMeans(p, now);
    case Vote(now, session, account, quorum) => PruneMeans(p, now);
    case Release(id) =>
    case Ban(now, session, account) =>
  }

  lemma PickStores(p: Pool, now: int, session: string, newName: string, name: string, evicted: seq<string>, p': Pool)
    requires PickStep(p, now, session, newName, name, evicted, p')
    ensures p'.banned == Prune(p, now).banned && forall s :: s in p'.bound ==> now - p'.bound[s].at < SESSION_TTL
  {
    hide PickStep, Prune, Take, Trimmed;
    var q := PickedFrom(p, now, session, newName, name, evicted, p');
    PruneMeans(p, now);
    if q != Prune(p, now) {
      TrimShrinks(Grown(Prune(p, now), newName), newName, MAX_ACCOUNTS, evicted, q);
    }
  }

  lemma MarkStores(p: Pool, account: string, mark: Mark, evicted: seq<string>, p': Pool)
    requires MarkStep(p, account, mark, evicted, p')
    ensures p'.banned == p.banned
  {
    hide Marked, Trimmed;
    if account !in p.accounts {
      var grown := Grown(p, account);
      var q: Pool :| p'.banned == q.banned && Trimmed(grown, account, MAX_ACCOUNTS, evicted, q);
      TrimShrinks(grown, account, MAX_ACCOUNTS, evicted, q);
    }
  }

  /** A pick and a vote leave no binding, ban or vote of a day ago or more. */
  lemma OldStoresAreForgotten(p: Pool, leases: map<nat, Lease>, step: Step, p': Pool, leases': map<nat, Lease>)
    requires Next(p, leases, step, p', leases') && (step.Pick? || step.PickFixed? || step.Vote?)
    ensures forall s :: s in p'.bound ==> step.now - p'.bound[s].at < SESSION_TTL
    ensures forall s, a :: s in p'.banned && a in p'.banned[s] ==> step.now - p'.banned[s][a] < SESSION_TTL
    ensures forall s :: s in p'.votes ==> step.now - p'.votes[s] < VOTE_WINDOW
  {
    hide Next;
    StoresAfter(p, leases, step, p', leases');
    VotesAfter(p, leases, step, p', leases');
  }

  ghost predicate BannedSince(p: Pool, session: string, account: string, at: int) {
    session in p.banned && account in p.banned[session] && p.banned[session][account] >= at
  }

  lemma BanStays(p: Pool, leases: map<nat, Lease>, step: Step, p': Pool, leases': map<nat, Lease>, session: string, account: string, at: int)
    requires Next(p, leases, step, p', leases') && BannedSince(p, session, account, at)
    requires Timed(step) ==> at <= step.now < at + SESSION_TTL
    ensures BannedSince(p', session, account, at)
  {
    StoresAfter(p, leases, step, p', leases');
    if step.Pick? || step.PickFixed? || step.Vote? {
      hide Next;
      PruneKeepsBan(p, step.now, session, account, at);
    } else if step.Ban? {
      hide Prune;
    } else {
      hide Next;
    }
  }

  lemma PruneKeepsBan(p: Pool, now: int, session: string, account: string, at: int)
    requires BannedSince(p, session, account, at) && now < at + SESSION_TTL
    ensures BannedSince(Prune(p, now), session, account, at)
  {
    assert now - p.banned[session][account] < SESSION_TTL;
  }

  lemma {:induction false} BanLasts(states: seq<State>, steps: seq<Step>, i: nat, n: nat)
    requires IsRun(states, steps) && OnTime(steps) && i < n <= |steps| && steps[i].Ban?
    requires forall j :: i < j < n && Timed(steps[j]) ==> steps[j].now < steps[i].now + SESSION_TTL
    ensures BannedSince(states[n].pool, steps[i].session, steps[i].account, steps[i].now)
    decreases n
  {
    var k := n - 1;
    assert Next(states[k].pool, states[k].leases, steps[k], states[n].pool, states[n].leases);
    if i < k {
      hide Next, BannedSince;
      BanLasts(states, steps, i, k);
      BanStays(states[k].pool, states[k].leases, steps[k], states[n].pool, states[n].leases, steps[i].session, steps[i].account, steps[i].now);
    }
  }

  /** For a day a session is not given an account that refused it. */
  lemma BannedAccountIsAvoided(states: seq<State>, steps: seq<Step>, i: nat, n: nat)
    requires IsRun(states, steps) && OnTime(steps) && i < n < |steps| && steps[i].Ban?
    requires (steps[n].Pick? && steps[n].newName != steps[i].account) || steps[n].PickFixed?
    requires steps[n].session == steps[i].session && steps[n].now < steps[i].now + SESSION_TTL
    ensures Spares(steps[n], steps[i].account)
  {
    hide Next, BannedSince;
    BanLasts(states, steps, i, n);
    AvoidsBanned(states[n].pool, states[n].leases, steps[n], states[n + 1].pool, states[n + 1].leases, steps[i].account, steps[i].now);
  }

  lemma AvoidsBanned(p: Pool, leases: map<nat, Lease>, step: Step, p': Pool, leases': map<nat, Lease>, account: string, at: int)
    requires Next(p, leases, step, p', leases') && ((step.Pick? && step.newName != account) || step.PickFixed?)
    requires BannedSince(p, step.session, account, at) && step.now < at + SESSION_TTL
    ensures Spares(step, account)
  {
    hide Usable, SessionAvailable, Better, HandOut, Trimmed, Prune;
    PruneMeans(p, step.now);
    assert BannedFor(p, step.now, step.session, account);
  }

  // ---- Who has to go ----

  /** Not verified, or both verified or not and not used later. */
  ghost predicate Lower(a: Account, b: Account) {
    && (a.verified ==> b.verified)
    && (a.verified == b.verified ==> a.cooldownUntil <= b.cooldownUntil || a.cooldownUntil <= b.lastSuccessAt)
    && (a.verified == b.verified ==> a.lastSuccessAt <= b.cooldownUntil || a.lastSuccessAt <= b.lastSuccessAt)
  }

  lemma LowerIff(a: Account, b: Account)
    ensures Lower(a, b) <==> !EvictFirst(b, a)
  {
  }

  /** A trim brings the pool to its limit and keeps the account it is to keep; every account that goes is
      ranked no higher than any that stays beside it. */
  lemma {:induction false} TrimKeepsHighest(p: Pool, keep: string, limit: nat, evicted: seq<string>, q: Pool)
    requires Trimmed(p, keep, limit, evicted, q) && keep in p.accounts && limit > 0
    ensures keep in q.accounts && |q.accounts| == if |p.accounts| <= limit then |p.accounts| else limit
    ensures forall x :: x in p.accounts <==> x in q.accounts || x in evicted
    ensures forall x :: x in q.accounts ==> x !in evicted && x in p.accounts && q.accounts[x] == p.accounts[x]
    ensures forall x, o :: x in evicted && o in q.accounts && o != keep ==> x in p.accounts && Lower(p.accounts[x], p.accounts[o])
    decreases |evicted|
  {
    hide Trimmed, EvictFirst, Lower, Evict;
    TrimStep(p, keep, limit, evicted, q);
    if evicted != [] {
      var first, next := evicted[0], Evict(p, evicted[0]);
      EvictedSize(p, first);
      TrimKeepsHighest(next, keep, limit, evicted[1..], q);
      forall o | o in q.accounts && o != keep ensures Lower(p.accounts[first], p.accounts[o]) {
        LowerIff(p.accounts[first], p.accounts[o]);
      }
      assert forall x :: x in evicted <==> x == first || x in evicted[1..];
    }
  }

  lemma TrimStep(p: Pool, keep: string, limit: nat, evicted: seq<string>, q: Pool)
    requires Trimmed(p, keep, limit, evicted, q) && keep in p.accounts && limit > 0
    ensures evicted == [] <==> |p.accounts| <= limit
    ensures evicted == [] ==> q == p
    ensures evicted != [] ==> Evictable(p, keep, evicted[0]) && Trimmed(Evict(p, evicted[0]), keep, limit, evicted[1..], q)
  {
    hide EvictFirst, Evict;
    if p.accounts.Keys <= {keep} {
      SubsetSize(p.accounts.Keys, {keep});
      assert |p.accounts| == |p.accounts.Keys|;
    }
  }
}
