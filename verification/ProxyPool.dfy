/** The proxy-account pool of internal/relay/opencode_proxy_pool.go: leases with a cap and an
    exclusive session per account, sticky bindings, bans, and votes for a cooldown. Every
    operation runs under the pool's mutex and is one step. */
module ProxyPool {
  import opened Wrappers
  import opened FailureWindow
  import opened Sets

  const ACCOUNT_LIMIT := 5
  const ACCOUNT_SESSIONS := 1
  const SUCCESS_TTL := 7 * DAY
  const SESSION_TTL := DAY
  const VOTE_WINDOW := DAY
  const VOTE_QUORUM := 2
  const MAX_ACCOUNTS := 30000

  datatype Binding = Binding(account: string, at: int)

  datatype Pool = Pool(accounts: map<string, Account>, bound: map<string, Binding>,
                       banned: map<string, map<string, int>>, votes: map<string, int>)

  /** An open lease: the account and the session it was handed out for. */
  datatype Lease = Lease(account: string, session: string)

  // ---- Which accounts may be handed out ----

  predicate Usable(a: Account, now: int) {
    a.active < ACCOUNT_LIMIT && now >= a.cooldownUntil && !(a.verified && now - a.lastSuccessAt > SUCCESS_TTL)
  }

  function SessionCount(a: Account, session: string): nat {
    if session in a.sessions then a.sessions[session] else 0
  }

  predicate SessionAvailable(a: Account, session: string) {
    session == ""
    || (|a.sessions| <= ACCOUNT_SESSIONS && (SessionCount(a, session) > 0 || |a.sessions| < ACCOUNT_SESSIONS))
  }

  predicate Banned(p: Pool, session: string, account: string) {
    session in p.banned && account in p.banned[session]
  }

  /** Fewer consecutive failures first, then verified accounts, then the more recent success. */
  predicate Better(a: Account, b: Account) {
    if a.consecutiveFailures != b.consecutiveFailures then a.consecutiveFailures < b.consecutiveFailures
    else if a.verified != b.verified then a.verified
    else a.verified && a.lastSuccessAt > b.lastSuccessAt
  }

  /** The ranking never prefers both ways round, and what beats the best beats everything below it. */
  lemma BetterIsRanking(a: Account, b: Account, c: Account)
    ensures !(Better(a, b) && Better(b, a))
    ensures !Better(b, a) && !Better(c, b) ==> !Better(c, a)
  {
  }

  /** Sessions, bans and votes older than their time to live are forgotten. */
  function Prune(p: Pool, now: int): Pool {
    Pool(p.accounts,
         map s | s in p.bound && now - p.bound[s].at < SESSION_TTL :: p.bound[s],
         map s | s in p.banned && (exists a :: a in p.banned[s] && now - p.banned[s][a] < SESSION_TTL)
               :: map a | a in p.banned[s] && now - p.banned[s][a] < SESSION_TTL :: p.banned[s][a],
         map s | s in p.votes && now - p.votes[s] < VOTE_WINDOW :: p.votes[s])
  }

  /** The account a session sticks to, if it may still have it. */
  function Sticky(p: Pool, now: int, session: string): Option<string> {
    if session != "" && session in p.bound
       && !Banned(p, session, p.bound[session].account) && p.bound[session].account in p.accounts
       && Usable(p.accounts[p.bound[session].account], now)
       && SessionAvailable(p.accounts[p.bound[session].account], session)
    then Some(p.bound[session].account)
    else None
  }

  /** Another account the session may be moved to. */
  predicate Candidate(p: Pool, now: int, session: string, name: string) {
    && name in p.accounts && Usable(p.accounts[name], now) && SessionAvailable(p.accounts[name], session)
    && !Banned(p, session, name)
    && !(session != "" && session in p.bound && p.bound[session].account == name)
  }

  // ---- Eviction ----

  function Recency(a: Account): int {
    if a.cooldownUntil > a.lastSuccessAt then a.cooldownUntil else a.lastSuccessAt
  }

  /** Never verified accounts go first, then the least recently active. */
  predicate EvictFirst(a: Account, b: Account) {
    if a.verified != b.verified then !a.verified else Recency(a) < Recency(b)
  }

  lemma EvictFirstIsRanking(a: Account, b: Account, c: Account)
    ensures !(EvictFirst(a, b) && EvictFirst(b, a))
    ensures !EvictFirst(b, a) && !EvictFirst(c, b) ==> !EvictFirst(c, a)
  {
  }

  function Evict(p: Pool, name: string): Pool {
    p.(accounts := p.accounts - {name},
       bound := map s | s in p.bound && p.bound[s].account != name :: p.bound[s])
  }

  /** name may go before keep and before every other account. */
  predicate Evictable(p: Pool, keep: string, name: string) {
    name in p.accounts && name != keep
    && forall other :: other in p.accounts && other != keep ==> !EvictFirst(p.accounts[other], p.accounts[name])
  }

  /** q is p brought back to the limit by evicting one evictable account after another. */
  ghost predicate Trimmed(p: Pool, keep: string, limit: nat, evicted: seq<string>, q: Pool)
    decreases |evicted|
  {
    if |p.accounts| <= limit || p.accounts.Keys <= {keep} then evicted == [] && q == p
    else evicted != [] && Evictable(p, keep, evicted[0]) && Trimmed(Evict(p, evicted[0]), keep, limit, evicted[1..], q)
  }

  // ---- Hand-out and return ----

  function Take(a: Account, session: string): Account {
    a.(active := a.active + 1,
       sessions := if session == "" then a.sessions else a.sessions[session := SessionCount(a, session) + 1])
  }

  function Return(a: Account, session: string): Account {
    var b := a.(active := if a.active > 0 then a.active - 1 else 0);
    if session == "" then b
    else if SessionCount(b, session) > 1 then b.(sessions := b.sessions[session := b.sessions[session] - 1])
    else b.(sessions := b.sessions - {session})
  }

  function Bind(p: Pool, session: string, name: string, now: int): Pool {
    if session == "" then p else p.(bound := p.bound[session := Binding(name, now)])
  }

  function HandOut(p: Pool, session: string, name: string, now: int): Pool
    requires name in p.accounts
  {
    var b := Bind(p, session, name, now);
    b.(accounts := b.accounts[name := Take(b.accounts[name], session)])
  }

  /** What a pick may do: keep the sticky account; else move to a best candidate; else create
      the account newName, which may push others out. */
  ghost predicate PickStep(p0: Pool, now: int, session: string, newName: string, name: string, evicted: seq<string>, p': Pool) {
    var p := Prune(p0, now);
    if Sticky(p, now, session).Some? then
      name == Sticky(p, now, session).value && evicted == [] && p' == HandOut(p, session, name, now)
    else if exists c :: Candidate(p, now, session, c) then
      && Candidate(p, now, session, name) && evicted == []
      && (forall c :: Candidate(p, now, session, c) ==> !Better(p.accounts[c], p.accounts[name]))
      && p' == HandOut(p, session, name, now)
    else
      && name == newName
      && exists q: Pool :: name in q.accounts && p' == HandOut(q, session, name, now)
                     && Trimmed(p.(accounts := p.accounts[newName := NEW_ACCOUNT]), newName, MAX_ACCOUNTS, evicted, q)
  }

  /** The pick of a keyed channel: its one account or nothing. */
  function FixedStep(p0: Pool, now: int, session: string, account: string): (Pool, bool) {
    var p := Prune(p0, now);
    var q := if account in p.accounts then p else p.(accounts := p.accounts[account := NEW_ACCOUNT]);
    if Usable(q.accounts[account], now) && SessionAvailable(q.accounts[account], session) && !Banned(q, session, account)
    then (HandOut(q, session, account, now), true)
    else (q, false)
  }

  // ---- The lease invariant ----

  ghost function On(leases: map<nat, Lease>, name: string): set<nat> {
    set id | id in leases && leases[id].account == name
  }

  ghost function Held(leases: map<nat, Lease>, name: string, session: string): set<nat> {
    set id | id in leases && leases[id] == Lease(name, session)
  }

  /** Active count and session table of one account mirror its open leases. */
  ghost predicate AccountInv(a: Account, name: string, leases: map<nat, Lease>) {
    && a.active == |On(leases, name)| && a.active <= ACCOUNT_LIMIT
    && |a.sessions| <= ACCOUNT_SESSIONS
    && (forall s :: s in a.sessions ==> s != "" && a.sessions[s] > 0)
    && (forall s :: s != "" ==> SessionCount(a, s) == |Held(leases, name, s)|)
  }

  ghost predicate Inv(p: Pool, leases: map<nat, Lease>) {
    && (forall name :: name in p.accounts ==> AccountInv(p.accounts[name], name, leases))
    && (forall id :: id in leases ==> leases[id].account in p.accounts)
  }

  /** Two leases of one account that carry a session carry the same one. */
  lemma OneSessionPerAccount(p: Pool, leases: map<nat, Lease>, i: nat, j: nat)
    requires Inv(p, leases) && i in leases && j in leases && leases[i].account == leases[j].account
    requires leases[i].session != "" && leases[j].session != ""
    ensures leases[i].session == leases[j].session
  {
    var a := p.accounts[leases[i].account];
    HeldIsCounted(a, leases, i);
    HeldIsCounted(a, leases, j);
    assert leases[i].session in a.sessions && leases[j].session in a.sessions;
    if leases[i].session != leases[j].session {
      SubsetSize({leases[i].session, leases[j].session}, a.sessions.Keys);
    }
  }

  lemma HeldIsCounted(a: Account, leases: map<nat, Lease>, id: nat)
    requires id in leases && leases[id].session != "" && AccountInv(a, leases[id].account, leases)
    ensures leases[id].session in a.sessions
  {
    var held := Held(leases, leases[id].account, leases[id].session);
    SubsetSize({id}, held);
  }

  lemma HandOutKeepsInv(p: Pool, leases: map<nat, Lease>, id: nat, session: string, name: string, now: int)
    requires Inv(p, leases) && id !in leases && name in p.accounts
    requires p.accounts[name].active < ACCOUNT_LIMIT && SessionAvailable(p.accounts[name], session)
    ensures Inv(HandOut(p, session, name, now), leases[id := Lease(name, session)])
  {
    var leases' := leases[id := Lease(name, session)];
    var p' := HandOut(p, session, name, now);
    HandOutChanges(p, session, name, now);
    hide HandOut, AccountInv, SessionAvailable, Take;
    forall n | n in p'.accounts ensures AccountInv(p'.accounts[n], n, leases') {
      if n == name {
        TakeKeepsAccount(p.accounts[name], name, session, leases, id);
      } else {
        OtherAccountInv(p.accounts[n], n, leases, leases', id);
      }
    }
  }

  lemma HandOutChanges(p: Pool, session: string, name: string, now: int)
    requires name in p.accounts
    ensures var p' := HandOut(p, session, name, now);
            && p'.accounts.Keys == p.accounts.Keys && p'.accounts[name] == Take(p.accounts[name], session)
            && forall n :: n in p.accounts && n != name ==> p'.accounts[n] == p.accounts[n]
  {
    hide Take;
  }

  lemma OtherAccountInv(a: Account, n: string, before: map<nat, Lease>, after: map<nat, Lease>, id: nat)
    requires forall i :: i != id ==> (i in before <==> i in after) && (i in before ==> after[i] == before[i])
    requires (id in before ==> before[id].account != n) && (id in after ==> after[id].account != n)
    ensures AccountInv(a, n, before) <==> AccountInv(a, n, after)
  {
    OtherAccountsUnchanged(n, before, after, id);
    hide On, Held;
  }

  lemma OtherAccountsUnchanged(n: string, before: map<nat, Lease>, after: map<nat, Lease>, id: nat)
    requires forall i :: i != id ==> (i in before <==> i in after) && (i in before ==> after[i] == before[i])
    requires (id in before ==> before[id].account != n) && (id in after ==> after[id].account != n)
    ensures On(after, n) == On(before, n) && forall s :: Held(after, n, s) == Held(before, n, s)
  {
  }

  lemma LeaseAddedOn(leases: map<nat, Lease>, id: nat, l: Lease, n: string)
    requires id !in leases
    ensures |On(leases[id := l], n)| == |On(leases, n)| + if n == l.account then 1 else 0
  {
    assert On(leases[id := l], n) == if n == l.account then On(leases, n) + {id} else On(leases, n);
  }

  lemma LeaseAddedHeld(leases: map<nat, Lease>, id: nat, l: Lease, n: string, s: string)
    requires id !in leases
    ensures |Held(leases[id := l], n, s)| == |Held(leases, n, s)| + if Lease(n, s) == l then 1 else 0
  {
    assert Held(leases[id := l], n, s) == if Lease(n, s) == l then Held(leases, n, s) + {id} else Held(leases, n, s);
  }

  lemma LeaseAdded(leases: map<nat, Lease>, id: nat, l: Lease, n: string)
    requires id !in leases
    ensures |On(leases[id := l], n)| == |On(leases, n)| + if n == l.account then 1 else 0
    ensures forall s :: |Held(leases[id := l], n, s)| == |Held(leases, n, s)| + if Lease(n, s) == l then 1 else 0
  {
    hide *;
    LeaseAddedOn(leases, id, l, n);
    forall s ensures |Held(leases[id := l], n, s)| == |Held(leases, n, s)| + if Lease(n, s) == l then 1 else 0 {
      LeaseAddedHeld(leases, id, l, n, s);
    }
  }

  lemma TakeKeepsAccount(a: Account, name: string, session: string, leases: map<nat, Lease>, id: nat)
    requires AccountInv(a, name, leases) && id !in leases && a.active < ACCOUNT_LIMIT && SessionAvailable(a, session)
    ensures AccountInv(Take(a, session), name, leases[id := Lease(name, session)])
  {
    hide On, Held;
    LeaseAdded(leases, id, Lease(name, session), name);
    var b := Take(a, session);
    if session != "" {
      if session !in a.sessions {
        assert |a.sessions| == 0 && a.sessions.Keys == {} && b.sessions.Keys == {session};
        assert |b.sessions| == |b.sessions.Keys| == 1;
      } else {
        assert b.sessions.Keys == a.sessions.Keys;
        assert |b.sessions| == |a.sessions|;
      }
    }
    forall s | s != "" ensures SessionCount(b, s) == |Held(leases[id := Lease(name, session)], name, s)| {
      assert SessionCount(a, s) == |Held(leases, name, s)|;
      assert SessionCount(b, s) == SessionCount(a, s) + if s == session then 1 else 0;
      assert |Held(leases[id := Lease(name, session)], name, s)| == |Held(leases, name, s)| + if s == session then 1 else 0;
    }
  }

  lemma ReturnKeepsAccount(a: Account, name: string, leases: map<nat, Lease>, id: nat)
    requires AccountInv(a, name, leases) && id in leases && leases[id].account == name
    ensures AccountInv(Return(a, leases[id].session), name, leases - {id})
  {
    hide On, Held, Return;
    var rest := leases - {id};
    var session := leases[id].session;
    assert rest[id := leases[id]] == leases;
    LeaseAdded(rest, id, leases[id], name);
    assert a.active > 0 && (session != "" ==> SessionCount(a, session) > 0);
    ReturnCounts(a, session);
  }

  lemma ReturnCounts(a: Account, session: string)
    requires a.active > 0 && (session != "" ==> SessionCount(a, session) > 0)
    ensures var b := Return(a, session);
            && b.active == a.active - 1 && |b.sessions| <= |a.sessions|
            && (forall s :: s in b.sessions ==> s in a.sessions && (b.sessions[s] > 0 || a.sessions[s] == 0))
            && forall s :: s != "" ==> SessionCount(b, s) == SessionCount(a, s) - if s == session then 1 else 0
  {
    SubsetSize(Return(a, session).sessions.Keys, a.sessions.Keys);
  }

  // ---- Eviction and open leases ----

  lemma EvictionTakesNoLease(p: Pool, leases: map<nat, Lease>, name: string)
    requires Inv(p, leases) && name in p.accounts
    ensures Inv(Evict(p, name), leases) <==> On(leases, name) == {}
  {
    var q := Evict(p, name);
    if On(leases, name) == {} {
      forall id | id in leases ensures leases[id].account in q.accounts {
        assert id !in On(leases, name);
      }
    } else {
      var id :| id in On(leases, name);
      assert leases[id].account !in q.accounts;
    }
  }

  /** Trimming keeps the accounting exactly when no evicted account carried a lease. */
  lemma {:induction false} TrimKeepsInv(p: Pool, keep: string, limit: nat, evicted: seq<string>, q: Pool, leases: map<nat, Lease>)
    requires Trimmed(p, keep, limit, evicted, q) && Inv(p, leases)
    ensures Inv(q, leases) <==> forall name :: name in evicted ==> On(leases, name) == {}
    decreases |evicted|
  {
    hide Trimmed, Inv, On, Evict;
    TrimmedStep(p, keep, limit, evicted, q);
    if evicted != [] {
      var name := evicted[0];
      NoneLeased(leases, evicted);
      EvictionTakesNoLease(p, leases, name);
      if On(leases, name) == {} {
        TrimKeepsInv(Evict(p, name), keep, limit, evicted[1..], q, leases);
      } else {
        TrimShrinks(p, keep, limit, evicted, q);
        LostLeaseBreaksInv(q, leases, name);
      }
    }
  }

  lemma TrimmedStep(p: Pool, keep: string, limit: nat, evicted: seq<string>, q: Pool)
    requires Trimmed(p, keep, limit, evicted, q)
    ensures evicted == [] ==> q == p
    ensures evicted != [] ==> evicted[0] in p.accounts && Trimmed(Evict(p, evicted[0]), keep, limit, evicted[1..], q)
  {
  }

  lemma NoneLeased(leases: map<nat, Lease>, evicted: seq<string>)
    requires evicted != []
    ensures (forall name :: name in evicted ==> On(leases, name) == {})
       <==> On(leases, evicted[0]) == {} && forall name :: name in evicted[1..] ==> On(leases, name) == {}
  {
    hide On;
    assert evicted == [evicted[0]] + evicted[1..];
  }

  lemma LostLeaseBreaksInv(q: Pool, leases: map<nat, Lease>, name: string)
    requires On(leases, name) != {} && name !in q.accounts
    ensures !Inv(q, leases)
  {
    var id :| id in On(leases, name);
    assert leases[id].account !in q.accounts;
  }

  /** The accounts that go before x in every trim. */
  ghost function Earlier(p: Pool, keep: string, x: string): set<string>
    requires x in p.accounts
  {
    set o | o in p.accounts && o != keep && EvictFirst(p.accounts[o], p.accounts[x])
  }

  ghost predicate Leased(p: Pool, keep: string, leases: map<nat, Lease>, x: string) {
    x in p.accounts && x != keep && On(leases, x) != {}
  }

  /** The accounts a trim may evict without reaching a leased one: they have no lease, and no leased
      account goes before them. */
  ghost function Spare(p: Pool, keep: string, leases: map<nat, Lease>): set<string> {
    set o | o in p.accounts && o != keep && On(leases, o) == {}
            && forall x :: Leased(p, keep, leases, x) ==> !EvictFirst(p.accounts[x], p.accounts[o])
  }

  ghost predicate TrimsSafely(p: Pool, keep: string, limit: nat, leases: map<nat, Lease>, evicted: seq<string>, q: Pool) {
    Trimmed(p, keep, limit, evicted, q) && Inv(q, leases)
  }

  /** Some account may always go first. */
  lemma {:induction false} FirstOf(p: Pool, names: set<string>) returns (first: string)
    requires names <= p.accounts.Keys && names != {}
    ensures first in names && forall o :: o in names ==> !EvictFirst(p.accounts[o], p.accounts[first])
    decreases |names|
  {
    hide EvictFirst;
    var n :| n in names;
    EvictFirstIsRanking(p.accounts[n], p.accounts[n], p.accounts[n]);
    if names == {n} {
      first := n;
    } else {
      var f := FirstOf(p, names - {n});
      EvictFirstIsRanking(p.accounts[n], p.accounts[f], p.accounts[f]);
      if EvictFirst(p.accounts[n], p.accounts[f]) {
        first := n;
        forall o | o in names ensures !EvictFirst(p.accounts[o], p.accounts[n]) {
          if o != n {
            EvictFirstIsRanking(p.accounts[n], p.accounts[f], p.accounts[o]);
          }
        }
      } else {
        first := f;
      }
    }
  }

  lemma EvictedSize(p: Pool, name: string)
    requires name in p.accounts
    ensures |Evict(p, name).accounts| == |p.accounts| - 1 && Evict(p, name).accounts.Keys == p.accounts.Keys - {name}
    ensures forall o :: o in Evict(p, name).accounts ==> Evict(p, name).accounts[o] == p.accounts[o]
  {
    var q := Evict(p, name);
    assert q.accounts.Keys == p.accounts.Keys - {name};
    assert |q.accounts| == |q.accounts.Keys| && |p.accounts| == |p.accounts.Keys|;
  }

  lemma {:induction false} TrimExists(p: Pool, keep: string, limit: nat) returns (evicted: seq<string>, q: Pool)
    ensures Trimmed(p, keep, limit, evicted, q)
    decreases |p.accounts|
  {
    if |p.accounts| <= limit || p.accounts.Keys <= {keep} {
      evicted, q := [], p;
    } else {
      var name := FirstOf(p, p.accounts.Keys - {keep});
      EvictedSize(p, name);
      var rest, end := TrimExists(Evict(p, name), keep, limit);
      evicted, q := [name] + rest, end;
    }
  }

  /** Accounts in front of x are evicted in front of x: evicting one of them leaves one fewer. */
  lemma EarlierAfter(p: Pool, keep: string, x: string, name: string)
    requires x in p.accounts && name in p.accounts && x != name
    ensures Earlier(Evict(p, name), keep, x) == Earlier(p, keep, x) - {name}
    ensures |Earlier(Evict(p, name), keep, x)| >= |Earlier(p, keep, x)| - 1
    ensures name in Earlier(p, keep, x) ==> |Earlier(Evict(p, name), keep, x)| == |Earlier(p, keep, x)| - 1
  {
    hide EvictFirst;
    EvictedSize(p, name);
    var e := Earlier(p, keep, x);
    assert Earlier(Evict(p, name), keep, x) == e - {name};
    assert e == (e - {name}) + (e * {name}) && |e * {name}| <= 1 by {
      SubsetSize(e * {name}, {name});
    }
  }

  lemma {:induction false} UntouchedWhenDeep(p: Pool, keep: string, limit: nat, evicted: seq<string>, q: Pool, leases: map<nat, Lease>)
    requires Trimmed(p, keep, limit, evicted, q) && Inv(p, leases)
    requires forall x :: Leased(p, keep, leases, x) ==> |Earlier(p, keep, x)| >= |p.accounts| - limit
    ensures Inv(q, leases)
    decreases |evicted|
  {
    hide Inv, On, Evict, EvictFirst, AccountInv;
    if evicted != [] {
      var name, next := evicted[0], Evict(p, evicted[0]);
      assert Earlier(p, keep, name) == {};
      assert On(leases, name) == {};
      EvictionTakesNoLease(p, leases, name);
      EvictedSize(p, name);
      forall x | Leased(next, keep, leases, x) ensures |Earlier(next, keep, x)| >= |next.accounts| - limit {
        assert Leased(p, keep, leases, x);
        EarlierAfter(p, keep, x, name);
      }
      UntouchedWhenDeep(next, keep, limit, evicted[1..], q, leases);
    }
  }

  /** Either x itself may go next or an account in front of it. */
  lemma NextToGo(p: Pool, keep: string, x: string) returns (name: string)
    requires x in p.accounts && x != keep
    ensures name in p.accounts && Evictable(p, keep, name) && (name == x || name in Earlier(p, keep, x))
  {
    hide EvictFirst;
    name := x;
    if Earlier(p, keep, x) != {} {
      name := FirstOf(p, p.accounts.Keys - {keep});
      var o :| o in Earlier(p, keep, x);
      EvictFirstIsRanking(p.accounts[x], p.accounts[name], p.accounts[o]);
    } else {
      forall o | o in p.accounts && o != keep ensures !EvictFirst(p.accounts[o], p.accounts[x]) {
        assert o !in Earlier(p, keep, x);
      }
    }
  }

  /** An account with too few others in front of it is evicted by some trim. */
  lemma {:induction false} ShallowMayGo(p: Pool, keep: string, limit: nat, x: string) returns (evicted: seq<string>, q: Pool)
    requires x in p.accounts && x != keep && |Earlier(p, keep, x)| < |p.accounts| - limit
    ensures Trimmed(p, keep, limit, evicted, q) && x in evicted
    decreases |p.accounts|
  {
    hide Earlier, Evict, Evictable;
    var name := NextToGo(p, keep, x);
    assert name in p.accounts && !(p.accounts.Keys <= {keep});
    EvictedSize(p, name);
    var rest, end;
    if name == x {
      rest, end := TrimExists(Evict(p, name), keep, limit);
    } else {
      EarlierAfter(p, keep, x, name);
      rest, end := ShallowMayGo(Evict(p, name), keep, limit, x);
    }
    evicted, q := [name] + rest, end;
  }

  /** Every trim, however ties are broken, keeps the accounting if and only if each leased account has
      as many accounts strictly in front of it as must go. */
  lemma EveryTrimKeepsIff(p: Pool, keep: string, limit: nat, leases: map<nat, Lease>)
    requires Inv(p, leases)
    ensures (forall evicted, q: Pool :: Trimmed(p, keep, limit, evicted, q) ==> Inv(q, leases))
       <==> forall x :: Leased(p, keep, leases, x) ==> |Earlier(p, keep, x)| >= |p.accounts| - limit
  {
    hide Inv, Trimmed, Earlier;
    if forall x :: Leased(p, keep, leases, x) ==> |Earlier(p, keep, x)| >= |p.accounts| - limit {
      forall evicted, q: Pool | Trimmed(p, keep, limit, evicted, q) ensures Inv(q, leases) {
        UntouchedWhenDeep(p, keep, limit, evicted, q, leases);
      }
    } else {
      var x :| Leased(p, keep, leases, x) && |Earlier(p, keep, x)| < |p.accounts| - limit;
      var evicted, q := ShallowMayGo(p, keep, limit, x);
      TrimKeepsInv(p, keep, limit, evicted, q, leases);
    }
  }

  lemma SpareAfter(p: Pool, keep: string, leases: map<nat, Lease>, name: string)
    requires name in Spare(p, keep, leases)
    ensures Spare(Evict(p, name), keep, leases) == Spare(p, keep, leases) - {name}
    ensures |Spare(Evict(p, name), keep, leases)| == |Spare(p, keep, leases)| - 1
  {
    hide EvictFirst, On, Evict;
    var q := Evict(p, name);
    EvictedSize(p, name);
    assert forall x :: Leased(q, keep, leases, x) <==> Leased(p, keep, leases, x);
    assert Spare(q, keep, leases) == Spare(p, keep, leases) - {name};
  }

  /** Of the spare accounts the first one may be evicted. */
  lemma SpareMayGo(p: Pool, keep: string, leases: map<nat, Lease>) returns (name: string)
    requires Spare(p, keep, leases) != {}
    ensures name in Spare(p, keep, leases) && Evictable(p, keep, name)
  {
    hide EvictFirst, On;
    name := FirstOf(p, Spare(p, keep, leases));
    forall o | o in p.accounts && o != keep ensures !EvictFirst(p.accounts[o], p.accounts[name]) {
      if EvictFirst(p.accounts[o], p.accounts[name]) {
        BeforeSpareIsSpare(p, keep, leases, name, o);
      }
    }
  }

  lemma BeforeSpareIsSpare(p: Pool, keep: string, leases: map<nat, Lease>, name: string, o: string)
    requires name in Spare(p, keep, leases) && o in p.accounts && o != keep
    requires EvictFirst(p.accounts[o], p.accounts[name])
    ensures o in Spare(p, keep, leases)
  {
    hide EvictFirst, On;
    EvictFirstIsRanking(p.accounts[o], p.accounts[name], p.accounts[o]);
    forall x | Leased(p, keep, leases, x) ensures !EvictFirst(p.accounts[x], p.accounts[o]) {
      OrderIsTransitive(p.accounts[x], p.accounts[o], p.accounts[name]);
    }
  }

  lemma OrderIsTransitive(a: Account, b: Account, c: Account)
    ensures EvictFirst(a, b) && EvictFirst(b, c) ==> EvictFirst(a, c)
  {
  }

  lemma {:induction false} SpareTrim(p: Pool, keep: string, limit: nat, leases: map<nat, Lease>) returns (evicted: seq<string>, q: Pool)
    requires Inv(p, leases) && |Spare(p, keep, leases)| >= |p.accounts| - limit
    ensures TrimsSafely(p, keep, limit, leases, evicted, q)
    decreases |p.accounts|
  {
    hide Inv, Evict, Evictable, AccountInv;
    if |p.accounts| <= limit || p.accounts.Keys <= {keep} {
      evicted, q := [], p;
    } else {
      var name := SpareMayGo(p, keep, leases);
      SpareAfter(p, keep, leases, name);
      EvictedSize(p, name);
      EvictionTakesNoLease(p, leases, name);
      var rest, end := SpareTrim(Evict(p, name), keep, limit, leases);
      evicted, q := [name] + rest, end;
    }
  }

  lemma {:induction false} SafeTrimNeedsSpare(p: Pool, keep: string, limit: nat, leases: map<nat, Lease>, evicted: seq<string>, q: Pool)
    requires Inv(p, leases) && TrimsSafely(p, keep, limit, leases, evicted, q) && limit > 0
    ensures |Spare(p, keep, leases)| >= |p.accounts| - limit
    decreases |evicted|
  {
    hide Inv, Evict, EvictFirst, AccountInv;
    if evicted == [] {
      if p.accounts.Keys <= {keep} {
        SubsetSize(p.accounts.Keys, {keep});
        assert |p.accounts| == |p.accounts.Keys|;
      }
    } else {
      var name := evicted[0];
      TrimKeepsInv(p, keep, limit, evicted, q, leases);
      assert name in evicted && On(leases, name) == {};
      assert name in Spare(p, keep, leases);
      EvictionTakesNoLease(p, leases, name);
      SpareAfter(p, keep, leases, name);
      EvictedSize(p, name);
      SafeTrimNeedsSpare(Evict(p, name), keep, limit, leases, evicted[1..], q);
    }
  }

  /** Some trim keeps the accounting if and only if there are enough spare accounts; otherwise every
      trim loses a lease. */
  lemma SomeTrimKeepsIff(p: Pool, keep: string, limit: nat, leases: map<nat, Lease>)
    requires Inv(p, leases) && limit > 0
    ensures (exists evicted, q: Pool :: TrimsSafely(p, keep, limit, leases, evicted, q))
       <==> |Spare(p, keep, leases)| >= |p.accounts| - limit
  {
    hide Inv, Trimmed, Spare;
    if |Spare(p, keep, leases)| >= |p.accounts| - limit {
      var evicted, q := SpareTrim(p, keep, limit, leases);
    }
    forall evicted, q: Pool | TrimsSafely(p, keep, limit, leases, evicted, q) ensures |Spare(p, keep, leases)| >= |p.accounts| - limit {
      SafeTrimNeedsSpare(p, keep, limit, leases, evicted, q);
    }
  }

  lemma {:induction false} TrimShrinks(p: Pool, keep: string, limit: nat, evicted: seq<string>, q: Pool)
    requires Trimmed(p, keep, limit, evicted, q)
    ensures q.accounts.Keys <= p.accounts.Keys && (forall name :: name in evicted ==> name !in q.accounts)
    ensures keep in p.accounts ==> keep in q.accounts && q.accounts[keep] == p.accounts[keep]
    ensures forall s :: s in q.bound <==> s in p.bound && p.bound[s].account !in evicted
    ensures forall s :: s in q.bound ==> q.bound[s] == p.bound[s]
    ensures q.banned == p.banned && q.votes == p.votes
    decreases |evicted|
  {
    if evicted != [] {
      TrimShrinks(Evict(p, evicted[0]), keep, limit, evicted[1..], q);
      assert evicted == [evicted[0]] + evicted[1..];
    }
  }

  lemma NewAccountKeepsInv(p: Pool, leases: map<nat, Lease>, name: string)
    requires Inv(p, leases) && name !in p.accounts
    ensures Inv(p.(accounts := p.accounts[name := NEW_ACCOUNT]), leases)
  {
    assert On(leases, name) == {};
    forall s ensures Held(leases, name, s) == {} {
      assert Held(leases, name, s) <= On(leases, name);
    }
  }

  // ---- Picks from a full pool ----

  /** The session of a pick has no account to keep and none to move to, so it gets a new one. */
  ghost predicate NeedsAccount(p0: Pool, now: int, session: string) {
    Sticky(Prune(p0, now), now, session).None? && forall c :: !Candidate(Prune(p0, now), now, session, c)
  }

  function Grown(p: Pool, name: string): Pool {
    p.(accounts := p.accounts[name := NEW_ACCOUNT])
  }

  lemma PickGrows(p0: Pool, now: int, session: string, newName: string, name: string, evicted: seq<string>, p': Pool)
      returns (q: Pool)
    requires NeedsAccount(p0, now, session) && PickStep(p0, now, session, newName, name, evicted, p')
    ensures name == newName && name in q.accounts && p' == HandOut(q, session, name, now)
    ensures Trimmed(Grown(Prune(p0, now), newName), newName, MAX_ACCOUNTS, evicted, q)
  {
    hide Prune, Sticky, Candidate, HandOut, Trimmed;
    q :| name in q.accounts && p' == HandOut(q, session, name, now)
         && Trimmed(Prune(p0, now).(accounts := Prune(p0, now).accounts[newName := NEW_ACCOUNT]), newName, MAX_ACCOUNTS, evicted, q);
  }

  /** Handing out a slot neither brings back a lost lease nor loses one. */
  lemma HandOutKeepsLost(q: Pool, leases: map<nat, Lease>, id: nat, session: string, name: string, now: int)
    requires name in q.accounts && id !in leases && On(leases, name) == {} && q.accounts[name] == NEW_ACCOUNT
    ensures Inv(HandOut(q, session, name, now), leases[id := Lease(name, session)]) <==> Inv(q, leases)
  {
    var p', leases' := HandOut(q, session, name, now), leases[id := Lease(name, session)];
    if Inv(q, leases) {
      HandOutKeepsInv(q, leases, id, session, name, now);
    }
    if Inv(p', leases') {
      HandOutChanges(q, session, name, now);
      UnleasedAccount(name, leases);
      hide HandOut, AccountInv, On, Take;
      forall n | n in q.accounts ensures AccountInv(q.accounts[n], n, leases) {
        if n != name {
          OtherAccountInv(q.accounts[n], n, leases, leases', id);
        }
      }
      forall i | i in leases ensures leases[i].account in q.accounts {
        assert leases'[i] == leases[i];
      }
    }
  }

  lemma UnleasedAccount(name: string, leases: map<nat, Lease>)
    requires On(leases, name) == {}
    ensures AccountInv(NEW_ACCOUNT, name, leases)
  {
    forall s ensures Held(leases, name, s) == {} {
      assert Held(leases, name, s) <= On(leases, name);
    }
  }

  ghost predicate PicksSafely(p0: Pool, leases: map<nat, Lease>, now: int, session: string, newName: string, id: nat,
                              name: string, evicted: seq<string>, p': Pool)
  {
    PickStep(p0, now, session, newName, name, evicted, p') && Inv(p', leases[id := Lease(name, session)])
  }

  lemma SpareOfGrown(p: Pool, newName: string, leases: map<nat, Lease>)
    requires newName !in p.accounts
    ensures Spare(Grown(p, newName), newName, leases) == Spare(p, newName, leases)
    ensures |Grown(p, newName).accounts| == |p.accounts| + 1
  {
    hide EvictFirst, On;
    var g := Grown(p, newName);
    GrownSize(p, newName);
    forall x ensures Leased(g, newName, leases, x) <==> Leased(p, newName, leases, x) {
    }
    forall o ensures o in Spare(g, newName, leases) <==> o in Spare(p, newName, leases) {
      if o in p.accounts && o != newName {
        assert g.accounts[o] == p.accounts[o];
      }
    }
  }

  lemma GrownSize(p: Pool, newName: string)
    requires newName !in p.accounts
    ensures |Grown(p, newName).accounts| == |p.accounts| + 1
    ensures forall o :: o != newName ==> (o in Grown(p, newName).accounts <==> o in p.accounts)
    ensures forall o :: o in p.accounts ==> Grown(p, newName).accounts[o] == p.accounts[o]
  {
    var g := Grown(p, newName);
    assert g.accounts.Keys == p.accounts.Keys + {newName};
    assert |g.accounts| == |g.accounts.Keys| && |p.accounts| == |p.accounts.Keys|;
  }

  lemma PruneKeepsSpare(p0: Pool, now: int, newName: string, leases: map<nat, Lease>)
    ensures Prune(p0, now).accounts == p0.accounts && Spare(Prune(p0, now), newName, leases) == Spare(p0, newName, leases)
    ensures Inv(Prune(p0, now), leases) <==> Inv(p0, leases)
  {
    hide EvictFirst, On;
    var p := Prune(p0, now);
    assert forall x :: Leased(p, newName, leases, x) <==> Leased(p0, newName, leases, x);
  }

  /** A pick that needs a new account can keep the accounting if and only if there are as many spare
      accounts as have to go. From a full pool without any it always loses a lease. */
  lemma PickKeepsIff(p0: Pool, leases: map<nat, Lease>, now: int, session: string, newName: string, id: nat)
    requires Inv(p0, leases) && id !in leases && newName !in p0.accounts && NeedsAccount(p0, now, session)
    ensures (exists name, evicted, p': Pool :: PicksSafely(p0, leases, now, session, newName, id, name, evicted, p'))
       <==> |Spare(p0, newName, leases)| >= |p0.accounts| + 1 - MAX_ACCOUNTS
  {
    hide Inv, Prune, Trimmed, Spare, NeedsAccount, PickStep, HandOut, On;
    var p := Prune(p0, now);
    PruneKeepsSpare(p0, now, newName, leases);
    SpareOfGrown(p, newName, leases);
    var g := Grown(p, newName);
    NewAccountKeepsInv(p, leases, newName);
    NewIsUnleased(p, leases, newName);
    if |Spare(p0, newName, leases)| >= |p0.accounts| + 1 - MAX_ACCOUNTS {
      var evicted, q := SpareTrim(g, newName, MAX_ACCOUNTS, leases);
      TrimShrinks(g, newName, MAX_ACCOUNTS, evicted, q);
      HandOutKeepsLost(q, leases, id, session, newName, now);
      PickByGrowing(p0, now, session, newName, evicted, q);
      assert PicksSafely(p0, leases, now, session, newName, id, newName, evicted, HandOut(q, session, newName, now));
    }
    forall name, evicted, p': Pool | PicksSafely(p0, leases, now, session, newName, id, name, evicted, p')
      ensures |Spare(p0, newName, leases)| >= |p0.accounts| + 1 - MAX_ACCOUNTS
    {
      var q := PickGrows(p0, now, session, newName, name, evicted, p');
      TrimShrinks(g, newName, MAX_ACCOUNTS, evicted, q);
      HandOutKeepsLost(q, leases, id, session, newName, now);
      SafeTrimNeedsSpare(g, newName, MAX_ACCOUNTS, leases, evicted, q);
    }
  }

  lemma NewIsUnleased(p: Pool, leases: map<nat, Lease>, name: string)
    requires Inv(p, leases) && name !in p.accounts
    ensures On(leases, name) == {}
  {
  }

  lemma PickByGrowing(p0: Pool, now: int, session: string, newName: string, evicted: seq<string>, q: Pool)
    requires NeedsAccount(p0, now, session) && newName in q.accounts
    requires Trimmed(Grown(Prune(p0, now), newName), newName, MAX_ACCOUNTS, evicted, q)
    ensures PickStep(p0, now, session, newName, newName, evicted, HandOut(q, session, newName, now))
  {
    hide Prune, Sticky, Candidate, HandOut, Trimmed;
  }

  function OneLease(session: string): Account {
    NEW_ACCOUNT.(active := 1, sessions := map[session := 1])
  }

  /** The n-th of many different names. */
  function Name(n: nat): string {
    seq(n + 1, _ => 'a')
  }

  ghost function NamesTo(size: nat): set<string> {
    set n: nat | n < size :: Name(n)
  }

  /** size accounts with one request each, every one of a session of its own. */
  ghost function LeasedPool(size: nat): Pool {
    Pool(map name | name in NamesTo(size) :: OneLease(name), map[], map[], map[])
  }

  ghost function LeasesOf(size: nat): map<nat, Lease> {
    map n: nat | n < size :: Lease(Name(n), Name(n))
  }

  lemma NamesDiffer(i: nat, j: nat)
    ensures Name(i) == Name(j) ==> i == j
  {
    assert |Name(i)| == i + 1 && |Name(j)| == j + 1;
  }

  lemma {:induction false} NamesToSize(size: nat)
    ensures |NamesTo(size)| == size
    decreases size
  {
    hide Name;
    if size == 0 {
      assert NamesTo(0) == {};
    } else {
      NamesToSize(size - 1);
      var fewer, last := NamesTo(size - 1), Name(size - 1);
      if last in fewer {
        var n: nat :| n < size - 1 && Name(n) == last;
        NamesDiffer(n, size - 1);
      }
      assert NamesTo(size) == fewer + {last};
    }
  }

  lemma LeasedPoolSize(size: nat)
    ensures |LeasedPool(size).accounts| == size
  {
    NamesToSize(size);
    hide NamesTo;
    assert LeasedPool(size).accounts.Keys == NamesTo(size);
    assert |LeasedPool(size).accounts| == |LeasedPool(size).accounts.Keys|;
  }

  lemma LeasedPoolIsConsistent(size: nat)
    ensures Inv(LeasedPool(size), LeasesOf(size)) && Spare(LeasedPool(size), "b", LeasesOf(size)) == {}
    ensures "b" !in LeasedPool(size).accounts && size !in LeasesOf(size)
  {
    hide AccountInv, OneLease, Name, On;
    var p, leases := LeasedPool(size), LeasesOf(size);
    forall name | name in p.accounts ensures AccountInv(p.accounts[name], name, leases) && On(leases, name) != {} {
      var n: nat :| n < size && Name(n) == name;
      NamedAccount(size, n);
      forall i | i in leases && i != n ensures leases[i].account != name {
        NamesDiffer(i, n);
      }
      OneLeaseCounts(leases, n, name, name);
      LeaseIsOn(leases, n);
    }
    if "b" in NamesTo(size) {
      var n: nat :| n < size && Name(n) == "b";
      NameStartsWithA(n);
    }
  }

  lemma NameStartsWithA(n: nat)
    ensures Name(n) != "b" && Name(n) != ""
  {
    assert Name(n)[0] == 'a';
  }

  lemma NamedAccount(size: nat, n: nat)
    requires n < size
    ensures Name(n) in LeasedPool(size).accounts && LeasedPool(size).accounts[Name(n)] == OneLease(Name(n)) && Name(n) != ""
  {
    NameStartsWithA(n);
    hide OneLease;
  }

  lemma LeaseIsOn(leases: map<nat, Lease>, id: nat)
    requires id in leases
    ensures On(leases, leases[id].account) != {}
  {
    assert id in On(leases, leases[id].account);
  }

  /** An account that serves another session is no candidate. */
  lemma LeasedPoolIsTaken(size: nat, now: int)
    ensures NeedsAccount(LeasedPool(size), now, "b")
  {
    var p := Prune(LeasedPool(size), now);
    forall c ensures !Candidate(p, now, "b", c) {
      if c in p.accounts {
        var n: nat :| n < size && Name(n) == c;
        NameStartsWithA(n);
        NamedAccount(size, n);
        assert OneLease(c).sessions.Keys == {c};
        assert |OneLease(c).sessions| == |OneLease(c).sessions.Keys|;
      }
    }
  }

  /** An instance: 30000 accounts with one request each are consistent, and the next session's pick
      evicts one of them and forgets its lease, whichever it takes. */
  lemma FullPoolLosesLease(now: int)
    ensures var p0, leases := LeasedPool(MAX_ACCOUNTS), LeasesOf(MAX_ACCOUNTS);
            && Inv(p0, leases) && |p0.accounts| == MAX_ACCOUNTS && "b" !in p0.accounts && NeedsAccount(p0, now, "b")
            && forall name, evicted, p': Pool :: PickStep(p0, now, "b", "b", name, evicted, p') ==>
                 !Inv(p', leases[MAX_ACCOUNTS := Lease(name, "b")])
  {
    var size: nat := MAX_ACCOUNTS;
    LosesLease(size, now);
  }

  lemma LosesLease(size: nat, now: int)
    requires size == MAX_ACCOUNTS
    ensures var p0, leases := LeasedPool(size), LeasesOf(size);
            && Inv(p0, leases) && |p0.accounts| == size && "b" !in p0.accounts && NeedsAccount(p0, now, "b")
            && forall name, evicted, p': Pool :: PickStep(p0, now, "b", "b", name, evicted, p') ==>
                 !Inv(p', leases[size := Lease(name, "b")])
  {
    hide Inv, Spare, NeedsAccount, PickStep, LeasedPool, LeasesOf;
    var p0, leases := LeasedPool(size), LeasesOf(size);
    LeasedPoolSize(size);
    LeasedPoolIsConsistent(size);
    LeasedPoolIsTaken(size, now);
    PickKeepsIff(p0, leases, now, "b", "b", size);
    forall name, evicted, p': Pool | PickStep(p0, now, "b", "b", name, evicted, p') ensures !Inv(p', leases[size := Lease(name, "b")]) {
      assert !PicksSafely(p0, leases, now, "b", "b", size, name, evicted, p');
    }
  }

  lemma OneLeaseCounts(leases: map<nat, Lease>, id: nat, name: string, session: string)
    requires id in leases && leases[id] == Lease(name, session) && session != ""
    requires forall i :: i in leases && i != id ==> leases[i].account != name
    ensures AccountInv(OneLease(session), name, leases)
  {
    assert On(leases, name) == {id};
    assert OneLease(session).sessions.Keys == {session};
    assert |OneLease(session).sessions| == |OneLease(session).sessions.Keys|;
    forall s | s != "" ensures SessionCount(OneLease(session), s) == |Held(leases, name, s)| {
      assert Held(leases, name, s) == if s == session then {id} else {};
    }
  }

  // ---- Runs ----

  datatype Mark = Succeeded(now: nat) | Cooled(until: int) | Failed(now: nat)

  function Marked(a: Account, m: Mark): Account {
    match m
    case Succeeded(now) => SucceedInMemory(a, now)
    case Cooled(until) => CoolInMemory(a, until)
    case Failed(now) => FailInMemory(a, now).0
  }

  /** account in Vote is the one the session was refused on; the pool does not look at it. */
  datatype Step =
    | Pick(now: int, session: string, newName: string, name: string, id: nat, evicted: seq<string>)
    | PickFixed(now: int, session: string, account: string, id: nat, picked: bool)
    | Release(id: nat)
    | Ban(now: int, session: string, account: string)
    | Vote(now: int, session: string, account: string, quorum: bool)
    | MarkAccount(account: string, mark: Mark, evicted: seq<string>)

  ghost predicate MarkStep(p: Pool, name: string, m: Mark, evicted: seq<string>, p': Pool) {
    exists q: Pool :: && name in q.accounts && p' == q.(accounts := q.accounts[name := Marked(q.accounts[name], m)])
                      && if name in p.accounts then q == p && evicted == []
                         else Trimmed(p.(accounts := p.accounts[name := NEW_ACCOUNT]), name, MAX_ACCOUNTS, evicted, q)
  }

  function BanStep(p: Pool, now: int, session: string, account: string): Pool {
    var bans := if session in p.banned then p.banned[session] else map[];
    var q := p.(banned := p.banned[session := bans[account := now]]);
    if session in p.bound && p.bound[session].account == account then q.(bound := q.bound - {session}) else q
  }

  function VoteStep(p0: Pool, now: int, session: string): (Pool, bool) {
    var p := Prune(p0, now);
    var votes := p.votes[session := now];
    if |votes| < VOTE_QUORUM then (p.(votes := votes), false) else (p.(votes := map[]), true)
  }

  function ReleaseStep(p: Pool, l: Lease): Pool {
    if l.account !in p.accounts then p
    else p.(accounts := p.accounts[l.account := Return(p.accounts[l.account], l.session)])
  }

  /** One operation of the pool together with the set of open leases. */
  ghost predicate Next(p: Pool, leases: map<nat, Lease>, step: Step, p': Pool, leases': map<nat, Lease>) {
    match step
    case Pick(now, session, newName, name, id, evicted) =>
      newName !in p.accounts && id !in leases && PickStep(p, now, session, newName, name, evicted, p')
      && leases' == leases[id := Lease(name, session)]
    case PickFixed(now, session, account, id, picked) =>
      id !in leases && (p', picked) == FixedStep(p, now, session, account)
      && leases' == if picked then leases[id := Lease(account, session)] else leases
    case Release(id) => id in leases && p' == ReleaseStep(p, leases[id]) && leases' == leases - {id}
    case Ban(now, session, account) => p' == BanStep(p, now, session, account) && leases' == leases
    case Vote(now, session, account, quorum) => (p', quorum) == VoteStep(p, now, session) && leases' == leases
    case MarkAccount(account, mark, evicted) => MarkStep(p, account, mark, evicted, p') && leases' == leases
  }

  function Evicted(step: Step): seq<string> {
    if step.Pick? || step.MarkAccount? then step.evicted else []
  }

  /** Each step keeps the accounting as long as it evicts no leased account. */
  lemma StepKeepsInv(p: Pool, leases: map<nat, Lease>, step: Step, p': Pool, leases': map<nat, Lease>)
    requires Inv(p, leases) && Next(p, leases, step, p', leases')
    requires forall name :: name in Evicted(step) ==> On(leases, name) == {}
    ensures Inv(p', leases')
  {
    match step
    case Pick(now, session, newName, name, id, evicted) =>
      PickKeepsInv(p, leases, now, session, newName, name, evicted, id, p');
    case PickFixed(now, session, account, id, picked) =>
      FixedKeepsInv(p, leases, now, session, account, id);
    case Release(id) =>
      ReleaseKeepsInv(p, leases, id);
    case Ban(now, session, account) =>
    case Vote(now, session, account, quorum) =>
    case MarkAccount(account, mark, evicted) =>
      MarkKeepsInv(p, leases, account, mark, evicted, p');
  }

  lemma PickKeepsInv(p: Pool, leases: map<nat, Lease>, now: int, session: string, newName: string, name: string,
                     evicted: seq<string>, id: nat, p': Pool)
    requires Inv(p, leases) && newName !in p.accounts && id !in leases
    requires PickStep(p, now, session, newName, name, evicted, p')
    requires forall n :: n in evicted ==> On(leases, n) == {}
    ensures Inv(p', leases[id := Lease(name, session)])
  {
    var pruned := Prune(p, now);
    assert Inv(pruned, leases);
    if Sticky(pruned, now, session).Some? || exists c :: Candidate(pruned, now, session, c) {
      HandOutKeepsInv(pruned, leases, id, session, name, now);
    } else {
      var grown := pruned.(accounts := pruned.accounts[newName := NEW_ACCOUNT]);
      var q: Pool :| name in q.accounts && p' == HandOut(q, session, name, now) && Trimmed(grown, newName, MAX_ACCOUNTS, evicted, q);
      NewAccountKeepsInv(pruned, leases, newName);
      TrimShrinks(grown, newName, MAX_ACCOUNTS, evicted, q);
      TrimKeepsInv(grown, newName, MAX_ACCOUNTS, evicted, q, leases);
      HandOutKeepsInv(q, leases, id, session, name, now);
    }
  }

  lemma FixedKeepsInv(p: Pool, leases: map<nat, Lease>, now: int, session: string, account: string, id: nat)
    requires Inv(p, leases) && id !in leases
    ensures var r := FixedStep(p, now, session, account);
            Inv(r.0, if r.1 then leases[id := Lease(account, session)] else leases)
  {
    var pruned := Prune(p, now);
    assert Inv(pruned, leases);
    if account !in pruned.accounts {
      NewAccountKeepsInv(pruned, leases, account);
    }
    var q := if account in pruned.accounts then pruned else pruned.(accounts := pruned.accounts[account := NEW_ACCOUNT]);
    if FixedStep(p, now, session, account).1 {
      HandOutKeepsInv(q, leases, id, session, account, now);
    }
  }

  lemma ReleaseKeepsInv(p: Pool, leases: map<nat, Lease>, id: nat)
    requires Inv(p, leases) && id in leases
    ensures Inv(ReleaseStep(p, leases[id]), leases - {id})
  {
    var p', leases' := ReleaseStep(p, leases[id]), leases - {id};
    forall n | n in p'.accounts ensures AccountInv(p'.accounts[n], n, leases') {
      if n == leases[id].account {
        ReturnKeepsAccount(p.accounts[n], n, leases, id);
      } else {
        OtherAccountsUnchanged(n, leases, leases', id);
      }
    }
  }

  lemma MarkKeepsInv(p: Pool, leases: map<nat, Lease>, name: string, m: Mark, evicted: seq<string>, p': Pool)
    requires Inv(p, leases) && MarkStep(p, name, m, evicted, p')
    requires forall n :: n in evicted ==> On(leases, n) == {}
    ensures Inv(p', leases)
  {
    hide Inv, Marked, Trimmed, On;
    var q: Pool :| && name in q.accounts && p' == q.(accounts := q.accounts[name := Marked(q.accounts[name], m)])
                   && if name in p.accounts then q == p && evicted == []
                      else Trimmed(p.(accounts := p.accounts[name := NEW_ACCOUNT]), name, MAX_ACCOUNTS, evicted, q);
    if name !in p.accounts {
      NewAccountKeepsInv(p, leases, name);
      TrimKeepsInv(p.(accounts := p.accounts[name := NEW_ACCOUNT]), name, MAX_ACCOUNTS, evicted, q, leases);
    }
    MarkKeepsCounts(q.accounts[name], m);
    SameCountsKeepInv(q, leases, name, Marked(q.accounts[name], m));
  }

  lemma MarkKeepsCounts(a: Account, m: Mark)
    ensures Marked(a, m).active == a.active && Marked(a, m).sessions == a.sessions
  {
  }

  lemma SameCountsKeepInv(p: Pool, leases: map<nat, Lease>, name: string, a: Account)
    requires Inv(p, leases) && name in p.accounts
    requires a.active == p.accounts[name].active && a.sessions == p.accounts[name].sessions
    ensures Inv(p.(accounts := p.accounts[name := a]), leases)
  {
    assert AccountInv(p.accounts[name], name, leases);
  }

  /** A pool as loaded from the account rows: nothing is leased yet. */
  lemma LoadedPoolIsConsistent(rows: map<string, Row>, now: int)
    ensures Inv(Pool(map name | name in rows :: Load(rows[name], now), map[], map[], map[]), map[])
  {
    var p := Pool(map name | name in rows :: Load(rows[name], now), map[], map[], map[]);
    forall name | name in p.accounts ensures AccountInv(p.accounts[name], name, map[]) {
      assert On(map[], name) == {};
      assert forall s :: Held(map[], name, s) == {};
    }
  }

  /** The consecutive failures that a restart forgets do rank: an account whose last request failed
      stands behind one with the same success before the restart and beside it afterwards. */
  lemma RestartForgetsFailures()
    ensures var failed, fine := [Event.Success(1, "d", false), Event.Failure(2, false)], [Event.Success(1, "d", false)];
            var a, b := RunInMemory(NEW_ACCOUNT, failed), RunInMemory(NEW_ACCOUNT, fine);
            var a', b' := Load(RunInRow(NEW_ROW, NEW_ACCOUNT, failed), 3), Load(RunInRow(NEW_ROW, NEW_ACCOUNT, fine), 3);
            Better(b, a) && !Better(b', a') && !Better(a', b')
  {
    var failed, fine := [Event.Success(1, "d", false), Event.Failure(2, false)], [Event.Success(1, "d", false)];
    assert failed[1..] == [Event.Failure(2, false)] && failed[1..][1..] == [] && fine[1..] == [];
  }

  datatype State = State(pool: Pool, leases: map<nat, Lease>)

  ghost predicate IsRun(states: seq<State>, steps: seq<Step>) {
    |states| == |steps| + 1
    && forall i :: 0 <= i < |steps| ==> Next(states[i].pool, states[i].leases, steps[i], states[i + 1].pool, states[i + 1].leases)
  }

  /** In every run that evicts no leased account, every account's active count is the number of
      its open leases, never above the limit, with at most one session on it. */
  lemma {:induction false} RunKeepsInv(states: seq<State>, steps: seq<Step>, n: nat)
    requires IsRun(states, steps) && n <= |steps|
    requires Inv(states[0].pool, states[0].leases)
    requires forall i, name :: 0 <= i < |steps| && name in Evicted(steps[i]) ==> On(states[i].leases, name) == {}
    ensures Inv(states[n].pool, states[n].leases)
    decreases n
  {
    if n > 0 {
      RunKeepsInv(states, steps, n - 1);
      StepKeepsInv(states[n - 1].pool, states[n - 1].leases, steps[n - 1], states[n].pool, states[n].leases);
    }
  }

  // ---- Stickiness ----

  /** The step leaves the binding of session to account, made at time at, alone. */
  predicate LeavesBinding(step: Step, session: string, account: string, at: int) {
    match step
    case Pick(now, s, _, _, _, evicted) => s != session && account !in evicted && now - at < SESSION_TTL
    case PickFixed(now, s, _, _, _) => s != session && now - at < SESSION_TTL
    case Release(_) => true
    case Ban(_, s, a) => !(s == session && a == account)
    case Vote(now, _, _, _) => now - at < SESSION_TTL
    case MarkAccount(_, _, evicted) => account !in evicted
  }

  lemma BindingSurvives(p: Pool, leases: map<nat, Lease>, step: Step, p': Pool, leases': map<nat, Lease>, session: string, b: Binding)
    requires Next(p, leases, step, p', leases') && session in p.bound && p.bound[session] == b
    requires LeavesBinding(step, session, b.account, b.at)
    ensures session in p'.bound && p'.bound[session] == b
  {
    match step
    case Pick(now, s, newName, name, id, evicted) =>
      BindingSurvivesPick(p, now, s, newName, name, evicted, p', session, b);
    case MarkAccount(account, mark, evicted) =>
      BindingSurvivesMark(p, account, mark, evicted, p', session, b);
    case PickFixed(now, s, account, id, picked) =>
    case Release(id) =>
    case Ban(now, s, account) =>
    case Vote(now, s, account, quorum) =>
  }

  lemma BindingSurvivesPick(p: Pool, now: int, s: string, newName: string, name: string, evicted: seq<string>, p': Pool,
                            session: string, b: Binding)
    requires PickStep(p, now, s, newName, name, evicted, p') && session in p.bound && p.bound[session] == b
    requires s != session && b.account !in evicted && now - b.at < SESSION_TTL
    ensures session in p'.bound && p'.bound[session] == b
  {
    hide PickStep, Prune, HandOut, Trimmed;
    var q := PickedFrom(p, now, s, newName, name, evicted, p');
    PruneKeepsBinding(p, now, session, b);
    if q != Prune(p, now) {
      TrimShrinks(Grown(Prune(p, now), newName), newName, MAX_ACCOUNTS, evicted, q);
    }
    HandOutKeepsBinding(q, s, name, now, session, b);
  }

  /** The pool from which a pick hands out: the pruned one, or that with a new account, trimmed. */
  lemma PickedFrom(p0: Pool, now: int, session: string, newName: string, name: string, evicted: seq<string>, p': Pool) returns (q: Pool)
    requires PickStep(p0, now, session, newName, name, evicted, p')
    ensures name in q.accounts && p' == HandOut(q, session, name, now)
    ensures q == Prune(p0, now) || Trimmed(Grown(Prune(p0, now), newName), newName, MAX_ACCOUNTS, evicted, q)
  {
    hide Prune, HandOut, Trimmed, Usable, SessionAvailable, Better;
    if NeedsAccount(p0, now, session) {
      q := PickGrows(p0, now, session, newName, name, evicted, p');
    } else {
      q := Prune(p0, now);
    }
  }

  lemma PruneKeepsBinding(p: Pool, now: int, session: string, b: Binding)
    requires session in p.bound && p.bound[session] == b && now - b.at < SESSION_TTL
    ensures session in Prune(p, now).bound && Prune(p, now).bound[session] == b
  {
  }

  lemma HandOutKeepsBinding(q: Pool, s: string, name: string, now: int, session: string, b: Binding)
    requires name in q.accounts && s != session && session in q.bound && q.bound[session] == b
    ensures session in HandOut(q, s, name, now).bound && HandOut(q, s, name, now).bound[session] == b
  {
    hide Take;
  }

  lemma BindingSurvivesMark(p: Pool, account: string, mark: Mark, evicted: seq<string>, p': Pool, session: string, b: Binding)
    requires MarkStep(p, account, mark, evicted, p') && session in p.bound && p.bound[session] == b && b.account !in evicted
    ensures session in p'.bound && p'.bound[session] == b
  {
    hide Marked;
    if account !in p.accounts {
      var grown := p.(accounts := p.accounts[account := NEW_ACCOUNT]);
      var q: Pool :| p'.bound == q.bound && Trimmed(grown, account, MAX_ACCOUNTS, evicted, q);
      TrimShrinks(grown, account, MAX_ACCOUNTS, evicted, q);
    }
  }

  /** A session that picked account in step 0 and picks again within the time to live gets the
      same account, however many steps lie between, if nothing revoked the binding and the
      account may be handed to it. */
  lemma {:induction false} SessionReturnsToItsAccount(states: seq<State>, steps: seq<Step>, n: nat)
    requires IsRun(states, steps) && 0 < n < |steps| && steps[0].Pick? && steps[n].Pick?
    requires var session, account, at := steps[0].session, steps[0].name, steps[0].now;
             && session != "" && steps[n].session == session && steps[n].now - at < SESSION_TTL
             && (forall i :: 0 < i < n ==> LeavesBinding(steps[i], session, account, at))
             && var p := Prune(states[n].pool, steps[n].now);
             && !Banned(p, session, account) && account in p.accounts
             && Usable(p.accounts[account], steps[n].now) && SessionAvailable(p.accounts[account], session)
    ensures steps[n].name == steps[0].name
  {
    var session, b := steps[0].session, Binding(steps[0].name, steps[0].now);
    BindingSurvivesRun(states, steps, n, session, b);
    assert Next(states[n].pool, states[n].leases, steps[n], states[n + 1].pool, states[n + 1].leases);
  }

  lemma {:induction false} BindingSurvivesRun(states: seq<State>, steps: seq<Step>, n: nat, session: string, b: Binding)
    requires IsRun(states, steps) && 0 < n <= |steps| && steps[0].Pick? && steps[0].session == session != ""
    requires b == Binding(steps[0].name, steps[0].now)
    requires forall i :: 0 < i < n ==> LeavesBinding(steps[i], session, b.account, b.at)
    ensures session in states[n].pool.bound && states[n].pool.bound[session] == b
    decreases n
  {
    assert Next(states[n - 1].pool, states[n - 1].leases, steps[n - 1], states[n].pool, states[n].leases);
    if n > 1 {
      BindingSurvivesRun(states, steps, n - 1, session, b);
      BindingSurvives(states[n - 1].pool, states[n - 1].leases, steps[n - 1], states[n].pool, states[n].leases, session, b);
    }
  }

  /** Under the accounting an account is open to a session exactly when no other session holds it. */
  lemma AvailableIffNotHeldByOthers(p: Pool, leases: map<nat, Lease>, name: string, session: string)
    requires Inv(p, leases) && name in p.accounts && session != ""
    ensures SessionAvailable(p.accounts[name], session)
       <==> forall id :: id in leases && leases[id].account == name && leases[id].session != "" ==> leases[id].session == session
  {
    var a := p.accounts[name];
    if SessionAvailable(a, session) {
      forall id | id in leases && leases[id].account == name && leases[id].session != "" ensures leases[id].session == session {
        HeldIsCounted(a, leases, id);
        if leases[id].session != session && session in a.sessions {
          SubsetSize({session, leases[id].session}, a.sessions.Keys);
        }
      }
    } else {
      var s :| s in a.sessions;
      var held := Held(leases, name, s);
      var id :| id in held;
    }
  }

  // ---- The pool object ----

  lemma PruneKeepsAccounts(p: Pool, now: int)
    ensures Prune(p, now).accounts == p.accounts
  {
  }

  lemma StickyIsAccount(p: Pool, now: int, session: string)
    ensures Sticky(p, now, session).Some? ==> Sticky(p, now, session).value in p.accounts
  {
  }

  lemma CandidateIsAccount(p: Pool, now: int, session: string, name: string)
    ensures Candidate(p, now, session, name) ==> name in p.accounts
  {
  }

  lemma PickSticky(p0: Pool, now: int, session: string, newName: string, name: string, p': Pool)
    requires name in Prune(p0, now).accounts
    requires Sticky(Prune(p0, now), now, session) == Some(name) && p' == HandOut(Prune(p0, now), session, name, now)
    ensures PickStep(p0, now, session, newName, name, [], p')
  {
    hide Prune, Sticky, HandOut, Candidate, Trimmed;
  }

  lemma PickBest(p0: Pool, now: int, session: string, newName: string, name: string, p': Pool)
    requires Sticky(Prune(p0, now), now, session).None? && Candidate(Prune(p0, now), now, session, name)
    requires forall c :: Candidate(Prune(p0, now), now, session, c) ==> !Better(Prune(p0, now).accounts[c], Prune(p0, now).accounts[name])
    requires p' == HandOut(Prune(p0, now), session, name, now)
    ensures PickStep(p0, now, session, newName, name, [], p')
  {
    hide Prune, Sticky, HandOut, Trimmed;
  }

  lemma PickNew(p0: Pool, now: int, session: string, newName: string, evicted: seq<string>, q: Pool, p': Pool)
    requires Sticky(Prune(p0, now), now, session).None? && forall c :: !Candidate(Prune(p0, now), now, session, c)
    requires var p := Prune(p0, now);
             newName in q.accounts && Trimmed(p.(accounts := p.accounts[newName := NEW_ACCOUNT]), newName, MAX_ACCOUNTS, evicted, q)
    requires p' == HandOut(q, session, newName, now)
    ensures PickStep(p0, now, session, newName, newName, evicted, p')
  {
    hide Prune, Sticky, HandOut, Candidate, Trimmed;
  }

  class AccountPool {
    var accounts: map<string, Account>
    var bound: map<string, Binding>
    var banned: map<string, map<string, int>>
    var votes: map<string, int>

    ghost function State(): Pool
      reads this
    {
      Pool(accounts, bound, banned, votes)
    }

    constructor ()
      ensures State() == Pool(map[], map[], map[], map[])
    {
      accounts, bound, banned, votes := map[], map[], map[], map[];
    }

    method PruneExpired(now: int)
      modifies this
      ensures State() == Prune(old(State()), now)
    {
      bound := map s | s in bound && now - bound[s].at < SESSION_TTL :: bound[s];
      banned := map s | s in banned && (exists a :: a in banned[s] && now - banned[s][a] < SESSION_TTL)
                  :: map a | a in banned[s] && now - banned[s][a] < SESSION_TTL :: banned[s][a];
      votes := map s | s in votes && now - votes[s] < VOTE_WINDOW :: votes[s];
    }

    /** A best candidate, looked for in any order. */
    method BestCandidate(now: int, session: string) returns (best: Option<string>)
      ensures best.None? <==> forall c :: !Candidate(State(), now, session, c)
      ensures best.Some? ==> Candidate(State(), now, session, best.value)
                             && forall c :: Candidate(State(), now, session, c) ==> !Better(accounts[c], accounts[best.value])
    {
      best := None;
      var todo := accounts.Keys;
      while todo != {}
        invariant todo <= accounts.Keys
        invariant best.None? ==> forall c :: Candidate(State(), now, session, c) ==> c in todo
        invariant best.Some? ==> Candidate(State(), now, session, best.value)
        invariant best.Some? ==> forall c :: Candidate(State(), now, session, c) && c !in todo ==> !Better(accounts[c], accounts[best.value])
        decreases todo
      {
        var name :| name in todo;
        todo := todo - {name};
        var a := accounts[name];
        if !Usable(a, now) || !SessionAvailable(a, session) {
          continue;
        }
        if session in banned && name in banned[session] {
          continue;
        }
        if session != "" && session in bound && bound[session].account == name {
          continue;
        }
        if best.None? || Better(a, accounts[best.value]) {
          ReplacesBest(State(), now, session, todo + {name}, best, name);
          best := Some(name);
        }
      }
    }

    /** Evicts accounts other than keep until the limit holds. */
    method Trim(keep: string) returns (ghost evicted: seq<string>)
      modifies `accounts, `bound
      ensures Trimmed(old(State()), keep, MAX_ACCOUNTS, evicted, State())
      decreases |accounts|
    {
      evicted := [];
      if |accounts| > MAX_ACCOUNTS {
        var oldest := None;
        var todo := accounts.Keys;
        while todo != {}
          invariant todo <= accounts.Keys
          invariant oldest.None? ==> forall o :: o in accounts && o !in todo ==> o == keep
          invariant oldest.Some? ==> oldest.value in accounts && oldest.value != keep
          invariant oldest.Some? ==> forall o :: o in accounts && o !in todo && o != keep ==> !EvictFirst(accounts[o], accounts[oldest.value])
          decreases todo
        {
          var name :| name in todo;
          todo := todo - {name};
          if name != keep && (oldest.None? || EvictFirst(accounts[name], accounts[oldest.value])) {
            if oldest.Some? {
              forall o | o in accounts && o !in todo && o != keep && o != name ensures !EvictFirst(accounts[o], accounts[name]) {
                EvictFirstIsRanking(accounts[name], accounts[oldest.value], accounts[o]);
              }
            }
            oldest := Some(name);
          }
        }
        if oldest.Some? {
          ghost var full := State();
          var name := oldest.value;
          assert |accounts.Keys - {name}| < |accounts.Keys|;
          accounts := accounts - {name};
          bound := map s | s in bound && bound[s].account != name :: bound[s];
          assert State() == Evict(full, name);
          ghost var rest := Trim(keep);
          evicted := [name] + rest;
          assert evicted[1..] == rest;
        }
      }
    }

    /** The account the session is bound to, if it may have it again. */
    method StickyAccount(now: int, session: string) returns (r: Option<string>)
      ensures r == Sticky(State(), now, session)
    {
      hide Usable, SessionAvailable;
      if session != "" && session in bound && !(session in banned && bound[session].account in banned[session])
         && bound[session].account in accounts
         && Usable(accounts[bound[session].account], now) && SessionAvailable(accounts[bound[session].account], session) {
        return Some(bound[session].account);
      }
      return None;
    }

    /** Chooses the account of a request and takes one of its slots. newName is the random name
        that a new account would get. */
    method PickAccount(now: int, session: string, newName: string) returns (name: string, ghost evicted: seq<string>)
      requires newName !in accounts
      modifies this
      ensures PickStep(old(State()), now, session, newName, name, evicted, State())
    {
      hide PickStep, Sticky, Candidate, Better, Trimmed, Prune, HandOut;
      ghost var before := State();
      PruneExpired(now);
      PruneKeepsAccounts(before, now);
      ghost var pruned := State();
      evicted := [];
      var sticky := StickyAccount(now, session);
      if sticky.Some? {
        name := sticky.value;
        StickyIsAccount(pruned, now, session);
        TakeSlot(now, session, name);
        PickSticky(before, now, session, newName, name, State());
        return;
      }
      var best := BestCandidate(now, session);
      if best.Some? {
        name := best.value;
        CandidateIsAccount(pruned, now, session, name);
        TakeSlot(now, session, name);
        PickBest(before, now, session, newName, name, State());
        return;
      }
      name := newName;
      evicted := AddAccount(newName);
      ghost var q := State();
      TakeSlot(now, session, name);
      PickNew(before, now, session, newName, evicted, q, State());
    }

    /** Inserts an empty account and restores the limit. */
    method AddAccount(name: string) returns (ghost evicted: seq<string>)
      requires name !in accounts
      modifies `accounts, `bound
      ensures Trimmed(old(State()).(accounts := old(accounts)[name := NEW_ACCOUNT]), name, MAX_ACCOUNTS, evicted, State())
      ensures name in accounts
    {
      accounts := accounts[name := NEW_ACCOUNT];
      ghost var grown := State();
      evicted := Trim(name);
      TrimShrinks(grown, name, MAX_ACCOUNTS, evicted, State());
    }

    /** Binds the session and counts the request on its account. */
    method TakeSlot(now: int, session: string, name: string)
      requires name in accounts
      modifies this
      ensures State() == HandOut(old(State()), session, name, now)
    {
      var a := accounts[name];
      a := a.(active := a.active + 1);
      if session != "" {
        bound := bound[session := Binding(name, now)];
        a := a.(sessions := a.sessions[session := SessionCount(a, session) + 1]);
      }
      accounts := accounts[name := a];
    }

    /** Takes a slot of the one account of a keyed channel. */
    method PickFixedAccount(now: int, session: string, account: string) returns (picked: bool)
      modifies this
      ensures (State(), picked) == FixedStep(old(State()), now, session, account)
    {
      PruneExpired(now);
      if account !in accounts {
        accounts := accounts[account := NEW_ACCOUNT];
      }
      if !Usable(accounts[account], now) || !SessionAvailable(accounts[account], session) {
        return false;
      }
      if session in banned && account in banned[session] {
        return false;
      }
      TakeSlot(now, session, account);
      return true;
    }

    method ReleaseAccount(name: string, session: string)
      modifies `accounts
      ensures State() == ReleaseStep(old(State()), Lease(name, session))
    {
      if name !in accounts {
        return;
      }
      var a := accounts[name];
      if a.active > 0 {
        a := a.(active := a.active - 1);
      }
      if session != "" {
        if SessionCount(a, session) > 1 {
          a := a.(sessions := a.sessions[session := a.sessions[session] - 1]);
        } else {
          a := a.(sessions := a.sessions - {session});
        }
      }
      accounts := accounts[name := a];
    }

    method BanAccount(now: int, session: string, account: string)
      modifies this
      ensures State() == BanStep(old(State()), now, session, account)
    {
      if session !in banned {
        banned := banned[session := map[]];
      }
      banned := banned[session := banned[session][account := now]];
      if session in bound && bound[session].account == account {
        bound := bound - {session};
      }
    }

    /** Counts the vote of a session; true when enough sessions have voted to cool the account down. */
    method RecordRateLimited(now: int, session: string) returns (quorum: bool)
      modifies this
      ensures (State(), quorum) == VoteStep(old(State()), now, session)
    {
      PruneExpired(now);
      votes := votes[session := now];
      if |votes| < VOTE_QUORUM {
        return false;
      }
      votes := map[];
      return true;
    }

    /** Success, cooldown and failure marks: an unknown account is created first. */
    method MarkAccount(name: string, m: Mark) returns (ghost evicted: seq<string>)
      modifies this
      ensures MarkStep(old(State()), name, m, evicted, State())
    {
      evicted := [];
      if name !in accounts {
        evicted := AddAccount(name);
      }
      ghost var q := State();
      accounts := accounts[name := Marked(accounts[name], m)];
      assert State() == q.(accounts := q.accounts[name := Marked(q.accounts[name], m)]);
    }

    /** An answer 429: without a session the account cools down at once, otherwise with the quorum. */
    method MarkRateLimited(now: int, account: string, session: string, until: int) returns (cooled: bool, ghost evicted: seq<string>)
      modifies this
      ensures cooled <==> session == "" || VoteStep(old(State()), now, session).1
      ensures !cooled ==> State() == VoteStep(old(State()), now, session).0
      ensures cooled ==> MarkStep(if session == "" then old(State()) else VoteStep(old(State()), now, session).0, account, Cooled(until),
                                  evicted, State())
    {
      hide VoteStep, MarkStep;
      cooled, evicted := session == "", [];
      if session != "" {
        cooled := RecordRateLimited(now, session);
      }
      if cooled {
        evicted := MarkAccount(account, Cooled(until));
      }
    }
  }

  lemma ReplacesBest(p: Pool, now: int, session: string, todo: set<string>, best: Option<string>, name: string)
    requires best.None? ==> forall c :: Candidate(p, now, session, c) ==> c in todo
    requires best.Some? ==> Candidate(p, now, session, best.value)
    requires best.Some? ==> forall c :: Candidate(p, now, session, c) && c !in todo ==> !Better(p.accounts[c], p.accounts[best.value])
    requires Candidate(p, now, session, name) && (best.None? || Better(p.accounts[name], p.accounts[best.value]))
    ensures forall c :: Candidate(p, now, session, c) && c !in todo ==> !Better(p.accounts[c], p.accounts[name])
  {
    hide Better;
    forall c | Candidate(p, now, session, c) && c !in todo ensures !Better(p.accounts[c], p.accounts[name]) {
      BetterIsRanking(p.accounts[name], p.accounts[best.value], p.accounts[c]);
    }
  }
}
