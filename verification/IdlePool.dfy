/** The idle connections of one upstream transport, internal/client/bun.go: requests, connection
    watchers, idle timers and close-all share the pool under one lock. */
module IdlePool {
  import opened Wrappers

  type Pool = map<string, seq<int>>

  function Conns(pool: Pool, key: string): seq<int> {
    if key in pool then pool[key] else []
  }

  function SetConns(pool: Pool, key: string, conns: seq<int>): Pool {
    if conns == [] then pool - {key} else pool[key := conns]
  }

  ghost predicate Pooled(pool: Pool, c: int) {
    exists k :: k in pool && c in pool[k]
  }

  predicate Distinct(s: seq<int>) {
    forall i, j :: 0 <= i < j < |s| ==> s[i] != s[j]
  }

  /** The first position of c, or the length. */
  function Index(s: seq<int>, c: int): (i: nat)
    ensures i <= |s| && c !in s[..i] && (i < |s| ==> s[i] == c)
  {
    if s == [] || s[0] == c then 0
    else
      var i := Index(s[1..], c);
      assert s[..i + 1] == [s[0]] + s[1..][..i];
      i + 1
  }

  function Without(s: seq<int>, c: int): seq<int> {
    var i := Index(s, c);
    if i < |s| then s[..i] + s[i + 1..] else s
  }

  lemma WithoutIsRemoval(s: seq<int>, c: int)
    requires Distinct(s)
    ensures Distinct(Without(s, c)) && |Without(s, c)| <= |s| && forall d :: d in Without(s, c) <==> d in s && d != c
  {
    var i, r := Index(s, c), Without(s, c);
    assert forall j :: 0 <= j < |r| ==> r[j] == if j < i then s[j] else s[j + 1];
    assert forall j :: 0 <= j < |s| && j != i ==> s[j] == r[if j < i then j else j - 1];
  }

  lemma {:induction false} IndexIs(a: seq<int>, c: int, b: seq<int>)
    requires c !in a
    ensures Index(a + [c] + b, c) == |a|
    decreases |a|
  {
    var s := a + [c] + b;
    if a != [] {
      assert s[0] == a[0] && a[0] in a && s[1..] == a[1..] + [c] + b;
      IndexIs(a[1..], c, b);
    }
  }

  /** Removing keeps the order of the others. */
  lemma WithoutKeepsOrder(a: seq<int>, c: int, b: seq<int>)
    requires c !in a
    ensures Without(a + [c] + b, c) == a + b
  {
    hide Index;
    IndexIs(a, c, b);
    var s := a + [c] + b;
    assert s[..|a|] == a && s[|a| + 1..] == b;
  }

  /** Every pooled connection sits in the list of its own host, in no second place; lists respect
      the cap and none is empty. */
  ghost predicate PoolOk(pool: Pool, keys: map<int, string>, cap: int) {
    && (forall k :: k in pool ==> pool[k] != [] && |pool[k]| <= cap && Distinct(pool[k]))
    && (forall k, c :: k in pool && c in pool[k] ==> c in keys && keys[c] == k)
  }

  lemma RemoveSpec(pool: Pool, keys: map<int, string>, cap: int, c: int)
    requires PoolOk(pool, keys, cap) && c in keys
    ensures Pooled(pool, c) <==> c in Conns(pool, keys[c])
    ensures var after := SetConns(pool, keys[c], Without(Conns(pool, keys[c]), c));
            PoolOk(after, keys, cap) && forall d :: Pooled(after, d) <==> Pooled(pool, d) && d != c
  {
    var key := keys[c];
    var after := SetConns(pool, key, Without(Conns(pool, key), c));
    hide Distinct, Without;
    WithoutIsRemoval(Conns(pool, key), c);
    forall d ensures Pooled(after, d) <==> Pooled(pool, d) && d != c {
      if Pooled(after, d) {
        var k :| k in after && d in after[k];
        assert k in pool && d in pool[k];
      }
      if Pooled(pool, d) && d != c {
        var k :| k in pool && d in pool[k];
        assert k in after && d in after[k];
      }
    }
  }

  lemma AddSpec(pool: Pool, keys: map<int, string>, cap: int, c: int)
    requires PoolOk(pool, keys, cap) && c in keys && !Pooled(pool, c) && |Conns(pool, keys[c])| < cap
    ensures var after := SetConns(pool, keys[c], Conns(pool, keys[c]) + [c]);
            PoolOk(after, keys, cap) && forall d :: Pooled(after, d) <==> Pooled(pool, d) || d == c
  {
    var key := keys[c];
    var conns := Conns(pool, key);
    assert c !in conns;
    var after := SetConns(pool, key, conns + [c]);
    assert after[key] == conns + [c];
    forall d ensures Pooled(after, d) <==> Pooled(pool, d) || d == c {
      if Pooled(pool, d) {
        var k :| k in pool && d in pool[k];
        assert k in after && d in after[k];
      }
    }
  }

  lemma LastIsRemoved(s: seq<int>)
    requires s != [] && Distinct(s)
    ensures Without(s, s[|s| - 1]) == s[..|s| - 1]
  {
    assert Index(s, s[|s| - 1]) == |s| - 1;
  }

  class Transport {
    const maxIdlePerHost: int
    var idle: Pool

    constructor (maxIdlePerHost: int)
      ensures idle == map[] && this.maxIdlePerHost == maxIdlePerHost
    {
      this.maxIdlePerHost, idle := maxIdlePerHost, map[];
    }

    method SetIdle(key: string, conns: seq<int>)
      modifies this
      ensures idle == SetConns(old(idle), key, conns)
    {
      if |conns| == 0 {
        idle := idle - {key};
        return;
      }
      idle := idle[key := conns];
    }

    /** Hands out the connection pooled last. */
    method TakeIdle(key: string) returns (r: Option<int>)
      requires forall k :: k in idle ==> Distinct(idle[k])
      modifies this
      ensures r.None? <==> Conns(old(idle), key) == []
      ensures r.None? ==> idle == old(idle)
      ensures r.Some? ==> r.value == Conns(old(idle), key)[|Conns(old(idle), key)| - 1]
      ensures r.Some? ==> idle == SetConns(old(idle), key, Without(Conns(old(idle), key), r.value))
    {
      var conns := Conns(idle, key);
      if |conns| == 0 {
        return None;
      }
      var c := conns[|conns| - 1];
      LastIsRemoved(conns);
      SetIdle(key, conns[..|conns| - 1]);
      return Some(c);
    }

    /** Pools a connection unless its host's list is full; then the caller closes it. */
    method PutIdle(c: int, key: string) returns (pooled: bool)
      modifies this
      ensures pooled == (|Conns(old(idle), key)| < maxIdlePerHost)
      ensures idle == if pooled then SetConns(old(idle), key, Conns(old(idle), key) + [c]) else old(idle)
    {
      var conns := Conns(idle, key);
      if |conns| >= maxIdlePerHost {
        return false;
      }
      idle := idle[key := conns + [c]];
      return true;
    }

    /** Removes a connection if it is still pooled; only then may the caller close it. */
    method RemoveIdle(c: int, key: string) returns (removed: bool)
      requires forall k :: k in idle ==> Distinct(idle[k])
      modifies this
      ensures removed == (c in Conns(old(idle), key))
      ensures idle == if removed then SetConns(old(idle), key, Without(Conns(old(idle), key), c)) else old(idle)
    {
      var conns := Conns(idle, key);
      var index := 0;
      while index < |conns| && conns[index] != c
        invariant index <= |conns| && c !in conns[..index]
      {
        index := index + 1;
      }
      if index == |conns| {
        return false;
      }
      assert index == Index(conns, c);
      SetIdle(key, conns[..index] + conns[index + 1..]);
      return true;
    }

    method CloseIdle() returns (taken: Pool)
      modifies this
      ensures taken == old(idle) && idle == map[]
    {
      taken := idle;
      idle := map[];
    }
  }

  // ---- All parties ----

  /** Who may use a connection that is not pooled: a request that has just taken it, a request that
      sends on it, or somebody who removed it in order to close it. */
  datatype User = Taker(request: int) | Sender(request: int) | Closer

  /** keys knows every connection ever dialed. watched holds the connections with a watcher that has
      not ended, timers the timers that may still fire, some of them from an earlier stay. */
  datatype World = World(pool: Pool, keys: map<int, string>, users: set<(User, int)>, watched: set<int>, timers: multiset<int>, closed: set<int>)

  datatype Step =
    | Dial(request: int, c: int, key: string)
    | Take(request: int, key: string)
    | Reclaim(request: int, c: int, usable: bool, stopped: bool)
    | Put(request: int, c: int)
    | Release(request: int, c: int)
    | ContextEnds(request: int, c: int)
    | WatcherFires(c: int)
    | WatcherEnds(c: int)
    | TimerFires(c: int)
    | CloseAll
    | Close(c: int)

  /** The removal shared by watcher and timer: whoever finds the connection pooled will close it. */
  ghost function Removed(w: World, c: int): World
    requires c in w.keys
  {
    if c !in Conns(w.pool, w.keys[c]) then w
    else w.(pool := SetConns(w.pool, w.keys[c], Without(Conns(w.pool, w.keys[c]), c)), users := w.users + {(Closer, c)})
  }

  ghost predicate Next(w: World, s: Step, w': World, cap: int, timeout: bool) {
    match s
    case Dial(r, c, key) => c !in w.keys && w' == w.(keys := w.keys[c := key], users := w.users + {(Sender(r), c)})
    case Take(r, key) =>
      var conns := Conns(w.pool, key);
      && conns != []
      && w' == w.(pool := SetConns(w.pool, key, Without(conns, conns[|conns| - 1])), users := w.users + {(Taker(r), conns[|conns| - 1])})
    case Reclaim(r, c, usable, stopped) =>
      && (Taker(r), c) in w.users && c !in w.watched
      && w' == w.(users := w.users - {(Taker(r), c)} + (if usable then {(Sender(r), c)} else {}),
                  timers := if stopped then w.timers - multiset{c} else w.timers,
                  closed := if usable then w.closed else w.closed + {c})
    case Put(r, c) =>
      && (Sender(r), c) in w.users && c !in w.closed && c in w.keys
      && w' == if |Conns(w.pool, w.keys[c])| >= cap then w.(users := w.users - {(Sender(r), c)}, closed := w.closed + {c})
               else w.(pool := SetConns(w.pool, w.keys[c], Conns(w.pool, w.keys[c]) + [c]), users := w.users - {(Sender(r), c)},
                       watched := w.watched + {c}, timers := if timeout then w.timers + multiset{c} else w.timers)
    case Release(r, c) =>
      (Sender(r), c) in w.users && w' == w.(users := w.users - {(Sender(r), c)}, closed := w.closed + {c})
    case ContextEnds(r, c) => (Sender(r), c) in w.users && w' == w.(closed := w.closed + {c})
    case WatcherFires(c) => c in w.watched && c in w.keys && w' == Removed(w, c)
    case WatcherEnds(c) => c in w.watched && w' == w.(watched := w.watched - {c})
    case TimerFires(c) => c in w.timers && c in w.keys && w' == Removed(w.(timers := w.timers - multiset{c}), c)
    case CloseAll => w' == w.(pool := map[], users := w.users + set c | c in w.keys && Pooled(w.pool, c) :: (Closer, c))
    case Close(c) => (Closer, c) in w.users && w' == w.(users := w.users - {(Closer, c)}, closed := w.closed + {c})
  }

  /** A connection is in one pool slot, or has one user, or neither. */
  ghost predicate Inv(w: World, cap: int) {
    && PoolOk(w.pool, w.keys, cap)
    && (forall p, q :: p in w.users && q in w.users && p.1 == q.1 ==> p == q)
    && (forall p :: p in w.users ==> p.1 in w.keys && !Pooled(w.pool, p.1))
    && (forall p :: p in w.users && p.1 in w.watched ==> !p.0.Sender?)
    && (forall p :: p in w.users && p.1 in w.closed ==> p.0.Sender?)
    && (forall c :: Pooled(w.pool, c) ==> c !in w.closed)
    && w.closed <= w.keys.Keys && w.watched <= w.keys.Keys
  }

  lemma StepKeepsInv(w: World, s: Step, w': World, cap: int, timeout: bool)
    requires Inv(w, cap) && Next(w, s, w', cap, timeout)
    ensures Inv(w', cap)
  {
    hide SetConns, Conns, PoolOk, Pooled;
    match s
    case Dial(r, c, key) => DialKeepsInv(w, r, c, key, w', cap, timeout);
    case Take(r, key) => TakeKeepsInv(w, r, key, w', cap, timeout);
    case Reclaim(r, c, usable, stopped) => UserKeepsInv(w, s, w', cap, timeout);
    case Put(r, c) => PutKeepsInv(w, r, c, w', cap, timeout);
    case Release(r, c) => UserKeepsInv(w, s, w', cap, timeout);
    case ContextEnds(r, c) => UserKeepsInv(w, s, w', cap, timeout);
    case WatcherFires(c) => RemovedKeepsInv(w, c, cap);
    case WatcherEnds(c) =>
    case TimerFires(c) => RemovedKeepsInv(w.(timers := w.timers - multiset{c}), c, cap);
    case CloseAll => CloseAllKeepsInv(w, w', cap);
    case Close(c) => UserKeepsInv(w, s, w', cap, timeout);
  }

  lemma UserKeepsInv(w: World, s: Step, w': World, cap: int, timeout: bool)
    requires Inv(w, cap) && Next(w, s, w', cap, timeout) && (s.Reclaim? || s.Release? || s.ContextEnds? || s.Close?)
    ensures Inv(w', cap)
  {
    hide SetConns, Conns, PoolOk, Pooled, Removed;
    if s.Reclaim? {
      var p := (Taker(s.request), s.c);
      assert p in w.users;
    }
  }

  lemma DialKeepsInv(w: World, r: int, c: int, key: string, w': World, cap: int, timeout: bool)
    requires Inv(w, cap) && Next(w, Dial(r, c, key), w', cap, timeout)
    ensures Inv(w', cap)
  {
    NewKey(w, c, key, cap);
    hide SetConns, Conns, PoolOk, Pooled, Removed;
  }

  lemma NewKey(w: World, c: int, key: string, cap: int)
    requires PoolOk(w.pool, w.keys, cap) && c !in w.keys
    ensures PoolOk(w.pool, w.keys[c := key], cap) && !Pooled(w.pool, c)
  {
  }

  lemma TakeKeepsInv(w: World, r: int, key: string, w': World, cap: int, timeout: bool)
    requires Inv(w, cap) && Next(w, Take(r, key), w', cap, timeout)
    ensures Inv(w', cap)
  {
    var conns := Conns(w.pool, key);
    var c := conns[|conns| - 1];
    TakenIsPooled(w.pool, w.keys, cap, key);
    hide SetConns, Conns, PoolOk, Pooled;
    RemoveSpec(w.pool, w.keys, cap, c);
  }

  lemma TakenIsPooled(pool: Pool, keys: map<int, string>, cap: int, key: string)
    requires PoolOk(pool, keys, cap) && Conns(pool, key) != []
    ensures var c := Conns(pool, key)[|Conns(pool, key)| - 1];
            Pooled(pool, c) && c in keys && keys[c] == key
  {
  }

  lemma PutKeepsInv(w: World, r: int, c: int, w': World, cap: int, timeout: bool)
    requires Inv(w, cap) && Next(w, Put(r, c), w', cap, timeout)
    ensures Inv(w', cap)
  {
    hide SetConns, Conns, PoolOk, Pooled;
    if |Conns(w.pool, w.keys[c])| < cap {
      AddSpec(w.pool, w.keys, cap, c);
    }
  }

  lemma RemovedKeepsInv(w: World, c: int, cap: int)
    requires Inv(w, cap) && c in w.keys
    ensures Inv(Removed(w, c), cap)
  {
    hide SetConns, Conns, PoolOk, Pooled;
    RemoveSpec(w.pool, w.keys, cap, c);
  }

  lemma CloseAllKeepsInv(w: World, w': World, cap: int)
    requires Inv(w, cap) && w' == w.(pool := map[], users := w.users + set c | c in w.keys && Pooled(w.pool, c) :: (Closer, c))
    ensures Inv(w', cap)
  {
    assert forall c :: !Pooled(w'.pool, c);
  }

  ghost predicate IsRun(worlds: seq<World>, steps: seq<Step>, cap: int, timeout: bool) {
    && |worlds| == |steps| + 1 && worlds[0] == World(map[], map[], {}, {}, multiset{}, {})
    && forall k :: 0 <= k < |steps| ==> Next(worlds[k], steps[k], worlds[k + 1], cap, timeout)
  }

  /** Whatever the parties do in whatever order, the pool stays within its cap and no connection is
      in two slots, in a slot and in use, or in use twice; none of them is closed behind the back of
      a request by its watcher or timer, and no watcher reads from a connection a request sends on. */
  lemma {:induction false} ConnectionsAreExclusive(worlds: seq<World>, steps: seq<Step>, cap: int, timeout: bool, n: nat)
    requires IsRun(worlds, steps, cap, timeout) && n <= |steps|
    ensures Inv(worlds[n], cap)
    decreases n
  {
    if n > 0 {
      ConnectionsAreExclusive(worlds, steps, cap, timeout, n - 1);
      StepKeepsInv(worlds[n - 1], steps[n - 1], worlds[n], cap, timeout);
    }
  }

  /** While a request uses a connection only the request or the end of its context closes it. */
  lemma NotClosedWhileUsed(w: World, s: Step, w': World, cap: int, timeout: bool, p: (User, int))
    requires Inv(w, cap) && Next(w, s, w', cap, timeout)
    requires p in w.users && !p.0.Closer? && p.1 !in w.closed && p.1 in w'.closed
    ensures s == Release(p.0.request, p.1) || s == ContextEnds(p.0.request, p.1) || s == Put(p.0.request, p.1)
            || s == Reclaim(p.0.request, p.1, false, true) || s == Reclaim(p.0.request, p.1, false, false)
  {
    hide PoolOk, Pooled, Conns, SetConns;
  }
}
