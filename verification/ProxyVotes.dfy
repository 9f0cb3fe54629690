/** What the votes of internal/relay/opencode_proxy_pool.go amount to: when a session that was
    refused for its rate makes the quorum that cools an account down. */
module ProxyVotes {
  import opened FailureWindow
  import opened ProxyPool
  import opened Sets

  /** The steps that read the clock inside the pool. */
  predicate Timed(s: Step) {
    s.Pick? || s.PickFixed? || s.Ban? || s.Vote?
  }

  ghost predicate OnTime(steps: seq<Step>) {
    forall a, b :: 0 <= a < b < |steps| && Timed(steps[a]) && Timed(steps[b]) ==> steps[a].now <= steps[b].now
  }

  function Unexpired(votes: map<string, int>, now: int): map<string, int> {
    map s | s in votes && now - votes[s] < VOTE_WINDOW :: votes[s]
  }

  lemma VotesAfter(p: Pool, leases: map<nat, Lease>, step: Step, p': Pool, leases': map<nat, Lease>)
    requires Next(p, leases, step, p', leases')
    ensures step.Pick? || step.PickFixed? ==> p'.votes == Unexpired(p.votes, step.now)
    ensures step.Vote? ==>
              var votes := Unexpired(p.votes, step.now)[step.session := step.now];
              step.quorum == (|votes| >= VOTE_QUORUM) && p'.votes == if step.quorum then map[] else votes
    ensures step.Ban? || step.Release? || step.MarkAccount? ==> p'.votes == p.votes
  {
    hide Usable, SessionAvailable, Candidate, Better, Sticky, Take, Return, Marked, Trimmed;
    match step
    case Pick(now, session, newName, name, id, evicted) => PickVotes(p, now, session, newName, name, evicted, p');
    case MarkAccount(account, mark, evicted) => MarkVotes(p, account, mark, evicted, p');
    case PickFixed(now, session, account, id, picked) =>
    case Release(id) =>
    case Ban(now, session, account) =>
    case Vote(now, session, account, quorum) =>
  }

  lemma PickVotes(p: Pool, now: int, session: string, newName: string, name: string, evicted: seq<string>, p': Pool)
    requires PickStep(p, now, session, newName, name, evicted, p')
    ensures p'.votes == Unexpired(p.votes, now)
  {
    hide PickStep, Prune, HandOut, Trimmed;
    var q := PickedFrom(p, now, session, newName, name, evicted, p');
    if q != Prune(p, now) {
      TrimShrinks(Grown(Prune(p, now), newName), newName, MAX_ACCOUNTS, evicted, q);
    }
    PrunedVotes(p, now);
    HandOutVotes(q, session, name, now);
  }

  lemma PrunedVotes(p: Pool, now: int)
    ensures Prune(p, now).votes == Unexpired(p.votes, now)
  {
  }

  lemma HandOutVotes(q: Pool, session: string, name: string, now: int)
    requires name in q.accounts
    ensures HandOut(q, session, name, now).votes == q.votes
  {
    hide Take;
  }

  lemma MarkVotes(p: Pool, account: string, mark: Mark, evicted: seq<string>, p': Pool)
    requires MarkStep(p, account, mark, evicted, p')
    ensures p'.votes == p.votes
  {
    hide Marked, Trimmed;
    if account !in p.accounts {
      var grown := Grown(p, account);
      var q: Pool :| p'.votes == q.votes && Trimmed(grown, account, MAX_ACCOUNTS, evicted, q);
      TrimShrinks(grown, account, MAX_ACCOUNTS, evicted, q);
    }
  }

  /** No quorum was reached from step j on and before step n. */
  ghost predicate Open(steps: seq<Step>, j: nat, n: nat)
    requires n <= |steps|
  {
    forall m :: j <= m < n && steps[m].Vote? ==> !steps[m].quorum
  }

  /** The votes are those cast since the last quorum, each session's latest; one that is missing has
      expired at some step. */
  ghost predicate Recorded(votes: map<string, int>, steps: seq<Step>, n: nat)
    requires n <= |steps|
  {
    && (forall s :: s in votes ==> Cast(votes, steps, n, s))
    && (forall j :: 0 <= j < n && steps[j].Vote? && Open(steps, j, n) ==> Kept(votes, steps, n, j))
  }

  ghost predicate Cast(votes: map<string, int>, steps: seq<Step>, n: nat, s: string)
    requires n <= |steps| && s in votes
  {
    exists j: nat :: j < n && steps[j].Vote? && steps[j].session == s && steps[j].now == votes[s] && Open(steps, j, n)
  }

  ghost predicate Kept(votes: map<string, int>, steps: seq<Step>, n: nat, j: nat)
    requires j < n <= |steps| && steps[j].Vote?
  {
    || (steps[j].session in votes && votes[steps[j].session] >= steps[j].now)
    || exists m :: 0 <= m < n && Timed(steps[m]) && steps[m].now - steps[j].now >= VOTE_WINDOW
  }

  lemma CastStays(votes: map<string, int>, after: map<string, int>, steps: seq<Step>, n: nat, s: string)
    requires n < |steps| && s in votes && s in after && votes[s] == after[s] && Cast(votes, steps, n, s)
    requires steps[n].Vote? ==> !steps[n].quorum
    ensures Cast(after, steps, n + 1, s)
  {
    var j: nat :| j < n && steps[j].Vote? && steps[j].session == s && steps[j].now == votes[s] && Open(steps, j, n);
    assert Open(steps, j, n + 1);
  }

  lemma KeptStays(votes: map<string, int>, after: map<string, int>, steps: seq<Step>, n: nat, j: nat)
    requires j < n < |steps| && steps[j].Vote? && Kept(votes, steps, n, j) && OnTime(steps)
    requires after == votes
             || (Timed(steps[n]) && after == Unexpired(votes, steps[n].now))
             || (steps[n].Vote? && after == Unexpired(votes, steps[n].now)[steps[n].session := steps[n].now])
    ensures Kept(after, steps, n + 1, j)
  {
    if !(steps[j].session in votes && votes[steps[j].session] >= steps[j].now) {
      var m :| 0 <= m < n && Timed(steps[m]) && steps[m].now - steps[j].now >= VOTE_WINDOW;
      assert m < n + 1;
    } else if steps[j].session !in after {
      assert Timed(steps[n]) && steps[n].now - steps[j].now >= VOTE_WINDOW;
    }
  }

  lemma {:induction false} VotesAreRecorded(states: seq<State>, steps: seq<Step>, n: nat)
    requires IsRun(states, steps) && OnTime(steps) && states[0].pool.votes == map[] && n <= |steps|
    ensures Recorded(states[n].pool.votes, steps, n)
    decreases n
  {
    hide Next, Cast, Kept, OnTime, Unexpired;
    if n > 0 {
      VotesAreRecorded(states, steps, n - 1);
      var votes, after, step := states[n - 1].pool.votes, states[n].pool.votes, steps[n - 1];
      VotesAfter(states[n - 1].pool, states[n - 1].leases, step, states[n].pool, states[n].leases);
      RecordStep(votes, after, steps, n - 1);
    }
  }

  lemma RecordStep(votes: map<string, int>, after: map<string, int>, steps: seq<Step>, n: nat)
    requires n < |steps| && Recorded(votes, steps, n) && OnTime(steps)
    requires var step := steps[n];
             && (step.Pick? || step.PickFixed? ==> after == Unexpired(votes, step.now))
             && (step.Vote? ==> after == if step.quorum then map[] else Unexpired(votes, step.now)[step.session := step.now])
             && (step.Ban? || step.Release? || step.MarkAccount? ==> after == votes)
    ensures Recorded(after, steps, n + 1)
  {
    hide Cast, Kept, OnTime;
    forall s | s in after ensures Cast(after, steps, n + 1, s) {
      if steps[n].Vote? && s == steps[n].session {
        CastNow(after, steps, n);
      } else {
        CastStays(votes, after, steps, n, s);
      }
    }
    forall j | 0 <= j < n + 1 && steps[j].Vote? && Open(steps, j, n + 1) ensures Kept(after, steps, n + 1, j) {
      if j == n {
        KeptNow(after, steps, n);
      } else {
        assert Open(steps, j, n);
        assert steps[n].Vote? ==> !steps[n].quorum;
        KeptStays(votes, after, steps, n, j);
      }
    }
  }

  lemma CastNow(after: map<string, int>, steps: seq<Step>, n: nat)
    requires n < |steps| && steps[n].Vote? && !steps[n].quorum
    requires steps[n].session in after && after[steps[n].session] == steps[n].now
    ensures Cast(after, steps, n + 1, steps[n].session)
  {
    assert Open(steps, n, n + 1);
  }

  lemma KeptNow(after: map<string, int>, steps: seq<Step>, n: nat)
    requires n < |steps| && steps[n].Vote? && steps[n].session in after && after[steps[n].session] == steps[n].now
    ensures Kept(after, steps, n + 1, n)
  {
  }

  /** Another session was refused less than 24 hours ago and since the last quorum. */
  ghost predicate Seconded(steps: seq<Step>, i: nat, j: nat)
    requires i < |steps| && steps[i].Vote?
  {
    j < i && steps[j].Vote? && steps[j].session != steps[i].session && steps[i].now - steps[j].now < VOTE_WINDOW && Open(steps, j, i)
  }

  /** A vote makes the quorum if and only if another session has seconded it. */
  lemma QuorumIff(states: seq<State>, steps: seq<Step>, i: nat)
    requires IsRun(states, steps) && OnTime(steps) && states[0].pool.votes == map[] && i < |steps| && steps[i].Vote?
    ensures steps[i].quorum <==> exists j: nat :: Seconded(steps, i, j)
  {
    hide Next;
    VotesAreRecorded(states, steps, i);
    var votes, step := states[i].pool.votes, steps[i];
    VotesAfter(states[i].pool, states[i].leases, step, states[i + 1].pool, states[i + 1].leases);
    var live := Unexpired(votes, step.now);
    TwoVotesIff(live, step.session, step.now);
    if step.quorum {
      var s :| s in live && s != step.session;
      assert Cast(votes, steps, i, s);
      var j: nat :| j < i && steps[j].Vote? && steps[j].session == s && steps[j].now == votes[s] && Open(steps, j, i);
      assert Seconded(steps, i, j);
    }
    forall j: nat | Seconded(steps, i, j) ensures step.quorum {
      assert Kept(votes, steps, i, j);
      assert steps[j].session in live;
    }
  }

  lemma TwoVotesIff(votes: map<string, int>, session: string, now: int)
    ensures |votes[session := now]| >= VOTE_QUORUM <==> exists s :: s in votes && s != session
  {
    var all := votes[session := now];
    assert all.Keys == votes.Keys + {session} && |all| == |all.Keys|;
    if s :| s in votes && s != session {
      SubsetSize({s, session}, all.Keys);
    } else {
      assert all.Keys == {session};
    }
  }

  /** Two different sessions were refused on the account itself, as the comment on the quorum has it. */
  ghost predicate SecondedOnAccount(steps: seq<Step>, i: nat)
    requires i < |steps| && steps[i].Vote?
  {
    exists j: nat :: Seconded(steps, i, j) && steps[j].account == steps[i].account
  }

  /** Votes do not say on which account they were cast. A vote decides as the comment has it exactly when,
      if another session has seconded it at all, some other session was refused on the same account. */
  lemma QuorumIsOnAccountIff(states: seq<State>, steps: seq<Step>, i: nat)
    requires IsRun(states, steps) && OnTime(steps) && states[0].pool.votes == map[] && i < |steps| && steps[i].Vote?
    ensures (steps[i].quorum <==> SecondedOnAccount(steps, i))
       <==> ((exists j: nat :: Seconded(steps, i, j)) ==> exists j: nat :: Seconded(steps, i, j) && steps[j].account == steps[i].account)
  {
    hide Seconded, OnTime, IsRun;
    QuorumIff(states, steps, i);
  }

  /** An instance: session s is refused on account a, then session t on account b, and b cools down
      although nobody else was refused on it. */
  lemma QuorumAcrossAccounts()
    ensures var steps := [Vote(1, "s", "a", false), Vote(2, "t", "b", true)];
            (exists states: seq<State> :: IsRun(states, steps) && states[0].pool.votes == map[]) && !SecondedOnAccount(steps, 1)
  {
    var steps := [Vote(1, "s", "a", false), Vote(2, "t", "b", true)];
    var none := Pool(map[], map[], map[], map[]);
    var one := none.(votes := map["s" := 1]);
    FirstVote(none, one);
    SecondVote(none, one);
    hide VoteStep, Next;
    VoteIsNext(none, Vote(1, "s", "a", false), one);
    VoteIsNext(one, Vote(2, "t", "b", true), none);
    var states := [State(none, map[]), State(one, map[]), State(none, map[])];
    assert IsRun(states, steps);
    assert !SecondedOnAccount(steps, 1);
  }

  lemma VoteIsNext(p: Pool, step: Step, p': Pool)
    requires step.Vote? && VoteStep(p, step.now, step.session) == (p', step.quorum)
    ensures Next(p, map[], step, p', map[])
  {
    hide VoteStep;
  }

  lemma FirstVote(none: Pool, one: Pool)
    requires none == Pool(map[], map[], map[], map[]) && one == none.(votes := map["s" := 1])
    ensures VoteStep(none, 1, "s") == (one, false)
  {
    assert Prune(none, 1) == none;
    assert none.votes["s" := 1] == map["s" := 1];
  }

  lemma SecondVote(none: Pool, one: Pool)
    requires none == Pool(map[], map[], map[], map[]) && one == none.(votes := map["s" := 1])
    ensures VoteStep(one, 2, "t") == (none, true)
  {
    assert Prune(one, 2) == one;
    assert one.votes["t" := 2].Keys == {"s", "t"};
    assert |one.votes["t" := 2]| == |one.votes["t" := 2].Keys|;
  }
}
