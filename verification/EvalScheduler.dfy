/** The evaluation schedulers of internal/eval/scheduler.go: several instances work on one queue
    table, claim rows with a lease, and give back what a crash or a stop leaves behind. */
module EvalScheduler {
  import opened EvalQueue
  import opened Sets
  import opened Wrappers

  const CONCURRENCY := 4
  const EVAL_TIMEOUT := 10 * 60
  const SAVE_TIMEOUT := 10
  const WORKER_LIFE := EVAL_TIMEOUT + SAVE_TIMEOUT

  /** A row claimed by an instance and not yet known to be finished. live: a worker is on it;
      otherwise the worker gave up and the row waits in the inflight set for the instance's stop. */
  datatype Claim = Claim(instance: int, task: int, claimedAt: int, live: bool)

  datatype World = World(now: int, rows: Rows, claims: set<Claim>, started: set<int>, canceled: set<int>)

  ghost function Of(w: World, instance: int): set<Claim> {
    set c | c in w.claims && c.instance == instance
  }

  ghost function Live(w: World, instance: int): set<Claim> {
    set c | c in w.claims && c.instance == instance && c.live
  }

  /** The claims on these rows that an instance has given up. Taking a row again forgets them: the
      inflight set holds a row once. */
  ghost function GivenUp(w: World, instance: int, tasks: set<int>): set<Claim> {
    set c | c in w.claims && c.instance == instance && !c.live && c.task in tasks
  }

  function TasksOf(claims: set<Claim>): set<int> {
    set c | c in claims :: c.task
  }

  datatype Step =
    | Tick(seconds: nat)
    | Admin(rows: Rows)
    | Start(instance: int)
    | Dispatch(instance: int, popped: set<int>)
    | Complete(claim: Claim)
    | GiveUp(claim: Claim)
    | Reap(instance: int)
    | Cancel(instance: int)
    | FinishStop(instance: int)
    | Crash(instance: int)

  /** Changes made by users of the queue: new rows, stopped rows, cleared rows, new positions. */
  ghost predicate AdminChange(before: Rows, after: Rows) {
    && Evolves(before, after)
    && (forall id :: id in before && before[id].status != Queued ==>
          id in after && after[id].status == before[id].status && after[id].startedAt == before[id].startedAt)
    && (forall id :: id in after && after[id].status == Running ==> id in before && before[id].status == Running)
  }

  /** multi: several instances share the table. prompt: a stop gives abandoned rows back before
      their lease runs out. A worker that does not finish in its allotted time cannot exist: its
      contexts have expired. */
  ghost predicate Next(w: World, s: Step, w': World, multi: bool, prompt: bool) {
    match s
    case Tick(seconds) =>
      && w' == w.(now := w.now + seconds)
      && (forall c :: c in w.claims && c.live ==> w'.now <= c.claimedAt + WORKER_LIFE)
      && (prompt ==> forall c :: c in w.claims ==> w'.now <= c.claimedAt + RUNNING_LEASE)
    case Admin(rows) => AdminChange(w.rows, rows) && w' == w.(rows := rows)
    case Start(i) =>
      && i !in w.started && (!multi ==> w.started == {})
      && w' == w.(started := w.started + {i},
                  rows := if multi then SetStatus(w.rows, Expired(w.rows, w.now), Queued, None)
                          else SetStatus(w.rows, WithStatus(w.rows, Running), Queued, Some(0)))
    case Dispatch(i, popped) =>
      && i in w.started && i !in w.canceled && |Live(w, i)| < CONCURRENCY && w.now > 0
      && Front(w.rows, CONCURRENCY - |Live(w, i)|, popped)
      && w' == w.(rows := SetStatus(w.rows, popped, Running, Some(w.now)),
                  claims := w.claims - GivenUp(w, i, popped) + set id | id in popped :: Claim(i, id, w.now, true))
    case Complete(c) =>
      && c in w.claims && c.live
      && w' == w.(rows := SetStatus(w.rows, {c.task}, EvalQueue.Done, None), claims := w.claims - {c})
    case GiveUp(c) =>
      && c in w.claims && c.live && (prompt ==> c.instance in w.canceled)
      && w' == w.(claims := w.claims - {c} + {c.(live := false)})
    case Reap(i) => i in w.started && w' == w.(rows := SetStatus(w.rows, Expired(w.rows, w.now), Queued, None))
    case Cancel(i) => i in w.started && w' == w.(canceled := w.canceled + {i})
    case FinishStop(i) =>
      && i in w.started && i in w.canceled && Live(w, i) == {}
      && w' == w.(rows := SetStatus(w.rows, TasksOf(Of(w, i)) * WithStatus(w.rows, Running), Queued, Some(0)),
                  claims := w.claims - Of(w, i), started := w.started - {i}, canceled := w.canceled - {i})
    case Crash(i) =>
      w' == w.(claims := w.claims - Of(w, i), started := w.started - {i}, canceled := w.canceled - {i})
  }

  /** Every claimed row is running since the claim, within its lease, and claimed once. */
  ghost predicate Inv(w: World, multi: bool) {
    && (forall c, d :: c in w.claims && d in w.claims && c.task == d.task ==> c == d)
    && (forall c :: c in w.claims ==> ClaimOk(w, c))
    && (forall i :: |Live(w, i)| <= CONCURRENCY)
    && (!multi ==> |w.started| <= 1) && w.canceled <= w.started
  }

  ghost predicate ClaimOk(w: World, c: Claim) {
    && c.instance in w.started
    && c.task in w.rows && w.rows[c.task].status == Running && w.rows[c.task].startedAt == c.claimedAt
    && 0 < c.claimedAt <= w.now <= c.claimedAt + if c.live then WORKER_LIFE else RUNNING_LEASE
  }

  /** What makes two workers on one row impossible: a claimed row is never among the expired. */
  lemma ClaimedIsNotExpired(w: World, multi: bool, c: Claim)
    requires Inv(w, multi) && c in w.claims
    ensures c.task !in Expired(w.rows, w.now)
  {
    assert ClaimOk(w, c);
  }

  lemma StepKeepsInv(w: World, s: Step, w': World, multi: bool)
    requires Inv(w, multi) && Next(w, s, w', multi, true)
    ensures Inv(w', multi)
  {
    hide Inv, ClaimOk, AdminChange, Front, SetStatus;
    match s
    case Tick(seconds) => QuietKeepsInv(w, s, w', multi);
    case Admin(rows) => QuietKeepsInv(w, s, w', multi);
    case Start(i) => StartKeepsInv(w, i, w', multi);
    case Dispatch(i, popped) => DispatchKeepsInv(w, i, popped, w', multi);
    case Complete(c) => FewerClaims(w, w'); CompleteKeepsInv(w, c, w', multi);
    case GiveUp(c) => GiveUpKeepsInv(w, c, w', multi);
    case Reap(i) => SameClaims(w, w'); ReapKeepsInv(w, w', multi);
    case Cancel(i) => QuietKeepsInv(w, s, w', multi);
    case FinishStop(i) => FewerClaims(w, w'); FinishStopKeepsInv(w, i, w', multi);
    case Crash(i) => FewerClaims(w, w'); CrashKeepsInv(w, i, w', multi);
  }

  lemma QuietKeepsInv(w: World, s: Step, w': World, multi: bool)
    requires Inv(w, multi) && Next(w, s, w', multi, true) && (s.Tick? || s.Admin? || s.Cancel?)
    ensures Inv(w', multi)
  {
    SameClaims(w, w');
    forall c | c in w'.claims ensures ClaimOk(w', c) {
      assert ClaimOk(w, c);
    }
  }

  lemma CrashKeepsInv(w: World, i: int, w': World, multi: bool)
    requires Inv(w, multi) && Next(w, Crash(i), w', multi, true) && forall j :: |Live(w', j)| <= |Live(w, j)|
    ensures Inv(w', multi)
  {
    SingleStarted(w.started, i);
    forall c | c in w'.claims ensures ClaimOk(w', c) {
      assert ClaimOk(w, c);
    }
  }

  lemma SingleStarted(started: set<int>, i: int)
    ensures |started - {i}| <= |started|
  {
    assert started - {i} <= started;
    assert |started| == |started - {i}| + |started * {i}| by {
      assert started == (started - {i}) + (started * {i});
    }
  }

  lemma SameClaims(w: World, w': World)
    requires w'.claims == w.claims
    ensures forall i :: Live(w', i) == Live(w, i)
  {
  }

  lemma FewerClaims(w: World, w': World)
    requires w'.claims <= w.claims
    ensures forall i :: |Live(w', i)| <= |Live(w, i)|
  {
    forall i ensures |Live(w', i)| <= |Live(w, i)| {
      SubsetSize(Live(w', i), Live(w, i));
    }
  }

  lemma StartKeepsInv(w: World, i: int, w': World, multi: bool)
    requires Inv(w, multi) && Next(w, Start(i), w', multi, true)
    ensures Inv(w', multi)
  {
    SameClaims(w, w');
    forall c | c in w'.claims ensures ClaimOk(w', c) {
      assert ClaimOk(w, c);
    }
  }

  lemma ReapKeepsInv(w: World, w': World, multi: bool)
    requires Inv(w, multi) && (forall i :: Live(w', i) == Live(w, i))
    requires w' == w.(rows := SetStatus(w.rows, Expired(w.rows, w.now), Queued, None))
    ensures Inv(w', multi)
  {
    forall c | c in w'.claims ensures ClaimOk(w', c) {
      ClaimedIsNotExpired(w, multi, c);
    }
  }

  lemma DispatchKeepsInv(w: World, i: int, popped: set<int>, w': World, multi: bool)
    requires Inv(w, multi) && Next(w, Dispatch(i, popped), w', multi, true)
    ensures Inv(w', multi)
  {
    forall c | c in w.claims ensures c.task !in popped {
      assert ClaimOk(w, c);
    }
    assert GivenUp(w, i, popped) == {} && w.claims - {} == w.claims;
    DispatchCounts(w, i, popped, w', multi);
    forall c | c in w'.claims ensures ClaimOk(w', c) {
      if c in w.claims {
        assert ClaimOk(w, c);
      }
    }
  }

  lemma FrontIsSmall(rows: Rows, limit: nat, popped: set<int>)
    requires Front(rows, limit, popped)
    ensures |popped| <= limit
  {
  }

  lemma DispatchCounts(w: World, i: int, popped: set<int>, w': World, multi: bool)
    requires Inv(w, multi) && Next(w, Dispatch(i, popped), w', multi, true)
    ensures forall j :: |Live(w', j)| <= CONCURRENCY
  {
    hide ClaimOk, Front, SetStatus;
    FrontIsSmall(w.rows, CONCURRENCY - |Live(w, i)|, popped);
    var added := set id | id in popped :: Claim(i, id, w.now, true);
    ClaimsOfTasks(i, w.now, popped);
    forall j ensures |Live(w', j)| <= CONCURRENCY {
      if j == i {
        assert Live(w', i) == Live(w, i) + added;
      } else {
        assert Live(w', j) == Live(w, j);
      }
    }
  }

  lemma {:induction false} ClaimsOfTasks(i: int, now: int, ids: set<int>)
    ensures |set id | id in ids :: Claim(i, id, now, true)| == |ids|
    decreases |ids|
  {
    if exists x :: x in ids {
      var x :| x in ids;
      ClaimsOfTasks(i, now, ids - {x});
      assert (set id | id in ids :: Claim(i, id, now, true)) == (set id | id in ids - {x} :: Claim(i, id, now, true)) + {Claim(i, x, now, true)};
    } else {
      assert ids == {};
      assert (set id | id in ids :: Claim(i, id, now, true)) == {};
    }
  }

  lemma CompleteKeepsInv(w: World, c: Claim, w': World, multi: bool)
    requires Inv(w, multi) && Next(w, Complete(c), w', multi, true) && forall i :: |Live(w', i)| <= |Live(w, i)|
    ensures Inv(w', multi)
  {
    forall d | d in w'.claims ensures ClaimOk(w', d) {
      assert ClaimOk(w, d) && d.task != c.task;
    }
  }

  lemma GiveUpKeepsInv(w: World, c: Claim, w': World, multi: bool)
    requires Inv(w, multi) && Next(w, GiveUp(c), w', multi, true)
    ensures Inv(w', multi)
  {
    assert ClaimOk(w, c);
    forall d | d in w'.claims && d != c.(live := false) ensures ClaimOk(w', d) {
      assert ClaimOk(w, d);
    }
    forall i ensures |Live(w', i)| <= |Live(w, i)| {
      SubsetSize(Live(w', i), Live(w, i));
    }
  }

  lemma FinishStopKeepsInv(w: World, i: int, w': World, multi: bool)
    requires Inv(w, multi) && Next(w, FinishStop(i), w', multi, true) && forall j :: |Live(w', j)| <= |Live(w, j)|
    ensures Inv(w', multi)
  {
    SingleStarted(w.started, i);
    forall d | d in w'.claims ensures ClaimOk(w', d) {
      assert ClaimOk(w, d);
      assert d.task !in TasksOf(Of(w, i));
    }
  }

  // ---- Runs ----

  ghost predicate IsRun(worlds: seq<World>, steps: seq<Step>, multi: bool, prompt: bool) {
    |worlds| == |steps| + 1
    && forall k :: 0 <= k < |steps| ==> Next(worlds[k], steps[k], worlds[k + 1], multi, prompt)
  }

  ghost predicate Initial(w: World) {
    w.claims == {} && w.started == {} && w.canceled == {}
  }

  lemma {:induction false} RunKeepsInv(worlds: seq<World>, steps: seq<Step>, multi: bool, n: nat)
    requires IsRun(worlds, steps, multi, true) && Initial(worlds[0]) && n <= |steps|
    ensures Inv(worlds[n], multi)
    decreases n
  {
    if n == 0 {
      assert forall i :: Live(worlds[0], i) == {};
    } else {
      RunKeepsInv(worlds, steps, multi, n - 1);
      StepKeepsInv(worlds[n - 1], steps[n - 1], worlds[n], multi);
    }
  }

  /** In every run in which finished work is recorded and stops are prompt, no row is ever
      worked on by two workers, and no instance has more than four. */
  lemma OneWorkerPerTask(worlds: seq<World>, steps: seq<Step>, multi: bool, n: nat, c: Claim, d: Claim)
    requires IsRun(worlds, steps, multi, true) && Initial(worlds[0]) && n <= |steps|
    requires c in worlds[n].claims && d in worlds[n].claims && c.task == d.task
    ensures c == d && |Live(worlds[n], c.instance)| <= CONCURRENCY
  {
    RunKeepsInv(worlds, steps, multi, n);
  }

  /** A stop leaves the rows of all other workers running exactly when none of them has taken
      over a row that the stopping instance still has in its inflight set. */
  lemma StopIsSafeIff(w: World, i: int, w': World, multi: bool)
    requires Next(w, FinishStop(i), w', multi, false)
    requires forall c :: c in w.claims && c.live ==> c.task in w.rows && w.rows[c.task].status == Running
    ensures (forall c :: c in w'.claims && c.live ==> w'.rows[c.task].status == Running)
       <==> forall c :: c in w.claims && c.live ==> c.task !in TasksOf(Of(w, i))
  {
    forall c | c in w.claims && c.live ensures c in w'.claims {
      assert c !in Live(w, i);
    }
  }

  function LostRows(status: Status, startedAt: int): Rows {
    map[7 := Task((1, "m"), status, 0, startedAt)]
  }

  /** Instance 1 cannot record that it finished row 7; instance 2 takes the row over after the
      lease; the stop of instance 1 then hands it to instance 3 while 2 is still at work. */
  function Late(k: int): World {
    var a, b, c := Claim(1, 7, 1, true), Claim(2, 7, 902, true), Claim(3, 7, 902, true);
    var gone := Claim(1, 7, 1, false);
    match k
    case 0 => World(1, LostRows(Queued, 0), {}, {}, {})
    case 1 => World(1, LostRows(Queued, 0), {}, {1}, {})
    case 2 => World(1, LostRows(Queued, 0), {}, {1, 2}, {})
    case 3 => World(1, LostRows(Queued, 0), {}, {1, 2, 3}, {})
    case 4 => World(1, LostRows(Running, 1), {a}, {1, 2, 3}, {})
    case 5 => World(1, LostRows(Running, 1), {gone}, {1, 2, 3}, {})
    case 6 => World(902, LostRows(Running, 1), {gone}, {1, 2, 3}, {})
    case 7 => World(902, LostRows(Queued, 1), {gone}, {1, 2, 3}, {})
    case 8 => World(902, LostRows(Running, 902), {gone, b}, {1, 2, 3}, {})
    case 9 => World(902, LostRows(Running, 902), {gone, b}, {1, 2, 3}, {1})
    case 10 => World(902, LostRows(Queued, 0), {b}, {2, 3}, {})
    case _ => World(902, LostRows(Running, 902), {b, c}, {2, 3}, {})
  }

  function LateStep(k: int): Step {
    match k
    case 0 => Start(1)
    case 1 => Start(2)
    case 2 => Start(3)
    case 3 => Dispatch(1, {7})
    case 4 => GiveUp(Claim(1, 7, 1, true))
    case 5 => Tick(901)
    case 6 => Reap(2)
    case 7 => Dispatch(2, {7})
    case 8 => Cancel(1)
    case 9 => FinishStop(1)
    case _ => Dispatch(3, {7})
  }

  lemma LateNext(k: nat)
    requires k < 11
    ensures Next(Late(k), LateStep(k), Late(k + 1), true, false)
  {
    hide Next;
    match k
    case 0 => StartsAreSteps(Late(0), Late(1), Late(2), Late(3));
    case 1 => StartsAreSteps(Late(0), Late(1), Late(2), Late(3));
    case 2 => StartsAreSteps(Late(0), Late(1), Late(2), Late(3));
    case 3 => DispatchIsStep(Late(3), 1, Late(4));
    case 4 => GivenUpIsStep(Late(4), Claim(1, 7, 1, true), Late(5), Late(6));
    case 5 => GivenUpIsStep(Late(4), Claim(1, 7, 1, true), Late(5), Late(6));
    case 6 => ReapIsStep(Late(6), 2, Late(7));
    case 7 => DispatchIsStep(Late(7), 2, Late(8));
    case 8 => CancelIsStep(Late(8), 1, Late(9));
    case 9 => StopIsStep(Late(9), Claim(1, 7, 1, false), Claim(2, 7, 902, true), Late(10));
    case 10 => DispatchIsStep(Late(10), 3, Late(11));
  }

  /** Without that promptness a row is evaluated twice at once. */
  lemma LateStopRunsTwice()
    ensures exists worlds: seq<World>, steps: seq<Step>, c: Claim, d: Claim ::
              && IsRun(worlds, steps, true, false) && Initial(worlds[0])
              && c in worlds[|steps|].claims && d in worlds[|steps|].claims
              && c.live && d.live && c.task == d.task && c.instance != d.instance
  {
    hide Next;
    var worlds, steps := seq(12, k => Late(k)), seq(11, k => LateStep(k));
    forall k | 0 <= k < |steps| ensures Next(worlds[k], steps[k], worlds[k + 1], true, false) {
      LateNext(k);
    }
    var c, d := Claim(2, 7, 902, true), Claim(3, 7, 902, true);
    assert worlds[0] == Late(0) && worlds[|steps|] == Late(11);
    assert IsRun(worlds, steps, true, false) && c in worlds[|steps|].claims && d in worlds[|steps|].claims;
  }

  lemma StartsAreSteps(w0: World, w1: World, w2: World, w3: World)
    requires w0 == World(1, LostRows(Queued, 0), {}, {}, {})
    requires w1 == w0.(started := {1}) && w2 == w0.(started := {1, 2}) && w3 == w0.(started := {1, 2, 3})
    ensures Next(w0, Start(1), w1, true, false) && Next(w1, Start(2), w2, true, false) && Next(w2, Start(3), w3, true, false)
  {
    assert SetStatus(w0.rows, Expired(w0.rows, 1), Queued, None) == w0.rows;
    assert {1} + {2} == {1, 2} && {1, 2} + {3} == {1, 2, 3} && {} + {1} == {1};
  }

  lemma DispatchIsStep(w: World, i: int, w': World)
    requires i in w.started && i !in w.canceled && Of(w, i) == {} && w.now > 0
    requires exists t :: w.rows == LostRows(Queued, t)
    requires w' == w.(rows := LostRows(Running, w.now), claims := w.claims + {Claim(i, 7, w.now, true)})
    ensures Next(w, Dispatch(i, {7}), w', true, false)
  {
    assert WithStatus(w.rows, Queued) == {7};
    assert Live(w, i) <= Of(w, i) && GivenUp(w, i, {7}) <= Of(w, i) && w.claims - {} == w.claims;
    assert (set id | id in {7} :: Claim(i, id, w.now, true)) == {Claim(i, 7, w.now, true)};
    assert SetStatus(w.rows, {7}, Running, Some(w.now)) == LostRows(Running, w.now);
  }

  lemma GivenUpIsStep(w: World, c: Claim, w': World, later: World)
    requires c == Claim(1, 7, 1, true) && w.claims == {c} && w.now == 1
    requires w' == w.(claims := {c.(live := false)}) && later == w'.(now := 902)
    ensures Next(w, GiveUp(c), w', true, false) && Next(w', Tick(901), later, true, false)
  {
    assert {c} - {c} + {c.(live := false)} == {c.(live := false)};
  }

  lemma CancelIsStep(w: World, i: int, w': World)
    requires i in w.started && w.canceled == {} && w' == w.(canceled := {i})
    ensures Next(w, Cancel(i), w', true, false)
  {
    assert {} + {i} == {i};
  }

  lemma ReapIsStep(w: World, i: int, w': World)
    requires i in w.started && w.now == 902 && w.rows == LostRows(Running, 1) && w' == w.(rows := LostRows(Queued, 1))
    ensures Next(w, Reap(i), w', true, false)
  {
    assert SetStatus(w.rows, Expired(w.rows, w.now), Queued, None) == LostRows(Queued, 1);
  }

  lemma StopIsStep(w: World, gone: Claim, b: Claim, w': World)
    requires gone == Claim(1, 7, 1, false) && b == Claim(2, 7, 902, true)
    requires w == World(902, LostRows(Running, 902), {gone, b}, {1, 2, 3}, {1})
    requires w' == World(902, LostRows(Queued, 0), {b}, {2, 3}, {})
    ensures Next(w, FinishStop(1), w', true, false)
  {
    assert Of(w, 1) == {gone} && Live(w, 1) == {};
    assert TasksOf({gone}) == {7} && WithStatus(w.rows, Running) == {7};
    assert SetStatus(w.rows, {7}, Queued, Some(0)) == LostRows(Queued, 0);
    assert {gone, b} - {gone} == {b} && {1, 2, 3} - {1} == {2, 3} && {1} - {1} == {};
  }

  // ---- One instance ----

  ghost predicate AllRunning(rows: Rows, ids: set<int>) {
    forall id :: id in ids ==> id in rows && rows[id].status == Running
  }

  /** Popped rows are new to a scheduler whose workers all have running rows. */
  lemma PoppedJoins(rows: Rows, live: set<int>, limit: nat, popped: set<int>, now: int)
    requires AllRunning(rows, live) && Front(rows, limit, popped)
    ensures live !! popped && |live + popped| == |live| + |popped| && |popped| <= limit
    ensures AllRunning(SetStatus(rows, popped, Running, Some(now)), live + popped)
  {
    forall id | id in live ensures id !in popped {
      assert id in rows && rows[id].status == Running && id !in WithStatus(rows, Queued);
    }
  }

  lemma NoneWaits(rows: Rows, limit: nat, popped: set<int>, now: int)
    requires Front(rows, limit, popped)
    ensures |popped| == limit || WithStatus(SetStatus(rows, popped, Running, Some(now)), Queued) == {}
  {
  }

  lemma EmptyPop(rows: Rows, now: int)
    ensures SetStatus(rows, {}, Running, Some(now)) == rows
  {
  }

  /** What one scheduler knows: live is the rows its workers are on, inflight the rows it has popped
      and not seen finished. */
  datatype Local = Local(started: bool, canceled: bool, live: set<int>, inflight: set<int>)

  datatype Call =
    | CallStart(dbFails: bool)
    | CallDispatch(popped: set<int>, dbFails: bool)
    | CallReap(dbFails: bool)
    | CallEnd(task: int, recorded: bool)
    | CallCancel
    | CallFinish(dbFails: bool)

  /** One call of the scheduler on its own state and the table. */
  ghost predicate LocalStep(l: Local, rows: Rows, call: Call, now: int, multi: bool, l': Local, rows': Rows) {
    match call
    case CallStart(dbFails) =>
      if l.started || dbFails then l' == l && rows' == rows
      else
        && l' == l.(started := true)
        && rows' == if multi then SetStatus(rows, Expired(rows, now), Queued, None)
                    else SetStatus(rows, WithStatus(rows, Running), Queued, Some(0))
    case CallDispatch(popped, dbFails) =>
      && l.started
      && (if dbFails || l.canceled || |l.live| >= CONCURRENCY then popped == {} else Front(rows, CONCURRENCY - |l.live|, popped))
      && l' == l.(live := l.live + popped, inflight := l.inflight + popped)
      && rows' == SetStatus(rows, popped, Running, Some(now))
    case CallReap(dbFails) =>
      && l.started && l' == l
      && rows' == if dbFails then rows else SetStatus(rows, Expired(rows, now), Queued, None)
    case CallEnd(task, recorded) =>
      && l.started && task in l.live
      && l' == l.(live := l.live - {task}, inflight := if recorded then l.inflight - {task} else l.inflight)
      && rows' == if recorded then SetStatus(rows, {task}, EvalQueue.Done, None) else rows
    case CallCancel => l.started && l' == l.(canceled := true) && rows' == rows
    case CallFinish(dbFails) =>
      && l.started && l.canceled && l.live == {}
      && (if dbFails && l.inflight != {} then l' == l && rows' == rows
          else l' == Local(false, false, {}, {})
               && rows' == SetStatus(rows, l.inflight * WithStatus(rows, Running), Queued, Some(0)))
  }

  lemma Dispatches(l: Local, rows: Rows, popped: set<int>, now: int, multi: bool)
    requires l.started && !l.canceled && |l.live| < CONCURRENCY && Front(rows, CONCURRENCY - |l.live|, popped)
    ensures LocalStep(l, rows, CallDispatch(popped, false), now, multi,
                      l.(live := l.live + popped, inflight := l.inflight + popped), SetStatus(rows, popped, Running, Some(now)))
  {
    hide Front, SetStatus;
  }

  lemma DispatchesNothing(l: Local, rows: Rows, now: int, multi: bool, dbFails: bool)
    requires l.started && (dbFails || l.canceled || |l.live| >= CONCURRENCY)
    ensures LocalStep(l, rows, CallDispatch({}, dbFails), now, multi, l, rows)
  {
    EmptyPop(rows, now);
    assert l.live + {} == l.live && l.inflight + {} == l.inflight;
  }

  /** The world as instance i sees it. */
  ghost predicate Sees(w: World, i: int, l: Local, rows: Rows) {
    && rows == w.rows && (l.started <==> i in w.started) && (l.canceled <==> i in w.canceled)
    && l.live == TasksOf(Live(w, i)) && l.inflight == TasksOf(Of(w, i))
  }

  ghost predicate OneEach(claims: set<Claim>) {
    forall c, d :: c in claims && d in claims && c.task == d.task ==> c == d
  }

  /** An instance claims no row twice as long as it takes none that its own workers are on. That
      others may have taken over a row it gave up does not matter. */
  lemma OwnClaimsStayApart(w: World, s: Step, w': World, multi: bool, prompt: bool, i: int)
    requires OneEach(Of(w, i)) && (w' == w || Next(w, s, w', multi, prompt))
    requires s.Dispatch? && s.instance == i ==> TasksOf(Live(w, i)) !! s.popped
    ensures OneEach(Of(w', i))
  {
    hide SetStatus, Front, AdminChange, Expired, WithStatus;
    if w' == w {
      assert Of(w', i) == Of(w, i);
    } else if s.Dispatch? && s.instance == i {
      forall c | c in Of(w', i) && c in w.claims ensures c.task !in s.popped {
        assert c in Live(w, i) ==> c.task in TasksOf(Live(w, i));
      }
    } else if s.GiveUp? {
      assert Of(w', i) == Of(w, i) || Of(w', i) == Of(w, i) - {s.claim} + {s.claim.(live := false)};
    } else {
      assert Of(w', i) <= Of(w, i);
    }
  }

  /** Every call of a scheduler is a step of the shared protocol or changes nothing, so that what is
      proved about runs of the protocol holds of schedulers. All it needs is that the instance itself
      has claimed no row twice and takes none its workers are on, and it stays so, whatever other
      instances claim: the late stop below is a call, too. With prompt, workers give up only after
      a cancel. */
  lemma CallIsStep(w: World, i: int, l: Local, call: Call, multi: bool, prompt: bool, l': Local, rows': Rows) returns (w': World, s: Step)
    requires OneEach(Of(w, i)) && Sees(w, i, l, w.rows) && w.now > 0
    requires LocalStep(l, w.rows, call, w.now, multi, l', rows')
    requires call.CallStart? && !multi ==> w.started <= {i}
    requires call.CallDispatch? ==> l.live !! call.popped
    requires call.CallEnd? && !call.recorded && prompt ==> l.canceled
    ensures Sees(w', i, l', rows') && OneEach(Of(w', i)) && (w' == w || Next(w, s, w', multi, prompt))
  {
    hide Sees, LocalStep, Next, OneEach, Of;
    match call {
      case CallStart(dbFails) => w', s := StartIsStep(w, i, l, dbFails, multi, prompt, l', rows');
      case CallDispatch(popped, dbFails) => w', s := DispatchCallIsStep(w, i, l, popped, dbFails, multi, prompt, l', rows');
      case CallReap(dbFails) => w', s := ReapCallIsStep(w, i, l, dbFails, multi, prompt, l', rows');
      case CallEnd(task, recorded) => w', s := EndIsStep(w, i, l, task, recorded, multi, prompt, l', rows');
      case CallCancel => w', s := CancelCallIsStep(w, i, l, multi, prompt, l', rows');
      case CallFinish(dbFails) => w', s := FinishIsStep(w, i, l, dbFails, multi, prompt, l', rows');
    }
    OwnClaimsStayApart(w, s, w', multi, prompt, i);
  }

  /** The stop that hands row 7 to a third instance while the second is at work is such a call: the
      stopping instance sees nothing but its own inflight set and the status of the row. */
  lemma LateStopIsCall()
    ensures var l := Local(true, true, {}, {7});
            && OneEach(Of(Late(9), 1)) && Sees(Late(9), 1, l, Late(9).rows) && !Inv(Late(9), true)
            && LocalStep(l, Late(9).rows, CallFinish(false), 902, true, Local(false, false, {}, {}), Late(10).rows)
  {
    var rows, gone, b := Late(9).rows, Claim(1, 7, 1, false), Claim(2, 7, 902, true);
    assert Of(Late(9), 1) == {gone} && Live(Late(9), 1) == {} && TasksOf({gone}) == {7};
    assert gone in Late(9).claims && b in Late(9).claims && gone.task == b.task;
    assert {7} * WithStatus(rows, Running) == {7};
    assert SetStatus(rows, {7}, Queued, Some(0)) == LostRows(Queued, 0);
  }

  lemma LiveIsAnswer(w: World, i: int)
    requires OneEach(Of(w, i))
    ensures |TasksOf(Live(w, i))| == |Live(w, i)| && TasksOf(Live(w, i)) <= TasksOf(Of(w, i))
  {
    assert Live(w, i) <= Of(w, i);
    CountTasks(Live(w, i));
  }

  lemma {:induction false} CountTasks(claims: set<Claim>)
    requires OneEach(claims)
    ensures |TasksOf(claims)| == |claims|
    decreases |claims|
  {
    if exists c :: c in claims {
      var c :| c in claims;
      CountTasks(claims - {c});
      assert TasksOf(claims) == TasksOf(claims - {c}) + {c.task};
      assert c.task !in TasksOf(claims - {c});
    } else {
      assert claims == {} && TasksOf(claims) == {};
    }
  }

  lemma StartIsStep(w: World, i: int, l: Local, dbFails: bool, multi: bool, prompt: bool, l': Local, rows': Rows)
      returns (w': World, s: Step)
    requires Sees(w, i, l, w.rows)
    requires LocalStep(l, w.rows, CallStart(dbFails), w.now, multi, l', rows') && (!multi ==> w.started <= {i})
    ensures Sees(w', i, l', rows') && !s.Dispatch? && (w' == w || Next(w, s, w', multi, prompt))
  {
    hide SetStatus, Expired, WithStatus;
    s, w' := Start(i), w;
    if !l.started && !dbFails {
      w' := w.(started := w.started + {i}, rows := rows');
      SameClaims(w, w');
      assert Of(w', i) == Of(w, i);
      assert !multi ==> w.started == {};
    }
  }

  lemma DispatchCallIsStep(w: World, i: int, l: Local, popped: set<int>, dbFails: bool, multi: bool, prompt: bool,
                           l': Local, rows': Rows) returns (w': World, s: Step)
    requires OneEach(Of(w, i)) && Sees(w, i, l, w.rows) && w.now > 0 && l.live !! popped
    requires LocalStep(l, w.rows, CallDispatch(popped, dbFails), w.now, multi, l', rows')
    ensures Sees(w', i, l', rows') && (w' == w || Next(w, s, w', multi, prompt))
    ensures s == Dispatch(i, popped) && TasksOf(Live(w, i)) !! popped
  {
    hide SetStatus, Front, Of, Live, TasksOf, Next, OneEach;
    s, w' := Dispatch(i, popped), w;
    LiveIsAnswer(w, i);
    if dbFails || l.canceled || |l.live| >= CONCURRENCY {
      EmptyPop(w.rows, w.now);
      assert l' == l;
    } else {
      w' := w.(rows := rows', claims := w.claims - GivenUp(w, i, popped) + set id | id in popped :: Claim(i, id, w.now, true));
      ClaimsJoin(w, w', i, popped);
      NextDispatch(w, i, popped, w', multi, prompt);
    }
  }

  lemma NextDispatch(w: World, i: int, popped: set<int>, w': World, multi: bool, prompt: bool)
    requires i in w.started && i !in w.canceled && |Live(w, i)| < CONCURRENCY && w.now > 0
    requires Front(w.rows, CONCURRENCY - |Live(w, i)|, popped)
    requires w' == w.(rows := SetStatus(w.rows, popped, Running, Some(w.now)),
                      claims := w.claims - GivenUp(w, i, popped) + set id | id in popped :: Claim(i, id, w.now, true))
    ensures Next(w, Dispatch(i, popped), w', multi, prompt)
  {
    hide Front, SetStatus, Live, GivenUp;
  }

  /** A row taken again is in the inflight set once. */
  lemma ClaimsJoin(w: World, w': World, i: int, popped: set<int>)
    requires w'.claims == w.claims - GivenUp(w, i, popped) + set id | id in popped :: Claim(i, id, w.now, true)
    ensures TasksOf(Live(w', i)) == TasksOf(Live(w, i)) + popped
    ensures TasksOf(Of(w', i)) == TasksOf(Of(w, i)) + popped
  {
    var added, forgotten := set id | id in popped :: Claim(i, id, w.now, true), GivenUp(w, i, popped);
    assert Live(w', i) == Live(w, i) + added && Of(w', i) == Of(w, i) - forgotten + added;
    TasksOfUnion(Live(w, i), added);
    TasksOfUnion(Of(w, i) - forgotten, added);
    TasksOfUnion(Of(w, i) - forgotten, forgotten);
    assert Of(w, i) - forgotten + forgotten == Of(w, i);
    assert TasksOf(forgotten) <= popped;
    TasksOfAdded(i, w.now, popped);
  }

  lemma TasksOfUnion(a: set<Claim>, b: set<Claim>)
    ensures TasksOf(a + b) == TasksOf(a) + TasksOf(b)
  {
  }

  lemma TasksOfAdded(i: int, now: int, ids: set<int>)
    ensures TasksOf(set id | id in ids :: Claim(i, id, now, true)) == ids
  {
    var added := set id | id in ids :: Claim(i, id, now, true);
    forall id | id in ids ensures id in TasksOf(added) {
      assert Claim(i, id, now, true) in added;
    }
  }

  lemma TasksOfRest(claims: set<Claim>, c: Claim)
    requires c in claims && OneEach(claims)
    ensures TasksOf(claims - {c}) == TasksOf(claims) - {c.task}
  {
    forall id | id in TasksOf(claims) - {c.task} ensures id in TasksOf(claims - {c}) {
      var d :| d in claims && d.task == id;
      assert d in claims - {c};
    }
  }

  lemma ReapCallIsStep(w: World, i: int, l: Local, dbFails: bool, multi: bool, prompt: bool, l': Local, rows': Rows)
      returns (w': World, s: Step)
    requires Sees(w, i, l, w.rows) && LocalStep(l, w.rows, CallReap(dbFails), w.now, multi, l', rows')
    ensures Sees(w', i, l', rows') && !s.Dispatch? && (w' == w || Next(w, s, w', multi, prompt))
  {
    hide SetStatus, Expired;
    s, w' := Reap(i), w;
    if !dbFails {
      w' := w.(rows := rows');
      SameClaims(w, w');
      assert Of(w', i) == Of(w, i);
    }
  }

  lemma CancelCallIsStep(w: World, i: int, l: Local, multi: bool, prompt: bool, l': Local, rows': Rows)
      returns (w': World, s: Step)
    requires Sees(w, i, l, w.rows) && LocalStep(l, w.rows, CallCancel, w.now, multi, l', rows')
    ensures Sees(w', i, l', rows') && !s.Dispatch? && Next(w, s, w', multi, prompt)
  {
    s, w' := Cancel(i), w.(canceled := w.canceled + {i});
    SameClaims(w, w');
    assert Of(w', i) == Of(w, i);
  }

  lemma EndIsStep(w: World, i: int, l: Local, task: int, recorded: bool, multi: bool, prompt: bool, l': Local, rows': Rows)
      returns (w': World, s: Step)
    requires OneEach(Of(w, i)) && Sees(w, i, l, w.rows)
    requires LocalStep(l, w.rows, CallEnd(task, recorded), w.now, multi, l', rows') && (!recorded && prompt ==> l.canceled)
    ensures Sees(w', i, l', rows') && !s.Dispatch? && Next(w, s, w', multi, prompt)
  {
    hide SetStatus;
    var c :| c in Live(w, i) && c.task == task;
    TasksOfRest(Live(w, i), c);
    TasksOfRest(Of(w, i), c);
    if recorded {
      s, w' := Complete(c), w.(rows := rows', claims := w.claims - {c});
      assert Live(w', i) == Live(w, i) - {c} && Of(w', i) == Of(w, i) - {c};
    } else {
      var gone := c.(live := false);
      s, w' := GiveUp(c), w.(claims := w.claims - {c} + {gone});
      assert Live(w', i) == Live(w, i) - {c} && Of(w', i) == Of(w, i) - {c} + {gone};
      TasksOfUnion(Of(w, i) - {c}, {gone});
      assert TasksOf({gone}) == {task} && task in TasksOf(Of(w, i));
    }
  }

  lemma FinishIsStep(w: World, i: int, l: Local, dbFails: bool, multi: bool, prompt: bool, l': Local, rows': Rows)
      returns (w': World, s: Step)
    requires Sees(w, i, l, w.rows)
    requires LocalStep(l, w.rows, CallFinish(dbFails), w.now, multi, l', rows')
    ensures Sees(w', i, l', rows') && !s.Dispatch? && (w' == w || Next(w, s, w', multi, prompt))
  {
    hide SetStatus;
    s, w' := FinishStop(i), w;
    if !(dbFails && l.inflight != {}) {
      w' := w.(rows := rows', claims := w.claims - Of(w, i), started := w.started - {i}, canceled := w.canceled - {i});
      assert Of(w', i) == {} && Live(w', i) == {};
      assert forall c :: c in Live(w, i) ==> c.task in TasksOf(Live(w, i));
    }
  }

  /** The counters of one scheduler. */
  class Scheduler {
    const table: Queue
    var started: bool
    var canceled: bool
    var running: int
    var inflight: set<int>
    ghost var live: set<int>

    ghost function State(): Local
      reads this
    {
      Local(started, canceled, live, inflight)
    }

    ghost predicate Valid()
      reads this, table
    {
      && table.Valid()
      && running == |live| <= CONCURRENCY && live <= inflight
      && (!started ==> live == {} && inflight == {} && !canceled)
      && AllRunning(table.rows, live)
    }

    constructor (queue: Queue)
      requires queue.Valid()
      ensures Valid() && table == queue && State() == Local(false, false, {}, {})
    {
      table := queue;
      started, canceled, running, inflight, live := false, false, 0, {}, {};
    }

    /** A scheduler that runs is left alone, and one whose recovery query fails stays stopped. */
    method Start(multiInstance: bool, now: int, dbFails: bool) returns (ok: bool)
      requires Valid()
      modifies this, table
      ensures Valid() && ok == started && (started <==> old(started) || !dbFails)
      ensures LocalStep(old(State()), old(table.rows), CallStart(dbFails), now, multiInstance, State(), table.rows)
      ensures Evolves(old(table.rows), table.rows)
    {
      if started || dbFails {
        EvalQueue.NothingEvolves(table.rows);
        return started;
      }
      table.ResetRunningOnStart(multiInstance, now);
      started := true;
      return true;
    }

    /** Fills the free worker slots from the front of the queue. */
    method Dispatch(now: int, dbFails: bool, ghost multi: bool) returns (popped: set<int>)
      requires Valid() && started
      modifies this, table
      ensures Valid()
      ensures LocalStep(old(State()), old(table.rows), CallDispatch(popped, dbFails), now, multi, State(), table.rows)
      ensures old(live) !! popped
      ensures !dbFails && !old(canceled) ==> running == CONCURRENCY || WithStatus(table.rows, Queued) == {}
    {
      hide EvalQueue.Inv, Front, SetStatus, Evolves, WithStatus, LocalStep, AllRunning;
      popped := {};
      ghost var before, l := table.rows, State();
      if canceled || CONCURRENCY - running <= 0 {
        DispatchesNothing(l, before, now, multi, dbFails);
        return;
      }
      if dbFails {
        DispatchesNothing(l, before, now, multi, dbFails);
        return;
      }
      popped := table.PopNext(CONCURRENCY - running, now);
      PoppedJoins(before, live, CONCURRENCY - running, popped, now);
      Dispatches(l, before, popped, now, multi);
      NoneWaits(before, CONCURRENCY - running, popped, now);
      running := running + |popped|;
      inflight := inflight + popped;
      live := live + popped;
    }

    /** The periodic recovery of rows whose lease has run out, by any instance that runs. A worker's
        contexts have expired long before its row does. */
    method Reap(now: int, dbFails: bool, ghost multi: bool)
      requires Valid() && started
      requires live !! Expired(table.rows, now)
      modifies table
      ensures Valid()
      ensures LocalStep(old(State()), old(table.rows), CallReap(dbFails), now, multi, State(), table.rows)
      ensures Evolves(old(table.rows), table.rows)
    {
      if dbFails {
        EvalQueue.NothingEvolves(table.rows);
        return;
      }
      table.ResetRunning(now);
    }

    /** A worker ends. recorded: its MarkDone succeeded; otherwise the row stays inflight. */
    method EndWorker(id: int, recorded: bool, ghost now: int, ghost multi: bool)
      requires Valid() && started && id in live
      modifies this, table
      ensures Valid()
      ensures LocalStep(old(State()), old(table.rows), CallEnd(id, recorded), now, multi, State(), table.rows)
    {
      if recorded {
        table.MarkDone(id);
        inflight := inflight - {id};
      }
      running := running - 1;
      live := live - {id};
    }

    method Cancel(ghost now: int, ghost multi: bool)
      requires Valid() && started
      modifies `canceled
      ensures Valid()
      ensures LocalStep(old(State()), old(table.rows), CallCancel, now, multi, State(), table.rows)
    {
      canceled := true;
    }

    /** The end of a stop, when all workers have left: abandoned rows go back, nothing else. If that
        fails the scheduler stays started, and the stop may be tried again. */
    method FinishStop(dbFails: bool, ghost now: int, ghost multi: bool) returns (stopped: bool)
      requires Valid() && started && canceled && live == {}
      modifies this, table
      ensures Valid() && stopped == !started && (stopped <==> !dbFails || old(inflight) == {})
      ensures LocalStep(old(State()), old(table.rows), CallFinish(dbFails), now, multi, State(), table.rows)
    {
      if inflight != {} {
        if dbFails {
          return false;
        }
      }
      table.RequeueRunning(inflight);
      inflight, started, canceled := {}, false, false;
      return true;
    }
  }
}
