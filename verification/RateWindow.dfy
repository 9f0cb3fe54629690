/** Sliding-window rate limits of internal/relay/channellimit.go and
    internal/keylimit/keylimit.go, and the concurrency slots beside them. Times are
    nanoseconds of one monotone clock; every operation runs under a mutex. */
module RateWindow {
  import opened Wrappers

  const SECOND: int := 1_000_000_000
  const WINDOW: int := 60 * SECOND

  predicate Sorted(w: seq<int>) {
    forall i, j :: 0 <= i < j < |w| ==> w[i] <= w[j]
  }

  /** The admissions still inside the window. */
  function Live(w: seq<int>, cutoff: int): seq<int> {
    if w == [] || w[0] > cutoff then w else Live(w[1..], cutoff)
  }

  /** One attempt: the window afterwards, and the time to wait if it is refused. */
  function Attempt(w: seq<int>, now: int, rpm: nat): (seq<int>, Option<int>)
    requires rpm > 0
  {
    var live := Live(w, now - WINDOW);
    if |live| >= rpm then (live, Some(live[|live| - rpm] + WINDOW - now)) else (live + [now], None)
  }

  lemma {:induction false} LiveIsSuffix(w: seq<int>, cutoff: int)
    requires Sorted(w)
    ensures |Live(w, cutoff)| <= |w| && Live(w, cutoff) == w[|w| - |Live(w, cutoff)|..]
    ensures forall k :: 0 <= k < |w| ==> (w[k] <= cutoff <==> k < |w| - |Live(w, cutoff)|)
    ensures Sorted(Live(w, cutoff))
  {
    if w != [] && w[0] <= cutoff {
      LiveIsSuffix(w[1..], cutoff);
      var n := |Live(w, cutoff)|;
      assert w[1..][|w[1..]| - n..] == w[|w| - n..];
      forall k | 0 <= k < |w| ensures w[k] <= cutoff <==> k < |w| - n {
        if k > 0 {
          assert w[k] == w[1..][k - 1];
        }
      }
    }
  }

  /** The announced wait is exact: without other admissions an attempt is admitted from that
      moment on and refused at every moment before. */
  lemma WaitIsExact(w: seq<int>, now: int, rpm: nat, t: int)
    requires Sorted(w) && rpm > 0 && (forall i :: 0 <= i < |w| ==> w[i] <= now) && now <= t
    requires Attempt(w, now, rpm).1.Some?
    ensures var (after, wait) := Attempt(w, now, rpm);
            && 0 < wait.value <= WINDOW
            && (Attempt(after, t, rpm).1.None? <==> t >= now + wait.value)
  {
    var (after, wait) := Attempt(w, now, rpm);
    LiveIsSuffix(w, now - WINDOW);
    LiveIsSuffix(after, t - WINDOW);
    var k := |after| - rpm;
    assert after[k] == w[|w| - |after| + k];
    assert now + wait.value == after[k] + WINDOW;
    assert after[k] <= t - WINDOW <==> k < |after| - |Live(after, t - WINDOW)|;
  }

  // ---- Whole seconds, as announced to API clients ----

  function CeilSeconds(d: int): int {
    if d % SECOND == 0 then d / SECOND else d / SECOND + 1
  }

  function RetryAfter(wait: int): int {
    if CeilSeconds(wait) < 1 then 1 else CeilSeconds(wait)
  }

  /** The announced number of seconds is the least that leads to admission. */
  lemma RetryAfterIsLeast(w: seq<int>, now: int, rpm: nat, s: nat)
    requires Sorted(w) && rpm > 0 && (forall i :: 0 <= i < |w| ==> w[i] <= now)
    requires Attempt(w, now, rpm).1.Some?
    ensures var (after, wait) := Attempt(w, now, rpm);
            && 1 <= RetryAfter(wait.value) <= 60
            && (Attempt(after, now + s * SECOND, rpm).1.None? <==> s >= RetryAfter(wait.value))
  {
    var (after, wait) := Attempt(w, now, rpm);
    WaitIsExact(w, now, rpm, now + s * SECOND);
    assert wait.value == wait.value / SECOND * SECOND + wait.value % SECOND;
  }

  // ---- Runs ----

  datatype Ask = Ask(now: int, rpm: nat)

  /** Window and complete admission log after a sequence of attempts. */
  function Run(asks: seq<Ask>): (seq<int>, seq<int>)
    requires forall a :: a in asks ==> a.rpm > 0
  {
    if asks == [] then ([], [])
    else
      var (w, log) := Run(asks[..|asks| - 1]);
      var a := asks[|asks| - 1];
      var (w', wait) := Attempt(w, a.now, a.rpm);
      (w', if wait.None? then log + [a.now] else log)
  }

  ghost predicate Monotone(asks: seq<Ask>) {
    forall i, j :: 0 <= i < j < |asks| ==> asks[i].now <= asks[j].now
  }

  /** rpm consecutive admissions span at least a window. */
  ghost predicate Spread(log: seq<int>, rpm: nat) {
    forall i :: 0 <= i && i + rpm < |log| ==> log[i + rpm] >= log[i] + WINDOW
  }

  /** The window is the end of the log, and what it has dropped is out of reach. */
  ghost predicate Tracks(w: seq<int>, log: seq<int>, last: int) {
    && Sorted(log) && |w| <= |log| && w == log[|log| - |w|..]
    && (forall i :: 0 <= i < |log| ==> log[i] <= last)
    && (forall i :: 0 <= i < |log| - |w| ==> log[i] <= last - WINDOW)
  }

  lemma AttemptKeepsSpread(w: seq<int>, log: seq<int>, last: int, now: int, rpm: nat, max: nat)
    requires Tracks(w, log, last) && Spread(log, max) && last <= now && 0 < rpm <= max
    ensures var (w', wait) := Attempt(w, now, rpm);
            var log' := if wait.None? then log + [now] else log;
            Tracks(w', log', now) && Spread(log', max)
  {
    hide Spread, Tracks, Live;
    LiveIsTracked(w, log, last, now);
    var live := Live(w, now - WINDOW);
    if |live| < rpm {
      AdmittedIsTracked(live, log, now);
      AdmittedIsSpread(live, log, now, max);
    }
  }

  lemma AdmittedIsTracked(live: seq<int>, log: seq<int>, now: int)
    requires Tracks(live, log, now)
    ensures Tracks(live + [now], log + [now], now)
  {
    assert live + [now] == (log + [now])[|log| - |live|..];
  }

  lemma AdmittedIsSpread(live: seq<int>, log: seq<int>, now: int, max: nat)
    requires Tracks(live, log, now) && |live| < max && Spread(log, max)
    ensures Spread(log + [now], max)
  {
    var log' := log + [now];
    forall i | 0 <= i && i + max < |log'| ensures log'[i + max] >= log'[i] + WINDOW {
      if i + max < |log| {
        assert log[i + max] >= log[i] + WINDOW;
      }
    }
  }

  lemma LiveIsTracked(w: seq<int>, log: seq<int>, last: int, now: int)
    requires Tracks(w, log, last) && last <= now
    ensures Tracks(Live(w, now - WINDOW), log, now)
  {
    LiveIsSuffix(w, now - WINDOW);
    var live := Live(w, now - WINDOW);
    assert live == log[|log| - |live|..];
    forall i | 0 <= i < |log| - |live| ensures log[i] <= now - WINDOW {
      if i >= |log| - |w| {
        assert log[i] == w[i - (|log| - |w|)];
      }
    }
  }

  lemma {:induction false} RunSpreads(asks: seq<Ask>, max: nat)
    requires Monotone(asks) && forall a :: a in asks ==> 0 < a.rpm <= max
    ensures Spread(Run(asks).1, max)
    ensures asks != [] ==> Tracks(Run(asks).0, Run(asks).1, asks[|asks| - 1].now)
  {
    if asks != [] {
      var init, a := asks[..|asks| - 1], asks[|asks| - 1];
      RunSpreads(init, max);
      var (w, log) := Run(init);
      assert a in asks;
      if init == [] {
        AttemptKeepsSpread([], [], a.now, a.now, a.rpm, max);
      } else {
        AttemptKeepsSpread(w, log, init[|init| - 1].now, a.now, a.rpm, max);
      }
    }
  }

  /** Number of admissions in the half-open interval (from, from + WINDOW]. */
  function CountWithin(log: seq<int>, from: int): nat {
    if log == [] then 0
    else CountWithin(log[..|log| - 1], from) + if from < log[|log| - 1] <= from + WINDOW then 1 else 0
  }

  lemma {:induction false} CountOfOutside(log: seq<int>, from: int, k: nat)
    requires k <= |log| && forall i :: 0 <= i < k ==> log[i] <= from
    ensures CountWithin(log, from) <= |log| - k
    decreases |log|
  {
    if k < |log| {
      CountOfOutside(log[..|log| - 1], from, k);
    } else if log != [] {
      CountOfOutside(log[..|log| - 1], from, k - 1);
    }
  }

  lemma {:induction false} SpreadBoundsCount(log: seq<int>, from: int, rpm: nat)
    requires Sorted(log) && Spread(log, rpm)
    ensures CountWithin(log, from) <= rpm
    decreases |log|
  {
    if log != [] {
      var init, last := log[..|log| - 1], log[|log| - 1];
      if from < last <= from + WINDOW {
        if rpm < |log| {
          var k := |log| - 1 - rpm;
          assert log[k + rpm] >= log[k] + WINDOW;
          CountOfOutside(log, from, k + 1);
        } else {
          CountOfOutside(log, from, 0);
        }
      } else {
        SpreadBoundsCount(init, from, rpm);
      }
    }
  }

  /** In no run does an interval of one window length hold more admissions than the largest
      limit in force, whatever attempts were made. */
  lemma NeverMoreThanLimit(asks: seq<Ask>, max: nat, from: int)
    requires Monotone(asks) && forall a :: a in asks ==> 0 < a.rpm <= max
    ensures CountWithin(Run(asks).1, from) <= max
  {
    RunSpreads(asks, max);
    if asks != [] {
      SpreadBoundsCount(Run(asks).1, from, max);
    }
  }

  /** The log after one attempt. */
  function Logged(w: seq<int>, log: seq<int>, now: int, rpm: nat): seq<int>
    requires rpm > 0
  {
    if Attempt(w, now, rpm).1.None? then log + [now] else log
  }

  lemma AttemptTracks(w: seq<int>, log: seq<int>, last: int, now: int, rpm: nat)
    requires Tracks(w, log, last) && last <= now && rpm > 0
    ensures Tracks(Attempt(w, now, rpm).0, Logged(w, log, now, rpm), now)
  {
    hide Tracks, Live;
    LiveIsTracked(w, log, last, now);
    var live := Live(w, now - WINDOW);
    if |live| < rpm {
      AdmittedIsTracked(live, log, now);
    }
  }

  lemma {:induction false} CountOfInside(log: seq<int>, from: int, k: nat)
    requires k <= |log| && (forall i :: 0 <= i < k ==> log[i] <= from) && forall i :: k <= i < |log| ==> from < log[i] <= from + WINDOW
    ensures CountWithin(log, from) == |log| - k
    decreases |log|
  {
    if k < |log| {
      CountOfInside(log[..|log| - 1], from, k);
    } else if log != [] {
      CountOfInside(log[..|log| - 1], from, k - 1);
    }
  }

  /** Fewer than rpm admissions within one window length up to t. */
  ghost predicate RoomAt(log: seq<int>, t: int, rpm: int) {
    CountWithin(log, t - WINDOW) < rpm
  }

  /** What is left in the window are the admissions of the last window length, all of them. */
  lemma LiveIsCount(w: seq<int>, log: seq<int>, last: int, now: int)
    requires Tracks(w, log, last) && last <= now
    ensures |Live(w, now - WINDOW)| == CountWithin(log, now - WINDOW)
  {
    LiveIsTracked(w, log, last, now);
    LiveIsSuffix(w, now - WINDOW);
    var live := Live(w, now - WINDOW);
    forall i | |log| - |live| <= i < |log| ensures now - WINDOW < log[i] {
      assert log[i] == w[i - (|log| - |w|)];
    }
    CountOfInside(log, now - WINDOW, |log| - |live|);
  }

  /** An attempt is admitted if and only if fewer than rpm were admitted within the window before it, and
      a refused one is told the first moment at which this will be so. */
  lemma AdmittedIffRoom(w: seq<int>, log: seq<int>, last: int, now: int, rpm: nat)
    requires Tracks(w, log, last) && last <= now && rpm > 0
    ensures var wait := Attempt(w, now, rpm).1;
            && (wait.None? <==> RoomAt(log, now, rpm))
            && (wait.Some? ==> forall t :: now <= t ==> (RoomAt(log, t, rpm) <==> t >= now + wait.value))
  {
    hide Tracks, Live, CountWithin, Sorted;
    LiveIsCount(w, log, last, now);
    var (after, wait) := Attempt(w, now, rpm);
    if wait.Some? {
      AttemptTracks(w, log, last, now, rpm);
      TracksInOrder(w, log, last);
      forall t | now <= t ensures RoomAt(log, t, rpm) <==> t >= now + wait.value {
        WaitIsExact(w, now, rpm, t);
        LiveIsCount(after, log, now, t);
      }
    }
  }

  lemma TracksLater(w: seq<int>, log: seq<int>, last: int, now: int)
    requires Tracks(w, log, last) && last <= now
    ensures Tracks(w, log, now)
  {
  }

  lemma TracksInOrder(w: seq<int>, log: seq<int>, last: int)
    requires Tracks(w, log, last)
    ensures Sorted(w) && forall i :: 0 <= i < |w| ==> w[i] <= last
  {
    forall i | 0 <= i < |w| ensures w[i] == log[|log| - |w| + i] {
    }
  }

  /** In every run each attempt is admitted exactly when there is room. */
  lemma RunAdmitsIffRoom(asks: seq<Ask>, i: nat)
    requires Monotone(asks) && i < |asks| && forall a :: a in asks ==> a.rpm > 0
    ensures forall a :: a in asks[..i] || a in asks[..i + 1] ==> a.rpm > 0
    ensures var log, a := Run(asks[..i]).1, asks[i];
            Run(asks[..i + 1]).1 == if RoomAt(log, a.now, a.rpm) then log + [a.now] else log
  {
    hide Tracks, CountWithin;
    assert asks[..i + 1][..i] == asks[..i] && asks[..i + 1][i] == asks[i];
    RunTracks(asks, i);
    var (w, log) := Run(asks[..i]);
    AdmittedIffRoom(w, log, if i == 0 then asks[i].now else asks[i - 1].now, asks[i].now, asks[i].rpm);
  }

  lemma {:induction false} RunTracks(asks: seq<Ask>, i: nat)
    requires Monotone(asks) && i < |asks| && forall a :: a in asks ==> a.rpm > 0
    ensures Tracks(Run(asks[..i]).0, Run(asks[..i]).1, if i == 0 then asks[i].now else asks[i - 1].now)
    decreases i
  {
    if i > 0 {
      RunTracks(asks, i - 1);
      assert asks[..i][..i - 1] == asks[..i - 1] && asks[..i][i - 1] == asks[i - 1];
      var (w, log) := Run(asks[..i - 1]);
      AttemptTracks(w, log, if i == 1 then asks[0].now else asks[i - 2].now, asks[i - 1].now, asks[i - 1].rpm);
    }
  }

  // ---- The limiter objects ----

  datatype KeyRef = KeyRef(channel: int, key: string)

  ghost predicate InOrder(w: seq<int>, latest: int) {
    Sorted(w) && forall t :: t in w ==> t <= latest
  }

  lemma AttemptInOrder(w: seq<int>, now: int, rpm: nat)
    requires InOrder(w, now) && rpm > 0
    ensures InOrder(Attempt(w, now, rpm).0, now)
  {
    LiveIsSuffix(w, now - WINDOW);
    var live := Live(w, now - WINDOW);
    assert forall i :: 0 <= i < |live| ==> live[i] in w;
    assert forall i :: 0 <= i < |live + [now]| ==> (live + [now])[i] == if i < |live| then live[i] else now;
  }

  lemma RefusedWaits(w: seq<int>, now: int, rpm: nat)
    requires InOrder(w, now) && rpm > 0
    ensures Attempt(w, now, rpm).1.Some? ==> Attempt(w, now, rpm).1.value > 0
  {
    hide Live;
    assert forall i :: 0 <= i < |w| ==> w[i] in w;
    if Attempt(w, now, rpm).1.Some? {
      WaitIsExact(w, now, rpm, now);
    }
  }

  /** Drops the times that have slid out of the window. */
  method Slide(window: seq<int>, cutoff: int) returns (live: seq<int>)
    ensures live == Live(window, cutoff)
  {
    var start := 0;
    while start < |window| && window[start] <= cutoff
      invariant 0 <= start <= |window|
      invariant Live(window[start..], cutoff) == Live(window, cutoff)
    {
      assert window[start..][1..] == window[start + 1..];
      start := start + 1;
    }
    return window[start..];
  }

  /** Every window is in order, holds no time after latest, the last time the limiter was asked, and
      tracks the log of all admissions since it was last forgotten. */
  class RpmLimiter {
    var windows: map<KeyRef, seq<int>>
    ghost var logs: map<KeyRef, seq<int>>
    ghost var latest: int

    ghost predicate Valid()
      reads this
    {
      && logs.Keys == windows.Keys
      && (forall ref :: ref in windows ==> InOrder(windows[ref], latest))
      && (forall ref :: ref in windows ==> Tracks(windows[ref], logs[ref], latest))
    }

    ghost function Log(ref: KeyRef): seq<int>
      reads this
    {
      if ref in logs then logs[ref] else []
    }

    function Window(ref: KeyRef): seq<int>
      reads this
    {
      if ref in windows then windows[ref] else []
    }

    constructor (ghost now: int)
      ensures Valid() && windows == map[] && logs == map[] && latest == now
    {
      windows, logs, latest := map[], map[], now;
    }

    lemma WindowInOrder(ref: KeyRef, now: int)
      requires Valid() && latest <= now
      ensures InOrder(Window(ref), now) && Tracks(Window(ref), Log(ref), latest)
    {
      if ref in windows {
        assert InOrder(windows[ref], latest) && Tracks(windows[ref], logs[ref], latest);
      }
    }

    lemma StaysInOrder(now: int)
      requires Valid() && latest <= now
      ensures forall ref :: ref in windows ==> InOrder(windows[ref], now) && Tracks(windows[ref], logs[ref], now)
    {
      forall ref | ref in windows ensures InOrder(windows[ref], now) && Tracks(windows[ref], logs[ref], now) {
        assert InOrder(windows[ref], latest) && Tracks(windows[ref], logs[ref], latest);
        TracksLater(windows[ref], logs[ref], latest, now);
      }
    }

    lemma NowInOrder(ref: KeyRef, w: seq<int>, log: seq<int>, now: int)
      requires Valid() && latest <= now && InOrder(w, now) && Tracks(w, log, now)
      ensures var next := windows[ref := w];
              forall r :: r in next ==> InOrder(next[r], now) && Tracks(next[r], logs[ref := log][r], now)
    {
      hide InOrder, Tracks;
      StaysInOrder(now);
    }

    /** Records an admission, or tells how long to wait. */
    method TryPermit(ref: KeyRef, now: int, rpm: nat) returns (wait: Option<int>)
      requires Valid() && latest <= now && rpm > 0
      modifies this
      ensures Valid() && latest == now
      ensures (windows, wait) == (old(windows)[ref := Attempt(old(Window(ref)), now, rpm).0], Attempt(old(Window(ref)), now, rpm).1)
      ensures wait.None? <==> RoomAt(old(Log(ref)), now, rpm)
      ensures wait.Some? ==> forall t :: now <= t ==> (RoomAt(old(Log(ref)), t, rpm) <==> t >= now + wait.value)
      ensures logs == old(logs)[ref := old(Log(ref)) + if wait.None? then [now] else []]
    {
      hide InOrder, Live, Tracks, RoomAt;
      ghost var before, log := Window(ref), Log(ref);
      WindowInOrder(ref, now);
      AttemptInOrder(before, now, rpm);
      AdmittedIffRoom(before, log, latest, now, rpm);
      AttemptTracks(before, log, latest, now, rpm);
      var window := Slide(Window(ref), now - WINDOW);
      NowInOrder(ref, Attempt(before, now, rpm).0, Logged(before, log, now, rpm), now);
      latest := now;
      logs := logs[ref := Logged(before, log, now, rpm)];
      assert log + [] == log;
      if |window| >= rpm {
        windows := windows[ref := window];
        return Some(window[|window| - rpm] + WINDOW - now);
      }
      windows := windows[ref := window + [now]];
      return None;
    }

    /** The fail-fast form for API clients: 0 admits, otherwise whole seconds to wait. */
    method AcquirePermit(ref: KeyRef, now: int, rpm: int) returns (retryAfter: int)
      requires Valid() && latest <= now
      modifies this
      ensures Valid() && latest == now
      ensures rpm <= 0 ==> retryAfter == 0 && windows == old(windows) - {ref} && logs == old(logs) - {ref}
      ensures rpm > 0 ==> (retryAfter == 0 <==> RoomAt(old(Log(ref)), now, rpm))
      ensures rpm > 0 ==> logs == old(logs)[ref := old(Log(ref)) + if retryAfter == 0 then [now] else []]
      ensures rpm > 0 ==> windows == old(windows)[ref := Attempt(old(Window(ref)), now, rpm).0]
      ensures rpm > 0 ==> (retryAfter == 0 <==> Attempt(old(Window(ref)), now, rpm).1.None?)
      ensures rpm > 0 && retryAfter != 0 ==> retryAfter == RetryAfter(Attempt(old(Window(ref)), now, rpm).1.value)
    {
      hide InOrder, Tracks, RoomAt, Live, Attempt;
      if rpm <= 0 {
        StaysInOrder(now);
        windows, logs, latest := windows - {ref}, logs - {ref}, now;
        return 0;
      }
      WindowInOrder(ref, now);
      RefusedWaits(Window(ref), now, rpm);
      var wait := TryPermit(ref, now, rpm);
      if wait.None? {
        return 0;
      }
      retryAfter := CeilSeconds(wait.value);
      if retryAfter < 1 {
        retryAfter := 1;
      }
    }

    /** Forgets every key of a channel. */
    method Cleanup(channel: int)
      requires Valid()
      modifies this
      ensures Valid() && latest == old(latest)
      ensures windows == map ref | ref in old(windows) && ref.channel != channel :: old(windows)[ref]
      ensures logs == map ref | ref in old(logs) && ref.channel != channel :: old(logs)[ref]
    {
      hide InOrder, Tracks;
      logs := map ref | ref in logs && ref.channel != channel :: logs[ref];
      windows := map ref | ref in windows && ref.channel != channel :: windows[ref];
    }
  }

  /** Running slots of one channel. The limit is not part of the state: it is passed with every
      acquisition, so changing it never forgets a running request. */
  class SlotState {
    var active: nat
    ghost var open: set<Slot>

    ghost predicate Valid()
      reads this, open
    {
      active == |open| && forall slot :: slot in open ==> slot.state == this && !slot.returned
    }

    constructor ()
      ensures Valid() && active == 0 && open == {}
    {
      active, open := 0, {};
    }

    /** Takes a slot if fewer than limit are in use. */
    method Acquire(limit: int) returns (slot: Slot?)
      requires Valid()
      modifies this
      ensures Valid()
      ensures slot != null <==> old(active) < limit
      ensures slot != null ==> fresh(slot) && slot.state == this && open == old(open) + {slot} && active <= limit
      ensures slot == null ==> open == old(open) && active == old(active)
    {
      if active < limit {
        active := active + 1;
        slot := new Slot(this);
        open := open + {slot};
      } else {
        slot := null;
      }
    }

    /** Other requests take and return slots. Nothing else is known of what they do. */
    method Others()
      requires Valid()
      modifies this, open
      ensures Valid() && fresh(open - old(open))
    {
    }

    /** The waiting form for channels: looks again after each of a number of wake-ups. A slot that is
        free at the first look is taken at once; giving up takes nothing. */
    method AcquireWaiting(limit: int, wakeups: nat) returns (slot: Slot?)
      requires Valid()
      modifies this, open
      ensures Valid()
      ensures old(active) < limit ==> slot != null && open == old(open) + {slot}
      ensures slot != null ==> fresh(slot) && slot.state == this && slot in open && active <= limit
    {
      var left: nat := wakeups;
      while true
        invariant Valid() && fresh(open - old(open))
        invariant left == wakeups ==> open == old(open) && active == old(active)
        invariant left < wakeups ==> old(active) >= limit
        invariant left <= wakeups
        decreases left
      {
        slot := Acquire(limit);
        if slot != null || left == 0 {
          return;
        }
        Others();
        left := left - 1;
      }
    }
  }

  /** The right to one slot; giving it back twice has no further effect. */
  class Slot {
    const state: SlotState
    var returned: bool

    constructor (state: SlotState)
      ensures this.state == state && !returned
    {
      this.state, returned := state, false;
    }

    method Release()
      requires state.Valid() && (!returned ==> this in state.open)
      modifies this, state
      ensures state.Valid() && returned
      ensures state.open == old(state.open) - {this}
      ensures old(returned) ==> state.active == old(state.active)
    {
      if !returned {
        returned := true;
        if state.active > 0 {
          state.active := state.active - 1;
        }
        state.open := state.open - {this};
      }
    }
  }

  /** The slot states by channel or key id: one state for each id, shared with no other. */
  class ConcurrencyTable {
    var states: map<int, SlotState>

    ghost predicate Valid()
      reads this, set id | id in states :: states[id], set id, slot | id in states && slot in states[id].open :: slot
    {
      && (forall id :: id in states ==> states[id].Valid())
      && (forall a, b :: a in states && b in states && a != b ==> states[a] != states[b])
    }

    constructor ()
      ensures Valid() && states == map[]
    {
      states := map[];
    }

    /** The state of the id, created at its first use. */
    method StateOf(id: int) returns (state: SlotState)
      requires Valid()
      modifies this
      ensures Valid() && states == old(states)[id := state]
      ensures id in old(states) ==> state == old(states[id])
      ensures id !in old(states) ==> fresh(state) && state.active == 0 && state.open == {}
    {
      if id in states {
        state := states[id];
      } else {
        state := new SlotState();
        states := states[id := state];
      }
    }

    /** A limit that is not positive grants without counting. Otherwise the request gets a slot
        of the id's one state, whatever limit earlier requests were given; other ids are untouched. */
    method Acquire(id: int, limit: int) returns (granted: bool, slot: Slot?)
      requires Valid()
      modifies this, if id in states then {states[id]} else {}
      ensures Valid()
      ensures limit <= 0 ==> granted && slot == null && states == old(states)
      ensures limit <= 0 && id in states ==> states[id].active == old(states[id].active) && states[id].open == old(states[id].open)
      ensures limit > 0 ==> states.Keys == old(states.Keys) + {id} && forall i :: i in old(states) ==> states[i] == old(states)[i]
      ensures limit > 0 && id !in old(states) ==> fresh(states[id])
      ensures limit > 0 ==> (granted <==> slot != null)
      ensures limit > 0 ==> (granted <==> id !in old(states) || old(states[id].active) < limit)
      ensures limit > 0 ==> states[id].open == (if id in old(states) then old(states[id].open) else {}) + if granted then {slot} else {}
      ensures granted && limit > 0 ==> fresh(slot) && slot.state == states[id] && states[id].active <= limit
    {
      if limit <= 0 {
        return true, null;
      }
      var state := StateOf(id);
      slot := state.Acquire(limit);
      granted := slot != null;
    }

    /** Gives a slot back, whether its state is still in the table or not. */
    method Return(slot: Slot)
      requires Valid() && slot.state.Valid() && (!slot.returned ==> slot in slot.state.open)
      modifies slot, slot.state
      ensures Valid() && slot.state.Valid() && slot.returned
      ensures slot.state.open == old(slot.state.open) - {slot}
    {
      slot.Release();
    }

    /** Drops the state of a deleted id. Slots handed out before keep counting on the old state. */
    method Cleanup(id: int)
      requires Valid()
      modifies this
      ensures Valid() && states == old(states) - {id}
    {
      states := states - {id};
    }
  }
}
