/** Failure accounting of one proxy account: the in-memory state of
    internal/relay/opencode_proxy_pool.go and the stored row of internal/op/opencode_proxy.go.
    Times and durations are nanoseconds; 0 is the zero time and clock readings are positive. */
module FailureWindow {
  import opened Wrappers

  const SECOND := 1_000_000_000
  const DAY := 24 * 3600 * SECOND
  const WINDOW := DAY
  const WINDOW_LIMIT := 6
  const REJECTED_COOLDOWN := DAY

  datatype Account = Account(lastSuccessAt: int, cooldownUntil: int, active: nat, sessions: map<string, nat>,
                             verified: bool, consecutiveFailures: nat, windowStart: int, windowCount: nat)

  /** lastDay is the calendar day of the last success, "" before the first. */
  datatype Row = Row(lastSuccessAt: int, cooldownUntil: int, realFailures: nat, successes: nat, windowStart: int, windowCount: nat,
                     lastProbeAt: int, realSuccesses: nat, probeSuccesses: nat, successDays: nat, lastDay: string)

  const NEW_ACCOUNT := Account(0, 0, 0, map[], false, 0, 0, 0)
  const NEW_ROW := Row(0, 0, 0, 0, 0, 0, 0, 0, 0, 0, "")

  // ---- Cooldown length ----

  /** Two's complement wrap-around of a 64-bit product. */
  function Wrap64(x: int): int {
    var m := x % 0x1_0000_0000_0000_0000;
    if m < 0x8000_0000_0000_0000 then m else m - 0x1_0000_0000_0000_0000
  }

  /** opencodeRejectCooldown: Retry-After in seconds if it is a positive number, else until the
      next UTC midnight. seconds is None when the header is no 64-bit integer. */
  function RejectCooldown(seconds: Option<int>, now: nat): int {
    if seconds.Some? && seconds.value > 0 then
      var cooldown := Wrap64(seconds.value * SECOND);
      if cooldown < REJECTED_COOLDOWN then cooldown else REJECTED_COOLDOWN
    else
      var left := now / DAY * DAY + DAY - now;
      if 0 < left < REJECTED_COOLDOWN then left else REJECTED_COOLDOWN
  }

  /** Without a header the cooldown ends exactly at the next UTC midnight. */
  lemma MidnightCooldown(now: nat)
    ensures var until := now + RejectCooldown(None, now);
            until % DAY == 0 && now < until <= now + DAY
  {
    var q := now / DAY;
    assert now == q * DAY + now % DAY;
    assert (q * DAY + DAY) % DAY == 0 by { ModOfMultiple(q + 1); }
  }

  lemma ModOfMultiple(k: nat)
    ensures k * DAY % DAY == 0
  {
  }

  /** What the header asks for, capped at a day. */
  function Asked(seconds: int): int {
    if seconds * SECOND < REJECTED_COOLDOWN then seconds * SECOND else REJECTED_COOLDOWN
  }

  /** The header is honoured exactly when its nanoseconds, modulo the 64-bit range, still come to a day
      or more, or are less than a day to begin with. It always is up to 9223372036 seconds. */
  lemma RetryAfterHonoured(seconds: int, now: nat)
    requires seconds > 0
    ensures RejectCooldown(Some(seconds), now) == Asked(seconds)
       <==> (seconds * SECOND < REJECTED_COOLDOWN
             || REJECTED_COOLDOWN <= seconds * SECOND % 0x1_0000_0000_0000_0000 < 0x8000_0000_0000_0000)
    ensures seconds <= 9_223_372_036 ==> RejectCooldown(Some(seconds), now) == Asked(seconds)
  {
    var product := seconds * SECOND;
    if product < 0x8000_0000_0000_0000 {
      assert product % 0x1_0000_0000_0000_0000 == product;
    }
  }

  /** A larger header wraps: this one yields a cooldown that lies in the past. */
  lemma RetryAfterOverflows(now: nat)
    ensures RejectCooldown(Some(9_223_372_037), now) < 0
  {
  }

  // ---- Steps in memory ----

  predicate Cooling(cooldownUntil: int, now: int) {
    now < cooldownUntil
  }

  predicate Stale(windowStart: int, now: int) {
    windowStart == 0 || now - windowStart > WINDOW
  }

  function SucceedInMemory(a: Account, now: int): Account {
    a.(verified := true, lastSuccessAt := now, cooldownUntil := 0, consecutiveFailures := 0)
  }

  function CoolInMemory(a: Account, until: int): Account {
    a.(cooldownUntil := until, consecutiveFailures := 0, windowStart := 0, windowCount := 0)
  }

  /** The window of one failure, counted but not yet compared with the limit. */
  function CountFailure(a: Account, now: int): Account {
    if Stale(a.windowStart, now) then
      a.(consecutiveFailures := a.consecutiveFailures + 1, windowStart := now, windowCount := 1)
    else
      a.(consecutiveFailures := a.consecutiveFailures + 1, windowCount := a.windowCount + 1)
  }

  /** The account after a failure, and the cooldown to store if the window filled up. */
  function FailInMemory(a: Account, now: nat): (Account, Option<int>) {
    if Cooling(a.cooldownUntil, now) then (a, None)
    else
      var b := CountFailure(a, now);
      if b.windowCount >= WINDOW_LIMIT then
        (CoolInMemory(b, now + RejectCooldown(None, now)), Some(now + RejectCooldown(None, now)))
      else (b, None)
  }

  // ---- Steps on the row ----

  function SucceedInRow(r: Row, at: int, day: string, probe: bool): Row {
    r.(lastSuccessAt := at, cooldownUntil := 0, successes := r.successes + 1,
       realSuccesses := r.realSuccesses + if probe then 0 else 1, probeSuccesses := r.probeSuccesses + if probe then 1 else 0,
       successDays := r.successDays + if r.lastDay == day then 0 else 1, lastDay := day)
  }

  function CoolInRow(r: Row, until: int): Row {
    r.(cooldownUntil := until, windowStart := 0, windowCount := 0)
  }

  function FailInRow(r: Row, now: int): Row {
    var r := r.(realFailures := r.realFailures + 1);
    if Cooling(r.cooldownUntil, now) then r
    else if Stale(r.windowStart, now) then r.(windowStart := now, windowCount := 1)
    else if r.windowCount + 1 >= WINDOW_LIMIT then r.(windowStart := 0, windowCount := 0)
    else r.(windowCount := r.windowCount + 1)
  }

  // ---- Agreement ----

  predicate Agree(a: Account, r: Row) {
    a.lastSuccessAt == r.lastSuccessAt && a.cooldownUntil == r.cooldownUntil
    && a.windowStart == r.windowStart && a.windowCount == r.windowCount
  }

  /** Between steps the window holds fewer failures than the limit, is empty while the account
      cools, and an empty window has no start. */
  predicate Settled(a: Account, now: int) {
    && a.windowCount < WINDOW_LIMIT
    && (a.windowCount == 0 <==> a.windowStart == 0)
    && (Cooling(a.cooldownUntil, now) ==> a.windowCount == 0)
  }

  /** One recorded event and the time at which both sides apply it. */
  datatype Event =
    | Success(now: nat, day: string, probe: bool)
    | Cooldown(now: nat, until: int)
    | Failure(now: nat, cooldownSavedFirst: bool)

  function ApplyInMemory(a: Account, e: Event): Account {
    match e
    case Success(now, _, _) => SucceedInMemory(a, now)
    case Cooldown(_, until) => CoolInMemory(a, until)
    case Failure(now, _) =>
      var (b, until) := FailInMemory(a, now);
      if until.Some? then CoolInMemory(b, until.value) else b
  }

  /** The stored row after the same event; the two saves of a filled window may arrive in either order. */
  function ApplyInRow(r: Row, a: Account, e: Event): Row {
    match e
    case Success(now, day, probe) => SucceedInRow(r, now, day, probe)
    case Cooldown(_, until) => CoolInRow(r, until)
    case Failure(now, cooldownSavedFirst) =>
      match FailInMemory(a, now).1
      case None => FailInRow(r, now)
      case Some(until) =>
        if cooldownSavedFirst then FailInRow(CoolInRow(r, until), now) else CoolInRow(FailInRow(r, now), until)
  }

  lemma EventKeepsAgreement(a: Account, r: Row, e: Event)
    requires Agree(a, r) && Settled(a, e.now) && e.now > 0
    ensures Agree(ApplyInMemory(a, e), ApplyInRow(r, a, e))
    ensures Settled(ApplyInMemory(a, e), e.now)
    ensures ApplyInRow(r, a, e).realFailures == r.realFailures + if e.Failure? then 1 else 0
  {
    MidnightCooldown(e.now);
  }

  ghost predicate Ordered(events: seq<Event>, from: nat) {
    events == [] || (from <= events[0].now && 0 < events[0].now && Ordered(events[1..], events[0].now))
  }

  function RunInMemory(a: Account, events: seq<Event>): Account
    decreases |events|
  {
    if events == [] then a else RunInMemory(ApplyInMemory(a, events[0]), events[1..])
  }

  function RunInRow(r: Row, a: Account, events: seq<Event>): Row
    decreases |events|
  {
    if events == [] then r else RunInRow(ApplyInRow(r, a, events[0]), ApplyInMemory(a, events[0]), events[1..])
  }

  function LastTime(events: seq<Event>, from: nat): nat {
    if events == [] then from else events[|events| - 1].now
  }

  /** Over every history with a monotone clock, memory and row agree after each event. */
  lemma {:induction false} HistoryKeepsAgreement(a: Account, r: Row, events: seq<Event>, from: nat)
    requires Agree(a, r) && Settled(a, from) && Ordered(events, from)
    ensures Agree(RunInMemory(a, events), RunInRow(r, a, events))
    ensures Settled(RunInMemory(a, events), LastTime(events, from))
    decreases |events|
  {
    if events != [] {
      EventKeepsAgreement(a, r, events[0]);
      HistoryKeepsAgreement(ApplyInMemory(a, events[0]), ApplyInRow(r, a, events[0]), events[1..], events[0].now);
    }
  }

  function Failures(times: seq<nat>): seq<Event> {
    seq(|times|, i requires 0 <= i < |times| => Event.Failure(times[i], false))
  }

  /** Failures inside the window that opened at start, all after the account's cooldown. */
  ghost predicate InsideWindow(times: seq<nat>, start: nat, cooldownUntil: int) {
    && (forall i :: 0 <= i < |times| ==> start <= times[i] <= start + WINDOW && cooldownUntil <= times[i])
    && (forall i, j :: 0 <= i < j < |times| ==> times[i] <= times[j])
  }

  lemma {:induction false} OpenWindowCounts(a: Account, times: seq<nat>)
    requires a.windowStart > 0 && InsideWindow(times, a.windowStart, a.cooldownUntil)
    requires 0 < a.windowCount < 6 && a.windowCount + |times| <= 6
    ensures var b := RunInMemory(a, Failures(times));
            if a.windowCount + |times| < 6 then
              b == a.(consecutiveFailures := a.consecutiveFailures + |times|, windowCount := a.windowCount + |times|)
            else
              b == a.(consecutiveFailures := 0, windowStart := 0, windowCount := 0,
                      cooldownUntil := (times[|times| - 1] / DAY + 1) * DAY)
    decreases |times|
  {
    if times != [] {
      var es := Failures(times);
      assert es[1..] == Failures(times[1..]);
      var b := ApplyInMemory(a, es[0]);
      UntilMidnight(times[0]);
      if a.windowCount + 1 < 6 {
        assert b == a.(consecutiveFailures := a.consecutiveFailures + 1, windowCount := a.windowCount + 1);
        OpenWindowCounts(b, times[1..]);
      } else {
        assert times[1..] == [];
      }
    }
  }

  lemma UntilMidnight(now: nat)
    ensures now + RejectCooldown(None, now) == (now / DAY + 1) * DAY
  {
    MidnightCooldown(now);
    assert (now / DAY + 1) * DAY == now / DAY * DAY + DAY;
  }

  /** Failures within a day of the first one, which finds no window open: up to five only count, the sixth
      puts the account to rest until the next UTC midnight and starts over. */
  lemma SixthFailureRests(a: Account, times: seq<nat>)
    requires 0 < |times| <= 6 && times[0] > 0 && InsideWindow(times, times[0], a.cooldownUntil)
    requires a.windowStart == 0 || times[0] > a.windowStart + WINDOW
    ensures var b := RunInMemory(a, Failures(times));
            if |times| < 6 then
              b == a.(consecutiveFailures := a.consecutiveFailures + |times|, windowStart := times[0], windowCount := |times|)
            else
              b == a.(consecutiveFailures := 0, windowStart := 0, windowCount := 0, cooldownUntil := (times[5] / DAY + 1) * DAY)
  {
    hide RejectCooldown;
    var es := Failures(times);
    assert es[1..] == Failures(times[1..]);
    var b := ApplyInMemory(a, es[0]);
    assert b == a.(consecutiveFailures := a.consecutiveFailures + 1, windowStart := times[0], windowCount := 1);
    OpenWindowCounts(b, times[1..]);
  }

  /** While an account rests failures change nothing of it. */
  lemma {:induction false} RestingIgnoresFailures(a: Account, times: seq<nat>)
    requires forall i :: 0 <= i < |times| ==> times[i] < a.cooldownUntil
    ensures RunInMemory(a, Failures(times)) == a
    decreases |times|
  {
    if times != [] {
      assert Failures(times)[1..] == Failures(times[1..]);
      RestingIgnoresFailures(a, times[1..]);
    }
  }

  predicate Counted(r: Row) {
    && r.successes == r.realSuccesses + r.probeSuccesses && r.successDays <= r.successes
    && (r.lastDay == "" <==> r.successes == 0) && (r.successes > 0 ==> r.successDays > 0)
  }

  /** Over every history each success is counted once, as real or as probed, and on at most one new day. */
  lemma {:induction false} HistoryIsCounted(r: Row, a: Account, events: seq<Event>)
    requires Counted(r) && forall e :: e in events && e.Success? ==> e.day != ""
    ensures Counted(RunInRow(r, a, events))
    ensures RunInRow(r, a, events).successes == r.successes + Successes(events)
    ensures RunInRow(r, a, events).probeSuccesses == r.probeSuccesses + Probes(events)
    ensures RunInRow(r, a, events).successDays == r.successDays + NewDays(events, r.lastDay)
    decreases |events|
  {
    hide FailInMemory, ApplyInMemory;
    if events != [] {
      HistoryIsCounted(ApplyInRow(r, a, events[0]), ApplyInMemory(a, events[0]), events[1..]);
    }
  }

  function Probes(events: seq<Event>): nat {
    if events == [] then 0 else (if events[0].Success? && events[0].probe then 1 else 0) + Probes(events[1..])
  }

  /** The successes on another day than the success before. */
  function NewDays(events: seq<Event>, day: string): nat {
    if events == [] then 0
    else if !events[0].Success? then NewDays(events[1..], day)
    else (if events[0].day != day then 1 else 0) + NewDays(events[1..], events[0].day)
  }

  function Successes(events: seq<Event>): nat {
    if events == [] then 0 else (if events[0].Success? then 1 else 0) + Successes(events[1..])
  }

  /** loadOpencodeProxyPoolForKey: an account as rebuilt from its row. */
  function Load(r: Row, now: int): Account {
    var a := NEW_ACCOUNT.(lastSuccessAt := r.lastSuccessAt, cooldownUntil := r.cooldownUntil, verified := r.lastSuccessAt != 0);
    if Cooling(r.cooldownUntil, now) then a else a.(windowStart := r.windowStart, windowCount := r.windowCount)
  }

  /** Equal up to what is kept in memory only: open requests and consecutive failures. */
  predicate SameRecord(a: Account, b: Account) {
    a.(active := 0, sessions := map[], consecutiveFailures := 0) == b.(active := 0, sessions := map[], consecutiveFailures := 0)
  }

  lemma EventKeepsSame(a: Account, b: Account, e: Event)
    requires SameRecord(a, b)
    ensures SameRecord(ApplyInMemory(a, e), ApplyInMemory(b, e))
  {
    hide RejectCooldown;
  }

  lemma {:induction false} HistoryKeepsSame(a: Account, b: Account, events: seq<Event>)
    requires SameRecord(a, b)
    ensures SameRecord(RunInMemory(a, events), RunInMemory(b, events))
    decreases |events|
  {
    hide SameRecord, ApplyInMemory;
    if events != [] {
      EventKeepsSame(a, b, events[0]);
      HistoryKeepsSame(ApplyInMemory(a, events[0]), ApplyInMemory(b, events[0]), events[1..]);
    }
  }

  lemma {:induction false} HistoryVerifies(a: Account, events: seq<Event>, from: nat)
    requires Ordered(events, from) && (a.verified <==> a.lastSuccessAt != 0)
    ensures RunInMemory(a, events).verified <==> RunInMemory(a, events).lastSuccessAt != 0
    decreases |events|
  {
    hide RejectCooldown;
    if events != [] {
      HistoryVerifies(ApplyInMemory(a, events[0]), events[1..], events[0].now);
    }
  }

  /** A restart changes nothing but the open requests and the consecutive failures, then and over every
      history that follows: last success, verification, cooldown and window stay those of the account that
      was lost, and memory and row go on to agree. */
  lemma RestartIsTransparent(before: seq<Event>, now: nat, after: seq<Event>)
    requires Ordered(before, 0) && LastTime(before, 0) <= now && Ordered(after, now)
    ensures var a, r := RunInMemory(NEW_ACCOUNT, before), RunInRow(NEW_ROW, NEW_ACCOUNT, before);
            && SameRecord(RunInMemory(Load(r, now), after), RunInMemory(a, after))
            && Agree(RunInMemory(Load(r, now), after), RunInRow(r, Load(r, now), after))
            && Load(r, now).consecutiveFailures == 0
  {
    var a, r := RunInMemory(NEW_ACCOUNT, before), RunInRow(NEW_ROW, NEW_ACCOUNT, before);
    HistoryKeepsAgreement(NEW_ACCOUNT, NEW_ROW, before, 0);
    HistoryVerifies(NEW_ACCOUNT, before, 0);
    LoadIsSame(a, r, LastTime(before, 0), now);
    HistoryKeepsSame(Load(r, now), a, after);
    HistoryKeepsAgreement(Load(r, now), r, after, now);
  }

  lemma LoadIsSame(a: Account, r: Row, last: int, now: int)
    requires Agree(a, r) && Settled(a, last) && last <= now && (a.verified <==> a.lastSuccessAt != 0)
    ensures SameRecord(Load(r, now), a) && Agree(Load(r, now), r) && Settled(Load(r, now), now)
  {
  }

  // ---- The account table ----

  function RowOf(rows: map<string, Row>, account: string): Row {
    if account in rows then rows[account] else NEW_ROW
  }

  /** Rows that ever succeeded come first, then the most recently active. */
  predicate KeptBefore(a: Row, b: Row) {
    if (a.successes > 0) != (b.successes > 0) then a.successes > 0 else LastActive(a) > LastActive(b)
  }

  function LastActive(r: Row): int {
    var recency := if r.cooldownUntil > r.lastSuccessAt then r.cooldownUntil else r.lastSuccessAt;
    if r.lastProbeAt > recency then r.lastProbeAt else recency
  }

  /** The order on the fields: a row with a success stands before one without; of two alike the one whose
      last success, cooldown or probe is latest. */
  lemma KeptBeforeIff(a: Row, b: Row)
    ensures KeptBefore(a, b)
       <==> if a.successes > 0 && b.successes == 0 then true
            else if a.successes == 0 && b.successes > 0 then false
            else exists t :: t in [a.lastSuccessAt, a.cooldownUntil, a.lastProbeAt]
                             && b.lastSuccessAt < t && b.cooldownUntil < t && b.lastProbeAt < t
  {
    var times := [a.lastSuccessAt, a.cooldownUntil, a.lastProbeAt];
    assert times[0] in times && times[1] in times && times[2] in times;
  }

  lemma KeptBeforeIsRanking(a: Row, b: Row, c: Row)
    ensures !(KeptBefore(a, b) && KeptBefore(b, a))
    ensures !KeptBefore(b, a) && !KeptBefore(c, b) ==> !KeptBefore(c, a)
  {
  }

  /** The rows of one channel and key, keyed by account. Every save is an upsert. */
  class AccountTable {
    var rows: map<string, Row>

    constructor ()
      ensures rows == map[]
    {
      rows := map[];
    }

    method SaveSuccess(account: string, at: int, day: string, probe: bool)
      requires day != ""
      modifies this
      ensures rows == old(rows)[account := SucceedInRow(RowOf(old(rows), account), at, day, probe)]
    {
      var row := NEW_ROW.(lastSuccessAt := at, successes := 1, successDays := 1, lastDay := day);
      if account in rows {
        row := rows[account];
        row := row.(lastSuccessAt := at, successes := row.successes + 1, cooldownUntil := 0,
                    successDays := if row.lastDay == day then row.successDays else row.successDays + 1, lastDay := day);
      }
      if probe {
        row := row.(probeSuccesses := row.probeSuccesses + 1);
      } else {
        row := row.(realSuccesses := row.realSuccesses + 1);
      }
      rows := rows[account := row];
    }

    method SaveRealFailure(account: string, now: int)
      modifies this
      ensures rows == old(rows)[account := FailInRow(RowOf(old(rows), account), now)]
    {
      var row := RowOf(rows, account);
      row := row.(realFailures := row.realFailures + 1);
      if !Cooling(row.cooldownUntil, now) {
        if Stale(row.windowStart, now) {
          row := row.(windowStart := now, windowCount := 1);
        } else if row.windowCount + 1 >= WINDOW_LIMIT {
          row := row.(windowStart := 0, windowCount := 0);
        } else {
          row := row.(windowCount := row.windowCount + 1);
        }
      }
      rows := rows[account := row];
    }

    method SaveCooldown(account: string, until: int)
      modifies this
      ensures rows == old(rows)[account := CoolInRow(RowOf(old(rows), account), until)]
    {
      var row := RowOf(rows, account);
      rows := rows[account := row.(cooldownUntil := until, windowStart := 0, windowCount := 0)];
    }

    /** One of the rows to keep first. */
    method Foremost(names: set<string>) returns (best: string)
      requires names <= rows.Keys && exists n :: n in names
      ensures best in names && forall n :: n in names ==> !KeptBefore(rows[n], rows[best])
    {
      hide KeptBefore;
      best :| best in names;
      var todo := names - {best};
      KeptBeforeIsRanking(rows[best], rows[best], rows[best]);
      while exists n :: n in todo
        invariant best in names && todo <= names
        invariant forall n :: n in names && n !in todo ==> !KeptBefore(rows[n], rows[best])
        decreases todo
      {
        var n :| n in todo;
        todo := todo - {n};
        if KeptBefore(rows[n], rows[best]) {
          forall m | m in names && m !in todo ensures !KeptBefore(rows[m], rows[n]) {
            KeptBeforeIsRanking(rows[n], rows[best], rows[m]);
            KeptBeforeIsRanking(rows[n], rows[n], rows[n]);
          }
          best := n;
        }
      }
    }

    /** Deletes the last rows of the ranking until keep are left: no row is deleted that ranks
        before one that stays. */
    method Prune(keep: int)
      modifies this
      ensures keep <= 0 || |old(rows)| <= keep ==> rows == old(rows)
      ensures keep > 0 && |old(rows)| > keep ==> |rows| == keep
      ensures forall n :: n in rows ==> n in old(rows) && rows[n] == old(rows)[n]
      ensures forall k, d :: k in rows && d in old(rows) && d !in rows ==> !KeptBefore(old(rows)[d], old(rows)[k])
    {
      if keep <= 0 || |rows| <= keep {
        return;
      }
      hide KeptBefore;
      var kept, rest := {}, rows.Keys;
      while |kept| < keep && exists n :: n in rest
        invariant rows == old(rows) && kept !! rest && kept + rest == rows.Keys && |kept| <= keep
        invariant forall k, d :: k in kept && d in rest ==> !KeptBefore(rows[d], rows[k])
        decreases rest
      {
        var best := Foremost(rest);
        kept, rest := kept + {best}, rest - {best};
      }
      assert rest == {} ==> kept == rows.Keys;
      rows := rows - rest;
      assert rows.Keys == kept;
    }
  }
}
