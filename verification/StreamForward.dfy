/** Forwarding of a committed stream: the validity window of internal/relay/upstream.go, and the loop of
    internal/relay/handler.go that decides what the client sees and whether the round succeeded. */
module StreamForward {
  import opened StreamVerdicts
  import opened Wrappers

  // ---- The validity window ----

  const WINDOW_MAX_EVENTS := 4096
  const WINDOW_MAX_BYTES := 8 * 1024 * 1024

  /** ended: the stream is used up; terminated: the window ends in the terminal event. */
  datatype Window = Window(events: seq<Event>, rest: seq<Event>, ended: bool, terminated: bool)

  /** A window never holds a failing or abnormal event, and a terminal event only at its end,
      exactly when it says so. */
  ghost predicate WindowOk(format: Format, w: Window) {
    && (forall e :: e in w.events ==> !Analyze(format, e).inspectErr && !Analyze(format, e).abnormal)
    && (forall i :: 0 <= i < |w.events| - 1 ==> !Analyze(format, w.events[i]).terminal)
    && (w.terminated <==> w.events != [] && Analyze(format, w.events[|w.events| - 1]).terminal)
  }

  datatype WindowError = BudgetExceeded | BadEvent | AbnormalFinish | ZeroOutput | EarlyEof | ReadError

  /** The events that carry data. */
  function Carrying(es: seq<Event>): seq<Event> {
    if es == [] then []
    else Carrying(es[..|es| - 1]) + if es[|es| - 1].payload.Empty? then [] else [es[|es| - 1]]
  }

  function Bytes(es: seq<Event>): nat {
    if es == [] then 0 else Bytes(es[..|es| - 1]) + es[|es| - 1].size
  }

  /** An event that ends the window one way or the other. */
  predicate Decisive(format: Format, e: Event) {
    var v := Analyze(format, e);
    v.terminal || v.inspectErr || v.abnormal || v.hasContent
  }

  predicate WithinWindow(es: seq<Event>) {
    |Carrying(es)| <= WINDOW_MAX_EVENTS && Bytes(Carrying(es)) <= WINDOW_MAX_BYTES
  }

  predicate SeenFinish(format: Format, es: seq<Event>) {
    exists e :: e in es && Analyze(format, e).finishSeen
  }

  /** The k-th event is the first decisive one, within the budget, and a good start: content, or the
      end of a response that had some or stated its finish reason. */
  ghost predicate Accepts(format: Format, stream: seq<Event>, k: nat, zeroOutput: bool) {
    && k < |stream| && (forall i :: 0 <= i < k ==> !Decisive(format, stream[i])) && WithinWindow(stream[..k + 1])
    && var v := Analyze(format, stream[k]);
    && !v.inspectErr && !v.abnormal && (v.terminal || v.hasContent)
    && (v.terminal ==> !zeroOutput && (v.hasContent || SeenFinish(format, stream[..k + 1])))
  }

  ghost predicate WindowAt(format: Format, stream: seq<Event>, k: nat, w: Window)
    requires k < |stream|
  {
    var terminal := Analyze(format, stream[k]).terminal;
    w == Window(Carrying(stream[..k + 1]), stream[k + 1..], terminal, terminal)
  }

  /** The same in terms of the payloads: nothing garbled, tainted, ending or with content comes before the
      k-th event, which is content or a proper end. */
  ghost predicate GoodStart(format: Format, stream: seq<Event>, k: nat, zeroOutput: bool) {
    && k < |stream| && WithinWindow(stream[..k + 1])
    && (forall i :: 0 <= i < k ==> !Garbled(format, stream[i]) && !Tainted(format, stream[i]) && !Ends(format, stream[i])
                                   && !HoldsContent(format, stream[i]))
    && !Garbled(format, stream[k]) && !Tainted(format, stream[k]) && (Ends(format, stream[k]) || HoldsContent(format, stream[k]))
    && (Ends(format, stream[k]) ==>
          !zeroOutput && (HoldsContent(format, stream[k]) || exists i :: 0 <= i <= k && StatesFinish(format, stream[i])))
  }

  lemma AcceptsIffGoodStart(format: Format, stream: seq<Event>, k: nat, zeroOutput: bool)
    ensures Accepts(format, stream, k, zeroOutput) <==> GoodStart(format, stream, k, zeroOutput)
  {
    hide Analyze, Garbled, Tainted, Ends, HoldsContent, StatesFinish, WithinWindow;
    forall i | 0 <= i < |stream|
      ensures var e := stream[i];
              && (Decisive(format, e) <==> Garbled(format, e) || Tainted(format, e) || Ends(format, e) || HoldsContent(format, e))
              && (Analyze(format, e).finishSeen <==> StatesFinish(format, e))
    {
      VerdictMeans(format, stream[i]);
    }
    if k < |stream| {
      VerdictMeans(format, stream[k]);
      var head := stream[..k + 1];
      assert forall i :: 0 <= i <= k ==> head[i] == stream[i];
      assert SeenFinish(format, head) <==> exists i :: 0 <= i <= k && StatesFinish(format, head[i]);
    }
  }

  lemma CarryingSnoc(stream: seq<Event>, i: nat)
    requires i < |stream|
    ensures Carrying(stream[..i + 1]) == Carrying(stream[..i]) + if stream[i].payload.Empty? then [] else [stream[i]]
    ensures Bytes(Carrying(stream[..i + 1])) == Bytes(Carrying(stream[..i])) + if stream[i].payload.Empty? then 0 else stream[i].size
  {
    assert stream[..i + 1][..i] == stream[..i];
    var c := Carrying(stream[..i]);
    if stream[i].payload.Empty? {
      assert c + [] == c;
    } else {
      assert (c + [stream[i]])[..|c|] == c;
    }
  }

  /** A window keeps every event with data, in order, and no other. */
  lemma {:induction false} CarryingKeeps(a: seq<Event>, e: Event, b: seq<Event>)
    ensures Carrying(a + [e] + b) == Carrying(a) + (if e.payload.Empty? then [] else [e]) + Carrying(b)
    decreases |b|
  {
    var es := a + [e] + b;
    if b == [] {
      assert es[..|es| - 1] == a && es[|es| - 1] == e;
    } else {
      assert es[..|es| - 1] == a + [e] + b[..|b| - 1];
      CarryingKeeps(a, e, b[..|b| - 1]);
    }
  }

  lemma {:induction false} BudgetShrinks(stream: seq<Event>, i: nat, k: nat)
    requires i <= k <= |stream| && WithinWindow(stream[..k])
    ensures WithinWindow(stream[..i])
    decreases k
  {
    if i < k {
      CarryingSnoc(stream, k - 1);
      BudgetShrinks(stream, i, k - 1);
    }
  }

  lemma SeenFinishSnoc(format: Format, stream: seq<Event>, i: nat)
    requires i < |stream|
    ensures SeenFinish(format, stream[..i + 1]) <==> SeenFinish(format, stream[..i]) || Analyze(format, stream[i]).finishSeen
  {
    hide Analyze;
    assert stream[..i + 1] == stream[..i] + [stream[i]];
    assert forall e :: e in stream[..i + 1] <==> e in stream[..i] || e == stream[i];
  }

  /** The window can only be accepted at the first event that is decisive or over the budget. */
  lemma OnlyAt(format: Format, stream: seq<Event>, i: nat, k: nat, zeroOutput: bool)
    requires i < |stream| && forall j :: 0 <= j < i ==> !Decisive(format, stream[j])
    requires Decisive(format, stream[i]) || !WithinWindow(stream[..i + 1])
    ensures Accepts(format, stream, k, zeroOutput) ==> k == i && Decisive(format, stream[i])
  {
    hide Analyze, WithinWindow;
    if Accepts(format, stream, k, zeroOutput) && k > i {
      BudgetShrinks(stream, i + 1, k + 1);
    }
  }

  lemma AcceptedIsOk(format: Format, stream: seq<Event>, k: nat, zeroOutput: bool, w: Window)
    requires Accepts(format, stream, k, zeroOutput) && WindowAt(format, stream, k, w)
    ensures WindowOk(format, w) && w.events != []
  {
    EmptyIsQuiet(format, stream[k]);
    hide Analyze, WithinWindow, SeenFinish, Carrying, Bytes;
    CarryingSnoc(stream, k);
    CarryingIsFrom(stream[..k]);
    var c, e := Carrying(stream[..k]), stream[k];
    assert !e.payload.Empty? && w.events == c + [e];
    forall d | d in c ensures !Decisive(format, d) {
      assert d in stream[..k];
    }
    QuietThenGood(format, c, e, w);
  }

  lemma QuietThenGood(format: Format, c: seq<Event>, e: Event, w: Window)
    requires (forall d :: d in c ==> !Decisive(format, d)) && w.events == c + [e]
    requires !Analyze(format, e).inspectErr && !Analyze(format, e).abnormal && w.terminated == Analyze(format, e).terminal
    ensures WindowOk(format, w)
  {
    hide Analyze;
    forall d | d in w.events ensures !Analyze(format, d).inspectErr && !Analyze(format, d).abnormal {
      assert d in c || d == e;
    }
    forall i | 0 <= i < |w.events| - 1 ensures !Analyze(format, w.events[i]).terminal {
      assert w.events[i] == c[i] && c[i] in c;
    }
  }

  lemma EmptyIsQuiet(format: Format, e: Event)
    ensures e.payload.Empty? ==> Analyze(format, e) == NOTHING
  {
  }

  lemma {:induction false} CarryingIsFrom(es: seq<Event>)
    ensures forall e :: e in Carrying(es) ==> e in es
  {
    if es != [] {
      CarryingIsFrom(es[..|es| - 1]);
      assert es == es[..|es| - 1] + [es[|es| - 1]];
    }
  }

  /** Reads up to the first decisive event. Everything that fails here can still be retried.
      zeroOutput says whether the upstream reported no output tokens. */
  method ReadWindow(format: Format, stream: seq<Event>, readFails: bool, zeroOutput: bool) returns (r: Result<Window, WindowError>)
    ensures r.Success? ==> WindowOk(format, r.value) && r.value.events != []
    ensures r.Success? ==> exists k: nat :: Accepts(format, stream, k, zeroOutput) && WindowAt(format, stream, k, r.value)
    ensures r.Failure? ==> forall k: nat :: !Accepts(format, stream, k, zeroOutput)
    ensures WithinWindow(stream) && (forall e :: e in stream ==> !Decisive(format, e)) ==>
              r == Failure(if readFails then ReadError else EarlyEof)
  {
    hide Analyze, WithinWindow, SeenFinish, Carrying, Bytes, WindowOk, Accepts;
    var window: seq<Event>, bytes := [], 0;
    var sawFinish := false;
    NothingRead(format);
    assert stream[..0] == [];
    for i := 0 to |stream|
      invariant window == Carrying(stream[..i]) && bytes == Bytes(window) && WithinWindow(stream[..i])
      invariant forall j :: 0 <= j < i ==> !Decisive(format, stream[j])
      invariant sawFinish == SeenFinish(format, stream[..i])
    {
      var e := stream[i];
      CarryingSnoc(stream, i);
      SeenFinishSnoc(format, stream, i);
      EmptyIsQuiet(format, e);
      if e.payload.Empty? {
        EmptyStaysWithin(stream, i);
        continue;
      }
      bytes := bytes + e.size;
      OverBudgetIff(stream[..i + 1]);
      assert e in stream;
      forall k: nat | Decisive(format, e) || !WithinWindow(stream[..i + 1])
        ensures Accepts(format, stream, k, zeroOutput) ==> k == i && Decisive(format, e)
      {
        OnlyAt(format, stream, i, k, zeroOutput);
      }
      if |window| + 1 > WINDOW_MAX_EVENTS || bytes > WINDOW_MAX_BYTES {
        NotWithin(format, stream, i, zeroOutput);
        return Failure(BudgetExceeded);
      }
      var v := Analyze(format, e);
      AcceptsMeans(format, stream, i, zeroOutput);
      if v.inspectErr {
        return Failure(BadEvent);
      }
      if v.abnormal {
        return Failure(AbnormalFinish);
      }
      window := window + [e];
      sawFinish := sawFinish || v.finishSeen;
      if v.terminal && zeroOutput {
        return Failure(ZeroOutput);
      }
      if v.terminal && !v.hasContent && !sawFinish {
        return Failure(EarlyEof);
      }
      if v.terminal || v.hasContent {
        r := Success(Window(window, stream[i + 1..], v.terminal, v.terminal));
        AcceptedIsOk(format, stream, i, zeroOutput, r.value);
        return;
      }
    }
    assert stream[..|stream|] == stream;
    NeverAccepted(format, stream, zeroOutput);
    return Failure(if readFails then ReadError else EarlyEof);
  }

  lemma NothingRead(format: Format)
    ensures Carrying([]) == [] && Bytes([]) == 0 && WithinWindow([]) && !SeenFinish(format, [])
  {
  }

  lemma EmptyStaysWithin(stream: seq<Event>, i: nat)
    requires i < |stream| && stream[i].payload.Empty? && WithinWindow(stream[..i])
    ensures WithinWindow(stream[..i + 1])
  {
    CarryingSnoc(stream, i);
  }

  lemma OverBudgetIff(es: seq<Event>)
    ensures WithinWindow(es) <==> |Carrying(es)| <= WINDOW_MAX_EVENTS && Bytes(Carrying(es)) <= WINDOW_MAX_BYTES
  {
  }

  lemma NotWithin(format: Format, stream: seq<Event>, i: nat, zeroOutput: bool)
    requires i < |stream| && !WithinWindow(stream[..i + 1])
    ensures !Accepts(format, stream, i, zeroOutput) && !WithinWindow(stream)
  {
    assert stream[..|stream|] == stream;
    if WithinWindow(stream) {
      BudgetShrinks(stream, i + 1, |stream|);
    }
  }

  lemma AcceptsMeans(format: Format, stream: seq<Event>, k: nat, zeroOutput: bool)
    requires k < |stream| && (forall i :: 0 <= i < k ==> !Decisive(format, stream[i])) && WithinWindow(stream[..k + 1])
    ensures var v := Analyze(format, stream[k]);
            Accepts(format, stream, k, zeroOutput)
            <==> !v.inspectErr && !v.abnormal && (v.terminal || v.hasContent)
                 && (v.terminal ==> !zeroOutput && (v.hasContent || SeenFinish(format, stream[..k + 1])))
  {
  }

  lemma NeverAccepted(format: Format, stream: seq<Event>, zeroOutput: bool)
    requires forall i :: 0 <= i < |stream| ==> !Decisive(format, stream[i])
    ensures forall k: nat :: !Accepts(format, stream, k, zeroOutput)
  {
    hide Analyze;
  }

  // ---- What should happen to a committed stream ----

  /** How the forwarded part of a stream ends. */
  datatype Ending = Terminal | SentinelMissing | CutOff | Polluted | NoAnswer | ErrorFrame | OverBudget | ClientGone

  /** Limits of one round; capacity is the number of events the client still accepts. */
  datatype Limits = Limits(maxEvents: nat, maxBytes: nat, capacity: nat)

  /** What the round has seen so far. */
  datatype Seen = Seen(answered: bool, reasoned: bool, finished: bool, events: nat, bytes: nat)

  const START := Seen(false, false, false, 0, 0)

  function Note(s: Seen, v: Verdict): Seen {
    s.(answered := s.answered || v.hasAnswer, reasoned := s.reasoned || v.hasReasoning, finished := s.finished || v.finishSeen)
  }

  function Count(s: Seen, e: Event): Seen {
    s.(events := s.events + 1, bytes := s.bytes + e.size)
  }

  predicate Exceeds(s: Seen, lim: Limits) {
    (lim.maxBytes > 0 && s.bytes > lim.maxBytes) || (lim.maxEvents > 0 && s.events > lim.maxEvents)
  }

  /** Reference reading of a stream: how many events the client gets, and how it ends. */
  function Scan(format: Format, es: seq<Event>, s: Seen, lim: Limits, sent: nat): (r: (nat, Ending))
    ensures sent <= r.0 <= sent + |es| && (r.0 <= lim.capacity || r.0 == sent)
    decreases |es|
  {
    if es == [] then (sent, if s.finished then SentinelMissing else CutOff)
    else
      var v := Analyze(format, es[0]);
      var c := Count(s, es[0]);
      var n := Note(c, v);
      if Exceeds(c, lim) then (sent, OverBudget)
      else if v.abnormal then (sent, Polluted)
      else if v.stopFinish && n.reasoned && !n.answered then (sent, NoAnswer)
      else if sent >= lim.capacity then (sent, ClientGone)
      else if v.inspectErr then (sent + 1, ErrorFrame)
      else if v.terminal then (sent + 1, Terminal)
      else Scan(format, es[1..], n, lim, sent + 1)
  }

  /** The outcome of a round: events written, closing frames written after them, and the record. */
  datatype Round = Round(written: seq<Event>, closing: seq<Event>, success: bool)

  /** Conditions around the stream: a read error or idle timeout, a failed aggregation, a request
      that was cancelled by the end. */
  datatype Surroundings = Surroundings(readFails: bool, aggregateFails: bool, canceled: bool)

  function Prefix(fs: seq<Event>, n: int): seq<Event> {
    if n <= 0 then [] else if n < |fs| then fs[..n] else fs
  }

  lemma PrefixIs(fs: seq<Event>, n: int)
    ensures Prefix(fs, n) <= fs && |Prefix(fs, n)| == if n < 0 then 0 else if n < |fs| then n else |fs|
  {
  }

  function Reference(format: Format, es: seq<Event>, lim: Limits, env: Surroundings): Round {
    var (n, ending) := Scan(format, es, START, lim, 0);
    var success := (ending.Terminal? || ending.SentinelMissing?) && !env.readFails && !env.aggregateFails;
    var closing := if success && ending.SentinelMissing? && n > 0 && !env.canceled
                   then Prefix(ClosingFrames(format), lim.capacity - n) else [];
    Round(es[..n], closing, success)
  }

  // ---- Properties of the reference ----

  lemma {:induction false} WrittenIsNormal(format: Format, es: seq<Event>, s: Seen, lim: Limits, sent: nat, i: nat)
    requires sent <= i < Scan(format, es, s, lim, sent).0
    ensures !Analyze(format, es[i - sent]).abnormal
    ensures var (n, ending) := Scan(format, es, s, lim, sent);
            && (Analyze(format, es[i - sent]).terminal ==> i == n - 1)
            && (i == n - 1 && ending.Terminal? ==> CleanEnd(format, es[i - sent]))
            && (ending.SentinelMissing? ==> !Analyze(format, es[i - sent]).terminal)
    decreases |es|
  {
    if i > sent {
      WrittenIsNormal(format, es[1..], Note(Count(s, es[0]), Analyze(format, es[0])), lim, sent + 1, i);
    } else {
      ScanStopsAtTerminal(format, es, s, lim, sent);
    }
  }

  lemma ScanStopsAtTerminal(format: Format, es: seq<Event>, s: Seen, lim: Limits, sent: nat)
    requires es != [] && sent < Scan(format, es, s, lim, sent).0
    ensures var v := Analyze(format, es[0]);
            var (n, ending) := Scan(format, es, s, lim, sent);
            && !v.abnormal && (v.inspectErr ==> n == sent + 1 && ending.ErrorFrame?)
            && (v.terminal && !v.inspectErr ==> n == sent + 1 && ending.Terminal?)
            && (!v.terminal && !v.inspectErr ==> n == sent + 1 ==> !ending.Terminal?)
  {
    var v := Analyze(format, es[0]);
    if !v.terminal && !v.inspectErr && Scan(format, es, s, lim, sent) == (sent + 1, Terminal) {
      TerminalWrites(format, es[1..], Note(Count(s, es[0]), v), lim, sent + 1);
    }
  }

  lemma {:induction false} TerminalWrites(format: Format, es: seq<Event>, s: Seen, lim: Limits, sent: nat)
    ensures Scan(format, es, s, lim, sent).1.Terminal? ==> Scan(format, es, s, lim, sent).0 > sent
    decreases |es|
  {
    if es != [] {
      TerminalWrites(format, es[1..], Note(Count(s, es[0]), Analyze(format, es[0])), lim, sent + 1);
    }
  }

  /** The client saw a proper end: the last event is a clean terminal event, the only terminal one. */
  ghost predicate EndsOnce(format: Format, seen: seq<Event>) {
    && seen != [] && CleanEnd(format, seen[|seen| - 1])
    && forall i :: 0 <= i < |seen| - 1 ==> !Analyze(format, seen[i]).terminal
  }

  lemma {:induction false} FinishedMeansWritten(format: Format, es: seq<Event>, lim: Limits)
    ensures Scan(format, es, START, lim, 0).1.SentinelMissing? ==> Scan(format, es, START, lim, 0).0 == |es| > 0
  {
    MissingMeansAll(format, es, START, lim, 0);
  }

  lemma {:induction false} MissingMeansAll(format: Format, es: seq<Event>, s: Seen, lim: Limits, sent: nat)
    ensures Scan(format, es, s, lim, sent).1.SentinelMissing? ==> Scan(format, es, s, lim, sent).0 == sent + |es|
    decreases |es|
  {
    if es != [] {
      MissingMeansAll(format, es[1..], Note(Count(s, es[0]), Analyze(format, es[0])), lim, sent + 1);
    }
  }

  /** The client gets a prefix of the upstream events, none of them with an abnormal finish; a
      failed round is never rounded off with closing frames. */
  lemma OnlyNormalPrefixIsWritten(format: Format, es: seq<Event>, lim: Limits, env: Surroundings)
    ensures var r := Reference(format, es, lim, env);
            && r.written <= es
            && (forall i :: 0 <= i < |r.written| ==> !Analyze(format, r.written[i]).abnormal)
            && (!r.success ==> r.closing == [])
  {
    var r := Reference(format, es, lim, env);
    forall i | 0 <= i < |r.written| ensures !Analyze(format, r.written[i]).abnormal {
      WrittenIsNormal(format, es, START, lim, 0, i);
    }
  }

  /** A recorded success ends for the client in exactly one terminal event, if and only if the
      upstream sent a terminal event or the client has room for all events and all closing frames. */
  lemma SuccessEndsOnce(format: Format, es: seq<Event>, lim: Limits, env: Surroundings)
    requires Reference(format, es, lim, env).success
    ensures var r := Reference(format, es, lim, env);
            EndsOnce(format, r.written + r.closing)
            <==> (exists e :: e in es && Analyze(format, e).terminal)
                 || (!env.canceled && |es| + |ClosingFrames(format)| <= lim.capacity)
  {
    hide Scan, Analyze;
    var r := Reference(format, es, lim, env);
    var (n, ending) := Scan(format, es, START, lim, 0);
    forall i | 0 <= i < n
      ensures Analyze(format, es[i]).terminal ==> i == n - 1
      ensures i == n - 1 && ending.Terminal? ==> CleanEnd(format, es[i])
      ensures ending.SentinelMissing? ==> !Analyze(format, es[i]).terminal
    {
      WrittenIsNormal(format, es, START, lim, 0, i);
    }
    TerminalWrites(format, es, START, lim, 0);
    FinishedMeansWritten(format, es, lim);
    ClosingFramesEndOnce(format);
    var seen := r.written + r.closing;
    if ending.Terminal? {
      assert seen == r.written && es[n - 1] in es;
    } else if r.closing == [] {
      assert seen[|seen| - 1] == es[n - 1];
    } else {
      assert seen[|seen| - 1] == r.closing[|r.closing| - 1];
      assert r.closing[|r.closing| - 1] == ClosingFrames(format)[|r.closing| - 1];
      assert forall i :: 0 <= i < |seen| ==> seen[i] == if i < n then es[i] else ClosingFrames(format)[i - n];
    }
  }

  /** A stream the client never sees completed may still be recorded as a success: the finish
      reason arrived, the sentinel did not, and the client left before the closing frames. */
  lemma SuccessWithoutEnd()
    ensures var es := [Event("", ChatChunk(false, [Choice(true, Str("stop"), Str("answer"), Absent, Absent)]), 10)];
            var r := Reference(Chat, es, Limits(0, 0, 1), Surroundings(false, false, false));
            r.success && !EndsOnce(Chat, r.written + r.closing)
  {
    var c := Choice(true, Str("stop"), Str("answer"), Absent, Absent);
    var es := [Event("", ChatChunk(false, [c]), 10)];
    ChoicesSnoc([], c);
    assert Analyze(Chat, es[0]) == ChoicesVerdict([c]);
    assert es[1..] == [];
    assert Scan(Chat, es, START, Limits(0, 0, 1), 0) == (1, SentinelMissing);
    SuccessEndsOnce(Chat, es, Limits(0, 0, 1), Surroundings(false, false, false));
  }

  /** A sound stream: no failing or abnormal event, nothing after the first terminal event matters,
      and every natural stop comes after an answer. */
  ghost predicate Sound(format: Format, es: seq<Event>, s: Seen)
    decreases |es|
  {
    es != []
    && var v := Analyze(format, es[0]);
    && !v.inspectErr && !v.abnormal
    && (v.stopFinish ==> s.answered || v.hasAnswer)
    && (v.terminal || Sound(format, es[1..], Note(Count(s, es[0]), v)))
  }

  /** The position of the first terminal event of a sound stream. */
  ghost function TerminalAt(format: Format, es: seq<Event>, s: Seen): (t: nat)
    requires Sound(format, es, s)
    ensures t < |es|
    decreases |es|
  {
    var v := Analyze(format, es[0]);
    if v.terminal then 0 else 1 + TerminalAt(format, es[1..], Note(Count(s, es[0]), v))
  }

  /** The budgets leave room for n more events of the stream. */
  predicate Affordable(es: seq<Event>, n: nat, s: Seen, lim: Limits)
    requires n <= |es|
    decreases |es|
  {
    n == 0 || (!Exceeds(Count(s, es[0]), lim) && Affordable(es[1..], n - 1, Count(s, es[0]), lim))
  }

  lemma {:induction false} NotedIsAffordable(es: seq<Event>, n: nat, s: Seen, z: Seen, lim: Limits)
    requires n <= |es| && s.events == z.events && s.bytes == z.bytes
    ensures Affordable(es, n, s, lim) == Affordable(es, n, z, lim)
    decreases n
  {
    if n > 0 {
      NotedIsAffordable(es[1..], n - 1, Count(s, es[0]), Count(z, es[0]), lim);
    }
  }

  /** It is enough that the events and bytes of the stretch fit in all. */
  lemma {:induction false} WithinBudgets(es: seq<Event>, n: nat, s: Seen, lim: Limits)
    requires n <= |es| && (lim.maxEvents > 0 ==> s.events + n <= lim.maxEvents)
    requires lim.maxBytes > 0 ==> s.bytes + Bytes(es[..n]) <= lim.maxBytes
    ensures Affordable(es, n, s, lim)
    decreases n
  {
    if n > 0 {
      FirstBytes(es[..n]);
      assert es[..n][1..] == es[1..][..n - 1];
      WithinBudgets(es[1..], n - 1, Count(s, es[0]), lim);
    }
  }

  lemma {:induction false} FirstBytes(es: seq<Event>)
    requires es != []
    ensures Bytes(es) == es[0].size + Bytes(es[1..])
    decreases |es|
  {
    if |es| > 1 {
      FirstBytes(es[..|es| - 1]);
      assert es[..|es| - 1][1..] == es[1..][..|es| - 2];
    }
  }

  lemma {:induction false} SoundScan(format: Format, es: seq<Event>, s: Seen, lim: Limits, sent: nat)
    requires Sound(format, es, s) && sent + TerminalAt(format, es, s) < lim.capacity
    requires Affordable(es, TerminalAt(format, es, s) + 1, s, lim)
    ensures Scan(format, es, s, lim, sent) == (sent + TerminalAt(format, es, s) + 1, Terminal)
    decreases |es|
  {
    hide Analyze, Exceeds;
    var v := Analyze(format, es[0]);
    if !v.terminal {
      var n := Note(Count(s, es[0]), v);
      NotedIsAffordable(es[1..], TerminalAt(format, es, s), Count(s, es[0]), n, lim);
      SoundScan(format, es[1..], n, lim, sent + 1);
    }
  }

  /** A sound stream whose events up to the terminal one fit the budgets and the client is delivered up
      to that event, without closing frames, and recorded as a success unless reading or aggregating fails. */
  lemma SoundStreamSucceeds(format: Format, es: seq<Event>, lim: Limits, env: Surroundings)
    requires Sound(format, es, START) && TerminalAt(format, es, START) < lim.capacity
    requires lim.maxEvents > 0 ==> TerminalAt(format, es, START) < lim.maxEvents
    requires lim.maxBytes > 0 ==> Bytes(es[..TerminalAt(format, es, START) + 1]) <= lim.maxBytes
    ensures Reference(format, es, lim, env) == Round(es[..TerminalAt(format, es, START) + 1], [], !env.readFails && !env.aggregateFails)
  {
    WithinBudgets(es, TerminalAt(format, es, START) + 1, START, lim);
    SoundScan(format, es, START, lim, 0);
  }

  // ---- What a round is, read off the payloads ----

  ghost predicate BudgetSpent(es: seq<Event>, k: nat, lim: Limits)
    requires k < |es|
  {
    (lim.maxBytes > 0 && Bytes(es[..k + 1]) > lim.maxBytes) || (lim.maxEvents > 0 && k + 1 > lim.maxEvents)
  }

  /** A natural stop after thoughts and no answer. */
  ghost predicate SilentStop(format: Format, es: seq<Event>, k: nat)
    requires k < |es|
  {
    && StopsNaturally(format, es[k])
    && (exists i :: 0 <= i <= k && HoldsReasoning(format, es[i]))
    && forall i :: 0 <= i <= k ==> !HoldsAnswer(format, es[i])
  }

  /** The k-th event does not reach the client, and nothing does after it. */
  ghost predicate Stops(format: Format, es: seq<Event>, k: nat, lim: Limits)
    requires k < |es|
  {
    BudgetSpent(es, k, lim) || Tainted(format, es[k]) || SilentStop(format, es, k) || k >= lim.capacity
  }

  /** The reading goes on behind the k-th event. */
  ghost predicate Passes(format: Format, es: seq<Event>, k: nat, lim: Limits)
    requires k < |es|
  {
    !Stops(format, es, k, lim) && !Garbled(format, es[k]) && !Ends(format, es[k])
  }

  ghost predicate SeenAfter(format: Format, es: seq<Event>, k: nat, s: Seen)
    requires k <= |es|
  {
    && (s.answered <==> exists i :: 0 <= i < k && HoldsAnswer(format, es[i]))
    && (s.reasoned <==> exists i :: 0 <= i < k && HoldsReasoning(format, es[i]))
    && (s.finished <==> exists i :: 0 <= i < k && StatesFinish(format, es[i]))
    && s.events == k && s.bytes == Bytes(es[..k])
  }

  lemma SeenOneMore(format: Format, es: seq<Event>, k: nat, s: Seen)
    requires k < |es| && SeenAfter(format, es, k, s)
    ensures SeenAfter(format, es, k + 1, Note(Count(s, es[k]), Analyze(format, es[k])))
  {
    hide Analyze, Garbled, HoldsAnswer, HoldsReasoning, StatesFinish;
    VerdictMeans(format, es[k]);
    assert es[..k + 1][..k] == es[..k];
  }

  /** What the reference reading does with the event after k. */
  lemma ScanAt(format: Format, es: seq<Event>, k: nat, s: Seen, lim: Limits)
    requires k < |es| && SeenAfter(format, es, k, s)
    ensures var r := Scan(format, es[k..], s, lim, k);
            && (Stops(format, es, k, lim) ==> r.0 == k && !r.1.Terminal? && !r.1.SentinelMissing?)
            && (!Stops(format, es, k, lim) && Garbled(format, es[k]) ==> r == (k + 1, ErrorFrame))
            && (!Stops(format, es, k, lim) && Ends(format, es[k]) ==> r == (k + 1, Terminal))
            && (Passes(format, es, k, lim) ==> r == Scan(format, es[k + 1..], Note(Count(s, es[k]), Analyze(format, es[k])), lim, k + 1))
  {
    hide Analyze, Garbled, HoldsAnswer, HoldsReasoning, StatesFinish, StopsNaturally, Tainted, Ends;
    VerdictMeans(format, es[k]);
    SeenOneMore(format, es, k, s);
    assert es[k..][0] == es[k] && es[k..][1..] == es[k + 1..];
    assert Ends(format, es[k]) ==> !Garbled(format, es[k]) && !Tainted(format, es[k]) by { EndIsFine(format, es[k]); }
  }

  lemma EndIsFine(format: Format, e: Event)
    ensures Ends(format, e) ==> !Garbled(format, e) && !Tainted(format, e)
    ensures Tainted(format, e) ==> !Garbled(format, e)
  {
  }

  lemma {:induction false} ScanPasses(format: Format, es: seq<Event>, k: nat, lim: Limits) returns (s: Seen)
    requires k <= |es| && forall j :: 0 <= j < k ==> Passes(format, es, j, lim)
    ensures SeenAfter(format, es, k, s) && Scan(format, es, START, lim, 0) == Scan(format, es[k..], s, lim, k)
    decreases k
  {
    hide Scan, Passes, Analyze;
    if k == 0 {
      s := START;
      assert es[0..] == es;
    } else {
      var before := ScanPasses(format, es, k - 1, lim);
      ScanAt(format, es, k - 1, before, lim);
      SeenOneMore(format, es, k - 1, before);
      s := Note(Count(before, es[k - 1]), Analyze(format, es[k - 1]));
    }
  }

  /** What the client gets and how the round is recorded, event by event: k is the first event behind
      which the reading does not go on, or the end of the stream. */
  lemma RoundIs(format: Format, es: seq<Event>, k: nat, lim: Limits, env: Surroundings)
    requires k <= |es| && (forall j :: 0 <= j < k ==> Passes(format, es, j, lim)) && (k < |es| ==> !Passes(format, es, k, lim))
    ensures var r, sound := Reference(format, es, lim, env), !env.readFails && !env.aggregateFails;
            if k == |es| then
              var finished := exists i :: 0 <= i < |es| && StatesFinish(format, es[i]);
              r == Round(es, if finished && sound && !env.canceled then Prefix(ClosingFrames(format), lim.capacity - |es|) else [],
                         finished && sound)
            else if Stops(format, es, k, lim) then r == Round(es[..k], [], false)
            else if Garbled(format, es[k]) then r == Round(es[..k + 1], [], false)
            else Ends(format, es[k]) && r == Round(es[..k + 1], [], sound)
  {
    hide Stops, Garbled, Ends, StatesFinish, ClosingFrames;
    var s := ScanPasses(format, es, k, lim);
    if k < |es| {
      hide Scan;
      ScanAt(format, es, k, s, lim);
    } else {
      assert es[|es|..] == [] && es[..|es|] == es;
      assert Scan(format, [], s, lim, k) == (k, if s.finished then SentinelMissing else CutOff);
    }
  }

  /** There is always such an event, or none stops the reading. */
  lemma {:induction false} FirstStop(format: Format, es: seq<Event>, lim: Limits, from: nat) returns (k: nat)
    requires from <= |es| && forall j :: 0 <= j < from ==> Passes(format, es, j, lim)
    ensures k <= |es| && (forall j :: 0 <= j < k ==> Passes(format, es, j, lim)) && (k < |es| ==> !Passes(format, es, k, lim))
    decreases |es| - from
  {
    hide Passes;
    if from < |es| && Passes(format, es, from, lim) {
      k := FirstStop(format, es, lim, from + 1);
    } else {
      k := from;
    }
  }

  /** No event with a bad end is ever written. An error frame is written as the last event of a failed
      round or not at all, a proper end as the last one, and a failed round gets no closing frames. A
      success has a proper end or stated a finish in some event. */
  ghost predicate Honest(format: Format, r: Round) {
    && (forall i :: 0 <= i < |r.written| ==> !Tainted(format, r.written[i]))
    && (forall i :: 0 <= i < |r.written| && Garbled(format, r.written[i]) ==> i == |r.written| - 1 && !r.success)
    && (forall i :: 0 <= i < |r.written| && Ends(format, r.written[i]) ==> i == |r.written| - 1 && r.closing == [])
    && (!r.success ==> r.closing == [])
    && (r.success ==> exists i :: 0 <= i < |r.written| && (Ends(format, r.written[i]) || StatesFinish(format, r.written[i])))
  }

  lemma RoundIsHonest(format: Format, es: seq<Event>, lim: Limits, env: Surroundings)
    ensures Honest(format, Reference(format, es, lim, env))
  {
    hide Reference, Garbled, Ends, Tainted, StatesFinish, SilentStop, BudgetSpent, ClosingFrames;
    var k := FirstStop(format, es, lim, 0);
    RoundIs(format, es, k, lim, env);
    PassesAreFine(format, es, k, lim);
    var r := Reference(format, es, lim, env);
    assert r.written == es || r.written == es[..k] || r.written == es[..k + 1];
    forall i | 0 <= i < |r.written| ensures r.written[i] == es[i] {
    }
    if k == |es| && r.success {
      var i :| 0 <= i < |es| && StatesFinish(format, es[i]);
      assert StatesFinish(format, r.written[i]);
    } else if r.success {
      assert Ends(format, r.written[k]);
    }
    if k < |es| {
      EndIsFine(format, es[k]);
    }
  }

  lemma PassesAreFine(format: Format, es: seq<Event>, k: nat, lim: Limits)
    requires k <= |es| && forall j :: 0 <= j < k ==> Passes(format, es, j, lim)
    ensures forall j :: 0 <= j < k ==> !Tainted(format, es[j]) && !Garbled(format, es[j]) && !Ends(format, es[j])
  {
    hide Garbled, Ends, Tainted, SilentStop, BudgetSpent;
    forall j | 0 <= j < k ensures !Tainted(format, es[j]) && !Garbled(format, es[j]) && !Ends(format, es[j]) {
      assert Passes(format, es, j, lim);
    }
  }

  /** A stream that meets a bad end or an error frame before a proper end is no success, whatever comes
      after it. */
  lemma BadEventFails(format: Format, es: seq<Event>, i: nat, lim: Limits, env: Surroundings)
    requires i < |es| && (Tainted(format, es[i]) || Garbled(format, es[i])) && forall j :: 0 <= j < i ==> !Ends(format, es[j])
    ensures !Reference(format, es, lim, env).success
    ensures |Reference(format, es, lim, env).written| <= if Garbled(format, es[i]) then i + 1 else i
  {
    hide Reference, Garbled, Ends, Tainted, StatesFinish, SilentStop, BudgetSpent, ClosingFrames;
    var k := FirstStop(format, es, lim, 0);
    RoundIs(format, es, k, lim, env);
    EndIsFine(format, es[i]);
    PassesAreFine(format, es, k, lim);
    assert k <= i;
  }

  // ---- The forwarding loop ----

  /** What the loop still owes: the reference reading of the rest gives that of the whole. */
  ghost predicate Normal(format: Format, es: seq<Event>, lim: Limits, written: seq<Event>, left: seq<Event>, s: Seen) {
    && es == written + left
    && Scan(format, es, START, lim, 0) == Scan(format, left, s, lim, |written|)
    && forall e :: e in written ==> !Analyze(format, e).terminal
  }

  /** The reference reading stops with what has been written. */
  ghost predicate Ended(format: Format, es: seq<Event>, lim: Limits, written: seq<Event>, ending: Ending) {
    written <= es && Scan(format, es, START, lim, 0) == (|written|, ending)
  }

  lemma NormalStart(format: Format, es: seq<Event>, lim: Limits)
    ensures Normal(format, es, lim, [], es, START)
  {
  }

  lemma NormalEnds(format: Format, es: seq<Event>, lim: Limits, written: seq<Event>, s: Seen)
    requires Normal(format, es, lim, written, [], s)
    ensures Ended(format, es, lim, written, if s.finished then SentinelMissing else CutOff)
    ensures forall e :: e in es ==> !Analyze(format, e).terminal
  {
    assert written == es;
  }

  lemma NormalStep(format: Format, es: seq<Event>, lim: Limits, written: seq<Event>, e: Event, left: seq<Event>, s: Seen)
    requires Normal(format, es, lim, written, [e] + left, s)
    ensures var v := Analyze(format, e);
            var c := Count(s, e);
            var n := Note(c, v);
            if Exceeds(c, lim) then Ended(format, es, lim, written, OverBudget)
            else if v.abnormal then Ended(format, es, lim, written, Polluted)
            else if v.stopFinish && n.reasoned && !n.answered then Ended(format, es, lim, written, NoAnswer)
            else if |written| >= lim.capacity then Ended(format, es, lim, written, ClientGone)
            else if v.inspectErr then Ended(format, es, lim, written + [e], ErrorFrame)
            else if v.terminal then Ended(format, es, lim, written + [e], Terminal)
            else Normal(format, es, lim, written + [e], left, n)
  {
    assert ([e] + left)[1..] == left;
    assert written + ([e] + left) == (written + [e]) + left;
  }

  /** How the flags of the loop stand for each ending. */
  ghost predicate Flags(ending: Ending, finished: bool, committed: bool, clientGone: bool, polluted: bool, noAnswerStop: bool,
                        terminalSeen: bool, failed: bool) {
    match ending
    case Terminal => terminalSeen && !clientGone && !polluted && !noAnswerStop && !failed
    case SentinelMissing => finished && committed && !terminalSeen && !clientGone && !polluted && !noAnswerStop && !failed
    case CutOff => !finished && !terminalSeen && !polluted && !noAnswerStop && !failed
    case _ => failed || polluted || noAnswerStop
  }

  /** Forwards the window and then the stream. terminated promises that the window holds the
      terminal event. */
  method Forward(format: Format, window: seq<Event>, rest: seq<Event>, terminated: bool, lim: Limits, env: Surroundings)
    returns (r: Round)
    requires terminated ==> exists e :: e in window && CleanEnd(format, e)
    ensures r == Reference(format, window + rest, lim, env) && Honest(format, r)
  {
    RoundIsHonest(format, window + rest, lim, env);
    hide Honest, Scan, Analyze, Normal, Ended, Exceeds, Reference, CleanEnd, ClosingFrames;
    ghost var es := window + rest;
    var written: seq<Event> := [];
    var queue, stream := window, rest;
    var s := START;
    var committed, clientGone, polluted, noAnswerStop, last, failed := false, false, false, false, false, false;
    var terminalSeen := terminated;
    ghost var ending: Option<Ending> := None;
    NormalStart(format, es, lim);
    while true
      invariant ending.None? ==> Normal(format, es, lim, written, queue + stream, s)
      invariant ending.None? ==> !polluted && !noAnswerStop && !last && !failed && terminalSeen == terminated
      invariant ending.Some? ==> (ending.value.Polluted? && polluted) || (ending.value.NoAnswer? && noAnswerStop)
      invariant ending.Some? ==> Ended(format, es, lim, written, ending.value)
      invariant committed <==> written != []
      invariant !clientGone
      decreases |queue| + |stream|
    {
      ghost var left := queue + stream;
      var e;
      if |queue| > 0 {
        e, queue := queue[0], queue[1..];
      } else {
        if last {
          break;
        }
        if |stream| == 0 {
          assert left == [];
          if ending.None? {
            NormalEnds(format, es, lim, written, s);
            StreamOver(format, es, lim, written, s, window, rest, terminated);
            ending := Some(if s.finished then SentinelMissing else CutOff);
          }
          break;
        }
        e, stream := stream[0], stream[1..];
      }
      assert left == [e] + (queue + stream);
      if ending.None? {
        NormalStep(format, es, lim, written, e, queue + stream, s);
      }
      s := Count(s, e);
      if Exceeds(s, lim) {
        failed := true;
        ending := if ending.None? then Some(OverBudget) else ending;
        break;
      }
      if polluted {
        continue;
      }
      var v := Analyze(format, e);
      s := Note(s, v);
      if v.inspectErr || v.terminal {
        last, terminalSeen := true, true;
        failed := failed || v.inspectErr;
      }
      if v.abnormal {
        polluted := true;
        ending := if ending.None? then Some(Polluted) else ending;
        continue;
      }
      if v.stopFinish && s.reasoned && !s.answered {
        noAnswerStop := true;
        ending := if ending.None? then Some(NoAnswer) else ending;
      }
      if noAnswerStop {
        if last {
          break;
        }
        continue;
      }
      committed := true;
      if |written| >= lim.capacity {
        failed, clientGone := true, true;
        ending := Some(ClientGone);
        break;
      }
      written := written + [e];
      if last {
        ending := Some(if v.inspectErr then ErrorFrame else Terminal);
        break;
      }
    }
    r := Finish(format, es, lim, env, written, ending.value, s.finished, committed, clientGone, polluted, noAnswerStop, terminalSeen, failed);
  }

  /** At the end of an undisturbed stream something was written if a finish reason was seen, and
      no terminal event was promised. */
  lemma StreamOver(format: Format, es: seq<Event>, lim: Limits, written: seq<Event>, s: Seen,
                   window: seq<Event>, rest: seq<Event>, terminated: bool)
    requires Normal(format, es, lim, written, [], s) && es == window + rest
    requires terminated ==> exists e :: e in window && CleanEnd(format, e)
    ensures !terminated && (s.finished ==> written != [])
  {
    NormalEnds(format, es, lim, written, s);
    FinishedMeansWritten(format, es, lim);
    if terminated {
      WindowEventIsRead(format, window, rest);
    }
  }

  lemma WindowEventIsRead(format: Format, window: seq<Event>, rest: seq<Event>)
    requires exists e :: e in window && CleanEnd(format, e)
    ensures exists e :: e in window + rest && Analyze(format, e).terminal
  {
    var e :| e in window && CleanEnd(format, e);
    assert e in window + rest;
  }

  /** The part after the loop: the final classification and the closing frames. */
  method Finish(format: Format, ghost es: seq<Event>, lim: Limits, env: Surroundings, written: seq<Event>, ghost ending: Ending,
                finished: bool, committed: bool, clientGone: bool, polluted: bool, noAnswerStop: bool, terminalSeen: bool, failedSoFar: bool)
    returns (r: Round)
    requires Ended(format, es, lim, written, ending)
    requires Flags(ending, finished, committed, clientGone, polluted, noAnswerStop, terminalSeen, failedSoFar)
    ensures r == Reference(format, es, lim, env)
  {
    hide Scan;
    var failed := failedSoFar || env.readFails;
    var frameFailure := failed;
    if polluted {
      frameFailure := false;
    } else if noAnswerStop && !failed {
      frameFailure := true;
    } else if !failed && !terminalSeen {
      if !finished {
        frameFailure := true;
      }
    }
    if !frameFailure && !polluted && !noAnswerStop && env.aggregateFails {
      frameFailure := true;
    }
    var closing: seq<Event> := [];
    if committed && !clientGone && !env.canceled && !polluted && !frameFailure && !terminalSeen {
      var frames := ClosingFrames(format);
      var i := 0;
      while i < |frames| && |written| + i < lim.capacity
        invariant 0 <= i <= |frames| && closing == frames[..i] && (i > 0 ==> |written| + i <= lim.capacity)
      {
        closing := closing + [frames[i]];
        i := i + 1;
      }
    }
    assert es[..|written|] == written;
    ScanBounds(format, es, lim);
    FinishedMeansWritten(format, es, lim);
    r := Round(written, closing, !(failed || polluted || frameFailure));
  }

  lemma ScanBounds(format: Format, es: seq<Event>, lim: Limits)
    ensures Scan(format, es, START, lim, 0).0 <= |es|
    ensures Scan(format, es, START, lim, 0).0 <= lim.capacity
  {
  }

  // ---- The rounds of one request ----

  /** What one round meets: nobody to ask or no answer, or a stream with its surroundings. */
  datatype Attempt = NoStream | Answer(stream: seq<Event>, zeroOutput: bool, lim: Limits, env: Surroundings)

  /** The round commits: its window is accepted. */
  ghost predicate Settles(format: Format, a: Attempt) {
    a.Answer? && exists k: nat :: Accepts(format, a.stream, k, a.zeroOutput)
  }

  /** r is what the client gets from the accepted stream: its window and the rest. */
  ghost predicate Delivers(format: Format, a: Attempt, r: Round) {
    a.Answer? && exists k: nat :: Accepts(format, a.stream, k, a.zeroOutput)
                                  && r == Reference(format, Carrying(a.stream[..k + 1]) + a.stream[k + 1..], a.lim, a.env)
  }

  /** One round. Before the window is accepted nothing has been written and the next round may try. */
  method TryRound(format: Format, a: Attempt) returns (r: Option<Round>)
    ensures r.None? <==> !Settles(format, a)
    ensures r.Some? ==> Delivers(format, a, r.value) && Honest(format, r.value)
  {
    hide Honest, Accepts, Reference, WindowOk, WithinWindow, Decisive, Carrying, Analyze;
    if a.NoStream? {
      return None;
    }
    var w := ReadWindow(format, a.stream, a.env.readFails, a.zeroOutput);
    if w.Failure? {
      return None;
    }
    TerminatedWindow(format, w.value);
    var round := Forward(format, w.value.events, w.value.rest, w.value.terminated, a.lim, a.env);
    return Some(round);
  }

  lemma TerminatedWindow(format: Format, w: Window)
    requires WindowOk(format, w) && w.events != []
    ensures w.terminated ==> exists e :: e in w.events && CleanEnd(format, e)
  {
    assert w.events[|w.events| - 1] in w.events;
  }

  /** The retry loop of a request. limit(k) is the limit in force before round k. Every way through the
      loop uses up a round, so a bound on the limits bounds the rounds; the client gets the output of
      exactly one of them, the first whose window is accepted, or of none. */
  method RetryRounds(format: Format, limit: nat -> nat, attempts: nat -> Attempt, ghost bound: nat) returns (tried: nat, r: Option<Round>)
    requires forall k :: limit(k) <= bound
    ensures tried <= bound && forall k :: 1 <= k <= tried ==> k <= limit(k)
    ensures r.None? ==> tried >= limit(tried + 1) && forall k :: 1 <= k <= tried ==> !Settles(format, attempts(k))
    ensures r.Some? ==> tried > 0 && Delivers(format, attempts(tried), r.value) && Honest(format, r.value)
                        && forall k :: 1 <= k < tried ==> !Settles(format, attempts(k))
  {
    hide Settles, Delivers, Honest;
    var rounds := 0;
    while true
      invariant rounds <= bound
      invariant forall k :: 1 <= k <= rounds ==> !Settles(format, attempts(k)) && k <= limit(k)
      decreases bound - rounds
    {
      rounds := rounds + 1;
      if rounds > limit(rounds) {
        return rounds - 1, None;
      }
      r := TryRound(format, attempts(rounds));
      if r.Some? {
        return rounds, r;
      }
    }
  }
}
