/** The response side of internal/relay/opencode_alias.go: a stream that restores
    aliases delta by delta on independent channels, closes channels when the
    protocol says so, and renumbers what it sends. */
module AliasStream {
  import opened Wrappers
  import opened AliasText

  const MAX_CHANNELS := 256
  const MAX_INT64 := 0x7FFF_FFFF_FFFF_FFFF

  /** A text field of an event; oversize when its flush template would pass the template limit. */
  datatype Delta = Delta(key: string, text: string, oversize: bool)

  datatype SequenceNumber = Missing | Malformed | Number(n: nat)

  /** One upstream event as decoded. Blank events carry no data. */
  datatype Event =
    | Blank
    | Event(isObject: bool, upstreamError: bool, sequence: SequenceNumber, deltas: seq<Delta>,
            closing: seq<string>, terminal: bool, inspectErr: bool, abnormalErr: bool)

  datatype StreamError = NotAnObject | UpstreamError | BadSequence | TooManyChannels | TemplateTooLarge | SequenceOverflow

  /** One event sent on: a flushed remainder, or an upstream event with restored texts. */
  datatype Content = Nothing | Remainder(key: string, text: string) | Restored(texts: seq<(string, string)>)
  datatype Out = Out(content: Content, number: Option<nat>)

  // ---- What one channel sees of events and outputs ----

  function Get(m: map<string, string>, key: string): string {
    if key in m then m[key] else ""
  }

  predicate Closes(e: Event, key: string) {
    e.Event? && (e.terminal || e.inspectErr || e.abnormalErr || exists p :: p in e.closing && p <= key)
  }

  function KeyChunks(ds: seq<Delta>, key: string): seq<string> {
    if ds == [] then []
    else
      var k := |ds| - 1;
      KeyChunks(ds[..k], key) + if ds[k].key == key then [ds[k].text] else []
  }

  function Chunks(e: Event, key: string): seq<string> {
    if e.Event? then KeyChunks(e.deltas, key) else []
  }

  function PairText(texts: seq<(string, string)>, key: string): string {
    if texts == [] then ""
    else
      var k := |texts| - 1;
      PairText(texts[..k], key) + if texts[k].0 == key then texts[k].1 else ""
  }

  function ContentText(c: Content, key: string): string {
    match c
    case Nothing => ""
    case Remainder(k, text) => if k == key then text else ""
    case Restored(texts) => PairText(texts, key)
  }

  /** All text sent on one channel. */
  function TextOf(outs: seq<Out>, key: string): string {
    if outs == [] then ""
    else TextOf(outs[..|outs| - 1], key) + ContentText(outs[|outs| - 1].content, key)
  }

  lemma TextOfSnoc(outs: seq<Out>, o: Out, key: string)
    ensures TextOf(outs + [o], key) == TextOf(outs, key) + ContentText(o.content, key)
  {
    assert (outs + [o])[..|outs|] == outs;
  }

  lemma {:induction false} TextOfAppend(a: seq<Out>, b: seq<Out>, key: string)
    ensures TextOf(a + b, key) == TextOf(a, key) + TextOf(b, key)
    decreases |b|
  {
    hide TextOf, ContentText;
    NoText(key);
    if b == [] {
      assert a + b == a;
    } else {
      var init, last := b[..|b| - 1], b[|b| - 1];
      TextOfAppend(a, init, key);
      TextOfSnoc(a + init, last, key);
      TextOfSnoc(init, last, key);
      assert b == init + [last] && a + b == (a + init) + [last];
    }
  }

  lemma NoText(key: string)
    ensures TextOf([], key) == ""
  {
  }

  // ---- Reference meaning: whole-text replacement of each segment ----

  /** Replacement of the finished segments, and the raw text of the open one. */
  datatype Segments = Segments(done: string, open: string)

  function CloseWith(t: Table, s: Segments, chunks: seq<string>): string {
    if chunks == [] then s.done + Restore(t, s.open)
    else if |chunks| == 1 then s.done + Restore(t, s.open + chunks[0])
    else CloseWith(t, s, chunks[..|chunks| - 1]) + Restore(t, chunks[|chunks| - 1])
  }

  function Read(t: Table, events: seq<Event>, key: string): Segments {
    if events == [] then Segments("", "")
    else
      var s, e := Read(t, events[..|events| - 1], key), events[|events| - 1];
      if Closes(e, key) then Segments(CloseWith(t, s, Chunks(e, key)), "")
      else Segments(s.done, s.open + Concat(Chunks(e, key)))
  }

  /** What a reader of the channel should have received once the stream is over. */
  function Expected(t: Table, events: seq<Event>, key: string): string {
    Read(t, events, key).done + Restore(t, Read(t, events, key).open)
  }

  // ---- The transducer on one channel ----

  function CloseAll(t: Table, c: Channel, chunks: seq<string>): Channel {
    if chunks == [] then c
    else
      var d := CloseAll(t, c, chunks[..|chunks| - 1]);
      Channel(d.emitted + Restore(t, d.pending + chunks[|chunks| - 1]), "")
  }

  function FieldsStep(t: Table, c: Channel, chunks: seq<string>, closing: bool): Channel {
    if closing then CloseAll(t, c, chunks) else FeedAll(t, c, chunks)
  }

  /** One event on one channel: its deltas, then the remainder if the event closes it. */
  function EventStep(t: Table, c: Channel, e: Event, key: string): Channel {
    var d := FieldsStep(t, c, Chunks(e, key), Closes(e, key));
    if Closes(e, key) then Channel(d.emitted + d.pending, "") else d
  }

  function Run(t: Table, events: seq<Event>, key: string): Channel {
    if events == [] then Channel("", "")
    else EventStep(t, Run(t, events[..|events| - 1], key), events[|events| - 1], key)
  }

  /** The transducer state means the same as the segments read, whatever follows. */
  ghost predicate Tracks(t: Table, c: Channel, s: Segments) {
    |c.pending| < ALIAS_LEN && forall f :: c.emitted + Restore(t, c.pending + f) == s.done + Restore(t, s.open + f)
  }

  lemma {:induction false} CloseAllIsCloseWith(t: Table, c: Channel, s: Segments, chunks: seq<string>)
    requires Tracks(t, c, s)
    ensures var d := CloseAll(t, c, chunks); d.emitted + d.pending == CloseWith(t, s, chunks)
    ensures chunks != [] ==> CloseAll(t, c, chunks).pending == ""
    decreases |chunks|
  {
    hide Restore;
    if chunks == [] {
      NothingToClose(t, c, s);
    } else if |chunks| == 1 {
      assert chunks[..0] == [];
      assert c.emitted + Restore(t, c.pending + chunks[0]) == s.done + Restore(t, s.open + chunks[0]);
    } else {
      hide Tracks;
      var init, last := chunks[..|chunks| - 1], chunks[|chunks| - 1];
      CloseAllIsCloseWith(t, c, s, init);
      assert init != [] && CloseAll(t, c, init).pending + last == last;
    }
  }

  lemma NothingToClose(t: Table, c: Channel, s: Segments)
    requires Tracks(t, c, s)
    ensures c.emitted + c.pending == s.done + Restore(t, s.open)
  {
    assert c.pending + "" == c.pending && s.open + "" == s.open;
    assert Restore(t, c.pending) == c.pending;
    assert c.emitted + Restore(t, c.pending + "") == s.done + Restore(t, s.open + "");
  }

  lemma StepTracks(t: Table, c: Channel, s: Segments, e: Event, key: string)
    requires Tracks(t, c, s)
    ensures var s' := if Closes(e, key) then Segments(CloseWith(t, s, Chunks(e, key)), "")
                      else Segments(s.done, s.open + Concat(Chunks(e, key)));
            Tracks(t, EventStep(t, c, e, key), s')
  {
    var chunks := Chunks(e, key);
    if Closes(e, key) {
      CloseAllIsCloseWith(t, c, s, chunks);
    } else {
      PendingIsShort(t, c, chunks);
      var d := FeedAll(t, c, chunks);
      forall f ensures d.emitted + Restore(t, d.pending + f) == s.done + Restore(t, s.open + Concat(chunks) + f) {
        FeedAllKeepsMeaning(t, c, chunks, f);
        Glue(s.open, Concat(chunks), f, Concat(chunks) + f);
      }
    }
  }

  lemma {:induction false} RunTracks(t: Table, events: seq<Event>, key: string)
    ensures Tracks(t, Run(t, events, key), Read(t, events, key))
    decreases |events|
  {
    if events != [] {
      RunTracks(t, events[..|events| - 1], key);
      StepTracks(t, Run(t, events[..|events| - 1], key), Read(t, events[..|events| - 1], key), events[|events| - 1], key);
    }
  }

  /** On every channel, for every sequence of events: what was sent plus the final
      flush is the whole-text replacement of every segment. */
  lemma StreamMeansReplacement(t: Table, events: seq<Event>, key: string)
    ensures Run(t, events, key).emitted + Run(t, events, key).pending == Expected(t, events, key)
  {
    RunTracks(t, events, key);
    var c, s := Run(t, events, key), Read(t, events, key);
    assert c.pending + "" == c.pending && s.open + "" == s.open;
    assert c.emitted + Restore(t, c.pending + "") == s.done + Restore(t, s.open + "");
  }

  // ---- What the segments are ----

  /** The event lets the channel run on: it neither ends the stream nor fails, and no prefix that it
      closes begins the key. */
  ghost predicate LeavesOpen(e: Event, key: string) {
    e.Event? ==> !e.terminal && !e.inspectErr && !e.abnormalErr && forall p :: p in e.closing ==> !(p <= key)
  }

  ghost predicate StaysOpen(events: seq<Event>, key: string) {
    forall i :: 0 <= i < |events| ==> LeavesOpen(events[i], key)
  }

  lemma ClosesIff(e: Event, key: string)
    ensures Closes(e, key) <==> !LeavesOpen(e, key)
  {
  }

  /** The raw text of one channel. */
  ghost function DeltaText(ds: seq<Delta>, key: string): string {
    if ds == [] then "" else DeltaText(ds[..|ds| - 1], key) + if ds[|ds| - 1].key == key then ds[|ds| - 1].text else ""
  }

  ghost function RawText(events: seq<Event>, key: string): string {
    if events == [] then ""
    else
      var e := events[|events| - 1];
      RawText(events[..|events| - 1], key) + if e.Event? then DeltaText(e.deltas, key) else ""
  }

  lemma {:induction false} ChunksAreText(ds: seq<Delta>, key: string)
    ensures Concat(KeyChunks(ds, key)) == DeltaText(ds, key)
    decreases |ds|
  {
    if ds != [] {
      var k := |ds| - 1;
      ChunksAreText(ds[..k], key);
      var c := KeyChunks(ds[..k], key);
      if ds[k].key == key {
        assert (c + [ds[k].text])[..|c|] == c;
      } else {
        assert c + [] == c;
      }
    }
  }

  lemma {:induction false} OpenReadsAll(t: Table, events: seq<Event>, key: string)
    requires StaysOpen(events, key)
    ensures Read(t, events, key) == Segments("", RawText(events, key))
    decreases |events|
  {
    if events != [] {
      var e := events[|events| - 1];
      OpenReadsAll(t, events[..|events| - 1], key);
      assert LeavesOpen(e, key) && !Closes(e, key);
      if e.Event? {
        ChunksAreText(e.deltas, key);
      }
    }
  }

  /** As long as no event closes a channel, all its deltas are one text: an alias is restored wherever it
      was cut. */
  lemma OpenStreamIsWhole(t: Table, events: seq<Event>, key: string)
    requires StaysOpen(events, key)
    ensures Expected(t, events, key) == Restore(t, RawText(events, key))
  {
    hide Read, Restore, RawText;
    OpenReadsAll(t, events, key);
    assert "" + Restore(t, RawText(events, key)) == Restore(t, RawText(events, key));
  }

  /** An event that closes a channel leaves nothing held back on it. */
  lemma ClosedHoldsNothing(t: Table, events: seq<Event>, e: Event, key: string)
    requires !LeavesOpen(e, key)
    ensures Run(t, events + [e], key).pending == ""
    ensures Run(t, events + [e], key).emitted == Expected(t, events + [e], key)
  {
    hide Read, FieldsStep;
    StreamMeansReplacement(t, events + [e], key);
    assert (events + [e])[..|events|] == events;
  }

  lemma CloseWithAppends(t: Table, s: Segments, x: string, chunks: seq<string>)
    ensures CloseWith(t, Segments(x + s.done, s.open), chunks) == x + CloseWith(t, s, chunks)
  {
    hide Restore;
    if |chunks| > 1 {
      var k := |chunks| - 1;
      CloseWithAppends(t, s, x, chunks[..k]);
      Glue(x, CloseWith(t, s, chunks[..k]), Restore(t, chunks[k]), CloseWith(t, s, chunks));
    } else if chunks == [] {
      Glue(x, s.done, Restore(t, s.open), CloseWith(t, s, chunks));
    } else {
      Glue(x, s.done, Restore(t, s.open + chunks[0]), CloseWith(t, s, chunks));
    }
  }

  lemma {:induction false} ReadRestarts(t: Table, a: seq<Event>, b: seq<Event>, key: string)
    requires Read(t, a, key).open == ""
    ensures Read(t, a + b, key) == Segments(Read(t, a, key).done + Read(t, b, key).done, Read(t, b, key).open)
    decreases |b|
  {
    hide CloseWith, Closes;
    if b == [] {
      assert a + b == a && Read(t, a, key).done + "" == Read(t, a, key).done;
    } else {
      var k := |b| - 1;
      assert (a + b)[..|a + b| - 1] == a + b[..k];
      ReadRestarts(t, a, b[..k], key);
      CloseWithAppends(t, Read(t, b[..k], key), Read(t, a, key).done, Chunks(b[k], key));
    }
  }

  /** After an event that closes it a channel starts anew. */
  lemma ClosingRestarts(t: Table, a: seq<Event>, e: Event, b: seq<Event>, key: string)
    requires !LeavesOpen(e, key)
    ensures Expected(t, a + [e] + b, key) == Expected(t, a + [e], key) + Expected(t, b, key)
  {
    assert Closes(e, key);
    assert (a + [e])[..|a|] == a;
    ReadRestarts(t, a + [e], b, key);
    var done, c := Read(t, a + [e], key).done, Read(t, b, key);
    assert done + Restore(t, "") == done;
    Glue(done, c.done, Restore(t, c.open), c.done + Restore(t, c.open));
  }

  /** One delta in a closing event still belongs to the text in front of it. */
  lemma LastDeltaJoins(t: Table, a: seq<Event>, e: Event, key: string)
    requires e.Event? && |KeyChunks(e.deltas, key)| <= 1
    ensures Expected(t, a + [e], key)
         == Expected(t, a + [e.(terminal := false, inspectErr := false, abnormalErr := false, closing := [])], key)
  {
    hide Restore, Read, CloseWith, KeyChunks, Closes, Concat;
    var o := e.(terminal := false, inspectErr := false, abnormalErr := false, closing := []);
    assert !Closes(o, key) by { ClosesIff(o, key); }
    var s, c := Read(t, a, key), KeyChunks(e.deltas, key);
    assert Chunks(e, key) == c && Chunks(o, key) == c;
    OpenRead(t, a, o, key);
    if Closes(e, key) {
      ClosedRead(t, a, e, key);
      ShortClose(t, s, c);
      RestoreNothing(t);
      assert CloseWith(t, s, c) + "" == CloseWith(t, s, c);
    } else {
      OpenRead(t, a, e, key);
    }
  }

  lemma ShortClose(t: Table, s: Segments, chunks: seq<string>)
    requires |chunks| <= 1
    ensures CloseWith(t, s, chunks) == s.done + Restore(t, s.open + Concat(chunks))
  {
    if |chunks| == 1 {
      assert chunks[..0] == [] && Concat(chunks) == "" + chunks[0] == chunks[0];
    } else {
      assert chunks == [] && s.open + "" == s.open;
    }
  }

  lemma OpenRead(t: Table, a: seq<Event>, e: Event, key: string)
    requires !Closes(e, key)
    ensures Read(t, a + [e], key) == Segments(Read(t, a, key).done, Read(t, a, key).open + Concat(Chunks(e, key)))
  {
    assert (a + [e])[..|a|] == a;
  }

  lemma RestoreNothing(t: Table)
    ensures Restore(t, "") == ""
  {
  }

  lemma {:induction false} CloseWithSplit(t: Table, s: Segments, a: seq<string>, b: seq<string>)
    requires a != []
    ensures CloseWith(t, s, a + b) == CloseWith(t, Segments(CloseWith(t, s, a), ""), b)
    decreases |b|
  {
    hide Restore;
    RestoreNothing(t);
    if b == [] {
      assert a + b == a && CloseWith(t, s, a) + "" == CloseWith(t, s, a);
    } else {
      var k := |b| - 1;
      assert (a + b)[..|a + b| - 1] == a + b[..k];
      CloseWithSplit(t, s, a, b[..k]);
      if k == 0 {
        assert "" + b[0] == b[0] && b[..0] == [];
        assert CloseWith(t, s, a) + "" == CloseWith(t, s, a);
      }
    }
  }

  lemma {:induction false} KeyChunksAppend(a: seq<Delta>, b: seq<Delta>, key: string)
    ensures KeyChunks(a + b, key) == KeyChunks(a, key) + KeyChunks(b, key)
    decreases |b|
  {
    if b == [] {
      assert a + b == a && KeyChunks(a, key) + [] == KeyChunks(a, key);
    } else {
      assert (a + b)[..|a + b| - 1] == a + b[..|b| - 1];
      KeyChunksAppend(a, b[..|b| - 1], key);
    }
  }

  /** In a closing event every further delta of a channel is a text of its own, as if it came in an event
      of its own that closes as well. */
  lemma ClosingSplits(t: Table, a: seq<Event>, e: Event, k: nat, key: string)
    requires e.Event? && !LeavesOpen(e, key) && k <= |e.deltas| && exists i :: 0 <= i < k && e.deltas[i].key == key
    ensures Expected(t, a + [e], key) == Expected(t, a + [e.(deltas := e.deltas[..k]), e.(deltas := e.deltas[k..])], key)
  {
    hide Restore, Read, KeyChunks, CloseWith;
    var x, y := e.(deltas := e.deltas[..k]), e.(deltas := e.deltas[k..]);
    assert e.deltas == e.deltas[..k] + e.deltas[k..];
    KeyChunksAppend(e.deltas[..k], e.deltas[k..], key);
    var i :| 0 <= i < k && e.deltas[i].key == key;
    HasChunk(e.deltas[..k], i, key);
    assert Closes(e, key) && Closes(x, key) && Closes(y, key);
    ClosedRead(t, a, e, key);
    ClosedRead(t, a, x, key);
    ClosedRead(t, a + [x], y, key);
    assert a + [x, y] == a + [x] + [y];
    CloseWithSplit(t, Read(t, a, key), Chunks(x, key), Chunks(y, key));
  }

  lemma ClosedRead(t: Table, a: seq<Event>, e: Event, key: string)
    requires Closes(e, key)
    ensures Read(t, a + [e], key) == Segments(CloseWith(t, Read(t, a, key), Chunks(e, key)), "")
  {
    assert (a + [e])[..|a|] == a;
  }

  lemma {:induction false} HasChunk(ds: seq<Delta>, i: nat, key: string)
    requires i < |ds| && ds[i].key == key
    ensures KeyChunks(ds, key) != []
    decreases |ds|
  {
    if i < |ds| - 1 {
      HasChunk(ds[..|ds| - 1], i, key);
    }
  }

  // ---- Numbering ----

  /** Consecutive numbers for every output that carries data. */
  function Numbered(outs: seq<Out>, first: nat): seq<Out> {
    if outs == [] then []
    else
      var k := |outs| - 1;
      Numbered(outs[..k], first)
      + [if outs[k].content.Nothing? then outs[k] else outs[k].(number := Some(first + Carrying(outs[..k])))]
  }

  function Carrying(outs: seq<Out>): nat {
    if outs == [] then 0
    else Carrying(outs[..|outs| - 1]) + if outs[|outs| - 1].content.Nothing? then 0 else 1
  }

  /** Numbers are consecutive from the first one seen on; before that nothing carries one. */
  ghost predicate Consecutive(outs: seq<Out>, enabled: bool, unchecked: bool, ended: bool, first: nat, next: nat) {
    && (enabled ==> outs == Numbered(outs, first) && next == first + Carrying(outs))
    && (unchecked ==> !enabled)
    && (unchecked && !ended ==> Carrying(outs) == 0)
  }

  lemma {:induction false} NumberedAppend(a: seq<Out>, b: seq<Out>, first: nat)
    ensures Carrying(a + b) == Carrying(a) + Carrying(b)
    ensures Numbered(a + b, first) == Numbered(a, first) + Numbered(b, first + Carrying(a))
    decreases |b|
  {
    if b == [] {
      assert a + b == a;
    } else {
      var k := |b| - 1;
      assert (a + b)[..|a + b| - 1] == a + b[..k];
      NumberedAppend(a, b[..k], first);
    }
  }

  lemma {:induction false} NumberingKeepsText(outs: seq<Out>, first: nat, key: string)
    ensures |Numbered(outs, first)| == |outs|
    ensures TextOf(Numbered(outs, first), key) == TextOf(outs, key)
    ensures forall i :: 0 <= i < |outs| ==> Numbered(outs, first)[i].content == outs[i].content
  {
    hide TextOf, ContentText;
    if outs == [] {
      NoText(key);
    } else {
      var init, last := outs[..|outs| - 1], outs[|outs| - 1];
      NumberingKeepsText(init, first, key);
      assert outs == init + [last];
      var one := if last.content.Nothing? then last else last.(number := Some(first + Carrying(init)));
      assert Numbered(outs, first) == Numbered(init, first) + [one];
      TextOfSnoc(init, last, key);
      TextOfSnoc(Numbered(init, first), one, key);
    }
  }

  /** After the first n deltas of e every channel is where the transducer is. */
  ghost predicate FieldsDone(t: Table, e: Event, n: nat, before: map<string, string>,
                             texts: seq<(string, string)>, now: map<string, string>)
    requires e.Event? && n <= |e.deltas|
  {
    forall key :: Channel(PairText(texts, key), Get(now, key))
               == FieldsStep(t, Channel("", Get(before, key)), KeyChunks(e.deltas[..n], key), Closes(e, key))
  }

  /** After the first n deltas of e were restored the next one has to be held back in part, and that
      would be a channel too many or needs a flush template over the limit. */
  ghost predicate RefusedAt(t: Table, e: Event, n: nat, before: map<string, string>, texts: seq<(string, string)>,
                            now: map<string, string>, error: StreamError)
    requires e.Event?
  {
    && n < |e.deltas| && FieldsDone(t, e, n, before, texts, now)
    && HeldBack(t, e, e.deltas[n], now) > 0 && LimitHit(e.deltas[n], now, error)
  }

  lemma RefusalIsLimit(t: Table, e: Event, n: nat, before: map<string, string>, texts: seq<(string, string)>,
                       now: map<string, string>, error: StreamError)
    requires e.Event? && RefusedAt(t, e, n, before, texts, now, error)
    ensures error == TooManyChannels || error == TemplateTooLarge
  {
    hide FieldsDone, HeldBack;
    assert LimitHit(e.deltas[n], now, error);
  }

  lemma NoFieldsYet(t: Table, e: Event, before: map<string, string>)
    requires e.Event?
    ensures FieldsDone(t, e, 0, before, [], before)
  {
  }

  /** How much of a channel has to be held back after one more delta. */
  function HeldBack(t: Table, e: Event, d: Delta, now: map<string, string>): (keep: nat)
    ensures keep <= |Get(now, d.key) + d.text|
  {
    if Closes(e, d.key) then 0 else Keep(t, Get(now, d.key) + d.text)
  }

  predicate LimitHit(d: Delta, now: map<string, string>, error: StreamError) {
    if d.key !in now && |now| >= MAX_CHANNELS then error == TooManyChannels else d.oversize && error == TemplateTooLarge
  }

  /** The pending map after one more delta. */
  function Stored(now: map<string, string>, key: string, rest: string): map<string, string> {
    if rest == "" then now - {key} else now[key := rest]
  }

  lemma HeldBackIs(t: Table, e: Event, d: Delta, now: map<string, string>)
    ensures HeldBack(t, e, d, now) == if Closes(e, d.key) then 0 else Keep(t, Get(now, d.key) + d.text)
  {
    hide Keep, Closes, Get;
  }

  lemma StoredIs(now: map<string, string>, key: string, rest: string)
    ensures rest == "" ==> Stored(now, key, rest) == now - {key}
    ensures rest != "" ==> Stored(now, key, rest) == now[key := rest]
  {
  }

  lemma LimitHitIs(d: Delta, now: map<string, string>)
    ensures d.key !in now && |now| >= MAX_CHANNELS ==> LimitHit(d, now, TooManyChannels)
    ensures !(d.key !in now && |now| >= MAX_CHANNELS) && d.oversize ==> LimitHit(d, now, TemplateTooLarge)
  {
  }

  lemma StoredSize(now: map<string, string>, key: string, rest: string)
    ensures |Stored(now, key, rest)| <= if rest == "" || key in now then |now| else |now| + 1
    ensures Get(Stored(now, key, rest), key) == rest && forall k :: k != key ==> Get(Stored(now, key, rest), k) == Get(now, k)
  {
    FewerChannels(now, key);
    OneMoreChannel(now, key, rest);
  }

  lemma FewerChannels(was: map<string, string>, k: string)
    ensures |was - {k}| <= |was|
  {
    var now := was - {k};
    assert was.Keys == now.Keys + (was.Keys * {k});
    assert |now| == |now.Keys| && |was| == |was.Keys|;
  }

  lemma OneMoreChannel(was: map<string, string>, k: string, text: string)
    ensures |was[k := text]| == if k in was then |was| else |was| + 1
  {
    var now := was[k := text];
    assert now.Keys == was.Keys + {k};
    assert |now| == |now.Keys| && |was| == |was.Keys|;
  }

  lemma SnocOnChannel(ds: seq<Delta>, i: nat, key: string, texts: seq<(string, string)>, out: string)
    requires i < |ds|
    ensures KeyChunks(ds[..i + 1], key) == KeyChunks(ds[..i], key) + if ds[i].key == key then [ds[i].text] else []
    ensures PairText(texts + [(ds[i].key, out)], key) == PairText(texts, key) + if ds[i].key == key then out else ""
  {
    assert ds[..i + 1][..i] == ds[..i];
    assert (texts + [(ds[i].key, out)])[..|texts|] == texts;
  }

  lemma SnocOnTransducer(t: Table, c: Channel, chunks: seq<string>, chunk: string, closing: bool)
    ensures var d := FieldsStep(t, c, chunks, closing);
            var text := d.pending + chunk;
            var cut := |text| - if closing then 0 else Keep(t, text);
            FieldsStep(t, c, chunks + [chunk], closing) == Channel(d.emitted + Restore(t, text[..cut]), text[cut..])
  {
    hide Restore, Keep;
    assert (chunks + [chunk])[..|chunks|] == chunks;
    var text := FieldsStep(t, c, chunks, closing).pending + chunk;
    assert text[..|text|] == text && text[|text|..] == "";
  }

  lemma FieldsStepDone(t: Table, e: Event, i: nat, before: map<string, string>,
                       texts: seq<(string, string)>, was: map<string, string>,
                       out: string, now: map<string, string>)
    requires e.Event? && i < |e.deltas| && FieldsDone(t, e, i, before, texts, was)
    requires var text := Get(was, e.deltas[i].key) + e.deltas[i].text;
             var cut := |text| - if Closes(e, e.deltas[i].key) then 0 else Keep(t, text);
             && out == Restore(t, text[..cut])
             && Get(now, e.deltas[i].key) == text[cut..]
    requires forall key :: key != e.deltas[i].key ==> Get(now, key) == Get(was, key)
    ensures FieldsDone(t, e, i + 1, before, texts + [(e.deltas[i].key, out)], now)
  {
    hide Restore, Keep, KeyChunks, PairText, FieldsStep, Closes, Get;
    var d := e.deltas[i];
    forall key
      ensures Channel(PairText(texts + [(d.key, out)], key), Get(now, key))
           == FieldsStep(t, Channel("", Get(before, key)), KeyChunks(e.deltas[..i + 1], key), Closes(e, key))
    {
      SnocOnChannel(e.deltas, i, key, texts, out);
      var chunks := KeyChunks(e.deltas[..i], key);
      assert Channel(PairText(texts, key), Get(was, key)) == FieldsStep(t, Channel("", Get(before, key)), chunks, Closes(e, key));
      if key == d.key {
        SnocOnTransducer(t, Channel("", Get(before, key)), chunks, d.text, Closes(e, key));
      } else {
        assert chunks + [] == chunks && PairText(texts, key) + "" == PairText(texts, key);
      }
    }
  }

  lemma FieldIsDone(t: Table, e: Event, i: nat, before: map<string, string>, texts: seq<(string, string)>,
                    was: map<string, string>, out: string, now: map<string, string>)
    requires e.Event? && i < |e.deltas| && FieldsDone(t, e, i, before, texts, was)
    requires var d := e.deltas[i];
             var text := Get(was, d.key) + d.text;
             var cut := |text| - HeldBack(t, e, d, was);
             && out == Restore(t, text[..cut]) && now == Stored(was, d.key, text[cut..])
             && (HeldBack(t, e, d, was) == 0 || d.key in was || |was| < MAX_CHANNELS)
    ensures FieldsDone(t, e, i + 1, before, texts + [(e.deltas[i].key, out)], now)
    ensures |now| <= MAX_CHANNELS || |now| <= |was|
  {
    hide FieldsDone, Restore, Keep, Closes, Stored, Get;
    var d := e.deltas[i];
    var text := Get(was, d.key) + d.text;
    StoredSize(was, d.key, text[|text| - HeldBack(t, e, d, was)..]);
    FieldsStepDone(t, e, i, before, texts, was, out, now);
  }

  lemma CarryingGrows(outs: seq<Out>, i: nat)
    requires i <= |outs|
    ensures Carrying(outs[..i]) <= Carrying(outs)
  {
    assert outs == outs[..i] + outs[i..];
    NumberedAppend(outs[..i], outs[i..], 0);
  }

  // ---- Events and flushes on all channels ----

  predicate Matches(e: Option<Event>, key: string) {
    e.None? || Closes(e.value, key)
  }

  ghost predicate Flushed(e: Option<Event>, before: map<string, string>, now: map<string, string>, out: seq<Out>) {
    && (forall key :: key in now <==> key in before && !Matches(e, key))
    && (forall key :: key in now ==> now[key] == before[key])
    && forall key :: TextOf(out, key) == if Matches(e, key) then Get(before, key) else ""
  }

  /** The keys still to be flushed, and what the flushed ones sent. */
  ghost predicate Flushing(e: Option<Event>, before: map<string, string>, keys: set<string>, now: map<string, string>, out: seq<Out>) {
    && (forall key :: key in keys ==> key in now && Matches(e, key))
    && (forall key :: key in now <==> key in before && (Matches(e, key) ==> key in keys))
    && (forall key :: key in now ==> now[key] == before[key])
    && forall key :: TextOf(out, key) == if Matches(e, key) && key !in keys then Get(before, key) else ""
  }

  lemma NothingFlushed(e: Option<Event>, before: map<string, string>)
    ensures Flushing(e, before, (set key | key in before && Matches(e, key)), before, [])
  {
  }

  lemma FlushStep(e: Option<Event>, before: map<string, string>, keys: set<string>, now: map<string, string>, out: seq<Out>, k: string)
    requires Flushing(e, before, keys, now, out) && k in keys
    ensures k in now
    ensures Flushing(e, before, keys - {k}, now - {k}, out + [Out(Remainder(k, now[k]), None)])
  {
    hide TextOf, Matches;
    var o := Out(Remainder(k, now[k]), None);
    forall key ensures TextOf(out + [o], key) == if Matches(e, key) && key !in keys - {k} then Get(before, key) else "" {
      TextOfSnoc(out, o, key);
    }
  }

  lemma FlushedAll(e: Option<Event>, before: map<string, string>, now: map<string, string>, out: seq<Out>)
    requires Flushing(e, before, {}, now, out)
    ensures Flushed(e, before, now, out)
  {
  }

  /** The outputs of one event and the new held-back texts are the transducer step on every channel. */
  ghost predicate EventDone(t: Table, e: Event, before: map<string, string>, now: map<string, string>, out: seq<Out>) {
    forall key :: Channel(TextOf(out, key), Get(now, key)) == EventStep(t, Channel("", Get(before, key)), e, key)
  }

  /** The channels that an event closes hold nothing after it. */
  ghost predicate ClosedAreEmpty(e: Event, now: map<string, string>) {
    forall key :: !LeavesOpen(e, key) ==> Get(now, key) == ""
  }

  lemma DoneClosesChannels(t: Table, e: Event, before: map<string, string>, now: map<string, string>, out: seq<Out>)
    requires EventDone(t, e, before, now, out)
    ensures ClosedAreEmpty(e, now)
  {
    hide FieldsStep, TextOf, Get, LeavesOpen, Closes;
    forall key | !LeavesOpen(e, key) ensures Get(now, key) == "" {
      ClosesIff(e, key);
      assert Channel(TextOf(out, key), Get(now, key)) == EventStep(t, Channel("", Get(before, key)), e, key);
    }
  }

  lemma BlankDone(t: Table, e: Event, before: map<string, string>)
    requires e.Blank?
    ensures EventDone(t, e, before, before, [Out(Nothing, None)]) && ClosedAreEmpty(e, before)
  {
    var out := [Out(Nothing, None)];
    assert out[..0] == [];
  }

  lemma EventIsDone(t: Table, e: Event, before: map<string, string>, between: map<string, string>, now: map<string, string>,
                    texts: seq<(string, string)>, out: seq<Out>)
    requires e.Event? && FieldsDone(t, e, |e.deltas|, before, texts, between)
    requires Flushed(Some(e), between, now, out)
    ensures EventDone(t, e, before, now, out + [Out(Restored(texts), None)])
  {
    hide FieldsStep, PairText, KeyChunks, TextOf, EventStep, Closes;
    assert e.deltas[..|e.deltas|] == e.deltas;
    forall key
      ensures Channel(TextOf(out + [Out(Restored(texts), None)], key), Get(now, key)) == EventStep(t, Channel("", Get(before, key)), e, key)
    {
      assert Matches(Some(e), key) == Closes(e, key);
      ChannelIsDone(t, e, before, between, now, texts, out, key);
    }
  }

  lemma ChannelIsDone(t: Table, e: Event, before: map<string, string>, between: map<string, string>, now: map<string, string>,
                      texts: seq<(string, string)>, out: seq<Out>, key: string)
    requires e.Event?
    requires Channel(PairText(texts, key), Get(between, key))
          == FieldsStep(t, Channel("", Get(before, key)), KeyChunks(e.deltas, key), Closes(e, key))
    requires TextOf(out, key) == if Closes(e, key) then Get(between, key) else ""
    requires Get(now, key) == if Closes(e, key) then "" else Get(between, key)
    ensures Channel(TextOf(out + [Out(Restored(texts), None)], key), Get(now, key)) == EventStep(t, Channel("", Get(before, key)), e, key)
  {
    hide FieldsStep, PairText, KeyChunks, TextOf, Closes, Get;
    TextOfSnoc(out, Out(Restored(texts), None), key);
    if Closes(e, key) {
      var chunks := KeyChunks(e.deltas, key);
      ClosedFieldsEmitOnce(t, Channel("", Get(before, key)), chunks);
    }
  }

  /** A closing event has either deltas of the channel or a remainder, never both,
      so the flush in front of it keeps the order. */
  lemma ClosedFieldsEmitOnce(t: Table, c: Channel, chunks: seq<string>)
    ensures chunks != [] ==> FieldsStep(t, c, chunks, true).pending == ""
    ensures chunks == [] ==> FieldsStep(t, c, chunks, true) == c
  {
  }

  /** Every channel has received the replacement of everything read. */
  ghost predicate Complete(t: Table, sent: seq<Out>, events: seq<Event>) {
    forall key :: TextOf(sent, key) == Expected(t, events, key)
  }

  /** All channels of an open stream agree with the transducer. */
  ghost predicate InStep(t: Table, sent: seq<Out>, held: map<string, string>, events: seq<Event>) {
    forall key :: Channel(TextOf(sent, key), Get(held, key)) == Run(t, events, key)
  }

  /** Text sent earlier does not influence a step. */
  lemma {:induction false} FieldsStepPrefix(t: Table, x: string, p: string, chunks: seq<string>, closing: bool)
    ensures FieldsStep(t, Channel(x, p), chunks, closing).emitted == x + FieldsStep(t, Channel("", p), chunks, closing).emitted
    ensures FieldsStep(t, Channel(x, p), chunks, closing).pending == FieldsStep(t, Channel("", p), chunks, closing).pending
    decreases |chunks|, 1
  {
    if chunks == [] {
      assert FieldsStep(t, Channel(x, p), [], closing) == Channel(x, p);
      assert x + "" == x;
    } else {
      assert chunks == chunks[..|chunks| - 1] + [chunks[|chunks| - 1]];
      FieldsStepPrefixSnoc(t, x, p, chunks[..|chunks| - 1], chunks[|chunks| - 1], closing);
    }
  }

  lemma FieldsStepPrefixSnoc(t: Table, x: string, p: string, chunks: seq<string>, last: string, closing: bool)
    ensures FieldsStep(t, Channel(x, p), chunks + [last], closing).emitted
         == x + FieldsStep(t, Channel("", p), chunks + [last], closing).emitted
    ensures FieldsStep(t, Channel(x, p), chunks + [last], closing).pending
         == FieldsStep(t, Channel("", p), chunks + [last], closing).pending
    decreases |chunks| + 1, 0
  {
    hide *;
    FieldsStepPrefix(t, x, p, chunks, closing);
    SnocOnTransducer(t, Channel(x, p), chunks, last, closing);
    SnocOnTransducer(t, Channel("", p), chunks, last, closing);
    var d := FieldsStep(t, Channel("", p), chunks, closing);
    var text := d.pending + last;
    var sent := Restore(t, text[..|text| - if closing then 0 else Keep(t, text)]);
    Glue(x, d.emitted, sent, d.emitted + sent);
  }

  /** The restored fields of a channel that stays open and what is held back mean the same as the raw
      texts, whatever follows; one that closes has no text held back behind its last field. */
  ghost predicate FieldsMean(t: Table, e: Event, before: map<string, string>, texts: seq<(string, string)>, now: map<string, string>)
    requires e.Event?
  {
    && (forall key, f :: LeavesOpen(e, key) ==>
          PairText(texts, key) + Restore(t, Get(now, key) + f) == Restore(t, Get(before, key) + DeltaText(e.deltas, key) + f))
    && (forall i :: 0 <= i < |e.deltas| && !LeavesOpen(e, e.deltas[i].key) ==> Get(now, e.deltas[i].key) == "")
  }

  lemma DoneMeansText(t: Table, e: Event, before: map<string, string>, texts: seq<(string, string)>, now: map<string, string>)
    requires e.Event? && FieldsDone(t, e, |e.deltas|, before, texts, now)
    ensures FieldsMean(t, e, before, texts, now)
  {
    hide Restore, Get, LeavesOpen, Closes, PairText, KeyChunks, FeedAll, CloseAll;
    assert e.deltas[..|e.deltas|] == e.deltas;
    forall key, f | LeavesOpen(e, key)
      ensures PairText(texts, key) + Restore(t, Get(now, key) + f) == Restore(t, Get(before, key) + DeltaText(e.deltas, key) + f)
    {
      ClosesIff(e, key);
      var c, chunks := Channel("", Get(before, key)), KeyChunks(e.deltas, key);
      assert Channel(PairText(texts, key), Get(now, key)) == FieldsStep(t, c, chunks, false);
      ChunksAreText(e.deltas, key);
      FeedAllKeepsMeaning(t, c, chunks, f);
      assert c.pending + (Concat(chunks) + f) == c.pending + Concat(chunks) + f;
      assert "" + Restore(t, c.pending + Concat(chunks) + f) == Restore(t, c.pending + Concat(chunks) + f);
    }
    forall i | 0 <= i < |e.deltas| && !LeavesOpen(e, e.deltas[i].key) ensures Get(now, e.deltas[i].key) == "" {
      var key := e.deltas[i].key;
      ClosesIff(e, key);
      HasChunk(e.deltas, i, key);
      assert Channel(PairText(texts, key), Get(now, key)) == FieldsStep(t, Channel("", Get(before, key)), KeyChunks(e.deltas, key), true);
      ClosedFieldsEmitOnce(t, Channel("", Get(before, key)), KeyChunks(e.deltas, key));
    }
  }

  lemma RefusedStaysOpen(t: Table, e: Event, at: nat, before: map<string, string>, sent: seq<(string, string)>,
                         now: map<string, string>, error: StreamError)
    requires e.Event? && RefusedAt(t, e, at, before, sent, now, error)
    ensures at < |e.deltas| && LeavesOpen(e, e.deltas[at].key)
  {
    hide FieldsDone, LimitHit, Closes, LeavesOpen;
    ClosesIff(e, e.deltas[at].key);
  }

  lemma FlushedAreClosed(e: Option<Event>, before: map<string, string>, now: map<string, string>, out: seq<Out>)
    requires Flushed(e, before, now, out)
    ensures forall key :: key in now <==> key in before && e.Some? && LeavesOpen(e.value, key)
  {
    hide Closes, LeavesOpen, TextOf, Get;
    forall key ensures key in now <==> key in before && e.Some? && LeavesOpen(e.value, key) {
      if e.Some? {
        ClosesIff(e.value, key);
      }
    }
  }

  /** On every channel that no event closed the text sent is the replacement of all the raw text. */
  ghost predicate Whole(t: Table, sent: seq<Out>, events: seq<Event>) {
    forall key :: StaysOpen(events, key) ==> TextOf(sent, key) == Restore(t, RawText(events, key))
  }

  lemma CompleteIsWhole(t: Table, sent: seq<Out>, events: seq<Event>)
    requires Complete(t, sent, events)
    ensures Whole(t, sent, events)
  {
    hide StaysOpen, Expected, Restore, RawText, TextOf;
    forall key | StaysOpen(events, key) ensures TextOf(sent, key) == Restore(t, RawText(events, key)) {
      OpenStreamIsWhole(t, events, key);
    }
  }

  lemma StaysInStep(t: Table, sent: seq<Out>, out: seq<Out>, before: map<string, string>, now: map<string, string>,
                    events: seq<Event>, e: Event)
    requires InStep(t, sent, before, events) && EventDone(t, e, before, now, out)
    ensures InStep(t, sent + out, now, events + [e])
  {
    assert (events + [e])[..|events|] == events;
    forall key ensures Channel(TextOf(sent + out, key), Get(now, key)) == Run(t, events + [e], key) {
      hide FieldsStep, TextOf, Chunks, Closes;
      TextOfAppend(sent, out, key);
      FieldsStepPrefix(t, TextOf(sent, key), Get(before, key), Chunks(e, key), Closes(e, key));
      var d := FieldsStep(t, Channel("", Get(before, key)), Chunks(e, key), Closes(e, key));
      Glue(TextOf(sent, key), d.emitted, d.pending, d.emitted + d.pending);
      assert Channel(TextOf(out, key), Get(now, key)) == EventStep(t, Channel("", Get(before, key)), e, key);
      assert Channel(TextOf(sent, key), Get(before, key)) == Run(t, events, key);
    }
  }

  lemma FinalFlush(t: Table, sent: seq<Out>, held: map<string, string>, now: map<string, string>, out: seq<Out>, events: seq<Event>)
    requires InStep(t, sent, held, events) && Flushed(None, held, now, out)
    ensures now == map[]
    ensures Complete(t, sent + out, events)
  {
    forall key ensures TextOf(sent + out, key) == Expected(t, events, key) {
      TextOfAppend(sent, out, key);
      StreamMeansReplacement(t, events, key);
      assert Channel(TextOf(sent, key), Get(held, key)) == Run(t, events, key);
    }
  }

  lemma NumberedSnoc(outs: seq<Out>, o: Out, first: nat)
    ensures Numbered(outs + [o], first)
         == Numbered(outs, first) + [if o.content.Nothing? then o else o.(number := Some(first + Carrying(outs)))]
    ensures Carrying(outs + [o]) == Carrying(outs) + if o.content.Nothing? then 0 else 1
  {
    assert (outs + [o])[..|outs|] == outs;
  }

  lemma {:induction false} NumberedTwice(outs: seq<Out>, first: nat)
    ensures Carrying(Numbered(outs, first)) == Carrying(outs)
    ensures Numbered(Numbered(outs, first), first) == Numbered(outs, first)
  {
    if outs != [] {
      var init, o := outs[..|outs| - 1], outs[|outs| - 1];
      assert outs == init + [o];
      NumberedTwice(init, first);
      NumberedSnoc(init, o, first);
      NumberedSnoc(Numbered(init, first), Numbered(outs, first)[|Numbered(init, first)|], first);
    }
  }

  /** Of two neighbours that carry data the second has the number after the first, and the first of all
      has the given one; what carries no data has none added. */
  lemma NumbersFollow(outs: seq<Out>, first: nat, i: nat, j: nat)
    requires i <= j < |outs| && !outs[j].content.Nothing? && forall k :: i < k < j ==> outs[k].content.Nothing?
    ensures |Numbered(outs, first)| == |outs|
    ensures var out := Numbered(outs, first);
            && (i < j && !outs[i].content.Nothing? ==> out[i].number.Some? && out[j].number == Some(out[i].number.value + 1))
            && ((forall k :: 0 <= k < j ==> outs[k].content.Nothing?) ==> out[j].number == Some(first))
            && (forall k :: 0 <= k < |outs| && outs[k].content.Nothing? ==> out[k] == outs[k])
            && (forall k :: 0 <= k < |outs| ==> out[k].content == outs[k].content)
  {
    NumberedAt(outs, first, i);
    NumberedAt(outs, first, j);
    if i < j {
      QuietCarriesNothing(outs, i + 1, j);
      assert outs[..i + 1][..i] == outs[..i];
    }
    if forall k :: 0 <= k < j ==> outs[k].content.Nothing? {
      QuietCarriesNothing(outs, 0, j);
      assert outs[..0] == [];
    }
    forall k | 0 <= k < |outs| ensures Numbered(outs, first)[k].content == outs[k].content
                                       && (outs[k].content.Nothing? ==> Numbered(outs, first)[k] == outs[k]) {
      NumberedAt(outs, first, k);
    }
  }

  lemma {:induction false} NumberedAt(outs: seq<Out>, first: nat, k: nat)
    requires k < |outs|
    ensures |Numbered(outs, first)| == |outs|
    ensures Numbered(outs, first)[k]
         == if outs[k].content.Nothing? then outs[k] else outs[k].(number := Some(first + Carrying(outs[..k])))
    decreases |outs|
  {
    var n := |outs| - 1;
    if k < n {
      NumberedAt(outs[..n], first, k);
      assert outs[..n][..k] == outs[..k];
    } else {
      NumberingKeepsText(outs[..n], first, "");
    }
  }

  lemma {:induction false} QuietCarriesNothing(outs: seq<Out>, i: nat, j: nat)
    requires i <= j <= |outs| && forall k :: i <= k < j ==> outs[k].content.Nothing?
    ensures Carrying(outs[..j]) == Carrying(outs[..i])
    decreases j
  {
    if i < j {
      QuietCarriesNothing(outs, i, j - 1);
      assert outs[..j][..j - 1] == outs[..j - 1];
    }
  }

  /** Numbering may start late: outputs without data carry no number. */
  lemma {:induction false} NothingToNumber(outs: seq<Out>, first: nat)
    requires Carrying(outs) == 0
    ensures Numbered(outs, first) == outs
  {
    if outs != [] {
      NothingToNumber(outs[..|outs| - 1], first);
    }
  }

  lemma NothingCarriesNothing(outs: seq<Out>)
    ensures Carrying(outs + [Out(Nothing, None)]) == Carrying(outs)
  {
    assert (outs + [Out(Nothing, None)])[..|outs|] == outs;
  }

  lemma FirstNumber(outs: seq<Out>)
    ensures Carrying(outs) == 0 ==> forall first :: Numbered(outs, first) == outs
  {
    if Carrying(outs) == 0 {
      forall first ensures Numbered(outs, first) == outs {
        NothingToNumber(outs, first);
      }
    }
  }

  /** Numbering the tail continues the numbers of the head and changes no text. */
  lemma RenumberedTail(sent: seq<Out>, raw: seq<Out>, first: nat, next: nat)
    requires sent == Numbered(sent, first) && next == first + Carrying(sent)
    ensures var all := sent + Numbered(raw, next);
            all == Numbered(all, first) && next + Carrying(raw) == first + Carrying(all)
  {
    NumberedTwice(raw, next);
    NumberedAppend(sent, Numbered(raw, next), first);
  }

  lemma RenumberedText(sent: seq<Out>, raw: seq<Out>, next: nat)
    ensures |Numbered(raw, next)| == |raw|
    ensures forall key :: TextOf(sent + Numbered(raw, next), key) == TextOf(sent + raw, key)
  {
    NumberingKeepsText(raw, next, "");
    forall key ensures TextOf(sent + Numbered(raw, next), key) == TextOf(sent + raw, key) {
      NumberingKeepsText(raw, next, key);
      TextOfAppend(sent, raw, key);
      TextOfAppend(sent, Numbered(raw, next), key);
    }
  }

  lemma NumbersContinue(sent: seq<Out>, raw: seq<Out>, out: seq<Out>, enabled: bool, unchecked: bool, ended: bool,
                        first: nat, next: nat, next': nat)
    requires Consecutive(sent, enabled, unchecked, ended, first, next)
    requires unchecked && !ended ==> Carrying(sent + raw) == 0
    requires out == if enabled then Numbered(raw, next) else raw
    requires next' == next + if enabled then Carrying(raw) else 0
    ensures Consecutive(sent + out, enabled, unchecked, ended, first, next')
  {
    if enabled {
      RenumberedTail(sent, raw, first, next);
    }
  }

  /** Completeness and agreement depend on the texts sent only. */
  lemma SameText(t: Table, a: seq<Out>, b: seq<Out>, held: map<string, string>, events: seq<Event>)
    requires forall key :: TextOf(b, key) == TextOf(a, key)
    ensures InStep(t, a, held, events) ==> InStep(t, b, held, events)
    ensures Complete(t, a, events) ==> Complete(t, b, events)
  {
  }

  /** What a stream in this state owes its reader. */
  ghost predicate TextsOk(t: Table, outs: seq<Out>, held: map<string, string>, events: seq<Event>, ended: bool, broken: bool) {
    && (ended && !broken ==> held == map[] && Complete(t, outs, events))
    && (!ended ==> !broken && InStep(t, outs, held, events))
  }

  lemma NumberingKeepsTexts(t: Table, sent: seq<Out>, raw: seq<Out>, next: nat, held: map<string, string>, events: seq<Event>,
                            ended: bool, broken: bool)
    requires TextsOk(t, sent + raw, held, events, ended, broken)
    ensures TextsOk(t, sent + Numbered(raw, next), held, events, ended, broken) && |Numbered(raw, next)| == |raw|
  {
    hide Complete, InStep, Numbered;
    RenumberedText(sent, raw, next);
    SameText(t, sent + raw, sent + Numbered(raw, next), held, events);
  }

  // ---- The stream object ----

  class IdentityStream {
    const table: Table
    const responses: bool
    var inner: seq<Event>
    var pending: map<string, string>
    var queue: seq<Out>
    var current: Option<Out>
    var ended: bool
    var err: bool
    var sequenceChecked: bool
    var sequenceEnabled: bool
    var nextSequence: nat
    ghost var consumed: seq<Event>
    ghost var delivered: seq<Out>
    ghost var broken: bool
    ghost var firstSequence: nat

    /** Unless a step failed, each channel is exactly where the transducer is, and a
        stream that has ended holds nothing back. */
    ghost predicate Valid()
      reads this
    {
      TextValid() && (!broken ==> Numbers(delivered + queue))
    }

    ghost predicate Numbers(outs: seq<Out>)
      reads this
    {
      Consecutive(outs, sequenceEnabled, responses && !sequenceChecked, ended, firstSequence, nextSequence)
    }

    ghost predicate TextValid()
      reads this
    {
      TextsOk(table, delivered + queue, pending, consumed, ended, broken)
    }

    constructor (table: Table, responses: bool, inner: seq<Event>)
      ensures Valid() && this.table == table && this.responses == responses && this.inner == inner
      ensures !ended && consumed == [] && delivered == [] && queue == []
    {
      this.table, this.responses, this.inner := table, responses, inner;
      pending, queue, current := map[], [], None;
      ended, err, sequenceChecked, sequenceEnabled, nextSequence := false, false, false, false, 0;
      consumed, delivered, broken, firstSequence := [], [], false, 0;
    }

    /** Checks and remembers the first sequence number of a Responses stream. */
    method CheckSequence(e: Event) returns (ok: bool)
      requires e.Event?
      modifies `sequenceChecked, `sequenceEnabled, `nextSequence, `firstSequence
      ensures ok <==> !(responses && !old(sequenceChecked) && e.sequence.Malformed?)
      ensures sequenceChecked == (old(sequenceChecked) || responses)
      ensures responses && !old(sequenceChecked) && e.sequence.Number?
              ==> sequenceEnabled && nextSequence == firstSequence == e.sequence.n
      ensures !(responses && !old(sequenceChecked) && e.sequence.Number?)
              ==> sequenceEnabled == old(sequenceEnabled) && nextSequence == old(nextSequence) && firstSequence == old(firstSequence)
    {
      ok := true;
      if responses && !sequenceChecked {
        sequenceChecked := true;
        match e.sequence
        case Missing =>
        case Malformed => ok := false;
        case Number(n) =>
          sequenceEnabled, nextSequence := true, n;
          firstSequence := n;
      }
    }

    /** Restores one text field, or finds that what has to be held back exceeds a limit. */
    method RestoreField(e: Event, d: Delta) returns (out: string, failed: Option<StreamError>)
      modifies `pending
      ensures var text := Get(old(pending), d.key) + d.text;
              var cut := |text| - HeldBack(table, e, d, old(pending));
              failed.None? ==> out == Restore(table, text[..cut]) && pending == Stored(old(pending), d.key, text[cut..])
      ensures failed.None? ==> HeldBack(table, e, d, old(pending)) == 0 || d.key in old(pending) || |old(pending)| < MAX_CHANNELS
      ensures failed.Some? ==> pending == old(pending) && HeldBack(table, e, d, pending) > 0 && LimitHit(d, pending, failed.value)
    {
      hide *;
      HeldBackIs(table, e, d, pending);
      var text := Get(pending, d.key) + d.text;
      var keep := if Closes(e, d.key) then 0 else Keep(table, text);
      var cut := |text| - keep;
      out := Restore(table, text[..cut]);
      StoredIs(pending, d.key, text[cut..]);
      LimitHitIs(d, pending);
      if keep == 0 {
        pending := pending - {d.key};
        return out, None;
      }
      if d.key !in pending && |pending| >= MAX_CHANNELS {
        return out, Some(TooManyChannels);
      }
      if d.oversize {
        return out, Some(TemplateTooLarge);
      }
      pending := pending[d.key := text[cut..]];
      return out, None;
    }

    /** Restores the text fields of one event. */
    method Fields(e: Event) returns (r: Result<seq<(string, string)>, StreamError>, ghost at: nat, ghost sent: seq<(string, string)>)
      requires e.Event?
      modifies `pending
      ensures r.Success? ==> FieldsDone(table, e, |e.deltas|, old(pending), r.value, pending)
                             && FieldsMean(table, e, old(pending), r.value, pending)
      ensures r.Failure? ==> at < |e.deltas| && LeavesOpen(e, e.deltas[at].key)
      ensures r.Failure? ==> RefusedAt(table, e, at, old(pending), sent, pending, r.error)
      ensures |pending| <= MAX_CHANNELS || |pending| <= |old(pending)|
    {
      hide FieldsDone, FieldsMean, HeldBack, LimitHit, Restore, Stored, Get, Closes, LeavesOpen;
      at, sent := 0, [];
      var texts: seq<(string, string)> := [];
      ghost var before := pending;
      NoFieldsYet(table, e, pending);
      for i := 0 to |e.deltas|
        invariant FieldsDone(table, e, i, before, texts, pending)
        invariant |pending| <= MAX_CHANNELS || |pending| <= |before|
      {
        var d := e.deltas[i];
        ghost var was := pending;
        at, sent := i, texts;
        var out, failed := RestoreField(e, d);
        if failed.Some? {
          RefusedStaysOpen(table, e, at, before, sent, pending, failed.value);
          return Failure(failed.value), at, sent;
        }
        texts := texts + [(d.key, out)];
        FieldIsDone(table, e, i, before, sent, was, out, pending);
      }
      DoneMeansText(table, e, before, texts, pending);
      return Success(texts), at, sent;
    }

    /** Sends the held-back text of every channel that e closes, or of all channels.
        The source sorts the keys; any order satisfies this contract. */
    method Flush(e: Option<Event>) returns (out: seq<Out>)
      modifies `pending
      ensures Flushed(e, old(pending), pending, out)
      ensures forall key :: key in pending <==> key in old(pending) && e.Some? && LeavesOpen(e.value, key)
    {
      out := [];
      ghost var before := pending;
      var keys := set key | key in pending && Matches(e, key);
      NothingFlushed(e, before);
      while keys != {}
        invariant Flushing(e, before, keys, pending, out)
        decreases |keys|
      {
        hide *;
        var k :| k in keys;
        FlushStep(e, before, keys, pending, out, k);
        out := out + [Out(Remainder(k, pending[k]), None)];
        pending := pending - {k};
        keys := keys - {k};
      }
      FlushedAll(e, before, pending, out);
      FlushedAreClosed(e, before, pending, out);
    }

    /** Restores the channels of an event; the channels it closes are flushed in front of it. */
    method RestoreEvent(e: Event) returns (r: Result<seq<Out>, StreamError>, ghost at: nat, ghost sent: seq<(string, string)>)
      requires e.Event?
      modifies `pending
      ensures r.Success? ==> r.value != [] && EventDone(table, e, old(pending), pending, r.value) && ClosedAreEmpty(e, pending)
      ensures r.Failure? ==> RefusedAt(table, e, at, old(pending), sent, pending, r.error)
    {
      hide *;
      ghost var before := pending;
      var restored;
      restored, at, sent := Fields(e);
      if restored.Failure? {
        return Failure(restored.error), at, sent;
      }
      ghost var between := pending;
      var out := Flush(Some(e));
      EventIsDone(table, e, before, between, pending, restored.value, out);
      DoneClosesChannels(table, e, before, pending, out + [Out(Restored(restored.value), None)]);
      return Success(out + [Out(Restored(restored.value), None)]), at, sent;
    }

    /** One upstream event, checked and restored. */
    method Transform(e: Event) returns (r: Result<seq<Out>, StreamError>, ghost at: nat, ghost sent: seq<(string, string)>)
      modifies `pending, `ended, `err, `sequenceChecked, `sequenceEnabled, `nextSequence, `firstSequence
      ensures e.Blank? ==> r == Success([Out(Nothing, None)]) && pending == old(pending) && ended == old(ended)
                           && sequenceChecked == old(sequenceChecked)
      ensures r == Failure(NotAnObject) <==> e.Event? && !e.isObject
      ensures r == Failure(UpstreamError) <==> e.Event? && e.isObject && e.upstreamError
      ensures r == Failure(BadSequence) <==>
                e.Event? && e.isObject && !e.upstreamError && responses && !old(sequenceChecked) && e.sequence.Malformed?
      ensures r.Failure? && r.error !in {NotAnObject, UpstreamError, BadSequence} ==>
                e.Event? && RefusedAt(table, e, at, old(pending), sent, pending, r.error)
      ensures r.Success? ==> r.value != [] && EventDone(table, e, old(pending), pending, r.value) && ClosedAreEmpty(e, pending)
      ensures r.Success? && e.Event? ==> sequenceChecked == (old(sequenceChecked) || responses)
      ensures r.Success? ==> ended == (old(ended) || (e.Event? && e.terminal))
      ensures responses && !old(sequenceChecked) && e.Event? && e.sequence.Number? && sequenceChecked
              ==> sequenceEnabled && nextSequence == firstSequence
      ensures !(responses && !old(sequenceChecked) && e.Event? && e.sequence.Number? && sequenceChecked)
              ==> sequenceEnabled == old(sequenceEnabled) && nextSequence == old(nextSequence) && firstSequence == old(firstSequence)
    {
      hide *;
      at, sent := 0, [];
      if e.Blank? {
        BlankDone(table, e, pending);
        return Success([Out(Nothing, None)]), at, sent;
      }
      if !e.isObject {
        return Failure(NotAnObject), at, sent;
      }
      if e.upstreamError {
        return Failure(UpstreamError), at, sent;
      }
      var ok := CheckSequence(e);
      if !ok {
        return Failure(BadSequence), at, sent;
      }
      err := err || e.inspectErr || e.abnormalErr;
      ended := ended || e.terminal;
      r, at, sent := RestoreEvent(e);
      if r.Failure? {
        RefusalIsLimit(table, e, at, old(pending), sent, pending, r.error);
      }
    }

    /** Gives consecutive numbers to the outputs that carry data. */
    method Renumber(outs: seq<Out>) returns (r: Result<seq<Out>, StreamError>)
      modifies `nextSequence
      ensures r.Failure? <==> sequenceEnabled && Carrying(outs) > 0 && old(nextSequence) + Carrying(outs) - 1 > MAX_INT64
      ensures r.Success? ==> r.value == if sequenceEnabled then Numbered(outs, old(nextSequence)) else outs
      ensures r.Success? ==> nextSequence == old(nextSequence) + if sequenceEnabled then Carrying(outs) else 0
    {
      if !sequenceEnabled {
        return Success(outs);
      }
      var done: seq<Out> := [];
      for i := 0 to |outs|
        invariant done == Numbered(outs[..i], old(nextSequence))
        invariant nextSequence == old(nextSequence) + Carrying(outs[..i])
        invariant Carrying(outs[..i]) > 0 ==> old(nextSequence) + Carrying(outs[..i]) - 1 <= MAX_INT64
      {
        assert outs[..i + 1][..i] == outs[..i];
        CarryingGrows(outs, i + 1);
        if outs[i].content.Nothing? {
          done := done + [outs[i]];
          continue;
        }
        if nextSequence > MAX_INT64 {
          return Failure(SequenceOverflow);
        }
        done := done + [outs[i].(number := Some(nextSequence))];
        nextSequence := nextSequence + 1;
      }
      assert outs[..|outs|] == outs;
      return Success(done);
    }

    /** Delivers the next output. When it reports the end without a failure, every
        channel has received the whole-text replacement of its segments. */
    method Next() returns (more: bool)
      requires Valid()
      modifies this
      ensures Valid()
      ensures more ==> current.Some? && delivered == old(delivered) + [current.value]
      ensures !more ==> current.None? && delivered == old(delivered) && ended && queue == []
      ensures !more && !broken ==> Complete(table, delivered, consumed) && Whole(table, delivered, consumed)
      ensures broken ==> old(broken) || err
      ensures consumed + inner == old(consumed) + old(inner)
    {
      hide Complete, Whole, Numbered, Carrying, InStep;
      if queue == [] && !ended {
        Pull();
      }
      if queue == [] {
        current := None;
        assert delivered + queue == delivered;
        if !broken {
          CompleteIsWhole(table, delivered, consumed);
        }
        return false;
      }
      assert delivered + queue == (delivered + [queue[0]]) + queue[1..];
      delivered := delivered + [queue[0]];
      current, queue := Some(queue[0]), queue[1..];
      more := true;
    }

    /** Reads one upstream event, or ends the stream; a stream that ends sends what it holds back. */
    method Read()
      requires Valid() && queue == [] && !ended
      modifies this
      ensures TextValid() && (queue == [] ==> ended) && (broken ==> err)
      ensures delivered == old(delivered) && (!broken ==> Numbers(delivered))
      ensures responses && !sequenceChecked && !ended ==> Carrying(delivered + queue) == 0
      ensures consumed + inner == old(consumed) + old(inner)
    {
      hide Complete, Numbered, Carrying, InStep, EventDone, Flushed, Expected, TextOf, Run;
      assert delivered + queue == delivered;
      if inner == [] {
        ended := true;
      } else {
        TakeEvent();
      }
      if ended {
        End();
      }
    }

    /** Restores the next upstream event into the queue. */
    method TakeEvent()
      requires Valid() && queue == [] && !ended && inner != []
      modifies this
      ensures delivered == old(delivered) && consumed + inner == old(consumed) + old(inner)
      ensures broken ==> ended && err
      ensures !broken ==> queue != [] && InStep(table, delivered + queue, pending, consumed) && Numbers(delivered)
      ensures responses && !sequenceChecked && !ended ==> Carrying(delivered + queue) == 0
    {
      hide Complete, Numbered, Carrying, InStep, EventDone, Flushed, Expected, TextOf, Run, RefusedAt, HeldBack, LimitHit;
      assert delivered + queue == delivered;
      ghost var before, events := pending, consumed;
      var e := inner[0];
      assert consumed + inner == (consumed + [e]) + inner[1..];
      inner, consumed := inner[1..], consumed + [e];
      var r, at, sent := Transform(e);
      if r.Failure? {
        err, ended, broken := true, true, true;
        return;
      }
      queue := r.value;
      StaysInStep(table, delivered, queue, before, pending, events, e);
      FirstNumber(delivered);
      NothingCarriesNothing(delivered);
    }

    /** Sends what is held back when the stream is over. */
    method End()
      requires ended && (!broken ==> InStep(table, delivered + queue, pending, consumed))
      modifies `pending, `queue
      ensures TextValid()
    {
      hide Complete, InStep, Flushed;
      ghost var held, read := pending, delivered + queue;
      var out := Flush(None);
      assert delivered + (queue + out) == read + out;
      if !broken {
        FinalFlush(table, read, held, pending, out, consumed);
      }
      queue := queue + out;
    }

    /** Refills the queue and numbers it. */
    method Pull()
      requires Valid() && queue == [] && !ended
      modifies this
      ensures Valid() && (queue == [] ==> ended) && (broken ==> err)
      ensures delivered == old(delivered)
      ensures consumed + inner == old(consumed) + old(inner)
    {
      Read();
      hide *;
      ghost var raw, next := queue, nextSequence;
      var r := Renumber(queue);
      if r.Failure? {
        queue, err, ended, broken := [], true, true, true;
        return;
      }
      queue := r.value;
      if sequenceEnabled {
        NumberingKeepsTexts(table, delivered, raw, next, pending, consumed, ended, broken);
      }
      if !broken {
        NumbersContinue(delivered, raw, queue, sequenceEnabled, responses && !sequenceChecked, ended, firstSequence, next, nextSequence);
      }
    }
  }
}
