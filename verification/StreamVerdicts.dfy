/** The verdicts on stream events of internal/relay/protocol.go, and what they say about the payloads. */
module StreamVerdicts {
  import opened Wrappers

  datatype Format = Chat | Anthropic | Responses

  /** A JSON value as far as the probes look at it; Other carries its source text. */
  datatype Raw = Absent | Null | Str(value: string) | Other(text: string)

  datatype Choice = Choice(wellFormed: bool, finish: Raw, content: Raw, reasoning: Raw, toolCalls: Raw)

  /** The decoded payload of one event in the client's protocol. */
  datatype Payload =
    | Empty
    | Undecodable
    | ChatDone
    | ChatChunk(errorFrame: bool, choices: seq<Choice>)
    | AnthropicFrame(kind: string, stopReason: Option<string>)
    | ResponsesFrame(kind: string, status: Option<string>)

  /** name is the SSE event name, size the length of the data in bytes. */
  datatype Event = Event(name: string, payload: Payload, size: nat)

  datatype Verdict = Verdict(terminal: bool, inspectErr: bool, abnormal: bool, hasContent: bool,
                             hasAnswer: bool, hasReasoning: bool, stopFinish: bool, finishSeen: bool)

  const NOTHING := Verdict(false, false, false, false, false, false, false, false)
  const FAILURE := NOTHING.(terminal := true, inspectErr := true)

  // ---- Whitelists and raw values ----

  predicate ValidChatFinish(reason: string) {
    reason in {"", "stop", "length", "tool_calls", "function_call", "other"}
  }

  predicate ValidAnthropicStop(reason: string) {
    reason in {"", "end_turn", "max_tokens", "stop_sequence", "tool_use", "pause_turn", "refusal"}
  }

  function FinishReason(raw: Raw): Option<string> {
    match raw
    case Absent => None
    case Null => None
    case Str(value) => Some(value)
    case Other(text) => Some(text)
  }

  predicate HasText(raw: Raw) {
    raw.Str? && raw.value != ""
  }

  predicate HasToolCalls(raw: Raw) {
    !raw.Absent? && !raw.Null?
  }

  predicate Answers(c: Choice) {
    c.wellFormed && (HasText(c.content) || HasToolCalls(c.toolCalls))
  }

  predicate Reasons(c: Choice) {
    c.wellFormed && HasText(c.reasoning)
  }

  predicate Finishes(c: Choice, reason: string) {
    c.wellFormed && FinishReason(c.finish) == Some(reason)
  }

  // ---- Verdicts ----

  /** What a chat chunk says, in terms of its choices. Malformed choices say nothing. */
  function ChoicesVerdict(cs: seq<Choice>): Verdict {
    Verdict(false, false,
            exists c :: c in cs && c.wellFormed && FinishReason(c.finish).Some? && !ValidChatFinish(FinishReason(c.finish).value),
            exists c :: c in cs && (Answers(c) || Reasons(c)),
            exists c :: c in cs && Answers(c),
            exists c :: c in cs && Reasons(c),
            exists c :: c in cs && Finishes(c, "stop"),
            exists c :: c in cs && c.wellFormed && FinishReason(c.finish).Some?
                        && FinishReason(c.finish).value != "" && ValidChatFinish(FinishReason(c.finish).value))
  }

  function Either(a: Verdict, b: Verdict): Verdict {
    Verdict(a.terminal || b.terminal, a.inspectErr || b.inspectErr, a.abnormal || b.abnormal, a.hasContent || b.hasContent,
            a.hasAnswer || b.hasAnswer, a.hasReasoning || b.hasReasoning, a.stopFinish || b.stopFinish, a.finishSeen || b.finishSeen)
  }

  function ChoiceVerdict(c: Choice): Verdict {
    if !c.wellFormed then NOTHING
    else
      var reason := FinishReason(c.finish);
      var known := reason.Some? && ValidChatFinish(reason.value);
      Verdict(false, false, reason.Some? && !known, Answers(c) || Reasons(c), Answers(c), Reasons(c),
              reason == Some("stop"), known && reason.value != "")
  }

  lemma ChoicesSnoc(cs: seq<Choice>, c: Choice)
    ensures ChoicesVerdict([]) == NOTHING
    ensures ChoicesVerdict(cs + [c]) == Either(ChoicesVerdict(cs), ChoicesVerdict([c]))
    ensures ChoicesVerdict([c]) == ChoiceVerdict(c)
  {
    assert forall d :: d in cs + [c] <==> d in cs || d == c;
    assert forall d :: d in [c] <==> d == c;
    assert c in [c] && c in cs + [c];
  }

  /** Adds what one choice says. */
  method AnalyzeChoice(v0: Verdict, c: Choice) returns (v: Verdict)
    ensures v == Either(v0, ChoiceVerdict(c))
  {
    hide ValidChatFinish, FinishReason, HasText, HasToolCalls;
    v := v0;
    if !c.wellFormed {
      return;
    }
    var reason := FinishReason(c.finish);
    var abnormal, stopFinish, finishSeen := v.abnormal, v.stopFinish, v.finishSeen;
    if reason.Some? {
      if !ValidChatFinish(reason.value) {
        abnormal := true;
      }
      if reason.value == "stop" {
        stopFinish := true;
      }
      if reason.value != "" && ValidChatFinish(reason.value) {
        finishSeen := true;
      }
    }
    var answer := HasText(c.content) || HasToolCalls(c.toolCalls);
    var reasoning := HasText(c.reasoning);
    v := Verdict(v.terminal, v.inspectErr, abnormal, v.hasContent || answer || reasoning,
                 v.hasAnswer || answer, v.hasReasoning || reasoning, stopFinish, finishSeen);
  }

  /** The loop over the choices of one chunk. */
  method AnalyzeChoices(cs: seq<Choice>) returns (v: Verdict)
    ensures v == ChoicesVerdict(cs)
  {
    hide *;
    v := NOTHING;
    ChoicesSnoc([], Choice(false, Absent, Absent, Absent, Absent));
    assert cs[..0] == [];
    for i := 0 to |cs|
      invariant v == ChoicesVerdict(cs[..i])
    {
      ChoicesSnoc(cs[..i], cs[i]);
      assert cs[..i + 1] == cs[..i] + [cs[i]];
      v := AnalyzeChoice(v, cs[i]);
    }
    assert cs[..|cs|] == cs;
  }

  predicate EndsWith(s: string, suffix: string) {
    |suffix| <= |s| && s[|s| - |suffix|..] == suffix
  }

  function Analyze(format: Format, e: Event): Verdict {
    match format
    case Chat => (
      match e.payload
      case Empty => NOTHING
      case ChatDone => NOTHING.(terminal := true)
      case ChatChunk(errorFrame, choices) => if e.name == "error" || errorFrame then FAILURE else ChoicesVerdict(choices)
      case _ => FAILURE)
    case Anthropic => (
      match e.payload
      case Empty => NOTHING
      case AnthropicFrame(kind, stopReason) =>
        if kind == "" || (e.name != "" && e.name != kind) then FAILURE
        else if kind == "message_stop" then NOTHING.(terminal := true)
        else if kind == "error" then FAILURE
        else
          var v := NOTHING.(hasContent := kind == "content_block_start" || kind == "content_block_delta");
          if kind == "message_delta" && stopReason.Some? then
            if !ValidAnthropicStop(stopReason.value) then v.(abnormal := true)
            else v.(finishSeen := stopReason.value != "")
          else v
      case _ => FAILURE)
    case Responses => (
      match e.payload
      case Empty => NOTHING
      case ResponsesFrame(kind, status) =>
        if kind == "response.completed" then
          if status.None? || status.value == "" || status.value == "completed" then NOTHING.(terminal := true)
          else FAILURE.(abnormal := true)
        else if kind in {"response.failed", "response.incomplete", "response.cancelled", "error"} then FAILURE.(abnormal := true)
        else NOTHING.(hasContent := EndsWith(kind, ".delta") || kind == "output_item.added" || kind == "output_item.done")
      case _ => FAILURE)
  }

  /** A protocol event that properly ends the response. */
  predicate CleanEnd(format: Format, e: Event) {
    Analyze(format, e).terminal && !Analyze(format, e).inspectErr && !Analyze(format, e).abnormal
  }

  /** terminalStreamFrames: the closing events put in when the upstream omits its sentinel. */
  function ClosingFrames(format: Format): seq<Event> {
    match format
    case Chat => [Event("", ChatChunk(false, [Choice(true, Str("stop"), Absent, Absent, Absent)]), 0), Event("", ChatDone, 0)]
    case Anthropic => [Event("message_delta", AnthropicFrame("message_delta", Some("end_turn")), 0),
                       Event("message_stop", AnthropicFrame("message_stop", None), 0)]
    case Responses => [Event("response.completed", ResponsesFrame("response.completed", Some("completed")), 0)]
  }

  /** Synthesized closings end in a terminal event, contain only one, and are themselves normal. */
  lemma ClosingFramesEndOnce(format: Format)
    ensures var fs := ClosingFrames(format);
            && |fs| > 0 && CleanEnd(format, fs[|fs| - 1])
            && forall i :: 0 <= i < |fs| - 1 ==> !Analyze(format, fs[i]).terminal && !Analyze(format, fs[i]).abnormal
  {
    var c := Choice(true, Str("stop"), Absent, Absent, Absent);
    assert forall d :: d in [c] ==> d == c;
  }

  // ---- What a payload says, protocol by protocol ----

  /** The choice states this reason, as a string or as the text of any other value. */
  ghost predicate Says(c: Choice, reason: string) {
    c.wellFormed && (c.finish == Str(reason) || c.finish == Other(reason))
  }

  ghost function ChoicesOf(e: Event): seq<Choice> {
    if e.payload.ChatChunk? then e.payload.choices else []
  }

  /** An error frame, or nothing the protocol knows. */
  ghost predicate Garbled(format: Format, e: Event) {
    !e.payload.Empty?
    && match format
       case Chat => !e.payload.ChatDone? && (e.payload.ChatChunk? ==> e.name == "error" || e.payload.errorFrame)
       case Anthropic =>
         e.payload.AnthropicFrame? ==> e.payload.kind in {"", "error"} || (e.name != "" && e.name != e.payload.kind)
       case Responses => !e.payload.ResponsesFrame?
  }

  /** The response ended in a way that must not be delivered. */
  ghost predicate Tainted(format: Format, e: Event) {
    !Garbled(format, e)
    && match format
       case Chat => exists c, r :: c in ChoicesOf(e) && Says(c, r) && r !in {"", "stop", "length", "tool_calls", "function_call", "other"}
       case Anthropic =>
         && e.payload.AnthropicFrame? && e.payload.kind == "message_delta" && e.payload.stopReason.Some?
         && e.payload.stopReason.value !in
            {"", "end_turn", "max_tokens", "stop_sequence", "tool_use", "pause_turn", "refusal"}
       case Responses =>
         && e.payload.ResponsesFrame?
         && (e.payload.kind in {"response.failed", "response.incomplete", "response.cancelled", "error"}
             || (e.payload.kind == "response.completed" && e.payload.status.Some? && e.payload.status.value !in {"", "completed"}))
  }

  /** The proper end of the response. */
  ghost predicate Ends(format: Format, e: Event) {
    !Garbled(format, e) && !Tainted(format, e)
    && match format
       case Chat => e.payload.ChatDone?
       case Anthropic => e.payload.AnthropicFrame? && e.payload.kind == "message_stop"
       case Responses => e.payload.ResponsesFrame? && e.payload.kind == "response.completed"
  }

  /** A good reason to finish is stated. */
  ghost predicate StatesFinish(format: Format, e: Event) {
    !Garbled(format, e)
    && match format
       case Chat => exists c, r :: c in ChoicesOf(e) && Says(c, r) && r in {"stop", "length", "tool_calls", "function_call", "other"}
       case Anthropic =>
         e.payload.AnthropicFrame? && e.payload.kind == "message_delta" && e.payload.stopReason.Some?
         && e.payload.stopReason.value in {"end_turn", "max_tokens", "stop_sequence", "tool_use", "pause_turn", "refusal"}
       case Responses => false
  }

  ghost predicate HoldsAnswer(format: Format, e: Event) {
    format.Chat? && !Garbled(format, e)
    && exists c :: c in ChoicesOf(e) && c.wellFormed
                   && ((c.content.Str? && c.content.value != "") || c.toolCalls.Str? || c.toolCalls.Other?)
  }

  ghost predicate HoldsReasoning(format: Format, e: Event) {
    format.Chat? && !Garbled(format, e)
    && exists c :: c in ChoicesOf(e) && c.wellFormed && c.reasoning.Str? && c.reasoning.value != ""
  }

  ghost predicate StopsNaturally(format: Format, e: Event) {
    format.Chat? && !Garbled(format, e) && exists c :: c in ChoicesOf(e) && Says(c, "stop")
  }

  ghost predicate HoldsContent(format: Format, e: Event) {
    !Garbled(format, e)
    && match format
       case Chat => HoldsAnswer(format, e) || HoldsReasoning(format, e)
       case Anthropic => e.payload.AnthropicFrame? && e.payload.kind in {"content_block_start", "content_block_delta"}
       case Responses =>
         e.payload.ResponsesFrame?
         && ((exists x :: e.payload.kind == x + ".delta") || e.payload.kind in {"output_item.added", "output_item.done"})
  }

  lemma SuffixMeans(kind: string)
    ensures EndsWith(kind, ".delta") <==> exists x :: kind == x + ".delta"
  {
    if EndsWith(kind, ".delta") {
      assert kind == kind[..|kind| - 6] + ".delta";
    }
  }

  lemma DeltaIsNoEnd(kind: string)
    requires EndsWith(kind, ".delta")
    ensures kind !in {"response.completed", "response.failed", "response.incomplete", "response.cancelled", "error"}
  {
    assert kind[|kind| - 6..][5] == 'a' == kind[|kind| - 1];
  }

  lemma SaysIsReason(c: Choice, reason: string)
    ensures Says(c, reason) <==> c.wellFormed && FinishReason(c.finish) == Some(reason)
  {
  }

  lemma ChatReasonsMean(cs: seq<Choice>)
    ensures ChoicesVerdict(cs).abnormal
       <==> exists c, r :: c in cs && Says(c, r) && r !in {"", "stop", "length", "tool_calls", "function_call", "other"}
    ensures ChoicesVerdict(cs).finishSeen
       <==> exists c, r :: c in cs && Says(c, r) && r in {"stop", "length", "tool_calls", "function_call", "other"}
    ensures ChoicesVerdict(cs).stopFinish <==> exists c :: c in cs && Says(c, "stop")
  {
    hide Says, FinishReason, HasText, HasToolCalls;
    forall c, r ensures Says(c, r) <==> c.wellFormed && FinishReason(c.finish) == Some(r) {
      SaysIsReason(c, r);
    }
    forall c | c in cs && c.wellFormed && FinishReason(c.finish).Some? ensures Says(c, FinishReason(c.finish).value) {
    }
  }

  /** What the verdict on an event says about its payload. */
  ghost predicate Means(format: Format, e: Event) {
    var v := Analyze(format, e);
    && (v.abnormal <==> Tainted(format, e))
    && (v.inspectErr <==> Garbled(format, e) || (format.Responses? && Tainted(format, e)))
    && (v.terminal <==> Ends(format, e) || v.inspectErr)
    && (v.finishSeen <==> StatesFinish(format, e))
    && (v.stopFinish <==> StopsNaturally(format, e))
    && (v.hasAnswer <==> HoldsAnswer(format, e))
    && (v.hasReasoning <==> HoldsReasoning(format, e))
    && (v.hasContent <==> HoldsContent(format, e))
  }

  lemma ChatMeans(e: Event)
    ensures Means(Chat, e)
  {
    hide Says, FinishReason, ValidChatFinish;
    if e.payload.ChatChunk? {
      ChatReasonsMean(e.payload.choices);
    }
  }

  lemma AnthropicMeans(e: Event)
    ensures Means(Anthropic, e)
  {
    hide Says, FinishReason, ChoicesVerdict, ChoicesOf, EndsWith;
  }

  lemma ResponsesMeans(e: Event)
    ensures Means(Responses, e)
  {
    hide Says, FinishReason, ChoicesVerdict, ChoicesOf, EndsWith;
    if e.payload.ResponsesFrame? {
      SuffixMeans(e.payload.kind);
      if EndsWith(e.payload.kind, ".delta") {
        DeltaIsNoEnd(e.payload.kind);
      }
    }
  }

  lemma VerdictMeans(format: Format, e: Event)
    ensures Means(format, e)
  {
    hide Means;
    match format
    case Chat => ChatMeans(e);
    case Anthropic => AnthropicMeans(e);
    case Responses => ResponsesMeans(e);
  }

  /** The closing frames are proper frames: they state a finish where the protocol has one, and only the
      last of them ends the response. */
  lemma ClosingFramesAreProper(format: Format)
    ensures var fs := ClosingFrames(format);
            && |fs| > 0 && Ends(format, fs[|fs| - 1])
            && (forall i :: 0 <= i < |fs| ==> !Garbled(format, fs[i]) && !Tainted(format, fs[i]))
            && (forall i :: 0 <= i < |fs| - 1 ==> !Ends(format, fs[i]))
            && (!format.Responses? ==> exists i :: 0 <= i < |fs| && StatesFinish(format, fs[i]))
  {
    var fs := ClosingFrames(format);
    forall i | 0 <= i < |fs| ensures !Garbled(format, fs[i]) && !Tainted(format, fs[i]) {
      ClosingFrameIsFine(format, i);
    }
    if format.Chat? {
      assert Says(fs[0].payload.choices[0], "stop") && fs[0].payload.choices[0] in ChoicesOf(fs[0]);
    }
    assert !format.Responses? ==> StatesFinish(format, fs[0]);
  }

  lemma ClosingFrameIsFine(format: Format, i: nat)
    requires i < |ClosingFrames(format)|
    ensures !Garbled(format, ClosingFrames(format)[i]) && !Tainted(format, ClosingFrames(format)[i])
  {
    forall c, r | c in ChoicesOf(ClosingFrames(format)[i]) && Says(c, r) ensures r == "stop" {
    }
  }
}
