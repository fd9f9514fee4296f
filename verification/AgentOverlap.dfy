/**
 * Overlapping run() calls on one runtime. Every run pushes onto the same conversation and may be
 * interrupted by other runs wherever it awaits: at llmFn, at a tool, and after a batch of tools.
 */
module AgentOverlap {
  import opened Bytes
  import opened JsText
  import opened AgentRuntime

  /** A message of the shared conversation and the run that pushed it. */
  datatype Tagged = Tagged(run: nat, message: ChatMessage)

  datatype Phase =
    | Thinking
    | Dispatching(calls: seq<ToolCall>, results: seq<ChatMessage>)
    | Answered
    | CutOff
    | Broken

  datatype Run = Run(limit: int, turn: nat, llmCalls: nat, phase: Phase)

  datatype Chat = Chat(messages: seq<Tagged>, runs: map<nat, Run>)

  datatype Event =
    | Begin(run: nat, text: Text, limit: int)
    | LlmAnswers(run: nat, response: Response)
    | LlmRejects(run: nat)
    | ToolEnds(run: nat, json: Text)
    | BatchEnds(run: nat)

  const EMPTY_CHAT := Chat([], map[])

  predicate Enabled(c: Chat, e: Event) {
    match e
    case Begin(r, _, _) => r !in c.runs
    case LlmAnswers(r, _) => r in c.runs && c.runs[r].phase.Thinking?
    case LlmRejects(r) => r in c.runs && c.runs[r].phase.Thinking?
    case ToolEnds(r, _) =>
      r in c.runs && c.runs[r].phase.Dispatching? && |c.runs[r].phase.results| < |c.runs[r].phase.calls|
    case BatchEnds(r) =>
      r in c.runs && c.runs[r].phase.Dispatching? && |c.runs[r].phase.results| == |c.runs[r].phase.calls|
  }

  /** The head of the for loop: call llmFn once more, or give up. */
  function AtLoopHead(limit: int, turn: nat, llmCalls: nat): Run {
    if turn < limit then Run(limit, turn, llmCalls + 1, Thinking) else Run(limit, turn, llmCalls, CutOff)
  }

  function Tag(run: nat, ms: seq<ChatMessage>): (ts: seq<Tagged>)
    ensures |ts| == |ms|
  {
    seq(|ms|, i requires 0 <= i < |ms| => Tagged(run, ms[i]))
  }

  function Step(c: Chat, e: Event): Chat
    requires Enabled(c, e)
  {
    match e
    case Begin(r, text, limit) =>
      Chat(c.messages + Tag(r, [User(text)]), c.runs[r := AtLoopHead(limit, 0, 0)])
    case LlmAnswers(r, response) =>
      var next := if response.toolCalls == [] then Answered else Dispatching(response.toolCalls, []);
      var said := Assistant(response.content, response.toolCalls);
      Chat(c.messages + Tag(r, [said]), c.runs[r := c.runs[r].(phase := next)])
    case LlmRejects(r) =>
      c.(runs := c.runs[r := c.runs[r].(phase := Broken)])
    case ToolEnds(r, json) =>
      var p := c.runs[r].phase;
      var call := p.calls[|p.results|];
      c.(runs := c.runs[r := c.runs[r].(phase := p.(results := p.results + [ToolResult(call.id, call.name, json)]))])
    case BatchEnds(r) =>
      var run := c.runs[r];
      Chat(c.messages + Tag(r, run.phase.results), c.runs[r := AtLoopHead(run.limit, run.turn + 1, run.llmCalls)])
  }

  /** What each step adds to the conversation, and what becomes of its run; a run that throws adds nothing. */
  lemma StepMeans(c: Chat, e: Event)
    requires Enabled(c, e)
    ensures forall r :: r != e.run && r in c.runs ==> r in Step(c, e).runs && Step(c, e).runs[r] == c.runs[r]
    ensures match e
            case Begin(r, text, _) => Step(c, e).messages == c.messages + [Tagged(r, User(text))]
            case LlmAnswers(r, response) =>
              && Step(c, e).messages == c.messages + [Tagged(r, Assistant(response.content, response.toolCalls))]
              && Step(c, e).runs[r].phase
                 == if |response.toolCalls| == 0 then Answered else Dispatching(response.toolCalls, [])
            case LlmRejects(r) => Step(c, e).messages == c.messages && Step(c, e).runs[r].phase == Broken
            case ToolEnds(r, json) =>
              var calls, results := c.runs[r].phase.calls, c.runs[r].phase.results;
              && Step(c, e).messages == c.messages
              && Step(c, e).runs[r].phase
                 == Dispatching(calls, results + [ToolResult(calls[|results|].id, calls[|results|].name, json)])
            case BatchEnds(r) =>
              var results := c.runs[r].phase.results;
              && |Step(c, e).messages| == |c.messages| + |results| && c.messages <= Step(c, e).messages
              && (forall i :: 0 <= i < |results| ==>
                    Step(c, e).messages[|c.messages| + i] == Tagged(r, results[i]))
              && (Step(c, e).runs[r].phase.Thinking? <==> c.runs[r].turn + 1 < c.runs[r].limit)
              && (Step(c, e).runs[r].phase.CutOff? <==> c.runs[r].turn + 1 >= c.runs[r].limit)
  {
  }

  /** Any interleaving of the steps of any number of runs, without reset. */
  predicate IsRun(events: seq<Event>)
    decreases |events|, 0
  {
    events == [] || (IsRun(events[..|events| - 1]) && Enabled(After(events[..|events| - 1]), events[|events| - 1]))
  }

  function After(events: seq<Event>): Chat
    requires IsRun(events)
    decreases |events|, 1
  {
    if events == [] then EMPTY_CHAT else Step(After(events[..|events| - 1]), events[|events| - 1])
  }

  /** The messages of one run, in conversation order. */
  function Own(ts: seq<Tagged>, r: nat): seq<ChatMessage> {
    if ts == [] then []
    else Own(ts[..|ts| - 1], r) + (if ts[|ts| - 1].run == r then [ts[|ts| - 1].message] else [])
  }

  lemma OwnSnoc(ts: seq<Tagged>, t: Tagged, r: nat)
    ensures Own(ts + [t], r) == Own(ts, r) + (if t.run == r then [t.message] else [])
  {
    assert (ts + [t])[..|ts|] == ts;
  }

  lemma TagSnoc(run: nat, ms: seq<ChatMessage>, m: ChatMessage)
    ensures Tag(run, ms + [m]) == Tag(run, ms) + [Tagged(run, m)]
  {
  }

  lemma {:induction false} OwnTagged(ts: seq<Tagged>, run: nat, ms: seq<ChatMessage>, r: nat)
    ensures Own(ts + Tag(run, ms), r) == if run == r then Own(ts, r) + ms else Own(ts, r)
  {
    if ms == [] {
      assert ts + Tag(run, ms) == ts;
    } else {
      var init, m := ms[..|ms| - 1], ms[|ms| - 1];
      assert ms == init + [m];
      OwnTagged(ts, run, init, r);
      TagSnoc(run, init, m);
      Assoc(ts, Tag(run, init), [Tagged(run, m)]);
      OwnSnoc(ts + Tag(run, init), Tagged(run, m), r);
      Assoc(Own(ts, r), init, [m]);
    }
  }

  /** A user message followed by a number of complete blocks. */
  ghost predicate Opens(own: seq<ChatMessage>, blocks: nat) {
    own != [] && own[0].User? && BlockCount(own[1..]) == Some(blocks)
  }

  /** Results so far answer the first calls of a batch. */
  ghost predicate AnswersSoFar(results: seq<ChatMessage>, calls: seq<ToolCall>) {
    |results| <= |calls| && Answers(results, calls[..|results|])
  }

  /** What the messages of a run look like in each phase, and how often it has called llmFn. */
  ghost predicate Shape(own: seq<ChatMessage>, run: Run) {
    match run.phase
    case Thinking => Opens(own, run.turn) && run.llmCalls == run.turn + 1 <= run.limit
    case Broken => Opens(own, run.turn) && run.llmCalls == run.turn + 1 <= run.limit
    case CutOff => Opens(own, Allowed(run.limit)) && run.turn == run.llmCalls == Allowed(run.limit)
    case Answered =>
      && own != [] && Opens(own[..|own| - 1], run.turn)
      && own[|own| - 1].Assistant? && own[|own| - 1].toolCalls == []
      && run.llmCalls == run.turn + 1 <= run.limit
    case Dispatching(calls, results) =>
      && own != [] && Opens(own[..|own| - 1], run.turn)
      && own[|own| - 1].Assistant? && own[|own| - 1].toolCalls == calls && calls != []
      && AnswersSoFar(results, calls)
      && run.llmCalls == run.turn + 1 <= run.limit
  }

  ghost predicate Invariant(c: Chat) {
    && (forall r :: r in c.runs ==> Shape(Own(c.messages, r), c.runs[r]))
    && (forall r :: r !in c.runs ==> Own(c.messages, r) == [])
  }

  lemma ShapeAnswer(own: seq<ChatMessage>, run: Run, response: Response)
    requires Shape(own, run) && run.phase.Thinking?
    ensures var next := if response.toolCalls == [] then Answered else Dispatching(response.toolCalls, []);
            Shape(own + [Assistant(response.content, response.toolCalls)], run.(phase := next))
  {
    var said := Assistant(response.content, response.toolCalls);
    assert (own + [said])[..|own|] == own;
  }

  lemma ShapeTool(own: seq<ChatMessage>, run: Run, json: Text)
    requires Shape(own, run) && run.phase.Dispatching? && |run.phase.results| < |run.phase.calls|
    ensures var p := run.phase;
            var call := p.calls[|p.results|];
            Shape(own, run.(phase := p.(results := p.results + [ToolResult(call.id, call.name, json)])))
  {
  }

  /** A complete block after complete blocks makes one block more. */
  lemma OpensBlock(own: seq<ChatMessage>, blocks: nat, said: ChatMessage, results: seq<ChatMessage>)
    requires Opens(own, blocks) && said.Assistant? && said.toolCalls != [] && Answers(results, said.toolCalls)
    ensures Opens(own + ([said] + results), blocks + 1)
  {
    BlockAppend(own[1..], said, results);
    TailAppend(own, [said] + results);
  }

  lemma TailAppend(own: seq<ChatMessage>, more: seq<ChatMessage>)
    requires own != []
    ensures (own + more)[1..] == own[1..] + more
  {
  }

  lemma AllAnswered(results: seq<ChatMessage>, calls: seq<ToolCall>)
    requires AnswersSoFar(results, calls) && |results| == |calls|
    ensures Answers(results, calls)
  {
    assert calls[..|results|] == calls;
  }

  lemma AppendAfterLast(own: seq<ChatMessage>, more: seq<ChatMessage>)
    requires own != []
    ensures own + more == own[..|own| - 1] + ([own[|own| - 1]] + more)
  {
  }

  lemma ShapeBatch(own: seq<ChatMessage>, run: Run)
    requires Shape(own, run) && run.phase.Dispatching? && |run.phase.results| == |run.phase.calls|
    ensures Shape(own + run.phase.results, AtLoopHead(run.limit, run.turn + 1, run.llmCalls))
  {
    AllAnswered(run.phase.results, run.phase.calls);
    OpensBlock(own[..|own| - 1], run.turn, own[|own| - 1], run.phase.results);
    AppendAfterLast(own, run.phase.results);
  }

  lemma ShapeBegin(text: Text, limit: int)
    ensures Shape([User(text)], AtLoopHead(limit, 0, 0))
  {
    assert [User(text)][1..] == [];
  }

  /** The run that moves has the shape of its new phase. */
  ghost predicate MoverShaped(c: Chat, e: Event)
    requires Enabled(c, e)
  {
    var c' := Step(c, e);
    e.run in c'.runs && Shape(Own(c'.messages, e.run), c'.runs[e.run])
  }

  lemma BeginShaped(c: Chat, e: Event)
    requires e.Begin? && Enabled(c, e) && Own(c.messages, e.run) == []
    ensures MoverShaped(c, e)
  {
    OwnTagged(c.messages, e.run, [User(e.text)], e.run);
    ShapeBegin(e.text, e.limit);
  }

  lemma AnswerShaped(c: Chat, e: Event)
    requires e.LlmAnswers? && Enabled(c, e) && Shape(Own(c.messages, e.run), c.runs[e.run])
    ensures MoverShaped(c, e)
  {
    OwnTagged(c.messages, e.run, [Assistant(e.response.content, e.response.toolCalls)], e.run);
    ShapeAnswer(Own(c.messages, e.run), c.runs[e.run], e.response);
  }

  lemma RejectShaped(c: Chat, e: Event)
    requires e.LlmRejects? && Enabled(c, e) && Shape(Own(c.messages, e.run), c.runs[e.run])
    ensures MoverShaped(c, e)
  {
  }

  lemma ToolShaped(c: Chat, e: Event)
    requires e.ToolEnds? && Enabled(c, e) && Shape(Own(c.messages, e.run), c.runs[e.run])
    ensures MoverShaped(c, e)
  {
    ShapeTool(Own(c.messages, e.run), c.runs[e.run], e.json);
  }

  lemma BatchShaped(c: Chat, e: Event)
    requires e.BatchEnds? && Enabled(c, e) && Shape(Own(c.messages, e.run), c.runs[e.run])
    ensures MoverShaped(c, e)
  {
    OwnTagged(c.messages, e.run, c.runs[e.run].phase.results, e.run);
    ShapeBatch(Own(c.messages, e.run), c.runs[e.run]);
  }

  lemma StepShape(c: Chat, e: Event)
    requires Invariant(c) && Enabled(c, e)
    ensures MoverShaped(c, e)
  {
    match e
    case Begin(_, _, _) => BeginShaped(c, e);
    case LlmAnswers(_, _) => AnswerShaped(c, e);
    case LlmRejects(_) => RejectShaped(c, e);
    case ToolEnds(_, _) => ToolShaped(c, e);
    case BatchEnds(_) => BatchShaped(c, e);
  }

  lemma StepLeavesOthers(c: Chat, e: Event, r: nat)
    requires Enabled(c, e) && r != e.run
    ensures var c' := Step(c, e);
            && Own(c'.messages, r) == Own(c.messages, r)
            && (r in c'.runs <==> r in c.runs) && (r in c.runs ==> c'.runs[r] == c.runs[r])
  {
    match e
    case Begin(_, text, _) => OwnTagged(c.messages, e.run, [User(text)], r);
    case LlmAnswers(_, response) => OwnTagged(c.messages, e.run, [Assistant(response.content, response.toolCalls)], r);
    case LlmRejects(_) =>
    case ToolEnds(_, _) =>
    case BatchEnds(_) => OwnTagged(c.messages, e.run, c.runs[e.run].phase.results, r);
  }

  /**
   * In every interleaving the messages of each run are a user message, complete blocks of one assistant
   * message and the answers to all its calls, and then a call-free answer, an unfinished block, or nothing
   * after exactly the allowed number of blocks; llmFn is never called more often than the limit allows.
   */
  lemma {:induction false} OverlapGrammar(events: seq<Event>)
    requires IsRun(events)
    ensures Invariant(After(events))
  {
    if events != [] {
      var before, e := After(events[..|events| - 1]), events[|events| - 1];
      OverlapGrammar(events[..|events| - 1]);
      StepShape(before, e);
      forall r | r != e.run
        ensures r in Step(before, e).runs ==> Shape(Own(Step(before, e).messages, r), Step(before, e).runs[r])
        ensures r !in Step(before, e).runs ==> Own(Step(before, e).messages, r) == []
      {
        StepLeavesOthers(before, e, r);
      }
    }
  }

  lemma LlmCallsBounded(events: seq<Event>, r: nat)
    requires IsRun(events) && r in After(events).runs
    ensures After(events).runs[r].llmCalls <= Allowed(After(events).runs[r].limit)
  {
    OverlapGrammar(events);
  }
}
