/** createAgentRuntime: a bounded tool-calling loop over a shared conversation. */
module AgentRuntime {
  import opened Bytes
  import opened JsText
  import opened CanonicalJson
  import opened JsonReader
  import opened ToolRegistry

  datatype ToolCall = ToolCall(id: Text, name: Option<Text>, arguments: JsValue)

  /** An llmFn answer; absent tool calls are an empty list. */
  datatype Response = Response(content: Option<Text>, toolCalls: seq<ToolCall>)

  datatype ChatMessage =
    | User(content: Text)
    | Assistant(said: Option<Text>, toolCalls: seq<ToolCall>)
    | ToolResult(toolCallId: Text, name: Option<Text>, json: Text)

  /** Rejected is a run that throws because llmFn does. */
  datatype RunResult = Final(content: Option<Text>) | Truncated(last: Option<Response>) | Rejected

  // ----- Dispatch -----

  /** JSON.stringify of { success: false, error }. */
  function ErrorJson(error: Text): Text {
    Print(CObject([CProp(Literal("success"), CBool(false)), CProp(Literal("error"), CString(error))]))
  }

  function UnknownTool(name: Option<Text>): Text {
    Literal("Unknown tool \"") + (if name.Some? then name.value else Literal("undefined")) + [QUOTE]
  }

  function ResultMessage(tools: Tools, call: ToolCall): ChatMessage
    requires Keyed(tools)
  {
    var tool := if call.name.Some? then Lookup(tools, call.name.value) else None;
    var json :=
      if tool.None? then ErrorJson(UnknownTool(call.name))
      else match tool.value.execute.value(call.arguments)
           case Succeeded(json) => json
           case Failed(message) => ErrorJson(message);
    ToolResult(call.id, call.name, json)
  }

  /**
   * The registry as each turn of a run finds it: at step 0 when the specs are listed, and at step i + 1 when
   * call i is dispatched. Other code may register and unregister tools whenever the run awaits.
   */
  type Registry = (nat, nat) -> Tools

  ghost predicate AlwaysKeyed(registry: Registry) {
    forall turn: nat, step: nat :: Keyed(registry(turn, step))
  }

  function ResultMessages(registry: Registry, turn: nat, calls: seq<ToolCall>): (ms: seq<ChatMessage>)
    requires AlwaysKeyed(registry)
    ensures |ms| == |calls|
  {
    seq(|calls|, i requires 0 <= i < |calls| => ResultMessage(registry(turn, i + 1), calls[i]))
  }

  /** A call that names an offered spec is executed by the tool that offered it, when that is named like its spec. */
  lemma OfferedCallRuns(tools: Tools, i: nat, call: ToolCall)
    requires Keyed(tools) && i < |ListSpecs(tools)| && call.name == Some(ListSpecs(tools)[i].name)
    requires tools.byName[tools.order[i]].name == ListSpecs(tools)[i].name
    ensures var m := ResultMessage(tools, call);
            && m.toolCallId == call.id && m.name == call.name
            && match tools.byName[tools.order[i]].execute.value(call.arguments)
               case Succeeded(json) => m.json == json
               case Failed(message) => m.json == ErrorJson(message)
  {
    OfferedDispatchExactly(tools, i);
  }

  /** An error result is the JSON object { success: false, error }. */
  lemma ErrorReads(error: Text)
    ensures ReadJson(ErrorJson(error))
         == Some(CObject([CProp(Literal("success"), CBool(false)), CProp(Literal("error"), CString(error))]))
  {
    PrintRead(CObject([CProp(Literal("success"), CBool(false)), CProp(Literal("error"), CString(error))]));
  }

  /** A call that names no registered tool is answered with an error that names it, a failing tool with its message. */
  lemma FailureReads(tools: Tools, call: ToolCall)
    requires Keyed(tools)
    ensures var shown := if call.name.Some? then call.name.value else Literal("undefined");
            (call.name.None? || call.name.value !in tools.byName) ==>
              ReadJson(ResultMessage(tools, call).json)
              == Some(CObject([CProp(Literal("success"), CBool(false)),
                               CProp(Literal("error"), CString(Literal("Unknown tool \"") + shown + Literal("\"")))]))
    ensures call.name.Some? && call.name.value in tools.byName ==>
              match tools.byName[call.name.value].execute.value(call.arguments)
              case Succeeded(json) => ResultMessage(tools, call).json == json
              case Failed(message) =>
                ReadJson(ResultMessage(tools, call).json)
                == Some(CObject([CProp(Literal("success"), CBool(false)), CProp(Literal("error"), CString(message))]))
  {
    assert Literal("\"") == [QUOTE];
    if call.name.None? || call.name.value !in tools.byName {
      UnknownCallFails(tools, call);
      ErrorReads(UnknownTool(call.name));
    } else {
      match tools.byName[call.name.value].execute.value(call.arguments)
      case Succeeded(_) =>
      case Failed(message) => ErrorReads(message);
    }
  }

  /** A call that names no registered tool gets an error that quotes the name, and no tool is run. */
  lemma UnknownCallFails(tools: Tools, call: ToolCall)
    requires Keyed(tools) && (call.name.Some? ==> call.name.value !in tools.byName)
    ensures ResultMessage(tools, call) == ToolResult(call.id, call.name, ErrorJson(UnknownTool(call.name)))
  {
  }

  /** The results answer the calls one by one: same ids, same names, same order. */
  ghost predicate Answers(results: seq<ChatMessage>, calls: seq<ToolCall>) {
    && |results| == |calls|
    && forall i :: 0 <= i < |calls| ==>
         results[i].ToolResult? && results[i].toolCallId == calls[i].id && results[i].name == calls[i].name
  }

  lemma ResultsAnswer(registry: Registry, turn: nat, calls: seq<ToolCall>)
    requires AlwaysKeyed(registry)
    ensures Answers(ResultMessages(registry, turn, calls), calls)
  {
  }

  lemma ResultsSnoc(registry: Registry, turn: nat, calls: seq<ToolCall>, i: nat)
    requires AlwaysKeyed(registry) && i < |calls|
    ensures ResultMessages(registry, turn, calls[..i + 1])
         == ResultMessages(registry, turn, calls[..i]) + [ResultMessage(registry(turn, i + 1), calls[i])]
  {
  }

  method DispatchOne(tools: Tools, call: ToolCall) returns (result: ChatMessage)
    requires Keyed(tools)
    ensures result == ResultMessage(tools, call)
  {
    var tool := if call.name.Some? then Lookup(tools, call.name.value) else None;
    if tool.None? {
      return ToolResult(call.id, call.name, ErrorJson(UnknownTool(call.name)));
    }
    match tool.value.execute.value(call.arguments) {
      case Succeeded(json) => return ToolResult(call.id, call.name, json);
      case Failed(message) => return ToolResult(call.id, call.name, ErrorJson(message));
    }
  }

  /** One result for every call of the batch, whatever happened to the earlier ones. */
  method DispatchToolCalls(registry: Registry, turn: nat, calls: seq<ToolCall>) returns (results: seq<ChatMessage>)
    requires AlwaysKeyed(registry)
    ensures results == ResultMessages(registry, turn, calls) && Answers(results, calls)
  {
    results := [];
    for i := 0 to |calls|
      invariant results == ResultMessages(registry, turn, calls[..i])
    {
      var result := DispatchOne(registry(turn, i + 1), calls[i]);
      ResultsSnoc(registry, turn, calls, i);
      results := results + [result];
    }
    assert calls[..|calls|] == calls;
    ResultsAnswer(registry, turn, calls);
  }

  // ----- The grammar of a run -----

  /** The length of the complete block at the start of the messages, or 0. */
  ghost function BlockLength(ms: seq<ChatMessage>): (k: nat)
    ensures k <= |ms|
  {
    if ms == [] || !ms[0].Assistant? || ms[0].toolCalls == [] then 0
    else
      var k := 1 + |ms[0].toolCalls|;
      if k <= |ms| && Answers(ms[1..k], ms[0].toolCalls) then k else 0
  }

  /** The number of blocks in a list of messages, each an assistant message with calls and their answers. */
  ghost function BlockCount(ms: seq<ChatMessage>): Option<nat>
    decreases |ms|
  {
    if ms == [] then Some(0)
    else if BlockLength(ms) == 0 then None
    else
      var rest := BlockCount(ms[BlockLength(ms)..]);
      if rest.None? then None else Some(rest.value + 1)
  }

  lemma BlockCons(said: ChatMessage, results: seq<ChatMessage>, rest: seq<ChatMessage>)
    requires said.Assistant? && said.toolCalls != [] && Answers(results, said.toolCalls)
    ensures var all := ([said] + results) + rest;
            && BlockLength(all) == 1 + |results| && all[BlockLength(all)..] == rest
            && (BlockCount(rest).Some? ==> BlockCount(all) == Some(BlockCount(rest).value + 1))
  {
    var all := ([said] + results) + rest;
    assert all[1..1 + |results|] == results;
    assert all[1 + |results|..] == rest;
  }

  lemma BlockSplit(ms: seq<ChatMessage>)
    requires BlockLength(ms) > 0
    ensures var k := BlockLength(ms);
            && ms == ([ms[0]] + ms[1..k]) + ms[k..]
            && ms[0].Assistant? && ms[0].toolCalls != [] && Answers(ms[1..k], ms[0].toolCalls)
  {
  }

  lemma {:induction false} BlockAppend(ms: seq<ChatMessage>, said: ChatMessage, results: seq<ChatMessage>)
    requires said.Assistant? && said.toolCalls != [] && Answers(results, said.toolCalls)
    requires BlockCount(ms).Some?
    ensures BlockCount(ms + ([said] + results)) == Some(BlockCount(ms).value + 1)
    decreases |ms|
  {
    var block := [said] + results;
    if ms == [] {
      BlockCons(said, results, []);
      assert ms + block == block + [];
    } else {
      var k := BlockLength(ms);
      BlockSplit(ms);
      BlockAppend(ms[k..], said, results);
      BlockCons(ms[0], ms[1..k], ms[k..] + block);
      Assoc([ms[0]] + ms[1..k], ms[k..], block);
    }
  }

  /** The number of turns that a limit allows. */
  function Allowed(limit: int): (n: nat)
    ensures n == limit || (limit < 0 && n == 0)
  {
    if limit < 0 then 0 else limit
  }

  /** Blocks, then a call-free assistant message; n is the number of llmFn calls that wrote them. */
  ghost predicate EndsFinal(body: seq<ChatMessage>, n: nat) {
    && body != [] && body[|body| - 1].Assistant? && body[|body| - 1].toolCalls == []
    && BlockCount(body[..|body| - 1]).Some? && n == BlockCount(body[..|body| - 1]).value + 1
  }

  // ----- One run without overlap -----

  /** What llmFn answers in a turn, or None when it rejects. */
  type Llm = (nat, seq<ChatMessage>, seq<ToolSpec>) -> Option<Response>

  /** The conversation and the result after the remaining n turns of a run, starting with the given turn. */
  function Conversation(
    llm: Llm, registry: Registry, history: seq<ChatMessage>, turn: nat, n: nat, last: Option<Response>)
    : (seq<ChatMessage>, RunResult)
    requires AlwaysKeyed(registry)
    decreases n
  {
    if n == 0 then (history, Truncated(last))
    else
      match llm(turn, history, ListSpecs(registry(turn, 0)))
      case None => (history, Rejected)
      case Some(response) =>
        var said := Assistant(response.content, response.toolCalls);
        if response.toolCalls == [] then (history + [said], Final(response.content))
        else
          var results := ResultMessages(registry, turn, response.toolCalls);
          Conversation(llm, registry, history + ([said] + results), turn + 1, n - 1, Some(response))
  }

  /**
   * A run, turn by turn: before turn j the conversation is hs[j], and llmFn has been given it and the specs
   * registered then, and has answered rs[j]. Each answer is added, followed by the results of its calls.
   */
  ghost predicate Transcript(llm: Llm, registry: Registry, turn: nat, hs: seq<seq<ChatMessage>>, rs: seq<Response>)
    requires AlwaysKeyed(registry)
  {
    && |hs| == |rs| + 1
    && forall j :: 0 <= j < |rs| ==>
         && llm(turn + j, hs[j], ListSpecs(registry(turn + j, 0))) == Some(rs[j])
         && hs[j + 1] == hs[j] + ([Assistant(rs[j].content, rs[j].toolCalls)]
                                  + ResultMessages(registry, turn + j, rs[j].toolCalls))
  }

  /** Every answer before the last, and the last one too if all, asks for tools. */
  ghost predicate AsksForTools(rs: seq<Response>, n: int) {
    n <= |rs| && forall j :: 0 <= j < n ==> rs[j].toolCalls != []
  }

  /** How a run of at most n turns ends after these answers. */
  ghost predicate EndsWith(llm: Llm, registry: Registry, turn: nat, hs: seq<seq<ChatMessage>>, rs: seq<Response>,
                           n: nat, last: Option<Response>, result: RunResult)
    requires AlwaysKeyed(registry) && |hs| == |rs| + 1
  {
    match result
    case Final(content) =>
      && 0 < |rs| <= n && AsksForTools(rs, |rs| - 1)
      && rs[|rs| - 1].toolCalls == [] && content == rs[|rs| - 1].content
    case Truncated(r) =>
      |rs| == n && AsksForTools(rs, n) && r == (if n == 0 then last else Some(rs[n - 1]))
    case Rejected =>
      && |rs| < n && AsksForTools(rs, |rs|)
      && llm(turn + |rs|, hs[|rs|], ListSpecs(registry(turn + |rs|, 0))) == None
  }

  /** These histories and answers are what happens in the remaining n turns of a run. */
  ghost predicate Tells(llm: Llm, registry: Registry, history: seq<ChatMessage>, turn: nat, n: nat,
                        last: Option<Response>, hs: seq<seq<ChatMessage>>, rs: seq<Response>)
    requires AlwaysKeyed(registry)
  {
    var (ms, result) := Conversation(llm, registry, history, turn, n, last);
    && Transcript(llm, registry, turn, hs, rs) && hs[0] == history && hs[|rs|] == ms
    && EndsWith(llm, registry, turn, hs, rs, n, last, result)
  }

  /** The conversation and the result of a run, turn by turn. */
  lemma {:induction false} ConversationMeans(
    llm: Llm, registry: Registry, history: seq<ChatMessage>, turn: nat, n: nat, last: Option<Response>)
    returns (hs: seq<seq<ChatMessage>>, rs: seq<Response>)
    requires AlwaysKeyed(registry)
    ensures Tells(llm, registry, history, turn, n, last, hs, rs)
    decreases n
  {
    hs, rs := [history], [];
    if n > 0 && llm(turn, history, ListSpecs(registry(turn, 0))).Some? {
      var r := llm(turn, history, ListSpecs(registry(turn, 0))).value;
      if r.toolCalls == [] {
        hs, rs := [history, history + [Assistant(r.content, [])]], [r];
        TellsFinal(llm, registry, history, turn, n, last, r);
      } else {
        var next := history + ([Assistant(r.content, r.toolCalls)] + ResultMessages(registry, turn, r.toolCalls));
        var hs', rs' := ConversationMeans(llm, registry, next, turn + 1, n - 1, Some(r));
        hs, rs := [history] + hs', [r] + rs';
        TellsCons(llm, registry, history, turn, n, last, r, next, hs', rs');
      }
    }
  }

  lemma TellsFinal(llm: Llm, registry: Registry, history: seq<ChatMessage>, turn: nat, n: nat,
                   last: Option<Response>, r: Response)
    requires AlwaysKeyed(registry) && n > 0 && r.toolCalls == []
    requires llm(turn, history, ListSpecs(registry(turn, 0))) == Some(r)
    ensures Tells(llm, registry, history, turn, n, last, [history, history + [Assistant(r.content, [])]], [r])
  {
    var said := Assistant(r.content, []);
    assert [said] + ResultMessages(registry, turn, []) == [said];
  }

  lemma TellsCons(llm: Llm, registry: Registry, history: seq<ChatMessage>, turn: nat, n: nat, last: Option<Response>,
                  r: Response, next: seq<ChatMessage>, hs: seq<seq<ChatMessage>>, rs: seq<Response>)
    requires AlwaysKeyed(registry) && n > 0 && r.toolCalls != []
    requires llm(turn, history, ListSpecs(registry(turn, 0))) == Some(r)
    requires next == history + ([Assistant(r.content, r.toolCalls)] + ResultMessages(registry, turn, r.toolCalls))
    requires Tells(llm, registry, next, turn + 1, n - 1, Some(r), hs, rs)
    ensures Tells(llm, registry, history, turn, n, last, [history] + hs, [r] + rs)
  {
    var result := Conversation(llm, registry, next, turn + 1, n - 1, Some(r)).1;
    ConversationStep(llm, registry, history, turn, n, last, r, next);
    TranscriptCons(llm, registry, turn, history, r, hs, rs);
    EndsCons(llm, registry, turn, history, r, hs, rs, n - 1, result, last);
  }

  lemma ConversationStep(llm: Llm, registry: Registry, history: seq<ChatMessage>, turn: nat, n: nat,
                         last: Option<Response>, r: Response, next: seq<ChatMessage>)
    requires AlwaysKeyed(registry) && n > 0 && r.toolCalls != []
    requires llm(turn, history, ListSpecs(registry(turn, 0))) == Some(r)
    requires next == history + ([Assistant(r.content, r.toolCalls)] + ResultMessages(registry, turn, r.toolCalls))
    ensures Conversation(llm, registry, history, turn, n, last)
         == Conversation(llm, registry, next, turn + 1, n - 1, Some(r))
  {
  }

  lemma TranscriptCons(llm: Llm, registry: Registry, turn: nat, history: seq<ChatMessage>, r: Response,
                       hs: seq<seq<ChatMessage>>, rs: seq<Response>)
    requires AlwaysKeyed(registry) && Transcript(llm, registry, turn + 1, hs, rs)
    requires llm(turn, history, ListSpecs(registry(turn, 0))) == Some(r)
    requires hs[0] == history + ([Assistant(r.content, r.toolCalls)] + ResultMessages(registry, turn, r.toolCalls))
    ensures Transcript(llm, registry, turn, [history] + hs, [r] + rs)
  {
    var all, answers := [history] + hs, [r] + rs;
    forall j | 0 <= j < |answers|
      ensures llm(turn + j, all[j], ListSpecs(registry(turn + j, 0))) == Some(answers[j])
      ensures all[j + 1] == all[j] + ([Assistant(answers[j].content, answers[j].toolCalls)]
                                      + ResultMessages(registry, turn + j, answers[j].toolCalls))
    {
      if j > 0 {
        assert answers[j] == rs[j - 1] && all[j] == hs[j - 1] && all[j + 1] == hs[j];
        assert turn + 1 + (j - 1) == turn + j;
      }
    }
  }

  lemma EndsCons(llm: Llm, registry: Registry, turn: nat, history: seq<ChatMessage>, r: Response,
                 hs: seq<seq<ChatMessage>>, rs: seq<Response>, n: nat, result: RunResult, last: Option<Response>)
    requires AlwaysKeyed(registry) && |hs| == |rs| + 1 && r.toolCalls != []
    requires EndsWith(llm, registry, turn + 1, hs, rs, n, Some(r), result)
    ensures EndsWith(llm, registry, turn, [history] + hs, [r] + rs, n + 1, last, result)
  {
    var answers := [r] + rs;
    assert forall j :: 0 < j < |answers| ==> answers[j] == rs[j - 1];
    assert turn + 1 + |rs| == turn + |answers|;
  }

  ghost predicate FinalWithin(ms: seq<ChatMessage>, n: nat, content: Option<Text>) {
    exists k: nat :: k <= n && EndsFinal(ms, k) && ms[|ms| - 1].said == content
  }

  lemma FinalAppend(ms: seq<ChatMessage>, said: ChatMessage)
    requires BlockCount(ms).Some? && said.Assistant? && said.toolCalls == []
    ensures EndsFinal(ms + [said], BlockCount(ms).value + 1)
  {
    assert (ms + [said])[..|ms|] == ms;
  }

  ghost predicate BlocksBelow(ms: seq<ChatMessage>, n: nat) {
    BlockCount(ms).Some? && BlockCount(ms).value < n
  }

  /**
   * A run only adds to the conversation; it is cut off after exactly the allowed number of blocks, ends with
   * a call-free assistant message within them, or throws with fewer complete blocks, whatever happens to the
   * registry meanwhile.
   */
  lemma {:induction false} ConversationGrammar(
    llm: Llm, registry: Registry, start: seq<ChatMessage>, body: seq<ChatMessage>, turn: nat, n: nat,
    last: Option<Response>)
    returns (out: seq<ChatMessage>)
    requires AlwaysKeyed(registry) && BlockCount(body).Some?
    ensures var (ms, result) := Conversation(llm, registry, start + body, turn, n, last);
            && ms == start + out
            && match result
               case Truncated(_) => BlockCount(out) == Some(BlockCount(body).value + n)
               case Final(content) => FinalWithin(out, BlockCount(body).value + n, content)
               case Rejected => BlocksBelow(out, BlockCount(body).value + n)
    decreases n
  {
    out := body;
    if n > 0 && llm(turn, start + body, ListSpecs(registry(turn, 0))).Some? {
      var response := llm(turn, start + body, ListSpecs(registry(turn, 0))).value;
      var said := Assistant(response.content, response.toolCalls);
      if response.toolCalls == [] {
        FinalAppend(body, said);
        out := body + [said];
        Assoc(start, body, [said]);
      } else {
        var results := ResultMessages(registry, turn, response.toolCalls);
        ResultsAnswer(registry, turn, response.toolCalls);
        BlockAppend(body, said, results);
        Assoc(start, body, [said] + results);
        out := ConversationGrammar(llm, registry, start, body + ([said] + results), turn + 1, n - 1, Some(response));
      }
    }
  }

  // ----- The runtime object -----

  class AgentRuntime {
    var messages: seq<ChatMessage>

    constructor ()
      ensures messages == []
    {
      messages := [];
    }

    /** run() while no other run is active. */
    method Run(llm: Llm, registry: Registry, userMessage: Text, turnLimit: int) returns (result: RunResult)
      requires AlwaysKeyed(registry)
      modifies this
      ensures (messages, result)
           == Conversation(llm, registry, old(messages) + [User(userMessage)], 0, Allowed(turnLimit), None)
    {
      messages := messages + [User(userMessage)];
      ghost var whole := Conversation(llm, registry, messages, 0, Allowed(turnLimit), None);
      var lastResponse := None;
      var turn := 0;
      while turn < turnLimit
        invariant 0 <= turn <= Allowed(turnLimit)
        invariant whole == Conversation(llm, registry, messages, turn, Allowed(turnLimit) - turn, lastResponse)
        decreases turnLimit - turn
      {
        var toolSpecs := ListSpecs(registry(turn, 0));
        var answer := llm(turn, messages, toolSpecs);
        if answer.None? {
          return Rejected;
        }
        var response := answer.value;
        lastResponse := Some(response);
        var said := Assistant(response.content, response.toolCalls);
        if |response.toolCalls| == 0 {
          messages := messages + [said];
          return Final(response.content);
        }
        var toolResults := DispatchToolCalls(registry, turn, response.toolCalls);
        Assoc(messages, [said], toolResults);
        messages := messages + [said];
        messages := messages + toolResults;
        turn := turn + 1;
      }
      return Truncated(lastResponse);
    }

    method Reset()
      modifies this
      ensures messages == []
    {
      messages := [];
    }
  }
}
