/** BrowserToolRegistry: a name-keyed collection of tools and the specs it offers. */
module ToolRegistry {
  import opened Bytes
  import opened JsText
  import opened KeyList
  import opened CanonicalJson

  datatype ToolSpec = ToolSpec(name: Text, description: Text)

  /** How an execution ends: with a result in JSON text, or with a thrown message. */
  datatype Execution = Succeeded(json: Text) | Failed(message: Text)

  /** spec is None when the getter throws or gives nothing; execute is None when it is not a function. */
  datatype Tool = Tool(name: Text, spec: Option<ToolSpec>, execute: Option<JsValue -> Execution>)

  predicate LooksLikeBrowserTool(t: Tool) {
    t.execute.Some? && t.spec.Some? && t.spec.value.name != []
  }

  /** A map from key to tool that remembers insertion order. */
  datatype Tools = Tools(order: seq<Text>, byName: map<Text, Tool>)

  const NO_TOOLS := Tools([], map[])

  datatype RegisterError = NotATool | NameTaken

  /** Every registered tool sits under its own name, once. */
  ghost predicate Keyed(ts: Tools) {
    && Distinct(ts.order)
    && (forall k :: k in ts.order <==> k in ts.byName)
    && (forall k :: k in ts.byName ==> ts.byName[k].name == k && LooksLikeBrowserTool(ts.byName[k]))
  }

  function RegisterFault(ts: Tools, t: Tool): Option<RegisterError> {
    if !LooksLikeBrowserTool(t) then Some(NotATool)
    else if t.name in ts.byName then Some(NameTaken)
    else None
  }

  function AfterRegister(ts: Tools, t: Tool): Tools {
    if RegisterFault(ts, t).Some? then ts
    else Tools(ts.order + [t.name], ts.byName[t.name := t])
  }

  function AfterUnregister(ts: Tools, name: Text): Tools {
    Tools(Without(ts.order, name), ts.byName - {name})
  }

  /**
   * register refuses a tool without an execute function or a named spec, and a name that is taken, and changes
   * nothing then; otherwise it adds the tool at the end.
   */
  lemma RegisterMeans(ts: Tools, t: Tool)
    requires Keyed(ts)
    ensures var shaped := t.execute.Some? && t.spec.Some? && |t.spec.value.name| > 0;
            && (RegisterFault(ts, t) == Some(NotATool) <==> !shaped)
            && (RegisterFault(ts, t) == Some(NameTaken)
                <==> shaped && exists k :: k in ts.order && ts.byName[k].name == t.name)
            && (RegisterFault(ts, t).Some? ==> AfterRegister(ts, t) == ts)
            && (RegisterFault(ts, t) == None ==>
                  && AfterRegister(ts, t).order == ts.order + [t.name]
                  && AfterRegister(ts, t).byName == ts.byName[t.name := t])
  {
    assert t.name in ts.byName ==> t.name in ts.order && ts.byName[t.name].name == t.name;
  }

  /** unregister takes out the named tool, and the others keep their order. */
  lemma UnregisterMeans(ts: Tools, name: Text)
    requires Keyed(ts)
    ensures AfterUnregister(ts, name).byName == ts.byName - {name}
    ensures name !in ts.byName ==> AfterUnregister(ts, name).order == ts.order
    ensures name in ts.byName ==>
              exists i :: 0 <= i < |ts.order| && ts.order[i] == name
                          && AfterUnregister(ts, name).order == ts.order[..i] + ts.order[i + 1..]
  {
    WithoutMeans(ts.order, name);
    if name in ts.byName {
      var i :| 0 <= i < |ts.order| && ts.order[i] == name;
      assert AfterUnregister(ts, name).order == ts.order[..i] + ts.order[i + 1..];
    }
  }

  function Lookup(ts: Tools, name: Text): Option<Tool> {
    if name in ts.byName then Some(ts.byName[name]) else None
  }

  /** The specs in registration order. */
  function ListSpecs(ts: Tools): (specs: seq<ToolSpec>)
    requires Keyed(ts)
    ensures |specs| == |ts.order|
  {
    seq(|ts.order|, i requires 0 <= i < |ts.order| => ts.byName[ts.order[i]].spec.value)
  }

  lemma RegisterKeepsKeyed(ts: Tools, t: Tool)
    requires Keyed(ts)
    ensures Keyed(AfterRegister(ts, t))
  {
  }

  lemma UnregisterKeepsKeyed(ts: Tools, name: Text)
    requires Keyed(ts)
    ensures Keyed(AfterUnregister(ts, name))
  {
    WithoutMembers(ts.order, name);
  }

  /** An offered spec name is dispatched to the tool that offered it exactly when the tool is named like its spec. */
  lemma OfferedDispatchExactly(ts: Tools, i: nat)
    requires Keyed(ts) && i < |ts.order|
    ensures var tool := ts.byName[ts.order[i]];
            Lookup(ts, ListSpecs(ts)[i].name) == Some(tool) <==> tool.name == tool.spec.value.name
  {
    assert ts.order[i] in ts.order;
  }

  /** With tools named like their specs, the offered names are distinct and each reaches its own tool. */
  lemma OfferedDispatch(ts: Tools)
    requires Keyed(ts)
    requires forall k :: k in ts.byName ==> ts.byName[k].spec.value.name == ts.byName[k].name
    ensures forall i, j :: 0 <= i < j < |ListSpecs(ts)| ==> ListSpecs(ts)[i].name != ListSpecs(ts)[j].name
    ensures forall i :: 0 <= i < |ListSpecs(ts)| ==>
              var tool := Lookup(ts, ListSpecs(ts)[i].name); tool.Some? && tool.value.spec == Some(ListSpecs(ts)[i])
  {
    forall i | 0 <= i < |ts.order| ensures ListSpecs(ts)[i].name == ts.order[i] && ts.order[i] in ts.byName {
      assert ts.order[i] in ts.order;
    }
  }

  class BrowserToolRegistry {
    var tools: Tools

    ghost predicate Valid()
      reads this
    {
      Keyed(tools)
    }

    constructor ()
      ensures Valid() && tools == NO_TOOLS
    {
      tools := NO_TOOLS;
    }

    method Register(tool: Tool) returns (error: Option<RegisterError>)
      requires Valid()
      modifies this
      ensures Valid() && tools == AfterRegister(old(tools), tool)
      ensures error == RegisterFault(old(tools), tool)
    {
      RegisterKeepsKeyed(tools, tool);
      if !LooksLikeBrowserTool(tool) {
        return Some(NotATool);
      }
      if tool.name in tools.byName {
        return Some(NameTaken);
      }
      tools := Tools(tools.order + [tool.name], tools.byName[tool.name := tool]);
      return None;
    }

    method Unregister(name: Text) returns (removed: bool)
      requires Valid()
      modifies this
      ensures Valid() && tools == AfterUnregister(old(tools), name)
      ensures removed <==> name in old(tools).byName
    {
      UnregisterKeepsKeyed(tools, name);
      removed := name in tools.byName;
      tools := AfterUnregister(tools, name);
    }
  }
}
