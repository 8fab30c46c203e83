/** How a message part is shown: whether it is a tool part, the tool's
    name, the display state of the invocation, and the result handed to the
    invocation view. */
module ChatMessage {
  import opened Wrappers
  import Strings

  /** A tool part: its type, its `toolName` field when it has one, its
      state, and its output and error text when present (the output as the
      JSON it carries). */
  datatype ToolPart = ToolPart(partType: string, toolName: Option<string>, state: string,
                               output: Option<string>, errorText: Option<string>)

  /** `isToolPart`. */
  predicate IsToolPart(partType: string) {
    Strings.StartsWith(partType, "tool-") || partType == "dynamic-tool"
  }

  /** The tool parts are the dynamic ones and those whose type is `tool-`
      followed by the tool's name. */
  lemma ToolPartTypes(partType: string)
    ensures IsToolPart(partType) <==> partType == "dynamic-tool" || exists x :: partType == "tool-" + x
  {
    if Strings.StartsWith(partType, "tool-") {
      assert partType == "tool-" + partType[5..];
    }
    if x :| partType == "tool-" + x {
      assert partType[..5] == "tool-";
    }
  }

  /** `getToolName`: a dynamic tool's own name (`"unknown"` when empty),
      otherwise the type without its first `tool-`. */
  function GetToolName(p: ToolPart): (name: string)
    ensures p.partType == "dynamic-tool" && p.toolName.Some? ==>
      name == (if p.toolName.value == "" then "unknown" else p.toolName.value)
    ensures Strings.StartsWith(p.partType, "tool-") ==> name == p.partType[5..]
    ensures p.partType != "dynamic-tool" && !Strings.Contains(p.partType, "tool-") ==> name == p.partType
  {
    if p.partType == "dynamic-tool" && p.toolName.Some? then
      assert p.partType[..5] != "tool-" by { assert p.partType[..5][0] == 'd'; }
      if p.toolName.value == "" then "unknown" else p.toolName.value
    else Strings.ReplaceFirst(p.partType, "tool-", "")
  }

  /** The name of a typed tool part is what follows `tool-`. */
  lemma ToolNameOfTypedPart(x: string, p: ToolPart)
    requires p.partType == "tool-" + x
    ensures IsToolPart(p.partType) && GetToolName(p) == x
  {
    assert Strings.StartsWith(p.partType, "tool-");
  }

  /** A dynamic tool part without a `toolName` keeps its type as its name:
      `dynamic-tool` has no `tool-` in it to remove. */
  lemma UnnamedDynamicTool(p: ToolPart)
    requires p.partType == "dynamic-tool" && p.toolName.None?
    ensures GetToolName(p) == "dynamic-tool"
  {
    var t := p.partType;
    forall i | 0 <= i ensures !Strings.OccursAt(t, "tool-", i) {
      if i == 3 {
        assert t[i..i + 5][0] == 'a';
      } else if i + 5 <= |t| {
        assert t[i..i + 5][4] == t[i + 4] != '-';
      }
    }
    assert !Strings.Contains(t, "tool-");
  }

  datatype DisplayState = PartialCall | Call | ResultState

  /** `mapToolState`. */
  function MapToolState(state: string): (d: DisplayState)
    ensures d == PartialCall <==> state == "input-streaming"
    ensures d == ResultState <==> state == "output-available" || state == "output-error"
    ensures d == Call <==> state != "input-streaming" && state != "output-available" && state != "output-error"
  {
    if state == "input-streaming" then PartialCall
    else if state == "input-available" || state == "approval-requested" || state == "approval-responded" then Call
    else if state == "output-available" || state == "output-error" then ResultState
    else Call
  }

  /** What the invocation view receives as the result: the output, or an
      object holding the error text. */
  datatype ShownResult = Output(json: string) | ErrorObject(error: Option<string>)

  /** The result handed to the invocation view: only in the result state,
      the output when there is one and the error otherwise. */
  function ToolResult(p: ToolPart): (r: Option<ShownResult>)
    ensures r.Some? <==> MapToolState(p.state) == ResultState
    ensures r.Some? && p.output.Some? ==> r.value == Output(p.output.value)
    ensures r.Some? && p.output.None? ==> r.value == ErrorObject(p.errorText)
  {
    if MapToolState(p.state) != ResultState then None
    else match p.output
      case Some(o) => Some(Output(o))
      case None => Some(ErrorObject(p.errorText))
  }
}
