/** The reply text taken from the completion provider's answer (server.js
    `getClaudeResponse`): the `input.response_text` of the first content item
    whose `type` is "tool_use", or a fixed apology when that is falsy. */
module ToolResult {

  import opened Optional

  const ToolUseKind: string := "tool_use"
  const ProcessingFallback: string := "Sorry, I couldn't process your request."

  /** The `input` object of a content item; `responseText` is None when the
      `response_text` property is missing or null. */
  datatype ToolInput = ToolInput(responseText: Option<string>)

  /** One item of the answer's `content` array: its `type` (any text other
      than "tool_use" when missing) and its `input` (None when missing). */
  datatype ContentItem = ContentItem(kind: string, input: Option<ToolInput>)

  /** `content.find(item => item.type === 'tool_use')`, as an index: the first
      position from `k` on whose item is a tool use. */
  function FindToolUse(content: seq<ContentItem>, k: nat): (r: Option<nat>)
    decreases |content| - k
    ensures r.Some? ==> k <= r.value < |content| && content[r.value].kind == ToolUseKind
    ensures r.Some? ==> forall j :: k <= j < r.value ==> content[j].kind != ToolUseKind
    ensures r.None? ==> forall j :: k <= j < |content| ==> content[j].kind != ToolUseKind
  {
    if k >= |content| then None
    else if content[k].kind == ToolUseKind then Some(k)
    else FindToolUse(content, k + 1)
  }

  /** `item?.input?.response_text`. */
  function ToolText(item: ContentItem): (r: Option<string>)
  {
    match item.input
    case Some(ToolInput(text)) => text
    case None => None
  }

  /** `responseText`: never empty, and either the apology or the text of some
      tool-use item. */
  function ResponseText(content: seq<ContentItem>): (r: string)
    ensures r != []
    ensures r == ProcessingFallback
            || exists k :: 0 <= k < |content| && content[k].kind == ToolUseKind && ToolText(content[k]) == Some(r)
  {
    match FindToolUse(content, 0)
    case Some(k) =>
      (match ToolText(content[k])
       case Some(text) => if text != [] then text else ProcessingFallback
       case None => ProcessingFallback)
    case None => ProcessingFallback
  }

  /** The text of the first tool-use item is the reply when it is non-empty. */
  lemma ResponseTextFirstToolUse(content: seq<ContentItem>, k: nat, text: string)
    requires k < |content| && content[k].kind == ToolUseKind
    requires forall j :: 0 <= j < k ==> content[j].kind != ToolUseKind
    requires ToolText(content[k]) == Some(text) && text != []
    ensures ResponseText(content) == text
  {
    var r := FindToolUse(content, 0);
    assert r == Some(k);
  }

  /** The apology is used when no item is a tool use, or when the first one
      has a missing, null or empty `response_text`; later tool-use items are
      never consulted. */
  lemma ResponseTextFallback(content: seq<ContentItem>)
    requires || (forall j :: 0 <= j < |content| ==> content[j].kind != ToolUseKind)
             || (exists k :: 0 <= k < |content| && content[k].kind == ToolUseKind
                   && (forall j :: 0 <= j < k ==> content[j].kind != ToolUseKind)
                   && ToolText(content[k]) in {None, Some([])})
    ensures ResponseText(content) == ProcessingFallback
  {
    var r := FindToolUse(content, 0);
    if r.Some? {
      var k :| 0 <= k < |content| && content[k].kind == ToolUseKind
               && (forall j :: 0 <= j < k ==> content[j].kind != ToolUseKind)
               && ToolText(content[k]) in {None, Some([])};
      assert r.value == k;
    }
  }

}
