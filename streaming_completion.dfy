/**
 * The lifecycle controller: which completion id is pending, how each
 * streamed assistant message becomes an insert or an update of the
 * suggestion, how cancel and confirm end it, and the guard that keeps a
 * document change caused by the suggestion itself from asking for a new one.
 */
module StreamingCompletion {
  import opened Options
  import opened CompletionNode
  import opened Transactions
  import opened CompletionCommands
  import opened CompletionProperties
  import opened Editors

  // ---------------------------------------------------------------------------
  // trimQuotesFromStartAndEnd

  const Quotes: seq<char> := ['"', '\'', '`']

  /** The string starts and ends with the same one of the three quote characters. */
  predicate QuoteWrapped(s: string) {
    |s| >= 1 && s[0] in Quotes && s[|s| - 1] == s[0]
  }

  /**
   * `str.slice(1, -1)` when some quote both starts and ends the string,
   * otherwise the string itself. A lone quote character is both its start
   * and its end, and slicing it gives the empty string.
   */
  function TrimQuotesFromStartAndEnd(s: string): (r: string)
    ensures !QuoteWrapped(s) ==> r == s
    ensures QuoteWrapped(s) && |s| == 1 ==> r == ""
    ensures QuoteWrapped(s) && |s| >= 2 ==> s == [s[0]] + r + [s[0]]
    ensures |r| <= |s| && (r == s <==> !QuoteWrapped(s))
  {
    if QuoteWrapped(s) then
      if |s| == 1 then "" else s[1..|s| - 1]
    else
      s
  }

  /** Wrapping any text in one quote pair and trimming gives the text back. */
  lemma TrimUnwrapsOneLayer(q: char, x: string)
    requires q in Quotes
    ensures TrimQuotesFromStartAndEnd([q] + x + [q]) == x
  {
    var s := [q] + x + [q];
    assert QuoteWrapped(s);
    assert s[1..|s| - 1] == x;
  }

  /** Only one layer goes: doubled quotes around `a` leave one pair. */
  lemma TrimDoubledQuotes()
    ensures TrimQuotesFromStartAndEnd("\"\"a\"\"") == "\"a\""
  {
    TrimUnwrapsOneLayer('"', "\"a\"");
    assert "\"\"a\"\"" == ['"'] + "\"a\"" + ['"'];
  }

  // ---------------------------------------------------------------------------
  // traverseContext

  /** A node of the document's JSON form: its `type` and, when it has children, `content`. */
  datatype JsonNode = JsonNode(nodeType: string, content: JsonContent)
  datatype JsonContent = NoContent | Content(nodes: seq<JsonNode>)

  /** How many `content` steps the last-child path below a node takes. */
  function LastDepth(n: JsonNode): (d: nat)
    decreases n
  {
    match n.content
    case NoContent => 0
    case Content(c) => if |c| == 0 then 1 else 1 + LastDepth(c[|c| - 1])
  }

  function PathDepth(content: seq<JsonNode>): (d: nat) {
    if |content| == 0 then 0 else LastDepth(content[|content| - 1])
  }

  /**
   * Follows the last element's `content` down while the last element has
   * one, and returns the deepest such list. An empty `content` array is still
   * followed (it is a present value), and yields the empty list.
   */
  function TraverseContext(content: seq<JsonNode>): (r: seq<JsonNode>)
    ensures r == [] || r[|r| - 1].content.NoContent?
    decreases PathDepth(content)
  {
    if |content| == 0 then content
    else
      var last := content[|content| - 1];
      if last.content.Content? then TraverseContext(last.content.nodes) else content
  }

  /** `r` is reached from `content` by following last children zero or more times. */
  predicate Descends(content: seq<JsonNode>, r: seq<JsonNode>)
    decreases PathDepth(content)
  {
    content == r ||
    (|content| > 0 &&
     var last := content[|content| - 1];
     last.content.Content? && Descends(last.content.nodes, r))
  }

  /** The result lies on the last-child path. */
  lemma {:induction false} TraverseDescends(content: seq<JsonNode>)
    ensures Descends(content, TraverseContext(content))
    decreases PathDepth(content)
  {
    if |content| > 0 && content[|content| - 1].content.Content? {
      TraverseDescends(content[|content| - 1].content.nodes);
    }
  }

  /** ... and it is the only list on that path that is empty or ends in a childless node. */
  lemma {:induction false} TraverseIsDeepestLastList(content: seq<JsonNode>, r: seq<JsonNode>)
    requires Descends(content, r) && (r == [] || r[|r| - 1].content.NoContent?)
    ensures r == TraverseContext(content)
    decreases PathDepth(content)
  {
    if content != r {
      TraverseIsDeepestLastList(content[|content| - 1].content.nodes, r);
    }
  }

  // ---------------------------------------------------------------------------
  // handleDocChange

  datatype Role = User | Assistant | System | Data
  datatype Request = Request(role: Role, content: string)

  /** What a (debounced) document change does: nothing, one appended message, or a throw when the root has no `content`. */
  datatype DocChangeAction = Skip | Append(request: Request) | Throws

  predicate EndsInCompletion(content: seq<JsonNode>) {
    |content| > 0 && content[|content| - 1].nodeType == "completion"
  }

  /**
   * `handleDocChange`: the JSON form of the document (`root`) and its
   * serialisation are inputs. No request is made when the deepest last list
   * ends in a completion node, that is when the suggestion is the last inline
   * node of the last paragraph; otherwise exactly one `user` message carrying
   * the serialised document is appended (also right after a suggestion was
   * put in the middle of the text).
   */
  function HandleDocChange(root: JsonNode, serialized: string): (a: DocChangeAction)
    ensures a.Throws? <==> root.content.NoContent?
    ensures a.Skip? <==> root.content.Content? && EndsInCompletion(TraverseContext(root.content.nodes))
    ensures a.Append? ==> a.request == Request(User, serialized)
  {
    match root.content
    case NoContent => Throws
    case Content(content) =>
      var messageContent := TraverseContext(content);
      if EndsInCompletion(messageContent) then Skip else Append(Request(User, serialized))
  }

  /** A document whose last paragraph ends in the suggestion asks for nothing. */
  lemma TrailingCompletionAsksForNothing(blocks: seq<JsonNode>, inlines: seq<JsonNode>, serialized: string)
    requires |blocks| > 0 && blocks[|blocks| - 1].content == Content(inlines)
    requires |inlines| > 0 && inlines[|inlines| - 1] == JsonNode("completion", NoContent)
    ensures HandleDocChange(JsonNode("doc", Content(blocks)), serialized) == Skip
  {
    assert Descends(inlines, inlines);
    TraverseIsDeepestLastList(blocks, inlines);
  }

  /** A document whose last paragraph ends in text asks for one completion. */
  lemma TrailingTextAsksOnce(blocks: seq<JsonNode>, inlines: seq<JsonNode>, serialized: string)
    requires |blocks| > 0 && blocks[|blocks| - 1].content == Content(inlines)
    requires |inlines| > 0 && inlines[|inlines| - 1] == JsonNode("text", NoContent)
    ensures HandleDocChange(JsonNode("doc", Content(blocks)), serialized) == Append(Request(User, serialized))
  {
    assert Descends(inlines, inlines);
    TraverseIsDeepestLastList(blocks, inlines);
  }

  // ---------------------------------------------------------------------------
  // The controller

  datatype Message = Message(id: string, role: Role, content: string)
  datatype ChatStatus = Submitted | Streaming | Ready | Error

  /** The effect acts only on a last message from the assistant, while streaming, in a focused editor. */
  predicate StreamActive(messages: seq<Message>, status: ChatStatus, focused: bool)
    ensures StreamActive(messages, status, focused) ==> |messages| > 0 && messages[|messages| - 1].role == Assistant
    ensures status != Streaming || !focused ==> !StreamActive(messages, status, focused)
    ensures |messages| > 0 && messages[|messages| - 1].role == Assistant && status == Streaming && focused ==>
              StreamActive(messages, status, focused)
  {
    |messages| > 0 && messages[|messages| - 1].role == Assistant && status == Streaming && focused
  }

  /** A message with a new id starts a suggestion; one with the pending id updates it. */
  function StreamCommand(current: Option<string>, m: Message): (cmd: Command)
    ensures cmd.Insert? <==> current != Some(m.id)
    ensures cmd.Insert? ==> cmd.attrs == Attrs(m.id, TrimQuotesFromStartAndEnd(m.content), "user")
    ensures cmd.Update? ==> cmd.id == m.id && cmd.value == TrimQuotesFromStartAndEnd(m.content)
  {
    if current != Some(m.id) then Insert(Attrs(m.id, TrimQuotesFromStartAndEnd(m.content), "user"))
    else Update(m.id, TrimQuotesFromStartAndEnd(m.content))
  }

  /** `if (currentCompletionId)`: a held id is a non-empty string. */
  predicate Held(current: Option<string>)
    ensures current == None || current == Some("") ==> !Held(current)
    ensures current.Some? && |current.value| > 0 ==> Held(current)
  {
    current.Some? && current.value != ""
  }

  /** The controller's state together with the editor's. */
  datatype Session = Session(current: Option<string>, state: EditorState)

  /** Runs a command through the editor; a command that is rejected or throws leaves the state as it was. */
  function Apply(st: EditorState, cmd: Command): (r: EditorState)
    requires st.Valid()
    ensures r.Valid()
  {
    DispatchedIsValid(st, cmd, true);
    Commit(st, Run(st, cmd, true))
  }

  function StreamStep(s: Session, messages: seq<Message>, status: ChatStatus, focused: bool): (r: Session)
    requires s.state.Valid()
    ensures r.state.Valid()
    ensures !StreamActive(messages, status, focused) ==> r == s
    ensures StreamActive(messages, status, focused) ==> r.current == Some(messages[|messages| - 1].id)
  {
    if StreamActive(messages, status, focused) then
      var m := messages[|messages| - 1];
      Session(Some(m.id), Apply(s.state, StreamCommand(s.current, m)))
    else
      s
  }

  function CancelStep(s: Session): (r: Session)
    requires s.state.Valid()
    ensures r.state.Valid()
    ensures r.current == None
    ensures !Held(s.current) ==> r.state == s.state
  {
    Session(None, if Held(s.current) then Apply(s.state, Cancel(s.current.value)) else s.state)
  }

  function ConfirmStep(s: Session): (r: Session)
    requires s.state.Valid()
    ensures r.state.Valid()
    ensures Held(s.current) ==> r.current == None
    ensures !Held(s.current) ==> r == s
  {
    if Held(s.current) then Session(None, Apply(s.state, Confirm(s.current.value))) else s
  }

  class Controller {
    var currentCompletionId: Option<string>
    const editor: Editor

    ghost predicate Valid()
      reads this, editor
    {
      editor.Valid()
    }

    function Snapshot(): (s: Session)
      reads this, editor
      requires Valid()
      ensures s.state.Valid()
    {
      Session(currentCompletionId, editor.state)
    }

    constructor (editor: Editor)
      requires editor.Valid()
      ensures Valid() && this.editor == editor && currentCompletionId == None
    {
      this.editor := editor;
      currentCompletionId := None;
    }

    /** The streaming effect, run for the current messages, chat status and focus. */
    method OnStream(messages: seq<Message>, status: ChatStatus, focused: bool)
      requires Valid()
      modifies this, editor
      ensures Valid()
      ensures Snapshot() == StreamStep(old(Snapshot()), messages, status, focused)
    {
      if |messages| > 0 && messages[|messages| - 1].role == Assistant && status == Streaming && focused {
        var lastMessage := messages[|messages| - 1];
        var completionId := lastMessage.id;
        var r;
        if currentCompletionId != Some(completionId) {
          currentCompletionId := Some(completionId);
          r := editor.Execute(Insert(Attrs(completionId, TrimQuotesFromStartAndEnd(lastMessage.content), "user")));
        } else {
          r := editor.Execute(Update(completionId, TrimQuotesFromStartAndEnd(lastMessage.content)));
        }
      }
    }

    method CancelCompletion()
      requires Valid()
      modifies this, editor
      ensures Valid()
      ensures Snapshot() == CancelStep(old(Snapshot()))
    {
      if currentCompletionId.Some? && currentCompletionId.value != "" {
        var r := editor.Execute(Cancel(currentCompletionId.value));
      }
      currentCompletionId := None;
    }

    method ConfirmCompletion()
      requires Valid()
      modifies this, editor
      ensures Valid()
      ensures Snapshot() == ConfirmStep(old(Snapshot()))
    {
      if currentCompletionId.Some? && currentCompletionId.value != "" {
        var r := editor.Execute(Confirm(currentCompletionId.value));
        currentCompletionId := None;
      }
    }
  }

  // ---------------------------------------------------------------------------
  // Lifecycle

  /** No controller step ever leaves more than one suggestion in the document. */
  lemma SessionKeepsAtMostOneCompletion(s: Session, messages: seq<Message>, status: ChatStatus, focused: bool)
    requires s.state.Valid() && |Completions(s.state.doc)| <= 1
    ensures |Completions(StreamStep(s, messages, status, focused).state.doc)| <= 1
    ensures |Completions(CancelStep(s).state.doc)| <= 1
    ensures |Completions(ConfirmStep(s).state.doc)| <= 1
  {
    if StreamActive(messages, status, focused) {
      AtMostOneCompletionIsInvariant(s.state, StreamCommand(s.current, messages[|messages| - 1]), true);
    }
    if Held(s.current) {
      AtMostOneCompletionIsInvariant(s.state, Cancel(s.current.value), true);
      AtMostOneCompletionIsInvariant(s.state, Confirm(s.current.value), true);
    }
  }

  /** The first chunk of a new message puts exactly one suggestion, carrying the trimmed text, at the cursor. */
  lemma FirstChunkShowsSuggestion(s: Session, messages: seq<Message>)
    requires s.state.Valid() && StreamActive(messages, Streaming, true)
    requires s.current != Some(messages[|messages| - 1].id)
    requires forall i :: 0 <= i < s.state.cursor ==> !s.state.doc[i].Completion?
    ensures var m := messages[|messages| - 1];
            var r := StreamStep(s, messages, Streaming, true);
            && r.current == Some(m.id)
            && Completions(r.state.doc) == [Attrs(m.id, TrimQuotesFromStartAndEnd(m.content), "user")]
            && r.state.cursor == s.state.cursor
            && r.state.doc[..s.state.cursor] == s.state.doc[..s.state.cursor]
  {
    var m := messages[|messages| - 1];
    var attrs := Attrs(m.id, TrimQuotesFromStartAndEnd(m.content), "user");
    InsertedIsFound(s.state, attrs);
    InsertLeavesOneCompletion(s.state, attrs);
  }

  /**
   * A later chunk of the same message rewrites the suggestion in place: the
   * document still holds exactly one suggestion, now carrying the latest
   * trimmed text, and the cursor has not moved.
   */
  lemma LaterChunkUpdatesSuggestion(s: Session, first: seq<Message>, later: seq<Message>)
    requires s.state.Valid() && StreamActive(first, Streaming, true) && StreamActive(later, Streaming, true)
    requires first[|first| - 1].id == later[|later| - 1].id != ""
    requires s.current != Some(first[|first| - 1].id)
    requires forall i :: 0 <= i < s.state.cursor ==> !s.state.doc[i].Completion?
    ensures var m := later[|later| - 1];
            var r := StreamStep(StreamStep(s, first, Streaming, true), later, Streaming, true);
            && r.current == Some(m.id)
            && Completions(r.state.doc) == [Attrs(m.id, TrimQuotesFromStartAndEnd(m.content), "user")]
            && r.state.cursor == s.state.cursor
  {
    var m1 := first[|first| - 1];
    var attrs := Attrs(m1.id, TrimQuotesFromStartAndEnd(m1.content), "user");
    InsertedIsFound(s.state, attrs);
    InsertThenUpdate(s.state, attrs, TrimQuotesFromStartAndEnd(later[|later| - 1].content));
  }

  /** Streaming a suggestion and then confirming it leaves its trimmed text in the document, with the cursor after it and no id held. */
  lemma StreamThenConfirm(s: Session, messages: seq<Message>)
    requires s.state.Valid() && StreamActive(messages, Streaming, true)
    requires messages[|messages| - 1].id != "" && s.current != Some(messages[|messages| - 1].id)
    requires forall i :: 0 <= i < s.state.cursor ==> !s.state.doc[i].Completion?
    ensures var text := TrimQuotesFromStartAndEnd(messages[|messages| - 1].content);
            var c := s.state.cursor;
            ConfirmStep(StreamStep(s, messages, Streaming, true)) ==
              Session(None, EditorState(s.state.doc[..c] + TextItems(text) + Strip(s.state.doc[c..], None), c + |text|))
  {
    var m := messages[|messages| - 1];
    InsertThenConfirm(s.state, Attrs(m.id, TrimQuotesFromStartAndEnd(m.content), "user"));
  }

  /** Streaming a suggestion and then cancelling it leaves the text as it was, minus any other suggestion, with the cursor in place. */
  lemma StreamThenCancel(s: Session, messages: seq<Message>)
    requires s.state.Valid() && StreamActive(messages, Streaming, true)
    requires messages[|messages| - 1].id != "" && s.current != Some(messages[|messages| - 1].id)
    requires forall i :: 0 <= i < s.state.cursor ==> !s.state.doc[i].Completion?
    ensures var c := s.state.cursor;
            CancelStep(StreamStep(s, messages, Streaming, true)) ==
              Session(None, EditorState(s.state.doc[..c] + Strip(s.state.doc[c..], None), c))
  {
    var m := messages[|messages| - 1];
    InsertedIsFound(s.state, Attrs(m.id, TrimQuotesFromStartAndEnd(m.content), "user"));
  }

  /** A pending suggestion whose id is unique is gone from the document after a cancel. */
  lemma CancelRemovesPending(s: Session)
    requires s.state.Valid() && Held(s.current) && UniqueId(s.state.doc, s.current.value)
    ensures FindLast(CancelStep(s).state.doc, s.current.value).None?
  {
    var id := s.current.value;
    if FindLast(s.state.doc, id).Some? {
      NoIdLeft(s.state.doc, id, FindLast(s.state.doc, id).value);
    }
  }
}
