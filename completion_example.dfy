/**
 * The example editor component: Tab accepts the pending suggestion, any
 * other key and any focus change dismiss it.
 */
module CompletionExample {
  import opened Options
  import opened CompletionNode
  import opened Transactions
  import opened CompletionCommands
  import opened CompletionProperties
  import opened Editors
  import opened StreamingCompletion

  /** The keydown handler: whether `preventDefault` was called, and the controller's new state. */
  function KeyDownStep(s: Session, key: string): (r: (bool, Session))
    requires s.state.Valid()
    ensures r.1.state.Valid()
    ensures r.0 <==> key == "Tab"
    ensures !Held(r.1.current)
    ensures key == "Tab" && !Held(s.current) ==> r.1 == s
  {
    if key == "Tab" then (true, ConfirmStep(s)) else (false, CancelStep(s))
  }

  /** The focus and blur handlers. */
  function FocusChangeStep(s: Session): (r: Session)
    requires s.state.Valid()
    ensures r.state.Valid() && r.current == None
  {
    CancelStep(s)
  }

  class ProseMirrorEditor {
    const completion: Controller

    ghost predicate Valid()
      reads this, completion, completion.editor
    {
      completion.Valid()
    }

    constructor (editor: Editor)
      requires editor.Valid()
      ensures Valid() && completion.editor == editor && completion.currentCompletionId == None
      ensures fresh(completion)
    {
      completion := new Controller(editor);
    }

    method OnKeyDown(key: string) returns (prevented: bool)
      requires Valid()
      modifies completion, completion.editor
      ensures Valid()
      ensures (prevented, completion.Snapshot()) == KeyDownStep(old(completion.Snapshot()), key)
    {
      if key == "Tab" {
        prevented := true;
        completion.ConfirmCompletion();
        return;
      }
      prevented := false;
      completion.CancelCompletion();
    }

    method OnFocus()
      requires Valid()
      modifies completion, completion.editor
      ensures Valid()
      ensures completion.Snapshot() == FocusChangeStep(old(completion.Snapshot()))
    {
      completion.CancelCompletion();
    }

    method OnBlur()
      requires Valid()
      modifies completion, completion.editor
      ensures Valid()
      ensures completion.Snapshot() == FocusChangeStep(old(completion.Snapshot()))
    {
      completion.CancelCompletion();
    }
  }

  /**
   * Every keydown ends a pending suggestion whose id is unique: no id is held
   * afterwards and no node with that id is left in the document. Tab has
   * turned it into text, any other key has deleted it.
   */
  lemma KeyDownEndsSuggestion(s: Session, key: string)
    requires s.state.Valid() && Held(s.current) && UniqueId(s.state.doc, s.current.value)
    ensures var r := KeyDownStep(s, key).1;
            r.current == None && FindLast(r.state.doc, s.current.value).None?
  {
    var id := s.current.value;
    if key == "Tab" {
      ConfirmLeavesNoId(s.state, id);
    } else {
      CancelRemovesPending(s);
    }
  }

  /** Tab on a pending suggestion keeps the document's text and puts the suggestion's value before the cursor. */
  lemma TabAcceptsSuggestion(s: Session, p: nat)
    requires s.state.Valid() && Held(s.current) && FindLast(s.state.doc, s.current.value) == Some(p)
    ensures var r := KeyDownStep(s, "Tab").1;
            var value := s.state.doc[p].attrs.value;
            && TextContent(r.state.doc) == TextContent(s.state.doc)
            && TextContent(r.state.doc[..r.state.cursor]) == TextContent(s.state.doc[..p]) + value
  {
    ConfirmMaterialisesValue(s.state, s.current.value, p);
  }

  /** Any other key deletes exactly the pending suggestion. */
  lemma OtherKeyDismissesSuggestion(s: Session, key: string, p: nat)
    requires s.state.Valid() && key != "Tab"
    requires Held(s.current) && FindLast(s.state.doc, s.current.value) == Some(p)
    ensures KeyDownStep(s, key).1.state.doc == s.state.doc[..p] + s.state.doc[p + 1..]
  {
  }

  /**
   * A streamed suggestion followed by Tab becomes text at the cursor; followed
   * by any other key it disappears and the document is as before the stream,
   * less any other suggestion.
   */
  lemma StreamThenKey(s: Session, messages: seq<Message>, key: string)
    requires s.state.Valid() && StreamActive(messages, Streaming, true)
    requires messages[|messages| - 1].id != "" && s.current != Some(messages[|messages| - 1].id)
    requires forall i :: 0 <= i < s.state.cursor ==> !s.state.doc[i].Completion?
    ensures var text := TrimQuotesFromStartAndEnd(messages[|messages| - 1].content);
            var c := s.state.cursor;
            var rest := Strip(s.state.doc[c..], None);
            KeyDownStep(StreamStep(s, messages, Streaming, true), key).1 ==
              if key == "Tab" then Session(None, EditorState(s.state.doc[..c] + TextItems(text) + rest, c + |text|))
              else Session(None, EditorState(s.state.doc[..c] + rest, c))
  {
    if key == "Tab" {
      StreamThenConfirm(s, messages);
    } else {
      StreamThenCancel(s, messages);
    }
  }
}
