/**
 * The editor object the hooks drive: its current state, the completion
 * commands run through `editor.commands`, and the two plain transactions
 * the double-space gesture dispatches (`insertText(" ")` and deleting the
 * character before the cursor).
 */
module Editors {
  import opened CompletionNode
  import opened Transactions
  import opened CompletionCommands

  /** `doc.textBetween(from - 1, from)`: the text of the item just before the cursor (a completion contributes its value). */
  function TextBefore(st: EditorState): (t: string)
    requires st.Valid()
    ensures st.cursor == 0 ==> t == ""
    ensures st.cursor > 0 ==> t == TextContent(st.doc[st.cursor - 1..st.cursor])
    ensures st.cursor > 0 && st.doc[st.cursor - 1].Char? ==> t == [st.doc[st.cursor - 1].c]
    ensures st.cursor > 0 && st.doc[st.cursor - 1].Completion? ==> t == st.doc[st.cursor - 1].attrs.value
  {
    if st.cursor == 0 then ""
    else
      assert st.doc[st.cursor - 1..st.cursor] == [st.doc[st.cursor - 1]];
      TextContentSingle(st.doc[st.cursor - 1]);
      ItemText(st.doc[st.cursor - 1])
  }

  /** `tr.insertText(text)` at the collapsed selection: the text goes in at the cursor and the cursor follows it. */
  function InsertTextState(st: EditorState, text: string): (r: EditorState)
    requires st.Valid()
    ensures r.Valid() && |r.doc| == |st.doc| + |text| && r.cursor == st.cursor + |text|
    ensures r.doc[..st.cursor] == st.doc[..st.cursor] && r.doc[r.cursor..] == st.doc[st.cursor..]
    ensures TextContent(r.doc[st.cursor..r.cursor]) == text
  {
    var d := st.doc[..st.cursor] + TextItems(text) + st.doc[st.cursor..];
    assert d[st.cursor..st.cursor + |text|] == TextItems(text);
    EditorState(d, st.cursor + |text|)
  }

  /** `tr.delete(from - 1, from)`: the item before the cursor goes and the cursor steps back onto its place. */
  function DeleteBeforeState(st: EditorState): (r: EditorState)
    requires st.Valid() && st.cursor > 0
    ensures r.Valid() && |r.doc| == |st.doc| - 1 && r.cursor == st.cursor - 1
    ensures r.doc[..r.cursor] == st.doc[..r.cursor] && r.doc[r.cursor..] == st.doc[st.cursor..]
  {
    var d := st.doc[..st.cursor - 1] + st.doc[st.cursor..];
    assert d[..st.cursor - 1] == st.doc[..st.cursor - 1];
    EditorState(d, st.cursor - 1)
  }

  /** Deleting what was just typed gives back the state before it. */
  lemma DeleteUndoesInsertSpace(st: EditorState)
    requires st.Valid()
    ensures DeleteBeforeState(InsertTextState(st, " ")) == st
  {
    var r := DeleteBeforeState(InsertTextState(st, " "));
    assert r.doc == r.doc[..r.cursor] + r.doc[r.cursor..];
    assert st.doc == st.doc[..st.cursor] + st.doc[st.cursor..];
  }

  /** Re-typing a deleted space gives back the state before the deletion. */
  lemma InsertSpaceRestoresDeleted(st: EditorState)
    requires st.Valid() && st.cursor > 0 && st.doc[st.cursor - 1] == Char(' ')
    ensures InsertTextState(DeleteBeforeState(st), " ") == st
  {
    var r := InsertTextState(DeleteBeforeState(st), " ");
    var c := st.cursor;
    assert r.doc == r.doc[..c - 1] + [r.doc[c - 1]] + r.doc[c..];
    assert r.doc[c - 1] == Char(' ');
    assert st.doc == st.doc[..c - 1] + [st.doc[c - 1]] + st.doc[c..];
  }

  class Editor {
    var state: EditorState

    ghost predicate Valid()
      reads this
    {
      state.Valid()
    }

    constructor (st: EditorState)
      requires st.Valid()
      ensures Valid() && state == st
    {
      state := st;
    }

    /** `editor.commands.<cmd>(...)`: the command runs with `dispatch`, and a dispatched state replaces the current one. */
    method Execute(cmd: Command) returns (r: CommandResult)
      requires Valid()
      modifies this
      ensures Valid()
      ensures r == Run(old(state), cmd, true)
      ensures state == Commit(old(state), r)
    {
      match cmd {
        case Insert(attrs) => r := InsertCompletion(state, attrs, true);
        case Update(id, value) => r := UpdateCompletion(state, id, value, true);
        case Cancel(id) => r := CancelCompletion(state, id, true);
        case Confirm(id) => r := ConfirmCompletion(state, id, true);
      }
      if r.Dispatched? {
        state := r.state;
      }
    }

    /** `tr.insertText(text)`, then dispatch. */
    method InsertText(text: string)
      requires Valid()
      modifies this
      ensures Valid() && state == InsertTextState(old(state), text)
    {
      var tr := new Transaction(state);
      tr.Replace(state.cursor, state.cursor, TextItems(text));
      state := tr.State();
    }

    /** `tr.delete(from - 1, from)`, then dispatch. */
    method DeleteBefore()
      requires Valid() && state.cursor > 0
      modifies this
      ensures Valid() && state == DeleteBeforeState(old(state))
    {
      var tr := new Transaction(state);
      tr.Delete(state.cursor - 1, state.cursor);
      state := tr.State();
    }
  }
}
