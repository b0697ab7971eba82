/**
 * Properties of the completion command set: the single-pending-suggestion
 * invariant, cursor placement, idempotent no-ops, the insert/update/confirm
 * round trips, and the two places where the commands read a position in
 * the wrong document.
 */
module CompletionProperties {
  import opened Options
  import opened CompletionNode
  import opened Transactions
  import opened CompletionCommands

  /** At most one completion node carries this id. */
  predicate UniqueId(doc: Doc, id: string) {
    forall i, j :: 0 <= i < j < |doc| && IsCompletionWithId(doc[i], id) ==> !IsCompletionWithId(doc[j], id)
  }

  lemma CompletionsSplit(doc: Doc, p: nat)
    requires p < |doc|
    ensures Completions(doc) ==
            Completions(doc[..p]) + (if doc[p].Completion? then [doc[p].attrs] else []) + Completions(doc[p + 1..])
  {
    assert doc == doc[..p + 1] + doc[p + 1..];
    assert doc[..p + 1] == doc[..p] + [doc[p]];
    CompletionsAppend(doc[..p + 1], doc[p + 1..]);
    CompletionsAppend(doc[..p], [doc[p]]);
    CompletionsSingle(doc[p]);
  }

  lemma {:induction false} StripKeepsFewerCompletions(doc: Doc, excludeId: Option<string>)
    ensures |Completions(Strip(doc, excludeId))| <= |Completions(doc)|
  {
    if doc != [] {
      StripKeepsFewerCompletions(doc[1..], excludeId);
      var head := if Removable(doc[0], excludeId) then [] else [doc[0]];
      CompletionsAppend(head, Strip(doc[1..], excludeId));
    }
  }

  lemma StripAllLeavesNoCompletion(doc: Doc)
    ensures Completions(Strip(doc, None)) == []
  {
    NoCompletions(Strip(doc, None));
  }

  // ---------------------------------------------------------------------------
  // insertCompletion

  /** A successful insert leaves exactly one completion, the new one, right at the cursor. */
  lemma InsertLeavesOneCompletion(st: EditorState, attrs: Attrs)
    requires st.Valid()
    ensures var r := InsertOutcome(st, attrs, true);
            r.Dispatched? ==>
              && r.state.Valid()
              && Completions(r.state.doc) == [attrs]
              && r.state.cursor == st.cursor
              && r.state.doc[st.cursor] == Completion(attrs)
  {
    var base := Strip(st.doc, None);
    if st.cursor <= |base| {
      StripAllLeavesNoCompletion(st.doc);
      NoCompletions(base);
      NoCompletions(base[..st.cursor]);
      NoCompletions(base[st.cursor..]);
      CompletionsAppend(base[..st.cursor] + [Completion(attrs)], base[st.cursor..]);
      CompletionsAppend(base[..st.cursor], [Completion(attrs)]);
    }
  }

  /**
   * When no completion lies before the cursor, the insert keeps the text
   * before the cursor, puts the node immediately after it, leaves the cursor
   * where it was, and drops only completions from the rest.
   */
  lemma InsertAtCursor(st: EditorState, attrs: Attrs)
    requires st.Valid()
    requires forall i :: 0 <= i < st.cursor ==> !st.doc[i].Completion?
    ensures InsertOutcome(st, attrs, true) ==
            Dispatched(EditorState(st.doc[..st.cursor] + [Completion(attrs)] + Strip(st.doc[st.cursor..], None), st.cursor))
  {
    var c := st.cursor;
    assert st.doc == st.doc[..c] + st.doc[c..];
    StripAppend(st.doc[..c], st.doc[c..], None);
    StripUnchanged(st.doc[..c], None);
    var base := Strip(st.doc, None);
    assert base[..c] == st.doc[..c] && base[c..] == Strip(st.doc[c..], None);
  }

  /** Without `dispatch` the insert reports false and changes nothing. */
  lemma InsertWithoutDispatch(st: EditorState, attrs: Attrs)
    requires st.Valid()
    ensures Commit(st, InsertOutcome(st, attrs, false)) == st && InsertOutcome(st, attrs, false) == Rejected
  {
  }

  /**
   * The insert position is read before the removals: with a completion
   * before the cursor, the new node lands one item further right than the
   * cursor had been (after the `x` here, where the cursor was before it).
   */
  lemma InsertLandsPastRemovedCompletion(prev: Attrs, attrs: Attrs)
    ensures InsertOutcome(EditorState([Completion(prev), Char('x')], 1), attrs, true) ==
            Dispatched(EditorState([Char('x'), Completion(attrs)], 1))
  {
    var doc := [Completion(prev), Char('x')];
    assert doc[1..] == [Char('x')];
    assert Strip(doc, None) == [Char('x')];
  }

  /**
   * ... and with the cursor at the end, the stale position lies past the
   * shrunk flat document, which the model reports as `Raised`. In the real
   * tree that position is the paragraph's closing boundary, where the node
   * would be wrapped in a new paragraph.
   */
  lemma InsertPastShrunkDocumentIsRaised(prev: Attrs, attrs: Attrs)
    ensures InsertOutcome(EditorState([Char('x'), Completion(prev)], 2), attrs, true) == Raised
  {
    var doc := [Char('x'), Completion(prev)];
    assert doc[1..] == [Completion(prev)];
    assert Strip(doc, None) == [Char('x')];
  }

  /** The offset example: `"Foo "` with the cursor at 4 gets the node at 4, the cursor stays at 4. */
  lemma InsertAfterFoo()
    ensures var foo := [Char('F'), Char('o'), Char('o'), Char(' ')];
            var attrs := Attrs("x", " world", "user");
            InsertOutcome(EditorState(foo, 4), attrs, true) == Dispatched(EditorState(foo + [Completion(attrs)], 4))
  {
    var foo := [Char('F'), Char('o'), Char('o'), Char(' ')];
    InsertAtCursor(EditorState(foo, 4), Attrs("x", " world", "user"));
    assert foo[..4] == foo && foo[4..] == [];
  }

  // ---------------------------------------------------------------------------
  // updateCompletion

  /**
   * When the target is the only completion, the update rewrites only its
   * `value`: `id` and `kind` are kept, nothing else in the document changes
   * and the cursor stays where it was.
   */
  lemma UpdateOnlyCompletion(st: EditorState, id: string, value: string, t: nat)
    requires st.Valid() && id != ""
    requires t < |st.doc| && IsCompletionWithId(st.doc[t], id)
    requires forall j :: 0 <= j < |st.doc| && j != t ==> !st.doc[j].Completion?
    ensures UpdateOutcome(st, id, value, true) ==
            Dispatched(EditorState(st.doc[t := Completion(st.doc[t].attrs.(value := value))], st.cursor))
  {
    var excl := Some(id);
    assert FindLast(st.doc, id) == Some(t);
    StripUnchanged(st.doc, excl);
    StripUnchanged(st.doc[..t], excl);
    StripUnchanged(st.doc[..st.cursor], excl);
  }

  /**
   * With no completion before the target, the update deletes every other
   * completion, keeps the target's `id` and `kind`, and leaves it the only
   * completion of the document, carrying the new `value`.
   */
  lemma UpdateRemovesOthers(st: EditorState, id: string, value: string, t: nat)
    requires st.Valid() && id != ""
    requires FindLast(st.doc, id) == Some(t)
    requires forall j :: 0 <= j < t ==> !st.doc[j].Completion?
    ensures var r := UpdateOutcome(st, id, value, true);
            var updated := st.doc[t].attrs.(value := value);
            && r.Dispatched?
            && r.state.doc == Strip(st.doc, Some(id))[t := Completion(updated)]
            && Completions(r.state.doc) == [updated]
            && (st.cursor <= t ==> r.state.cursor == st.cursor)
  {
    var excl := Some(id);
    var doc := st.doc;
    var updated := doc[t].attrs.(value := value);
    var rest := Strip(doc[t + 1..], excl);
    StripAroundTarget(doc, id, t);
    var after := doc[t + 1..];
    forall i | 0 <= i < |after| ensures !IsCompletionWithId(after[i], id) {
      assert after[i] == doc[t + 1 + i];
    }
    StripUnchanged(doc[..t], excl);
    StripNoMatchLeavesNoCompletion(after, id);
    assert Strip(doc, excl)[t := Completion(updated)] == doc[..t] + [Completion(updated)] + rest;
    OnlyCompletionBetween(doc[..t], updated, rest);
  }

  /** Stripping around the last match with no completion before it keeps the prefix and the target. */
  lemma StripAroundTarget(doc: Doc, id: string, t: nat)
    requires id != "" && FindLast(doc, id) == Some(t)
    requires forall j :: 0 <= j < t ==> !doc[j].Completion?
    ensures Strip(doc, Some(id)) == doc[..t] + [doc[t]] + Strip(doc[t + 1..], Some(id))
  {
    var excl := Some(id);
    var pre := doc[..t];
    forall i | 0 <= i < |pre| ensures !Removable(pre[i], excl) {
      assert pre[i] == doc[i];
    }
    StripUnchanged(pre, excl);
    assert doc == doc[..t + 1] + doc[t + 1..];
    assert doc[..t + 1] == pre + [doc[t]];
    StripAppend(doc[..t + 1], doc[t + 1..], excl);
    StripAppend(pre, [doc[t]], excl);
    StripSingle(doc[t], excl);
  }

  /** Where no completion carries the id, stripping every other id leaves no completion at all. */
  lemma {:induction false} StripNoMatchLeavesNoCompletion(s: Doc, id: string)
    requires id != ""
    requires forall i :: 0 <= i < |s| ==> !IsCompletionWithId(s[i], id)
    ensures Completions(Strip(s, Some(id))) == []
  {
    if s != [] {
      assert forall i :: 0 <= i < |s[1..]| ==> s[1..][i] == s[i + 1];
      StripNoMatchLeavesNoCompletion(s[1..], id);
      var head := if Removable(s[0], Some(id)) then [] else [s[0]];
      CompletionsAppend(head, Strip(s[1..], Some(id)));
    }
  }

  /**
   * `doc.nodeAt` reads the pre-removal document at the post-removal
   * position: with another completion before the target, the surviving node
   * takes that removed completion's `id` and `kind`.
   */
  lemma UpdateAdoptsRemovedNeighbour(a: Attrs, b: Attrs, value: string)
    requires a.id != b.id && b.id != ""
    ensures UpdateOutcome(EditorState([Completion(a), Completion(b)], 0), b.id, value, true) ==
            Dispatched(EditorState([Completion(Attrs(a.id, value, a.kind))], 0))
  {
    var doc := [Completion(a), Completion(b)];
    assert doc[..1] == [Completion(a)] && doc[1..] == [Completion(b)];
    assert Strip(doc[..1], Some(b.id)) == [];
    assert Strip(doc, Some(b.id)) == [Completion(b)];
  }

  /** ... and when a text character sits at that position, building the new node throws. */
  lemma UpdateThrowsOnTextNeighbour(a: Attrs, b: Attrs, value: string)
    requires a.id != b.id && b.id != ""
    ensures UpdateOutcome(EditorState([Completion(a), Char('x'), Completion(b)], 0), b.id, value, true) == Raised
  {
    var doc := [Completion(a), Char('x'), Completion(b)];
    assert doc[..2] == [Completion(a), Char('x')];
    assert doc[..2][1..] == [Char('x')];
    assert Strip(doc[..2], Some(b.id)) == [Char('x')];
  }

  // ---------------------------------------------------------------------------
  // cancelCompletion and confirmCompletion

  lemma NoIdLeft(doc: Doc, id: string, p: nat)
    requires FindLast(doc, id) == Some(p) && UniqueId(doc, id)
    ensures FindLast(doc[..p] + doc[p + 1..], id).None?
  {
    var d := doc[..p] + doc[p + 1..];
    forall j | 0 <= j < |d| ensures !IsCompletionWithId(d[j], id) {
      if j < p {
        assert d[j] == doc[j];
      } else {
        assert d[j] == doc[j + 1];
      }
    }
  }

  /**
   * Cancel deletes exactly the node's span and nothing else: the items
   * before and after it keep their order, one completion fewer remains, and
   * the cursor moves back by one only if it lay after the node.
   */
  lemma CancelDeletesOnlyTheNode(st: EditorState, id: string, p: nat)
    requires st.Valid() && FindLast(st.doc, id) == Some(p)
    ensures var r := CancelOutcome(st, id, true);
            && r.Dispatched? && r.state.Valid()
            && r.state.doc == st.doc[..p] + st.doc[p + 1..]
            && |Completions(r.state.doc)| == |Completions(st.doc)| - 1
            && r.state.cursor == (if st.cursor <= p then st.cursor else st.cursor - 1)
  {
    CompletionsSplit(st.doc, p);
    CompletionsAppend(st.doc[..p], st.doc[p + 1..]);
  }

  /** Cancelling the same id twice: the second call finds nothing and is a no-op. */
  lemma CancelTwiceIsNoOp(st: EditorState, id: string)
    requires st.Valid() && UniqueId(st.doc, id)
    ensures var r := CancelOutcome(st, id, true);
            r.Dispatched? ==> CancelOutcome(r.state, id, true) == Rejected
  {
    if FindLast(st.doc, id).Some? {
      NoIdLeft(st.doc, id, FindLast(st.doc, id).value);
    }
  }

  /**
   * Confirm turns the node into plain text equal to its value: the
   * document's text is unchanged, the text before the new cursor is the text
   * before the node followed by the value, and one completion fewer remains.
   */
  lemma ConfirmMaterialisesValue(st: EditorState, id: string, p: nat)
    requires st.Valid() && FindLast(st.doc, id) == Some(p)
    ensures var r := ConfirmOutcome(st, id, true);
            var value := st.doc[p].attrs.value;
            && r.Dispatched? && r.state.Valid()
            && r.state.cursor == p + |value|
            && TextContent(r.state.doc) == TextContent(st.doc)
            && TextContent(r.state.doc[..r.state.cursor]) == TextContent(st.doc[..p]) + value
            && |Completions(r.state.doc)| == |Completions(st.doc)| - 1
  {
    var value := st.doc[p].attrs.value;
    ReplaceByTextKeepsText(st.doc, p, value);
    ReplaceByTextDropsOneCompletion(st.doc, p, value);
  }

  lemma ReplaceByTextKeepsText(doc: Doc, p: nat, value: string)
    requires p < |doc| && doc[p].Completion? && doc[p].attrs.value == value
    ensures var d := doc[..p] + TextItems(value) + doc[p + 1..];
            && TextContent(d) == TextContent(doc)
            && TextContent(d[..p + |value|]) == TextContent(doc[..p]) + value
  {
    var pre := doc[..p];
    var post := doc[p + 1..];
    var t := TextItems(value);
    assert doc == doc[..p + 1] + post;
    assert doc[..p + 1] == pre + [doc[p]];
    TextContentAppend(doc[..p + 1], post);
    TextContentAppend(pre, [doc[p]]);
    TextContentSingle(doc[p]);
    var d := pre + t + post;
    TextContentAppend(pre + t, post);
    TextContentAppend(pre, t);
    assert d[..p + |value|] == pre + t;
  }

  lemma ReplaceByTextDropsOneCompletion(doc: Doc, p: nat, value: string)
    requires p < |doc| && doc[p].Completion?
    ensures |Completions(doc[..p] + TextItems(value) + doc[p + 1..])| == |Completions(doc)| - 1
  {
    CompletionsSplit(doc, p);
    TextItemsHaveNoCompletions(value);
    CompletionsAppend(doc[..p] + TextItems(value), doc[p + 1..]);
    CompletionsAppend(doc[..p], TextItems(value));
  }

  /** Confirming the same id twice: the second call finds nothing and is a no-op. */
  lemma ConfirmTwiceIsNoOp(st: EditorState, id: string)
    requires st.Valid() && UniqueId(st.doc, id)
    ensures var r := ConfirmOutcome(st, id, true);
            r.Dispatched? ==> ConfirmOutcome(r.state, id, true) == Rejected
  {
    ConfirmLeavesNoId(st, id);
  }

  /** After a confirm no node with that id is left, when the id was unique. */
  lemma ConfirmLeavesNoId(st: EditorState, id: string)
    requires st.Valid() && UniqueId(st.doc, id)
    ensures var r := ConfirmOutcome(st, id, true);
            r.Dispatched? ==> FindLast(r.state.doc, id).None?
  {
    if FindLast(st.doc, id).Some? {
      var p := FindLast(st.doc, id).value;
      var doc := st.doc;
      var value := doc[p].attrs.value;
      var d := doc[..p] + TextItems(value) + doc[p + 1..];
      forall j | 0 <= j < |d| ensures !IsCompletionWithId(d[j], id) {
        if j < p {
          assert d[j] == doc[j];
        } else if j < p + |value| {
          assert d[j] == TextItems(value)[j - p];
        } else {
          assert d[j] == doc[j - |value| + 1];
        }
      }
    }
  }

  // ---------------------------------------------------------------------------
  // Round trips and the single-pending-suggestion invariant

  /** After an insert with no completion before the cursor, the lookup by the new id finds the node at the cursor. */
  lemma InsertedIsFound(st: EditorState, attrs: Attrs)
    requires st.Valid()
    requires forall i :: 0 <= i < st.cursor ==> !st.doc[i].Completion?
    ensures var r := InsertOutcome(st, attrs, true);
            && r.Dispatched?
            && FindLast(r.state.doc, attrs.id) == Some(st.cursor)
            && r.state.doc[..st.cursor] == st.doc[..st.cursor]
            && r.state.doc[st.cursor + 1..] == Strip(st.doc[st.cursor..], None)
  {
    InsertAtCursor(st, attrs);
    var c := st.cursor;
    var s1 := InsertOutcome(st, attrs, true).state;
    var rest := Strip(st.doc[c..], None);
    assert s1.doc == st.doc[..c] + [Completion(attrs)] + rest;
    forall j | c < j < |s1.doc| ensures !s1.doc[j].Completion? {
      assert s1.doc[j] == rest[j - c - 1];
      assert !Removable(rest[j - c - 1], None);
    }
    assert s1.doc[..c] == st.doc[..c] && s1.doc[c + 1..] == rest;
    assert IsCompletionWithId(s1.doc[c], attrs.id);
    var found := FindLast(s1.doc, attrs.id);
    assert found.Some? && found.value == c;
  }

  /** Insert then confirm: the suggestion becomes plain text at the cursor and the cursor sits right after it. */
  lemma InsertThenConfirm(st: EditorState, attrs: Attrs)
    requires st.Valid()
    requires forall i :: 0 <= i < st.cursor ==> !st.doc[i].Completion?
    ensures var r1 := InsertOutcome(st, attrs, true);
            r1.Dispatched? &&
            ConfirmOutcome(r1.state, attrs.id, true) ==
              Dispatched(EditorState(st.doc[..st.cursor] + TextItems(attrs.value) + Strip(st.doc[st.cursor..], None),
                                     st.cursor + |attrs.value|))
  {
    InsertedIsFound(st, attrs);
  }

  /** Insert then update with the same id: still one completion, with the same id and kind and the new value. */
  lemma InsertThenUpdate(st: EditorState, attrs: Attrs, value: string)
    requires st.Valid() && attrs.id != ""
    requires InsertOutcome(st, attrs, true).Dispatched?
    ensures var s1 := InsertOutcome(st, attrs, true).state;
            var r := UpdateOutcome(s1, attrs.id, value, true);
            && r == Dispatched(EditorState(s1.doc[st.cursor := Completion(attrs.(value := value))], st.cursor))
            && Completions(r.state.doc) == [attrs.(value := value)]
  {
    InsertLeavesOneCompletion(st, attrs);
    var s1 := InsertOutcome(st, attrs, true).state;
    var c := st.cursor;
    var base := Strip(st.doc, None);
    assert s1.doc == base[..c] + [Completion(attrs)] + base[c..];
    forall j | 0 <= j < |s1.doc| && j != c ensures !s1.doc[j].Completion? {
      if j < c {
        assert s1.doc[j] == base[j];
      } else {
        assert s1.doc[j] == base[j - 1];
      }
      assert !Removable(base[if j < c then j else j - 1], None);
    }
    UpdateOnlyCompletion(s1, attrs.id, value, c);
    ReplacedCompletionKeepsOthers(s1.doc, c, attrs.(value := value));
  }

  lemma ReplacedCompletionKeepsOthers(doc: Doc, i: nat, a: Attrs)
    requires i < |doc| && doc[i].Completion?
    requires Completions(doc) == [doc[i].attrs]
    ensures Completions(doc[i := Completion(a)]) == [a]
  {
    var d := doc[i := Completion(a)];
    CompletionsSplit(doc, i);
    CompletionsSplit(d, i);
    assert d[..i] == doc[..i] && d[i + 1..] == doc[i + 1..];
  }

  lemma ReplacedCompletionKeepsCount(doc: Doc, i: nat, a: Attrs)
    requires i < |doc| && doc[i].Completion?
    ensures |Completions(doc[i := Completion(a)])| == |Completions(doc)|
  {
    var d := doc[i := Completion(a)];
    CompletionsSplit(doc, i);
    CompletionsSplit(d, i);
    assert d[..i] == doc[..i] && d[i + 1..] == doc[i + 1..];
  }

  /** Every command keeps the document at no more than one completion. */
  lemma AtMostOneCompletionIsInvariant(st: EditorState, cmd: Command, canDispatch: bool)
    requires st.Valid() && |Completions(st.doc)| <= 1
    ensures var r := Run(st, cmd, canDispatch);
            r.Dispatched? ==> |Completions(r.state.doc)| <= 1
  {
    var r := Run(st, cmd, canDispatch);
    if r.Dispatched? {
      match cmd
      case Insert(attrs) =>
        InsertLeavesOneCompletion(st, attrs);
      case Update(id, value) =>
        var t := FindLast(st.doc, id).value;
        var base := Strip(st.doc, Some(id));
        var adjusted := |Strip(st.doc[..t], Some(id))|;
        StripKeepsFewerCompletions(st.doc, Some(id));
        ReplacedCompletionKeepsCount(base, adjusted, Attrs(st.doc[adjusted].attrs.id, value, st.doc[adjusted].attrs.kind));
      case Cancel(id) =>
        CancelDeletesOnlyTheNode(st, id, FindLast(st.doc, id).value);
      case Confirm(id) =>
        ConfirmMaterialisesValue(st, id, FindLast(st.doc, id).value);
    }
  }
}
