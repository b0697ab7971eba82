/**
 * The four transactional completion commands and `removeCompletions`.
 * Each command is a method that reads `(state, dispatch)`, builds a
 * transaction step by step and reports what happened; each is proved equal
 * to a specification function on values, about which the properties of the
 * command set are proved.
 */
module CompletionCommands {
  import opened Options
  import opened CompletionNode
  import opened Transactions

  /** What running a command does to the editor. */
  datatype CommandResult =
    | Rejected                       // the command returned false and dispatched nothing
    | Dispatched(state: EditorState) // the command returned true and dispatched this state
    | Raised                         // building the transaction threw; nothing was dispatched

  /** The editor state after a command result is applied. */
  function Commit(st: EditorState, r: CommandResult): (next: EditorState) {
    if r.Dispatched? then r.state else st
  }

  /** One `{pos, size}` entry of the list `removeCompletions` returns. */
  datatype Removal = Removal(pos: nat, size: nat)

  // ---------------------------------------------------------------------------
  // Specification of removeCompletions

  /**
   * Whether `removeCompletions` deletes this item: every completion node,
   * except those whose id equals `excludeId` when `excludeId` is truthy
   * (an absent or empty `excludeId` excludes nothing).
   */
  predicate Removable(it: Item, excludeId: Option<string>) {
    it.Completion? && (excludeId.None? || excludeId.value == "" || it.attrs.id != excludeId.value)
  }

  /** Only completions are removed; an absent or empty `excludeId` removes all of them, a non-empty one exactly those with another id. */
  lemma RemovableCases(it: Item, excludeId: Option<string>)
    ensures Removable(it, excludeId) ==> it.Completion?
    ensures it.Completion? && (excludeId == None || excludeId == Some("")) ==> Removable(it, excludeId)
    ensures it.Completion? && excludeId.Some? && excludeId.value != "" ==>
              (Removable(it, excludeId) <==> it.attrs.id != excludeId.value)
  {
  }

  /** The document with every removable item taken out, the rest in order. */
  function Strip(doc: Doc, excludeId: Option<string>): (r: Doc)
    ensures |r| <= |doc|
    ensures forall i :: 0 <= i < |r| ==> !Removable(r[i], excludeId)
  {
    if doc == [] then []
    else (if Removable(doc[0], excludeId) then [] else [doc[0]]) + Strip(doc[1..], excludeId)
  }

  lemma {:induction false} StripAppend(a: Doc, b: Doc, excludeId: Option<string>)
    ensures Strip(a + b, excludeId) == Strip(a, excludeId) + Strip(b, excludeId)
  {
    if a == [] {
      assert a + b == b;
    } else {
      assert (a + b)[1..] == a[1..] + b;
      StripAppend(a[1..], b, excludeId);
    }
  }

  lemma {:induction false} StripUnchanged(doc: Doc, excludeId: Option<string>)
    requires forall i :: 0 <= i < |doc| ==> !Removable(doc[i], excludeId)
    ensures Strip(doc, excludeId) == doc
  {
    if doc != [] {
      assert forall i :: 0 <= i < |doc[1..]| ==> doc[1..][i] == doc[i + 1];
      StripUnchanged(doc[1..], excludeId);
    }
  }

  lemma StripSingle(it: Item, excludeId: Option<string>)
    ensures Strip([it], excludeId) == if Removable(it, excludeId) then [] else [it]
  {
    assert [it][1..] == [];
  }

  /** The positions of the removable items, in document order. */
  function Positions(doc: Doc, excludeId: Option<string>): (ps: seq<nat>) {
    if doc == [] then []
    else Positions(doc[..|doc| - 1], excludeId) + (if Removable(doc[|doc| - 1], excludeId) then [|doc| - 1] else [])
  }

  /** `Positions` lists exactly the removable items, in increasing order. */
  lemma PositionsSpec(doc: Doc, excludeId: Option<string>)
    ensures forall k :: 0 <= k < |Positions(doc, excludeId)| ==>
              Positions(doc, excludeId)[k] < |doc| && Removable(doc[Positions(doc, excludeId)[k]], excludeId)
    ensures forall k, k' :: 0 <= k < k' < |Positions(doc, excludeId)| ==>
              Positions(doc, excludeId)[k] < Positions(doc, excludeId)[k']
    ensures forall i :: 0 <= i < |doc| && Removable(doc[i], excludeId) ==> i in Positions(doc, excludeId)
  {
    PositionsRemovable(doc, excludeId);
    PositionsIncreasing(doc, excludeId);
    PositionsComplete(doc, excludeId);
  }

  lemma {:induction false} PositionsRemovable(doc: Doc, excludeId: Option<string>)
    ensures forall k :: 0 <= k < |Positions(doc, excludeId)| ==>
              Positions(doc, excludeId)[k] < |doc| && Removable(doc[Positions(doc, excludeId)[k]], excludeId)
  {
    if doc != [] {
      var init := doc[..|doc| - 1];
      PositionsRemovable(init, excludeId);
      var before := Positions(init, excludeId);
      var ps := Positions(doc, excludeId);
      assert ps == before + (if Removable(doc[|doc| - 1], excludeId) then [|doc| - 1] else []);
      forall k | 0 <= k < |ps|
        ensures ps[k] < |doc| && Removable(doc[ps[k]], excludeId)
      {
        if k < |before| {
          assert ps[k] == before[k] && init[before[k]] == doc[before[k]];
        }
      }
    }
  }

  lemma {:induction false} PositionsIncreasing(doc: Doc, excludeId: Option<string>)
    ensures forall k, k' :: 0 <= k < k' < |Positions(doc, excludeId)| ==>
              Positions(doc, excludeId)[k] < Positions(doc, excludeId)[k']
  {
    if doc != [] {
      var init := doc[..|doc| - 1];
      PositionsIncreasing(init, excludeId);
      PositionsRemovable(init, excludeId);
      var before := Positions(init, excludeId);
      var ps := Positions(doc, excludeId);
      assert ps == before + (if Removable(doc[|doc| - 1], excludeId) then [|doc| - 1] else []);
      forall k, k' | 0 <= k < k' < |ps|
        ensures ps[k] < ps[k']
      {
        if |before| <= k' {
          assert ps[k] == before[k] && before[k] < |init|;
        }
      }
    }
  }

  lemma {:induction false} PositionsComplete(doc: Doc, excludeId: Option<string>)
    ensures forall i :: 0 <= i < |doc| && Removable(doc[i], excludeId) ==> i in Positions(doc, excludeId)
  {
    if doc != [] {
      var init := doc[..|doc| - 1];
      var last := |doc| - 1;
      PositionsComplete(init, excludeId);
      var before := Positions(init, excludeId);
      var ps := Positions(doc, excludeId);
      assert ps == before + (if Removable(doc[last], excludeId) then [last] else []);
      forall i | 0 <= i < |doc| && Removable(doc[i], excludeId)
        ensures i in ps
      {
        if i < last {
          assert init[i] == doc[i] && i in before;
        } else {
          assert ps[|ps| - 1] == i;
        }
      }
    }
  }

  /** The position of the `m`-th removable item, or the end of the document. */
  function Bound(doc: Doc, ps: seq<nat>, m: nat): (b: nat) {
    if m < |ps| then ps[m] else |doc|
  }

  /** No removable item lies strictly between two consecutive positions. */
  lemma Gap(doc: Doc, excludeId: Option<string>, m: nat)
    requires m <= |Positions(doc, excludeId)|
    ensures Bound(doc, Positions(doc, excludeId), m) <= |doc|
    ensures forall i :: 0 <= i < Bound(doc, Positions(doc, excludeId), m) &&
                        (m == 0 || Positions(doc, excludeId)[m - 1] < i)
                        ==> !Removable(doc[i], excludeId)
  {
    PositionsSpec(doc, excludeId);
  }

  /**
   * Where a position `x` of the original document stands once every
   * removable item at or after `b` has been deleted.
   */
  ghost function Shifted(doc: Doc, excludeId: Option<string>, b: nat, x: nat): nat
    requires b <= |doc| && x <= |doc|
  {
    if x <= b then x else b + |Strip(doc[b..x], excludeId)|
  }

  /** Stripping from a removable item on drops it and keeps the run of non-removable items after it. */
  lemma StripPastRemovable(doc: Doc, excludeId: Option<string>, p: nat, b: nat)
    requires p < b <= |doc| && Removable(doc[p], excludeId)
    requires forall i :: p < i < b ==> !Removable(doc[i], excludeId)
    ensures Strip(doc[p..], excludeId) == doc[p + 1..b] + Strip(doc[b..], excludeId)
  {
    var mid := doc[p + 1..b];
    forall i | 0 <= i < |mid| ensures !Removable(mid[i], excludeId) {
      assert mid[i] == doc[p + 1 + i];
    }
    StripUnchanged(mid, excludeId);
    assert doc[p..] == [doc[p]] + (mid + doc[b..]);
    StripAppend([doc[p]], mid + doc[b..], excludeId);
    StripAppend(mid, doc[b..], excludeId);
    StripSingle(doc[p], excludeId);
  }

  /** Deleting the removable item at `p` extends the deleted suffix from `b` down to `p`. */
  lemma DeleteStep(doc: Doc, excludeId: Option<string>, p: nat, b: nat)
    requires p < b <= |doc| && Removable(doc[p], excludeId)
    requires forall i :: p < i < b ==> !Removable(doc[i], excludeId)
    ensures var d := doc[..b] + Strip(doc[b..], excludeId);
            p < |d| && d[..p] + d[p + 1..] == doc[..p] + Strip(doc[p..], excludeId)
  {
    StripPastRemovable(doc, excludeId, p, b);
    var tail := Strip(doc[b..], excludeId);
    var d := doc[..b] + tail;
    assert d[..p] == doc[..p];
    assert d[p + 1..] == doc[p + 1..b] + tail;
  }

  /** The same deletion, seen from a position: it moves back by one exactly when it lay after `p`. */
  lemma ShiftStep(doc: Doc, excludeId: Option<string>, p: nat, b: nat, x: nat)
    requires p < b <= |doc| && x <= |doc| && Removable(doc[p], excludeId)
    requires forall i :: p < i < b ==> !Removable(doc[i], excludeId)
    ensures Shifted(doc, excludeId, p, x) == MapPos(Shifted(doc, excludeId, b, x), p, p + 1, 0)
  {
    assert Strip([doc[p]], excludeId) == [];
    if p < x <= b {
      assert doc[p..x] == [doc[p]] + doc[p + 1..x];
      StripAppend([doc[p]], doc[p + 1..x], excludeId);
      StripUnchanged(doc[p + 1..x], excludeId);
    } else if b < x {
      assert doc[p..x] == doc[p..b] + doc[b..x];
      assert doc[p..b] == [doc[p]] + doc[p + 1..b];
      StripAppend(doc[p..b], doc[b..x], excludeId);
      StripAppend([doc[p]], doc[p + 1..b], excludeId);
      StripUnchanged(doc[p + 1..b], excludeId);
    }
  }

  /** Once the deleted suffix starts before the first removable item, everything removable is gone. */
  lemma ShiftedAtStart(doc: Doc, excludeId: Option<string>, b: nat, x: nat)
    requires b <= |doc| && x <= |doc|
    requires forall i :: 0 <= i < b ==> !Removable(doc[i], excludeId)
    ensures Shifted(doc, excludeId, b, x) == |Strip(doc[..x], excludeId)|
    ensures doc[..b] + Strip(doc[b..], excludeId) == Strip(doc, excludeId)
  {
    StripUnchanged(doc[..b], excludeId);
    if x <= b {
      StripUnchanged(doc[..x], excludeId);
    } else {
      assert doc[..x] == doc[..b] + doc[b..x];
      StripAppend(doc[..b], doc[b..x], excludeId);
    }
    assert doc == doc[..b] + doc[b..];
    StripAppend(doc[..b], doc[b..], excludeId);
  }

  /** The document once every removable item from the `m`-th on has been deleted. */
  ghost function Remaining(doc: Doc, excludeId: Option<string>, m: nat): Doc
    requires m <= |Positions(doc, excludeId)|
  {
    Gap(doc, excludeId, m);
    var b := Bound(doc, Positions(doc, excludeId), m);
    doc[..b] + Strip(doc[b..], excludeId)
  }

  /** Where position `x` stands in `Remaining(doc, excludeId, m)`. */
  ghost function CursorAfter(doc: Doc, excludeId: Option<string>, m: nat, x: nat): nat
    requires m <= |Positions(doc, excludeId)| && x <= |doc|
  {
    Gap(doc, excludeId, m);
    Shifted(doc, excludeId, Bound(doc, Positions(doc, excludeId), m), x)
  }

  /** Before the deletion loop nothing has moved; after it every removable item is gone. */
  lemma RemainingEnds(doc: Doc, excludeId: Option<string>, x: nat)
    requires x <= |doc|
    ensures Remaining(doc, excludeId, |Positions(doc, excludeId)|) == doc
    ensures CursorAfter(doc, excludeId, |Positions(doc, excludeId)|, x) == x
    ensures Remaining(doc, excludeId, 0) == Strip(doc, excludeId)
    ensures CursorAfter(doc, excludeId, 0, x) == |Strip(doc[..x], excludeId)|
  {
    assert doc[..|doc|] + Strip(doc[|doc|..], excludeId) == doc;
    Gap(doc, excludeId, 0);
    ShiftedAtStart(doc, excludeId, Bound(doc, Positions(doc, excludeId), 0), x);
  }

  /** One turn of the last-to-first deletion loop: deleting the `m`-th removable item, at `p`, takes `Remaining` from `m` to `m - 1`. */
  lemma RemovalStep(doc: Doc, excludeId: Option<string>, m: nat)
    requires 0 < m <= |Positions(doc, excludeId)|
    ensures var p := Positions(doc, excludeId)[m - 1];
            var d := Remaining(doc, excludeId, m);
            p < |d| && d[..p] + d[p + 1..] == Remaining(doc, excludeId, m - 1)
  {
    var ps := Positions(doc, excludeId);
    PositionsSpec(doc, excludeId);
    Gap(doc, excludeId, m);
    var p := ps[m - 1];
    var b := Bound(doc, ps, m);
    assert Bound(doc, ps, m - 1) == p;
    assert forall i :: p < i < b ==> !Removable(doc[i], excludeId);
    DeleteStep(doc, excludeId, p, b);
  }

  /** The same turn seen from a position `x`: it moves back by one exactly when it lay after `p`. */
  lemma RemovalShift(doc: Doc, excludeId: Option<string>, m: nat, x: nat)
    requires 0 < m <= |Positions(doc, excludeId)| && x <= |doc|
    ensures var p := Positions(doc, excludeId)[m - 1];
            var c := CursorAfter(doc, excludeId, m, x);
            CursorAfter(doc, excludeId, m - 1, x) == if p < c then c - 1 else c
  {
    var ps := Positions(doc, excludeId);
    PositionsSpec(doc, excludeId);
    Gap(doc, excludeId, m);
    var p := ps[m - 1];
    var b := Bound(doc, ps, m);
    assert Bound(doc, ps, m - 1) == p;
    assert forall i :: p < i < b ==> !Removable(doc[i], excludeId);
    ShiftStep(doc, excludeId, p, b, x);
  }



  function Reversed<T>(s: seq<T>): (r: seq<T>)
    ensures |r| == |s|
    ensures forall k :: 0 <= k < |s| ==> r[k] == s[|s| - 1 - k]
  {
    if s == [] then [] else Reversed(s[1..]) + [s[0]]
  }

  /**
   * The `doc.descendants` pass of `removeCompletions`: `{pos, size}` of every
   * removable completion, in document order.
   */
  method CollectRemovable(doc: Doc, excludeId: Option<string>) returns (collected: seq<Removal>)
    ensures |collected| == |Positions(doc, excludeId)|
    ensures forall k :: 0 <= k < |collected| ==> collected[k] == Removal(Positions(doc, excludeId)[k], 1)
  {
    collected := [];
    var i := 0;
    while i < |doc|
      invariant 0 <= i <= |doc|
      invariant |collected| == |Positions(doc[..i], excludeId)|
      invariant forall k :: 0 <= k < |collected| ==> collected[k] == Removal(Positions(doc[..i], excludeId)[k], 1)
    {
      assert doc[..i + 1][..i] == doc[..i];
      if Removable(doc[i], excludeId) {
        collected := collected + [Removal(i, 1)];
      }
      i := i + 1;
    }
    assert doc[..|doc|] == doc;
  }

  /**
   * `removeCompletions(tr, doc, excludeId)`: collects `{pos, size}` of every
   * removable completion in document order, reverses that array in place,
   * deletes the entries from the transaction in that (last-to-first) order
   * and returns the reversed array.
   */
  method RemoveCompletions(tr: Transaction, doc: Doc, excludeId: Option<string>) returns (removed: seq<Removal>)
    requires tr.Valid() && tr.doc == doc
    modifies tr
    ensures tr.Valid()
    ensures tr.doc == Strip(doc, excludeId)
    ensures tr.cursor == |Strip(doc[..old(tr.cursor)], excludeId)|
    ensures |removed| == |Positions(doc, excludeId)|
    ensures forall k :: 0 <= k < |removed| ==>
              removed[k] == Removal(Positions(doc, excludeId)[|removed| - 1 - k], 1)
  {
    var collected := CollectRemovable(doc, excludeId);
    removed := Reversed(collected);
    DeleteRemovals(tr, doc, excludeId, removed);
  }

  /** The `forEach` that deletes each reversed `{pos, size}` from the transaction. */
  method DeleteRemovals(tr: Transaction, doc: Doc, excludeId: Option<string>, removed: seq<Removal>)
    requires tr.Valid() && tr.doc == doc
    requires |removed| == |Positions(doc, excludeId)|
    requires forall k :: 0 <= k < |removed| ==>
               removed[k] == Removal(Positions(doc, excludeId)[|removed| - 1 - k], 1)
    modifies tr
    ensures tr.Valid()
    ensures tr.doc == Strip(doc, excludeId)
    ensures tr.cursor == |Strip(doc[..old(tr.cursor)], excludeId)|
  {
    ghost var n := |Positions(doc, excludeId)|;
    ghost var c0 := tr.cursor;
    RemainingEnds(doc, excludeId, c0);
    var k := 0;
    while k < |removed|
      invariant 0 <= k <= n
      invariant tr.Valid()
      invariant tr.doc == Remaining(doc, excludeId, n - k)
      invariant tr.cursor == CursorAfter(doc, excludeId, n - k, c0)
    {
      ghost var m := n - k;
      var p := removed[k].pos;
      assert removed[k] == Removal(Positions(doc, excludeId)[m - 1], 1);
      RemovalStep(doc, excludeId, m);
      RemovalShift(doc, excludeId, m, c0);
      tr.Delete(p, p + removed[k].size);
      k := k + 1;
      assert n - k == m - 1;
    }
  }

  // ---------------------------------------------------------------------------
  // Finding a completion by id

  predicate IsCompletionWithId(it: Item, id: string) {
    it.Completion? && it.attrs.id == id
  }

  /**
   * The position the `doc.descendants` scan leaves behind: the callback
   * overwrites it at every completion with the id (its `return false` only
   * skips the children of a leaf), so the last match wins.
   */
  function FindLast(doc: Doc, id: string): (r: Option<nat>)
    ensures r.Some? ==> r.value < |doc| && IsCompletionWithId(doc[r.value], id)
    ensures r.Some? ==> forall j :: r.value < j < |doc| ==> !IsCompletionWithId(doc[j], id)
    ensures r.None? <==> forall j :: 0 <= j < |doc| ==> !IsCompletionWithId(doc[j], id)
  {
    if doc == [] then None
    else if IsCompletionWithId(doc[|doc| - 1], id) then Some(|doc| - 1)
    else FindLast(doc[..|doc| - 1], id)
  }

  function PosOrMinusOne(r: Option<nat>): (pos: int) {
    if r.Some? then r.value else -1
  }

  /** The scan shared by the update, cancel and confirm commands; -1 when no node has the id. */
  method FindCompletion(doc: Doc, id: string) returns (pos: int)
    ensures pos == PosOrMinusOne(FindLast(doc, id))
  {
    pos := -1;
    var i := 0;
    while i < |doc|
      invariant 0 <= i <= |doc|
      invariant pos == PosOrMinusOne(FindLast(doc[..i], id))
    {
      assert doc[..i + 1][..i] == doc[..i];
      if doc[i].Completion? && doc[i].attrs.id == id {
        pos := i;
      }
      i := i + 1;
    }
    assert doc[..|doc|] == doc;
  }

  // ---------------------------------------------------------------------------
  // What each command does, as a function of the state it reads

  /**
   * `insertCompletion(attrs)`: without `dispatch`, false. Otherwise every
   * completion is removed and the new node is inserted at the cursor position
   * read BEFORE the removals; the cursor is set back to that position. A
   * stale position past the end of the shrunk flat document is `Raised`: in
   * the editor's real tree that position is the closing boundary of the
   * paragraph, where the library wraps the node in a new paragraph instead,
   * and the flat document has no place for that.
   */
  function InsertOutcome(st: EditorState, attrs: Attrs, canDispatch: bool): (r: CommandResult)
    requires st.Valid()
    ensures r.Rejected? <==> !canDispatch
    ensures r.Raised? <==> canDispatch && st.cursor > |Strip(st.doc, None)|
  {
    if !canDispatch then Rejected
    else
      var base := Strip(st.doc, None);
      if st.cursor <= |base| then
        Dispatched(EditorState(base[..st.cursor] + [Completion(attrs)] + base[st.cursor..], st.cursor))
      else
        Raised
  }

  /**
   * `updateCompletion(id, value)`: false when no completion has the id or
   * there is no `dispatch`. Otherwise the other completions are removed, the
   * target's position is moved back by one for each removal before it, and
   * the node at that adjusted position is rewritten with `value`, taking
   * `id` and `kind` from `doc.nodeAt(adjusted)` in the document as it was
   * BEFORE the removals. A text node there (no `id` attribute) or no
   * completion at the adjusted position of the new document makes the
   * library throw. The cursor is set back to `selection.from` when that is at
   * or before the adjusted position, and otherwise keeps its mapped place.
   */
  function UpdateOutcome(st: EditorState, id: string, value: string, canDispatch: bool): (r: CommandResult)
    requires st.Valid()
    ensures r.Rejected? <==> FindLast(st.doc, id).None? || !canDispatch
  {
    match FindLast(st.doc, id)
    case None => Rejected
    case Some(t) =>
      if !canDispatch then Rejected
      else
        var base := Strip(st.doc, Some(id));
        var adjusted := |Strip(st.doc[..t], Some(id))|;
        match st.doc[adjusted]
        case Char(_) => Raised
        case Completion(a) =>
          if adjusted < |base| && base[adjusted].Completion? then
            var cursor := if st.cursor <= adjusted then st.cursor else |Strip(st.doc[..st.cursor], Some(id))|;
            Dispatched(EditorState(base[adjusted := Completion(Attrs(a.id, value, a.kind))], cursor))
          else
            Raised
  }

  /** `cancelCompletion(id)`: deletes the node's span `[pos, pos + 1)`; false when no node has the id. */
  function CancelOutcome(st: EditorState, id: string, canDispatch: bool): (r: CommandResult)
    requires st.Valid()
    ensures r.Rejected? <==> FindLast(st.doc, id).None? || !canDispatch
    ensures !r.Raised?
  {
    match FindLast(st.doc, id)
    case None => Rejected
    case Some(p) =>
      if !canDispatch then Rejected
      else Dispatched(EditorState(st.doc[..p] + st.doc[p + 1..], MapPos(st.cursor, p, p + 1, 0)))
  }

  /**
   * `confirmCompletion(id)`: replaces the node's span with plain text equal
   * to its `value` and puts the cursor at `pos + value.length`; false when
   * no node has the id.
   */
  function ConfirmOutcome(st: EditorState, id: string, canDispatch: bool): (r: CommandResult)
    requires st.Valid()
    ensures r.Rejected? <==> FindLast(st.doc, id).None? || !canDispatch
    ensures !r.Raised?
  {
    match FindLast(st.doc, id)
    case None => Rejected
    case Some(p) =>
      if !canDispatch then Rejected
      else
        var value := st.doc[p].attrs.value;
        Dispatched(EditorState(st.doc[..p] + TextItems(value) + st.doc[p + 1..], p + |value|))
  }

  datatype Command = Insert(attrs: Attrs) | Update(id: string, value: string) | Cancel(id: string) | Confirm(id: string)

  function Run(st: EditorState, cmd: Command, canDispatch: bool): (r: CommandResult)
    requires st.Valid()
  {
    match cmd
    case Insert(attrs) => InsertOutcome(st, attrs, canDispatch)
    case Update(id, value) => UpdateOutcome(st, id, value, canDispatch)
    case Cancel(id) => CancelOutcome(st, id, canDispatch)
    case Confirm(id) => ConfirmOutcome(st, id, canDispatch)
  }

  /** Every dispatched state keeps the cursor inside its document. */
  lemma DispatchedIsValid(st: EditorState, cmd: Command, canDispatch: bool)
    requires st.Valid()
    ensures Run(st, cmd, canDispatch).Dispatched? ==> Run(st, cmd, canDispatch).state.Valid()
  {
    if cmd.Update? && Run(st, cmd, canDispatch).Dispatched? && st.cursor > |Strip(st.doc[..FindLast(st.doc, cmd.id).value], Some(cmd.id))| {
      assert st.doc == st.doc[..st.cursor] + st.doc[st.cursor..];
      StripAppend(st.doc[..st.cursor], st.doc[st.cursor..], Some(cmd.id));
    }
  }

  // ---------------------------------------------------------------------------
  // The commands, transaction by transaction

  method InsertCompletion(st: EditorState, attrs: Attrs, canDispatch: bool) returns (r: CommandResult)
    requires st.Valid()
    ensures r == InsertOutcome(st, attrs, canDispatch)
    ensures r.Dispatched? ==> r.state.Valid()
  {
    if !canDispatch {
      return Rejected;
    }
    var currentPos := st.cursor;
    var tr := new Transaction(st);
    var removed := RemoveCompletions(tr, st.doc, None);
    var inserted := tr.Insert(currentPos, Completion(attrs));
    if !inserted {
      return Raised;
    }
    tr.SetSelection(currentPos);
    r := Dispatched(tr.State());
  }

  /**
   * The `removedCompletions.forEach` loop of `updateCompletion`: walking the
   * removals last-to-first, the target position drops by a removal's size
   * whenever that removal lies before the (already decremented) target.
   * The result is the target's position once the removals are applied.
   */
  method AdjustTarget(doc: Doc, excludeId: Option<string>, removed: seq<Removal>, target: nat) returns (adjusted: nat)
    requires target <= |doc|
    requires |removed| == |Positions(doc, excludeId)|
    requires forall k :: 0 <= k < |removed| ==>
               removed[k] == Removal(Positions(doc, excludeId)[|removed| - 1 - k], 1)
    ensures adjusted == |Strip(doc[..target], excludeId)|
  {
    ghost var n := |Positions(doc, excludeId)|;
    assert CursorAfter(doc, excludeId, n, target) == target by {
      RemainingEnds(doc, excludeId, target);
    }
    adjusted := target;
    var k := 0;
    while k < |removed|
      invariant 0 <= k <= n
      invariant adjusted == CursorAfter(doc, excludeId, n - k, target)
    {
      ghost var m := n - k;
      assert removed[k] == Removal(Positions(doc, excludeId)[m - 1], 1);
      assert CursorAfter(doc, excludeId, m - 1, target) == if removed[k].pos < adjusted then adjusted - 1 else adjusted by {
        RemovalShift(doc, excludeId, m, target);
      }
      if removed[k].pos < adjusted {
        adjusted := adjusted - removed[k].size;
      }
      k := k + 1;
      assert n - k == m - 1;
    }
    assert adjusted == |Strip(doc[..target], excludeId)| by {
      RemainingEnds(doc, excludeId, target);
    }
  }

  method UpdateCompletion(st: EditorState, id: string, value: string, canDispatch: bool) returns (r: CommandResult)
    requires st.Valid()
    ensures r == UpdateOutcome(st, id, value, canDispatch)
    ensures r.Dispatched? ==> r.state.Valid()
  {
    var targetPos := FindCompletion(st.doc, id);
    if targetPos == -1 || !canDispatch {
      return Rejected;
    }
    var tr := new Transaction(st);
    var removed := RemoveCompletions(tr, st.doc, Some(id));
    targetPos := AdjustTarget(st.doc, Some(id), removed, targetPos);

    // `doc.nodeAt` reads the document as it was before the removals
    var currentNode := st.doc[targetPos];
    match currentNode
    case Char(_) =>
      return Raised;
    case Completion(a) =>
      var ok := tr.SetNodeMarkup(targetPos, Attrs(a.id, value, a.kind));
      if !ok {
        return Raised;
      }
      if st.cursor <= targetPos {
        tr.SetSelection(st.cursor);
      }
      r := Dispatched(tr.State());
  }

  method CancelCompletion(st: EditorState, id: string, canDispatch: bool) returns (r: CommandResult)
    requires st.Valid()
    ensures r == CancelOutcome(st, id, canDispatch)
    ensures r.Dispatched? ==> r.state.Valid()
  {
    var completionPos := FindCompletion(st.doc, id);
    if completionPos != -1 && canDispatch {
      var nodeSize := 1;
      var tr := new Transaction(st);
      tr.Delete(completionPos, completionPos + nodeSize);
      return Dispatched(tr.State());
    }
    return Rejected;
  }

  method ConfirmCompletion(st: EditorState, id: string, canDispatch: bool) returns (r: CommandResult)
    requires st.Valid()
    ensures r == ConfirmOutcome(st, id, canDispatch)
    ensures r.Dispatched? ==> r.state.Valid()
  {
    var completionPos := FindCompletion(st.doc, id);
    if completionPos != -1 && canDispatch {
      var nodeSize := 1;
      var completionValue := st.doc[completionPos].attrs.value;
      var tr := new Transaction(st);
      tr.Replace(completionPos, completionPos + nodeSize, TextItems(completionValue));
      var newCursorPos := completionPos + |completionValue|;
      tr.SetSelection(newCursorPos);
      return Dispatched(tr.State());
    }
    return Rejected;
  }
}
