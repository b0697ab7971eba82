/**
 * The part of the editor's transaction that the completion commands use: a
 * working copy of the document and of the collapsed selection, changed step
 * by step (`delete`, `insert`, `replaceWith`, `setNodeMarkup`,
 * `setSelection`) before the whole transaction is dispatched.
 */
module Transactions {
  import opened CompletionNode

  /** What a command reads from the editor: the document and `selection.from`. */
  datatype EditorState = EditorState(doc: Doc, cursor: nat) {
    predicate Valid() {
      cursor <= |doc|
    }
  }

  /**
   * Where a position lands when the range [from, to) is replaced by
   * `inserted` items, mapped with association to the right, as a selection is:
   * a position at the start of a non-empty replaced range stays, a position
   * inside or at the end of it (or at the point of a pure insertion) moves
   * past the new content, and a later position shifts by the size change.
   */
  function MapPos(pos: nat, from: nat, to: nat, inserted: nat): (mapped: nat)
    requires from <= to
  {
    if pos < from then pos
    else if pos == from && from < to then pos
    else if pos <= to then from + inserted
    else pos - (to - from) + inserted
  }

  class Transaction {
    var doc: Doc
    var cursor: nat

    ghost predicate Valid()
      reads this
    {
      cursor <= |doc|
    }

    function State(): (st: EditorState)
      reads this
      requires Valid()
      ensures st.Valid()
    {
      EditorState(doc, cursor)
    }

    /** `state.tr`: a transaction that starts from the editor's state. */
    constructor (st: EditorState)
      requires st.Valid()
      ensures Valid() && doc == st.doc && cursor == st.cursor
    {
      doc := st.doc;
      cursor := st.cursor;
    }

    /** `tr.replaceWith(from, to, items)`; the selection is mapped through the step. */
    method Replace(from: nat, to: nat, items: Doc)
      requires Valid() && from <= to <= |doc|
      modifies this
      ensures Valid()
      ensures doc == old(doc)[..from] + items + old(doc)[to..]
      ensures cursor == MapPos(old(cursor), from, to, |items|)
    {
      cursor := MapPos(cursor, from, to, |items|);
      doc := doc[..from] + items + doc[to..];
    }

    /** `tr.delete(from, to)`. */
    method Delete(from: nat, to: nat)
      requires Valid() && from <= to <= |doc|
      modifies this
      ensures Valid()
      ensures doc == old(doc)[..from] + old(doc)[to..]
      ensures cursor == MapPos(old(cursor), from, to, 0)
    {
      Replace(from, to, []);
    }

    /**
     * `tr.insert(pos, item)`. A position past the end of the current
     * document makes the library throw; `ok` is false then and nothing changes.
     */
    method Insert(pos: nat, item: Item) returns (ok: bool)
      requires Valid()
      modifies this
      ensures Valid()
      ensures ok == (pos <= |old(doc)|)
      ensures ok ==> doc == old(doc)[..pos] + [item] + old(doc)[pos..]
      ensures ok ==> cursor == MapPos(old(cursor), pos, pos, 1)
      ensures !ok ==> doc == old(doc) && cursor == old(cursor)
    {
      ok := pos <= |doc|;
      if ok {
        Replace(pos, pos, [item]);
      }
    }

    /**
     * `tr.setNodeMarkup(pos, undefined, attrs)` on a leaf: the node at `pos`
     * is replaced by one of the same type with `attrs`. Only a completion node
     * can take completion attributes; at any other position the library
     * throws, `ok` is false and nothing changes.
     */
    method SetNodeMarkup(pos: nat, attrs: Attrs) returns (ok: bool)
      requires Valid()
      modifies this
      ensures Valid()
      ensures ok == (pos < |old(doc)| && old(doc)[pos].Completion?)
      ensures ok ==> doc == old(doc)[pos := Completion(attrs)]
      ensures !ok ==> doc == old(doc)
      ensures cursor == old(cursor)
    {
      ok := pos < |doc| && doc[pos].Completion?;
      if ok {
        ghost var before := doc;
        Replace(pos, pos + 1, [Completion(attrs)]);
        assert doc == before[pos := Completion(attrs)];
      }
    }

    /** `tr.setSelection(TextSelection.create(tr.doc, pos))`. */
    method SetSelection(pos: nat)
      requires Valid() && pos <= |doc|
      modifies this
      ensures Valid() && doc == old(doc) && cursor == pos
    {
      cursor := pos;
    }
  }
}
