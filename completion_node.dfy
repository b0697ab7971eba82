/**
 * The `completion` node of the editor schema: an atomic inline leaf that
 * carries `{id, value, kind}`, its rendering to a `<span>` and the rule that
 * parses it back. The document is modelled as a flat sequence of inline
 * items, each of size one, so that a document position is an index.
 */
module CompletionNode {
  import opened Options

  datatype Attrs = Attrs(id: string, value: string, kind: string)

  /** One position of the document: a character of text or a completion node. */
  datatype Item = Char(c: char) | Completion(attrs: Attrs)

  type Doc = seq<Item>

  /** A DOM element as the schema's `toDOM` writes it and `parseDOM` reads it. */
  datatype Element = Element(tag: string, attributes: map<string, string>, textContent: string)

  const DataId: string := "data-id"
  const DataCompletion: string := "data-completion"

  /** `dom.getAttribute(name) || ""`: a missing attribute reads as the empty string. */
  function AttributeOrEmpty(e: Element, name: string): (v: string) {
    if name in e.attributes then e.attributes[name] else ""
  }

  /** `toDOM`: `["span", {"data-id": id, "data-completion": kind}, value]`. */
  function ToDOM(a: Attrs): (e: Element)
    ensures e.tag == "span" && e.textContent == a.value
    ensures ParseDOM(e) == Some(a)
  {
    Element("span", map[DataId := a.id, DataCompletion := a.kind], a.value)
  }

  /**
   * `parseDOM`: the rule matches `span[data-completion]` only; `id` and
   * `kind` come from the two attributes and `value` from the text content.
   */
  function ParseDOM(e: Element): (r: Option<Attrs>)
    ensures r.Some? <==> e.tag == "span" && DataCompletion in e.attributes
    ensures r.Some? ==> r.value.value == e.textContent
    ensures r.Some? ==> r.value.kind == e.attributes[DataCompletion]
    ensures r.Some? && DataId !in e.attributes ==> r.value.id == ""
    ensures r.Some? && DataId in e.attributes ==> r.value.id == e.attributes[DataId]
  {
    if e.tag == "span" && DataCompletion in e.attributes then
      Some(Attrs(AttributeOrEmpty(e, DataId), e.textContent, AttributeOrEmpty(e, DataCompletion)))
    else
      None
  }

  /** `leafText`: the text a completion node contributes to the document's text is the text its span shows. */
  function LeafText(a: Attrs): (t: string)
    ensures t == ToDOM(a).textContent
  {
    a.value
  }

  function ItemText(it: Item): (t: string) {
    match it
    case Char(c) => [c]
    case Completion(a) => LeafText(a)
  }

  /** The document's text, as `textBetween` reads it over the whole document. */
  function TextContent(doc: Doc): (t: string) {
    if doc == [] then [] else ItemText(doc[0]) + TextContent(doc[1..])
  }

  lemma {:induction false} TextContentAppend(a: Doc, b: Doc)
    ensures TextContent(a + b) == TextContent(a) + TextContent(b)
  {
    if a != [] {
      assert (a + b)[1..] == a[1..] + b;
      TextContentAppend(a[1..], b);
    } else {
      assert a + b == b;
    }
  }

  lemma TextContentSingle(it: Item)
    ensures TextContent([it]) == ItemText(it)
  {
    assert [it][1..] == [];
  }

  /** The plain text items that `schema.text(s)` stands for in the flat model. */
  function TextItems(s: string): (r: Doc)
    ensures |r| == |s|
    ensures forall i :: 0 <= i < |r| ==> r[i] == Char(s[i])
    ensures TextContent(r) == s
  {
    if s == [] then [] else [Char(s[0])] + TextItems(s[1..])
  }

  /** The attributes of the document's completion nodes, in document order. */
  function Completions(doc: Doc): (r: seq<Attrs>)
    ensures |r| <= |doc|
  {
    if doc == [] then []
    else (if doc[0].Completion? then [doc[0].attrs] else []) + Completions(doc[1..])
  }

  lemma {:induction false} CompletionsAppend(a: Doc, b: Doc)
    ensures Completions(a + b) == Completions(a) + Completions(b)
  {
    if a != [] {
      assert (a + b)[1..] == a[1..] + b;
      CompletionsAppend(a[1..], b);
    } else {
      assert a + b == b;
    }
  }

  lemma {:induction false} NoCompletions(doc: Doc)
    ensures Completions(doc) == [] <==> forall i :: 0 <= i < |doc| ==> !doc[i].Completion?
  {
    if doc != [] {
      NoCompletions(doc[1..]);
      assert forall i :: 1 <= i < |doc| ==> doc[i] == doc[1..][i - 1];
    }
  }

  lemma CompletionsSingle(it: Item)
    ensures Completions([it]) == if it.Completion? then [it.attrs] else []
  {
    assert [it][1..] == [];
  }

  /** A completion between completion-free neighbours is the only one in the document. */
  lemma OnlyCompletionBetween(pre: Doc, a: Attrs, post: Doc)
    requires forall i :: 0 <= i < |pre| ==> !pre[i].Completion?
    requires Completions(post) == []
    ensures Completions(pre + [Completion(a)] + post) == [a]
  {
    NoCompletions(pre);
    CompletionsAppend(pre + [Completion(a)], post);
    CompletionsAppend(pre, [Completion(a)]);
    CompletionsSingle(Completion(a));
  }

  lemma TextItemsHaveNoCompletions(s: string)
    ensures Completions(TextItems(s)) == []
  {
    NoCompletions(TextItems(s));
  }
}
