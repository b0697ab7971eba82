# Inline completion lifecycle of a ProseMirror editor

This project models the "ghost text" suggestion of an AI-assisted
ProseMirror/ProseKit editor and proves properties of that model. The model
has four parts:

- **The `completion` node and its four commands** (`CompletionNode`,
  `Transactions`, `CompletionCommands`, `CompletionProperties`).
  - The node is an atomic inline leaf `{id, value, kind}`.
  - It renders to `<span data-id data-completion>value</span>` and parses back from that span.
  - `insertCompletion`, `updateCompletion`, `cancelCompletion` and `confirmCompletion` each build a transaction step by step and dispatch it.
- **The editor object the hooks drive** (`Editors`). It holds the current state, runs commands, and dispatches the two plain transactions of the double-space gesture.
- **The lifecycle controller** (`StreamingCompletion`).
  - `currentCompletionId` decides whether a streamed assistant message inserts a suggestion or updates it.
  - `cancelCompletion` and `confirmCompletion` end the suggestion.
  - `trimQuotesFromStartAndEnd` unwraps one layer of quotes.
  - `traverseContext` and the doc-change guard keep the suggestion from asking for a completion of itself.
- **Two gesture layers.**
  - The double-space machine (`DoubleSpaceConfirmation`): on touch devices, one space opens a 300 ms window. A second space inside it confirms; the window running out cancels.
  - The example component (`CompletionExample`): Tab confirms; any other key, focus and blur cancel.

## How the model is built

**Document.** The document is a flat sequence of inline items: `Char(c)` or
`Completion(attrs)`. Every item has size one, so a position is an index.

**Commands.** A command is a method that:

1. reads `(state, dispatch)`;
2. creates a `Transaction` object (a working document plus the selection mapped through each step);
3. runs the same steps as the source;
4. reports `Rejected` (returned false), `Dispatched(state)` or `Raised` (the library would throw, or, for an insert past the end of the shrunk flat document, the flat model has no place for the node; see "Left out").

Each command method is proved equal to a specification function
(`InsertOutcome`, `UpdateOutcome`, `CancelOutcome`, `ConfirmOutcome`). The
properties are proved about those functions.

**Selection mapping.** The cursor follows ProseMirror's step mapping with
association to the right: `Transactions.MapPos`.

**Source behaviours the model keeps:**

- `removeCompletions` returns its list reversed, because `Array.prototype.reverse` works in place. `updateCompletion` therefore walks the removals last to first, which makes its position adjustment exact.
- `!excludeId` treats the empty string as "no id given".
- Returning `false` from a `descendants` callback does not stop the walk, so the lookup by id finds the LAST matching node.
- `insertCompletion` reads the insert position before the removals (`CompletionProperties.InsertLandsPastRemovedCompletion`, `CompletionProperties.InsertPastShrunkDocumentIsRaised`).
- `updateCompletion` reads `doc.nodeAt` in the pre-removal document at the post-removal position (`CompletionProperties.UpdateAdoptsRemovedNeighbour`, `CompletionProperties.UpdateThrowsOnTextNeighbour`).

**Inputs.** The clock, the device class, editor focus, the chat messages and
status, and whether a suggestion is pending are parameters of each step.
Callbacks the double-space hook is given come out as a list of calls.

**Where the design description differs, the model follows the code:**

- Insert places the node at the cursor position read before the removals, not necessarily at the cursor.
- Update can take `id` and `kind` from a removed neighbour, or throw.
- An id is "held" only when it is a non-empty string.
- Composing `input` events are skipped (a composed space or word is seen at `compositionend` instead).
- An update over a text node throws. An insert at a stale position past the end of the shrunk flat document is `Raised` in the model; the real editor wraps the node in a new paragraph there.

## Model

| member | source | states |
|---|---|---|
| CompletionNode.ToDOM | src/extensions/CompletionExtension.tsx:53-61 | the element is a `span` whose text is `value`, and parsing it gives back exactly the same `{id, value, kind}` |
| CompletionNode.LeafText | src/extensions/CompletionExtension.tsx:42 | the text a completion contributes to the document is its `value`, the same text its `span` shows |
| CompletionNode.ParseDOM | src/extensions/CompletionExtension.tsx:43-52 | only a `span` carrying `data-completion` matches; `value` is the text content, `kind` the `data-completion` attribute, `id` the `data-id` attribute or `""` when it is missing |
| CompletionNode.TextItems | src/extensions/CompletionExtension.tsx:220-224 | the text node for a string has one character item per character, and its text is the string |
| CompletionNode.TextContentAppend | src/extensions/CompletionExtension.tsx:42 | the document's text, with each completion contributing its `value` as leaf text, distributes over concatenation |
| CompletionNode.CompletionsAppend | src/extensions/CompletionExtension.tsx:92-98 | the completion nodes of a concatenation are those of each part, in document order |
| CompletionNode.NoCompletions | src/extensions/CompletionExtension.tsx:92-98 | the list of completion nodes is empty exactly when no item is a completion |
| Transactions.Transaction.Replace | src/extensions/CompletionExtension.tsx:220-224 | `replaceWith` puts the items in place of the range and maps the cursor through the step |
| Transactions.Transaction.Delete | src/extensions/CompletionExtension.tsx:101-103 | `delete` removes exactly the range and maps the cursor through the step |
| Transactions.Transaction.Insert | src/extensions/CompletionExtension.tsx:123 | `insert` succeeds exactly when the position is inside the current document, and then inserts the node there; otherwise nothing changes |
| Transactions.Transaction.SetNodeMarkup | src/extensions/CompletionExtension.tsx:161-164 | succeeds exactly when a completion node is at the position, and replaces only its attributes; the cursor does not move |
| Transactions.Transaction.SetSelection | src/extensions/CompletionExtension.tsx:126 | the cursor is set and the document is untouched |
| CompletionCommands.Strip | src/extensions/CompletionExtension.tsx:92-103 | what remains after the removals is no longer than the document and holds no removable completion |
| CompletionCommands.RemovableCases | src/extensions/CompletionExtension.tsx:93-94 | only completions are removed; with no `excludeId` or an empty one every completion is; with a non-empty one exactly the completions whose id differs |
| CompletionCommands.StripAppend | src/extensions/CompletionExtension.tsx:92-103 | removal works item by item: stripping a concatenation strips each part |
| CompletionCommands.StripUnchanged | src/extensions/CompletionExtension.tsx:92-103 | a document with nothing to remove is left exactly as it is |
| CompletionCommands.PositionsSpec | src/extensions/CompletionExtension.tsx:92-98 | the collected positions are in range, strictly increasing (document order), each at a removable completion, and every removable completion is collected |
| CompletionCommands.Gap | src/extensions/CompletionExtension.tsx:101-103 | between two consecutive collected positions no item is removable, so deleting last to first never shifts a position still to be deleted |
| CompletionCommands.DeleteStep | src/extensions/CompletionExtension.tsx:101-103 | deleting the next removal (going last to first) extends the stripped suffix by one item |
| CompletionCommands.ShiftStep | src/extensions/CompletionExtension.tsx:101-103 | each deletion moves a later position back by one and leaves an earlier one alone, as step mapping does |
| CompletionCommands.ShiftedAtStart | src/extensions/CompletionExtension.tsx:101-103 | once every removal is done, a position has moved to the number of kept items before it |
| CompletionCommands.RemovalStep | src/extensions/CompletionExtension.tsx:101-103 | one turn of the reversed deletion loop takes the partly stripped document to the one with the next earlier removable completion also gone |
| CompletionCommands.RemovalShift | src/extensions/CompletionExtension.tsx:101-103 | the same turn moves a mapped position back by one exactly when it lay after the deleted item |
| CompletionCommands.DeleteRemovals | src/extensions/CompletionExtension.tsx:101-103 | deleting the reversed removals one by one leaves the document without the removable completions and the cursor on the count of kept items before it |
| CompletionCommands.Reversed | src/extensions/CompletionExtension.tsx:101 | the in-place `reverse` keeps the length and puts item `k` at index `n-1-k` |
| CompletionCommands.CollectRemovable | src/extensions/CompletionExtension.tsx:90-98 | the `descendants` walk collects `{pos, size: 1}` for exactly the removable completions, in document order |
| CompletionCommands.RemoveCompletions | src/extensions/CompletionExtension.tsx:85-106 | the transaction's document becomes the document without the removable completions, the cursor lands on the count of kept items before it, and the returned list holds every removal, last position first |
| CompletionCommands.FindLast | src/extensions/CompletionExtension.tsx:138-143 | the result is a completion with that id and none comes after it; there is no result exactly when no completion has that id |
| CompletionCommands.FindCompletion | src/extensions/CompletionExtension.tsx:135-143 | the loop over the document yields the last matching position, or -1 |
| CompletionCommands.InsertOutcome | src/extensions/CompletionExtension.tsx:110-131 | false exactly without `dispatch`; `Raised` exactly when the cursor read before the removals lies past the end of the stripped flat document |
| CompletionCommands.UpdateOutcome | src/extensions/CompletionExtension.tsx:132-177 | false exactly when no completion has the id or there is no `dispatch` |
| CompletionCommands.CancelOutcome | src/extensions/CompletionExtension.tsx:178-200 | false exactly when no completion has the id or there is no `dispatch`; never throws |
| CompletionCommands.ConfirmOutcome | src/extensions/CompletionExtension.tsx:201-235 | false exactly when no completion has the id or there is no `dispatch`; never throws |
| CompletionCommands.DispatchedIsValid | src/extensions/CompletionExtension.tsx:126-228 | every dispatched state has its cursor inside its document |
| CompletionCommands.InsertCompletion | src/extensions/CompletionExtension.tsx:110-131 | the transaction-building method equals `InsertOutcome`, and a dispatched state is valid |
| CompletionCommands.AdjustTarget | src/extensions/CompletionExtension.tsx:152-156 | subtracting one for each removal before the target, over the reversed list, gives the number of kept items before the target |
| CompletionCommands.UpdateCompletion | src/extensions/CompletionExtension.tsx:132-177 | the transaction-building method equals `UpdateOutcome`, and a dispatched state is valid |
| CompletionCommands.CancelCompletion | src/extensions/CompletionExtension.tsx:178-200 | the transaction-building method equals `CancelOutcome`, and a dispatched state is valid |
| CompletionCommands.ConfirmCompletion | src/extensions/CompletionExtension.tsx:201-235 | the transaction-building method equals `ConfirmOutcome`, and a dispatched state is valid |
| CompletionProperties.CompletionsSplit | src/extensions/CompletionExtension.tsx:92-98 | the completions of a document are those before a position, the one at it if any, and those after it |
| CompletionProperties.StripKeepsFewerCompletions | src/extensions/CompletionExtension.tsx:92-103 | removing completions never adds one |
| CompletionProperties.StripAllLeavesNoCompletion | src/extensions/CompletionExtension.tsx:119 | with no id to exclude, no completion survives the removals |
| CompletionProperties.InsertLeavesOneCompletion | src/extensions/CompletionExtension.tsx:112-129 | a successful insert leaves exactly one completion, the new one with the given attrs, right at the unchanged cursor |
| CompletionProperties.InsertAtCursor | src/extensions/CompletionExtension.tsx:115-126 | with no completion before the cursor, the text before the cursor is kept, the node goes right after it, the cursor stays before the node, and only completions are dropped from the rest |
| CompletionProperties.InsertWithoutDispatch | src/extensions/CompletionExtension.tsx:112 | without `dispatch` the insert returns false and the state is unchanged |
| CompletionProperties.InsertLandsPastRemovedCompletion | src/extensions/CompletionExtension.tsx:115-123 | a completion removed before the cursor makes the new node land one item right of where the cursor was |
| CompletionProperties.InsertPastShrunkDocumentIsRaised | src/extensions/CompletionExtension.tsx:115-123 | a cursor at the end, behind a removed completion, is past the shrunk flat document, and the model reports `Raised` |
| CompletionProperties.InsertAfterFoo | src/extensions/CompletionExtension.tsx:115-126 | `"Foo "` with the cursor at 4: the node goes at 4 and the cursor stays at 4, before it |
| CompletionProperties.UpdateOnlyCompletion | src/extensions/CompletionExtension.tsx:159-171 | when the target is the only completion, only its `value` changes; `id`, `kind`, the rest of the document and the cursor are kept |
| CompletionProperties.UpdateRemovesOthers | src/extensions/CompletionExtension.tsx:145-171 | with no completion before the target, every other completion is deleted, the target keeps `id` and `kind` and gets the new value, and it is the only completion left; the cursor is kept when it was at or before the target |
| CompletionProperties.StripAroundTarget | src/extensions/CompletionExtension.tsx:149 | with nothing removable before the last match, stripping keeps the prefix and the target |
| CompletionProperties.StripNoMatchLeavesNoCompletion | src/extensions/CompletionExtension.tsx:94 | where no completion carries the id, removing every other id leaves no completion at all |
| CompletionProperties.UpdateAdoptsRemovedNeighbour | src/extensions/CompletionExtension.tsx:152-164 | `nodeAt` in the pre-removal document: the surviving node takes a removed neighbour's `id` and `kind` |
| CompletionProperties.UpdateThrowsOnTextNeighbour | src/extensions/CompletionExtension.tsx:152-164 | when a text character sits at the adjusted position of the pre-removal document, the update throws |
| CompletionProperties.NoIdLeft | src/extensions/CompletionExtension.tsx:184-194 | when the id is unique, deleting its node leaves no node with that id |
| CompletionProperties.CancelDeletesOnlyTheNode | src/extensions/CompletionExtension.tsx:184-198 | cancel deletes exactly the node's span: the other items keep their order, one completion fewer remains, and the cursor steps back only if it lay after the node |
| CompletionProperties.CancelTwiceIsNoOp | src/extensions/CompletionExtension.tsx:184-198 | with a unique id, a second cancel returns false |
| CompletionProperties.ConfirmMaterialisesValue | src/extensions/CompletionExtension.tsx:207-233 | confirm keeps the document's text, leaves the text before the node followed by the value just before the new cursor at `pos + value.length`, and removes one completion |
| CompletionProperties.ReplaceByTextKeepsText | src/extensions/CompletionExtension.tsx:220-227 | replacing the node by a text node of its value keeps the document's text and puts the value right before `pos + value.length` |
| CompletionProperties.ReplaceByTextDropsOneCompletion | src/extensions/CompletionExtension.tsx:220-224 | replacing the node by text removes exactly one completion |
| CompletionProperties.ConfirmTwiceIsNoOp | src/extensions/CompletionExtension.tsx:207-233 | with a unique id, a second confirm returns false |
| CompletionProperties.ConfirmLeavesNoId | src/extensions/CompletionExtension.tsx:207-233 | with a unique id, no node with that id is left after a confirm |
| CompletionProperties.InsertedIsFound | src/extensions/CompletionExtension.tsx:115-126 | after an insert with no completion before the cursor, the lookup by the new id finds it at the cursor, with the prefix kept and only completions dropped after it |
| CompletionProperties.InsertThenConfirm | src/extensions/CompletionExtension.tsx:110-235 | insert then confirm: the value becomes plain text at the cursor and the cursor sits right after it |
| CompletionProperties.InsertThenUpdate | src/extensions/CompletionExtension.tsx:110-177 | insert then update with the same id: exactly one completion, same `id` and `kind`, new value, cursor unchanged |
| CompletionProperties.ReplacedCompletionKeepsOthers | src/extensions/CompletionExtension.tsx:161-164 | rewriting the only completion's attributes leaves it the only completion |
| CompletionProperties.ReplacedCompletionKeepsCount | src/extensions/CompletionExtension.tsx:161-164 | rewriting a completion's attributes keeps the number of completions |
| CompletionProperties.AtMostOneCompletionIsInvariant | src/extensions/CompletionExtension.tsx:110-235 | every command keeps the document at no more than one completion |
| Editors.TextBefore | src/hooks/useDoubleSpaceConfirmation.ts:84 | `textBetween(from - 1, from)`: empty at the start, otherwise the text of the one item before the cursor: that character, or a completion's `value` |
| Editors.InsertTextState | src/hooks/useDoubleSpaceConfirmation.ts:28-33 | `insertText` puts the text in at the cursor, keeps what is on either side, and moves the cursor past the text |
| Editors.DeleteBeforeState | src/hooks/useDoubleSpaceConfirmation.ts:84-86 | deleting `[from - 1, from)` drops exactly that item and moves the cursor back by one |
| Editors.DeleteUndoesInsertSpace | src/hooks/useDoubleSpaceConfirmation.ts:28-33 | deleting a space just typed gives back the previous state |
| Editors.InsertSpaceRestoresDeleted | src/hooks/useDoubleSpaceConfirmation.ts:84-88 | typing a space again after deleting one gives back the state before the deletion |
| Editors.Editor.Execute | src/hooks/useStreamingCompletion.ts:73-83 | `editor.commands.<cmd>` runs the command with `dispatch`, and only a dispatched state replaces the current one |
| Editors.Editor.InsertText | src/hooks/useDoubleSpaceConfirmation.ts:28-33 | the editor's state becomes `InsertTextState` of the old one |
| Editors.Editor.DeleteBefore | src/hooks/useDoubleSpaceConfirmation.ts:84-86 | the editor's state becomes `DeleteBeforeState` of the old one |
| StreamingCompletion.TrimQuotesFromStartAndEnd | src/hooks/useStreamingCompletion.ts:10-16 | the first and last characters are dropped exactly when the same quote both starts and ends the string (a lone quote becomes `""`); otherwise the input is returned unchanged; never longer |
| StreamingCompletion.TrimUnwrapsOneLayer | src/hooks/useStreamingCompletion.ts:12-13 | a text wrapped in one quote pair comes back unwrapped |
| StreamingCompletion.TrimDoubledQuotes | src/hooks/useStreamingCompletion.ts:12-13 | only one layer goes: doubled quotes around `a` leave `"a"` |
| StreamingCompletion.TraverseContext | src/hooks/useStreamingCompletion.ts:26-34 | the result is empty or ends in a node without `content` |
| StreamingCompletion.TraverseDescends | src/hooks/useStreamingCompletion.ts:26-34 | the result lies on the path that follows last children down |
| StreamingCompletion.TraverseIsDeepestLastList | src/hooks/useStreamingCompletion.ts:26-34 | any list on that path that is empty or ends in a childless node is the result, so the result is the deepest last list |
| StreamingCompletion.HandleDocChange | src/hooks/useStreamingCompletion.ts:47-58 | no request when the deepest last list ends in a completion node; otherwise exactly one `user` message with the serialised document; a root without `content` throws |
| StreamingCompletion.TrailingCompletionAsksForNothing | src/hooks/useStreamingCompletion.ts:47-53 | a document whose last paragraph ends in the suggestion sends no request |
| StreamingCompletion.TrailingTextAsksOnce | src/hooks/useStreamingCompletion.ts:47-58 | a document whose last paragraph ends in text sends one request |
| StreamingCompletion.StreamCommand | src/hooks/useStreamingCompletion.ts:68-84 | a message id different from the current one inserts a `user` suggestion with the trimmed content; an equal id updates it with the trimmed content |
| StreamingCompletion.StreamActive | src/hooks/useStreamingCompletion.ts:62-67 | the effect acts exactly when there is a last message, it is from the assistant, the status is streaming and the editor is focused |
| StreamingCompletion.Held | src/hooks/useStreamingCompletion.ts:89 | `if (currentCompletionId)`: null and the empty string hold nothing; any non-empty id is held |
| StreamingCompletion.Apply | src/hooks/useStreamingCompletion.ts:73-83 | a command run through the editor leaves a valid state |
| StreamingCompletion.StreamStep | src/hooks/useStreamingCompletion.ts:60-86 | nothing happens unless the last message is the assistant's, the status is streaming and the editor is focused; otherwise the message id becomes the current id |
| StreamingCompletion.CancelStep | src/hooks/useStreamingCompletion.ts:88-93 | the id is always reset to null, and the document changes only when an id was held |
| StreamingCompletion.ConfirmStep | src/hooks/useStreamingCompletion.ts:95-100 | with an id held, the id is reset to null; with none, nothing changes |
| StreamingCompletion.Controller.OnStream | src/hooks/useStreamingCompletion.ts:60-86 | the effect, on the controller's fields and the editor, equals `StreamStep` |
| StreamingCompletion.Controller.CancelCompletion | src/hooks/useStreamingCompletion.ts:88-93 | the callback equals `CancelStep` |
| StreamingCompletion.Controller.ConfirmCompletion | src/hooks/useStreamingCompletion.ts:95-100 | the callback equals `ConfirmStep` |
| StreamingCompletion.FirstChunkShowsSuggestion | src/hooks/useStreamingCompletion.ts:68-77 | the first chunk of a new message leaves exactly one suggestion with its trimmed text, at the unchanged cursor, with the text before the cursor kept |
| StreamingCompletion.LaterChunkUpdatesSuggestion | src/hooks/useStreamingCompletion.ts:68-84 | a later chunk of the same message leaves exactly one suggestion, now with the latest trimmed text, and the cursor unmoved |
| StreamingCompletion.StreamThenConfirm | src/hooks/useStreamingCompletion.ts:68-100 | streaming and then confirming puts the trimmed text at the cursor, the cursor after it, and no id held |
| StreamingCompletion.StreamThenCancel | src/hooks/useStreamingCompletion.ts:68-93 | streaming and then cancelling leaves the document as before, less any other suggestion, with the cursor in place |
| StreamingCompletion.CancelRemovesPending | src/hooks/useStreamingCompletion.ts:88-93 | after a cancel, no node with the held (unique) id is left |
| StreamingCompletion.SessionKeepsAtMostOneCompletion | src/hooks/useStreamingCompletion.ts:60-100 | no streaming, cancel or confirm step leaves more than one suggestion in a document that had at most one |
| DoubleSpaceConfirmation.ClearPending | src/hooks/useDoubleSpaceConfirmation.ts:43-45 | `clearTimeout` on the ref leaves no live timeout |
| DoubleSpaceConfirmation.IsDoubleTap | src/hooks/useDoubleSpaceConfirmation.ts:36-38 | a press is a double tap exactly when it comes less than 300 ms after the last recorded space, a suggestion is pending and the device is mobile |
| DoubleSpaceConfirmation.TrimEmpty | src/hooks/useDoubleSpaceConfirmation.ts:89 | `trim()` gives the empty string exactly when every character is one that `trim` removes |
| DoubleSpaceConfirmation.Blank | src/hooks/useDoubleSpaceConfirmation.ts:89 | `data.trim() === ""` holds exactly when the data is made only of JavaScript whitespace |
| DoubleSpaceConfirmation.SpacePress | src/hooks/useDoubleSpaceConfirmation.ts:35-65 | a double tap confirms, clears the timeout, resets the time to 0 and types nothing; a single tap types one space, records the time, and leaves exactly one live timeout, due in 300 ms, holding the current `hasActiveCompletion` |
| DoubleSpaceConfirmation.KeyDown | src/hooks/useDoubleSpaceConfirmation.ts:68-73 | only a space with a pending suggestion on a touch device is prevented and handled; every other key leaves everything as it was |
| DoubleSpaceConfirmation.TypedSpace | src/hooks/useDoubleSpaceConfirmation.ts:79-88 | removing the typed space and handling the press keeps at most one live timeout |
| DoubleSpaceConfirmation.CompositionEnd | src/hooks/useDoubleSpaceConfirmation.ts:76-93 | inert without a pending suggestion or off touch devices; a composed space takes back the typed space and is handled as a press; non-blank data other than a space cancels; absent or blank data does nothing |
| DoubleSpaceConfirmation.Input | src/hooks/useDoubleSpaceConfirmation.ts:96-117 | inert without a pending suggestion, off touch devices, while composing, or for input types other than `insertText`; an inserted space takes back the typed space and is handled as a press; other non-empty inserted text cancels; absent or empty data does nothing |
| DoubleSpaceConfirmation.Tick | src/hooks/useDoubleSpaceConfirmation.ts:60-64 | at most one cancel fires, and it fires exactly when a live timeout is due whose captured `hasActiveCompletion` was true and the device is a touch device |
| DoubleSpaceConfirmation.Unmount | src/hooks/useDoubleSpaceConfirmation.ts:119-126 | no timeout is live and the ref is null afterwards |
| DoubleSpaceConfirmation.DoubleSpaceGesture.ClearTimeout | src/hooks/useDoubleSpaceConfirmation.ts:43-45 | the pending timeout is no longer live, and the refs are untouched |
| DoubleSpaceConfirmation.DoubleSpaceGesture.HandleSpacePress | src/hooks/useDoubleSpaceConfirmation.ts:35-65 | the refs, the timers and the editor change as `SpacePress` says, keeping at most one live timeout |
| DoubleSpaceConfirmation.DoubleSpaceGesture.OnKeyDown | src/hooks/useDoubleSpaceConfirmation.ts:68-73 | the handler equals `KeyDown` |
| DoubleSpaceConfirmation.DoubleSpaceGesture.RemoveTypedSpace | src/hooks/useDoubleSpaceConfirmation.ts:81-87 | the item before the cursor is deleted exactly when the text just before the cursor is a space |
| DoubleSpaceConfirmation.DoubleSpaceGesture.OnCompositionEnd | src/hooks/useDoubleSpaceConfirmation.ts:76-93 | the handler equals `CompositionEnd` |
| DoubleSpaceConfirmation.DoubleSpaceGesture.OnInput | src/hooks/useDoubleSpaceConfirmation.ts:96-117 | the handler equals `Input` |
| DoubleSpaceConfirmation.DoubleSpaceGesture.OnTick | src/hooks/useDoubleSpaceConfirmation.ts:60-64 | the timeout's callback equals `Tick` |
| DoubleSpaceConfirmation.DoubleSpaceGesture.OnUnmount | src/hooks/useDoubleSpaceConfirmation.ts:119-126 | the cleanup equals `Unmount` |
| DoubleSpaceConfirmation.QuickSecondTapConfirms | src/hooks/useDoubleSpaceConfirmation.ts:35-65 | a second tap inside the window confirms, the document keeps only the first tap's space, and no cancel can fire afterwards |
| DoubleSpaceConfirmation.LoneTapCancelsAfterWindow | src/hooks/useDoubleSpaceConfirmation.ts:51-64 | a lone tap cancels once its 300 ms are over, and not before |
| DoubleSpaceConfirmation.TimerUsesCapturedActive | src/hooks/useDoubleSpaceConfirmation.ts:60-63 | a timeout scheduled while a suggestion was pending still cancels after its window, even once the prop has turned false and a keydown in that state left the timer alone |
| DoubleSpaceConfirmation.TypedSpaceNetEffect | src/hooks/useDoubleSpaceConfirmation.ts:79-88 | a space typed by the input method stays after a single tap and is taken out on a double tap |
| DoubleSpaceConfirmation.NothingFiresAfterUnmount | src/hooks/useDoubleSpaceConfirmation.ts:119-126 | after an unmount no timeout fires |
| CompletionExample.KeyDownStep | src/components/ProseKitCompletionExample.tsx:33-40 | `preventDefault` exactly for Tab; afterwards no id is held; Tab with nothing held changes nothing |
| CompletionExample.FocusChangeStep | src/components/ProseKitCompletionExample.tsx:42-43 | focus or blur leaves no id held |
| CompletionExample.ProseMirrorEditor.OnKeyDown | src/components/ProseKitCompletionExample.tsx:33-40 | the handler equals `KeyDownStep` |
| CompletionExample.ProseMirrorEditor.OnFocus | src/components/ProseKitCompletionExample.tsx:42 | the handler equals `FocusChangeStep` |
| CompletionExample.ProseMirrorEditor.OnBlur | src/components/ProseKitCompletionExample.tsx:43 | the handler equals `FocusChangeStep` |
| CompletionExample.KeyDownEndsSuggestion | src/components/ProseKitCompletionExample.tsx:33-40 | every keydown ends a pending suggestion with a unique id: no id is held and no node with it is left |
| CompletionExample.TabAcceptsSuggestion | src/components/ProseKitCompletionExample.tsx:34-38 | Tab keeps the document's text and puts the suggestion's value just before the cursor |
| CompletionExample.OtherKeyDismissesSuggestion | src/components/ProseKitCompletionExample.tsx:39 | any other key deletes exactly the pending suggestion |
| CompletionExample.StreamThenKey | src/components/ProseKitCompletionExample.tsx:33-40 | a streamed suggestion followed by Tab becomes text at the cursor; followed by any other key it disappears |

## Left out

- The chat endpoint (src/app/api/chat/route.ts) and the language model: the stream is an input sequence of messages plus a chat status.
- `useChat`'s internals, and the 800 ms `useDebouncedCallback`: each debounced document change is one call of `HandleDocChange`.
- `jsonFromNode` and `JSON.stringify`: the JSON tree is an abstract `JsonNode`, and the serialised string is an input.
- `Date.now`, `setTimeout`, `window.matchMedia` plus the user-agent test in `isMobileDevice`, and `editor.focused`: they are the explicit inputs `now`, `mobile` and `focused`. The runtime firing a due timeout is the `OnTick` step.
- React state batching, closures over stale props between renders, and effect re-runs: each handler is one atomic step on explicit state.
- `useEditorEvent` listener registration, `useMobileKeyboard`, the explainer panel and the page markup.
- The document's tree shape (doc, paragraphs, text nodes and marks): the document is one flat run of inline items of size one. A position past a paragraph boundary, and `nodeAt` returning null, have no counterpart.
- CompletionCommands.InsertOutcome: an insert at a stale position past the end of the shrunk flat document is `Raised`. In the real tree that position is the last paragraph's closing boundary, where the library wraps the node in a new paragraph and the old suggestion is gone; the model instead leaves the session's document unchanged while the new id is held.
- The selection is a collapsed cursor (`selection.from`). The `to` end of a range selection is not modelled, so `insertText(" ")` never replaces a selected range and `setSelection` never collapses one.
- StreamingCompletion.Apply: a command that throws (`Raised`) leaves the editor state as it was and the controller carries on. In the program the exception propagates out of the React effect.
- Editors.Editor.Execute: absorbs `Raised` the same way, committing nothing.
- CompletionCommands.ConfirmOutcome: `schema.text("")` throws for an empty `value`. The model instead replaces the node with no text.
- CompletionCommands.ConfirmOutcome: `value.length` counts UTF-16 code units; the model counts characters, which differ for characters outside the Basic Multilingual Plane.
- Which of the two keydown listeners runs first when both the example component and the double-space hook are attached. The hook is not attached to the example editor, so each is modelled on its own.
- The order of streamed chunks across two overlapping requests: each step sees only the latest message list.
