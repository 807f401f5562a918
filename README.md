# Completion request coordination of an LSP client for Sublime Text

This project models the completion core of `plugin/completion.py`:

- `QueryCompletionsTask`, one completion cycle. It sends one completion
  request per attached language-server session and records each request id
  under a weak reference to its session. It forgets an id when that response
  arrives. When all responses are in, it merges them once. It can be cancelled
  at any time. Its callback fires at most once.
- The merge (`_resolve_completions_async`). Error responses are collected and
  dead sessions skipped. Each live session's entries are sorted stably by
  `sortText`, or by label when `sortText` is empty or missing. The sorted lists
  replace the process-wide resolve cache. Snippet entries are filtered by the
  view settings. The list-level flags are computed.
- `get_text_edit_range`: the choice between a plain `TextEdit` range and the
  `insert`/`replace` ranges of an LSP 3.16 `InsertReplaceEdit`, under the
  user's insert mode and the one-shot "opposite insert mode" flag.
- The commit-time helpers of `LspSelectCompletionItemCommand.run`: the text to
  insert, the snippet-or-plain decision, and `_translated_regions`, which copies
  the erased region onto every selection region.

Modules:

- `Wrappers` holds `Option`.
- `Protocol` holds the LSP response shapes.
- `EditRange` is `get_text_edit_range`.
- `Sorting` is the sort key and a stable sort.
- `ResponseMerge` is the merge as a pure fold over the responses, with its
  properties.
- `CompletionTask` holds the task class and the resolve cache class. Its merge
  loop is proved equal to the fold. `Run` drives any interleaving of events.
- `Commit` holds the commit helpers.

All methods of the task run on one thread. So concurrency is an arbitrary
sequence of method calls, and `Run` covers every such sequence. What a task
does outside itself is a ghost log `effects`, in the order it happens: each
firing of the callback is a `Deliver` effect and each `cancel_request` call a
`CancelRequest` effect. A weak session reference is a `SessionId`. It is
dereferenced in a map `live` of the sessions still alive. A live `Session`
carries its configuration name and whether it advertises
`completionProvider.resolveProvider`.

## Model

| member | source | states |
|---|---|---|
| `EditRange.GetTextEditRange` | plugin/completion.py:37-45 | A plain edit yields its `range`. An insert/replace pair yields `insert` exactly when (mode is `insert`) differs from (opposite mode active), and `replace` otherwise. |
| `EditRange.EffectiveMode` | plugin/completion.py:40-42 | The mode in force equals the preference if and only if opposite mode is inactive. |
| `EditRange.Opposite` | plugin/completion.py:42 | Flipping always changes the mode. |
| `EditRange.OppositeInvolution` | plugin/completion.py:42 | Flipping twice gives back the original mode. |
| `EditRange.OppositeModeSwapsRange` | plugin/completion.py:37-45 | Committing in opposite mode picks what the other preference picks, and vice versa. For a pair with distinct ranges, opposite mode picks a different range than a normal commit. |
| `Sorting.SortKey` | plugin/completion.py:119 | The key is `sortText` when it is present and non-empty, and the label otherwise. |
| `Sorting.SortEntries` | plugin/completion.py:119 | Sorting keeps the number of entries. |
| `Sorting.SortEntriesSortedPermutation` | plugin/completion.py:119 | The sorted list is in ascending lexicographic key order and is a permutation of the input. |
| `Sorting.SortEntriesStable` | plugin/completion.py:119 | Stability: for every key, the entries with that key appear in the same order as in the input. |
| `Sorting.SortEntriesSortedIdentity` | plugin/completion.py:119 | A list already in key order is returned unchanged. |
| `Sorting.InsertWithKey` | plugin/completion.py:119 | One insertion step adds the entry to its key's entries and leaves every other key's entries as they were. |
| `ResponseMerge.PrefFlags` | plugin/completion.py:96-101 | The starting flags hold `InhibitExplicitCompletions` exactly when `inhibit_snippet_completions` is set, and `InhibitWordCompletions` exactly when `inhibit_word_completions` is set. They hold nothing else. |
| `ResponseMerge.MergedFlags` | plugin/completion.py:96-128 | Both inhibit flags follow their preferences. `DynamicCompletions` is set exactly when some live, non-error response is a `CompletionList` with `isIncomplete`. `InhibitReorder` is set exactly when the delivered item list is non-empty. |
| `ResponseMerge.MergedErrors` | plugin/completion.py:105-108 | An error is collected exactly when some response is that error. |
| `ResponseMerge.MergedCache` | plugin/completion.py:93-120 | The cache starts empty. Afterwards it has an entry exactly for the names of live sessions with a non-error response. Each entry is the sorted entry list of the last such response for that name. A `null` response gives an empty list. |
| `ResponseMerge.MergedItemProvenance` | plugin/completion.py:103-126 | A row is delivered exactly when it is built from entry `k` of the sorted list of a live, non-error response and passes the snippet filter. The row carries `k`, the session's name and the session's resolve capability. |
| `ResponseMerge.SnippetsDeliveredOnlyWhenIncluded` | plugin/completion.py:103-104 | A delivered snippet-kind entry implies that `auto_complete_include_snippets` is set and that the trigger was manual or `auto_complete_include_snippets_when_typing` is set. |
| `ResponseMerge.MergeItemsAppend` | plugin/completion.py:105-126 | The items of the responses `a + b` are the items of `a` followed by the items of `b`. So items keep session order, and an error or a dead session does not abort the others. |
| `ResponseMerge.MergeItemsSingle` | plugin/completion.py:105-126 | An error or a dead session contributes no items. A live response contributes the rows of its sorted entries. |
| `ResponseMerge.EnumerateRowsMembers` | plugin/completion.py:123-126 | A session's rows are exactly its entries that pass the filter, each carrying its own position. |
| `ResponseMerge.EnumerateRowsOrdered` | plugin/completion.py:123-126 | Within a session, row indices strictly increase and stay inside the list, so the sorted order is kept. |
| `CompletionTask.DispatchedEntries` | plugin/completion.py:72-81 | After dispatch, the pending keys are the old keys plus the new ids. Each new id maps to the session of its last registration. Other entries are untouched. |
| `CompletionTask.ResolveCache.constructor` | plugin/completion.py:153 | The resolve cache starts empty. |
| `CompletionTask.QueryCompletionsTask.constructor` | plugin/completion.py:58-70 | A new task is unresolved, has no pending requests and has delivered nothing. |
| `CompletionTask.QueryCompletionsTask.CreateCompletionRequest` | plugin/completion.py:76-82 | The request id is registered under its session, and nothing else changes. |
| `CompletionTask.QueryCompletionsTask.QueryCompletions` | plugin/completion.py:72-74 | The pending map becomes the old map with every request registered in order. |
| `CompletionTask.QueryCompletionsTask.OnCompletionResponse` | plugin/completion.py:84-88 | The response's id leaves the pending map, all other entries stay, and the `(response, session)` pair is passed on. |
| `CompletionTask.DeliveriesAppend` | plugin/completion.py:145-148 | The callback firings of two effect logs joined are those of the first followed by those of the second. |
| `CompletionTask.CancelEffectsDeliverNothing` | plugin/completion.py:138-143 | Cancelling requests never fires the callback. |
| `CompletionTask.QueryCompletionsTask.ResolveTask` | plugin/completion.py:145-148 | The callback fires, as one `Deliver` effect at the end of the log, only if the task was unresolved. The task is resolved afterwards. |
| `CompletionTask.QueryCompletionsTask.ResolveCompletions` | plugin/completion.py:90-132 | If already resolved, the log and the cache are untouched and no errors are returned. Otherwise the log gains exactly one delivery of the merged items and flags, the cache becomes the merged cache, and the collected errors are returned. |
| `CompletionTask.QueryCompletionsTask.CancelPendingRequests` | plugin/completion.py:138-143 | `cancel_request` is called exactly once for each pending id whose session is alive, each call appended to the log as a cancel effect and none of them a delivery. The pending map is left empty. |
| `CompletionTask.QueryCompletionsTask.Cancel` | plugin/completion.py:134-136 | The log grows by the delivery of `([], no flags)` when the task was unresolved, followed by the cancel calls for the live sessions' pending requests. The task ends resolved with an empty pending map. |
| `CompletionTask.NextDelivery` | plugin/completion.py:52-53 | After one more event a delivery has been made exactly when one had been made before or the event is a join or a cancel. An earlier delivery is never replaced. |
| `CompletionTask.FirstDelivery` | plugin/completion.py:52-53 | A fresh task over a sequence of events has a delivery exactly when some event is a join or a cancel. |
| `CompletionTask.Apply` | plugin/completion.py:71-148 | One event resolves the task exactly when it is a join or a cancel, or the task was resolved. A resolved task's callback firings do not change. An unresolved task's log gains the delivery `NextDelivery` names, if any. |
| `CompletionTask.Run` | plugin/completion.py:52-56 | Under any interleaving of dispatch, response, join and cancel, the callback fires at most once. It has fired exactly when a join or cancel ran, or the task was already resolved. For a fresh task the one firing is `FirstDelivery`: the merge of the first join's responses, or `([], no flags)` when a cancel came first. |
| `Commit.TranslatedRegions` | plugin/completion.py:264-273 | One region is yielded per selection region, in reverse selection order. Each is the edit region shifted by that region's caret minus the primary caret. The primary region gets the edit region unchanged, and every region keeps the edit region's length. |
| `Commit.StripCarriageReturns` | plugin/completion.py:225 | The result has no carriage return and is no longer than the input. |
| `Commit.StripCarriageReturnsChar` | plugin/completion.py:225 | A lone carriage return is removed and any other lone character is kept. |
| `Commit.StripCarriageReturnsAppend` | plugin/completion.py:225 | Stripping a joined text is joining the stripped parts. With the one-character case this fixes the result: the kept characters stay in their order. |
| `Commit.StripCarriageReturnsMultiset` | plugin/completion.py:225-231 | Only carriage returns are removed. Every other character keeps its count. |
| `Commit.StripCarriageReturnsIdentity` | plugin/completion.py:225-231 | Text without carriage returns is left unchanged. |
| `Commit.NewText` | plugin/completion.py:223-231 | The inserted text is the edit's `newText` if there is an edit, else a non-empty `insertText`, else the label. Carriage returns are stripped. |
| `Commit.InsertionFor` | plugin/completion.py:232-235 | The entry is inserted as a snippet exactly when `insertTextFormat` is 2, and as plain characters by default. The inserted text is `NewText`. |
| `Commit.SelectCompletionItem` | plugin/completion.py:222-235 | Nothing is erased without an edit. With an edit, the chosen range's region is erased in every selection region, then the entry is inserted. |

## Left out

- scripts/format.py only runs the external formatters. It is not part of this model.
- The `Promise` chaining and `send_request_task_2` are not modelled. The request layer's ids are parameters of `QueryCompletions`. The join hands `ResolveCompletions` the settled pairs. When each event happens is the caller's choice in `Run`.
- Request ids are not assumed unique across sessions, just as in the source. Two sessions that return the same id share one pending entry, and the later one wins.
- `format_completion`, `text_document_position_params`, `Request.complete`, `session.has_capability` and `session.config.name` come from modules outside this file. A row records the arguments given to `format_completion`. A `Session` value holds the name and the capability.
- The `Completion error` status message is UI output. `ResolveCompletions` returns the collected errors instead.
- `LspResolveDocsCommand.run` and the popup rendering are left out: that is popup UI, markup conversion and a browser call. Only its `completions` cache is modelled, as `ResolveCache`.
- Buffer changes and commands are left out: `view.erase`, `insert`, `insert_snippet`, `lsp_apply_document_edit`, `lsp_execute`, the resolve request in `run` and `_on_resolved`. `SelectCompletionItem` returns the regions to erase and the insertion command as values.
- `LspCommitCompletionWithOppositeInsertMode.run` sets and clears a global around `commit_completion`, with no `try`/`finally`. The model takes the flag as a parameter and claims nothing about it being cleared when the command fails.
- EditRange.GetTextEditRange: only the two legal `completion_insert_mode` values are modelled. With any other string and opposite mode inactive, the source looks up a key that does not exist and returns `None`. With opposite mode active, any string other than `insert` becomes `insert`.
- Entries always have a label (`labelText`, since `label` is a Dafny keyword). An entry without one raises `KeyError` in the sort key only when its `sortText` is missing or empty, and in the commit fallback only when it has no edit and no non-empty `insertText`. The model excludes such entries by its types, and does not define behaviour for them.
- A `CompletionList` without an `items` key raises `KeyError` and is not modelled. `items: null` gives no entries.
- Flags are a set of an enumeration, not Sublime's bit values.
- CompletionTask.QueryCompletionsTask.CancelPendingRequests does not state the order of `cancel_request` calls. The source follows dictionary insertion order.
- Commit.TranslatedRegions computes every region before any is erased. The source's generator reads the live selection, so each later region is computed after the earlier erases have moved the carets. The results agree unless a translated region reaches back over an earlier caret.
- Commit.TranslatedRegions requires at least one selection region. With none, `selection[0]` raises `IndexError`, and the editor always has a caret when a completion is committed.
- The callback fires exactly once only after a join or a cancel has run. A session that never answers and is never cancelled leaves the callback unfired, as in the source.
