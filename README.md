# JavaScript Injector: a Dafny model of the Safari action extension

JavaScript Injector is a Safari action extension for iOS. The user types JavaScript in an editor and the extension
hands it back to Safari, which runs it in the page. The editor offers a catalog of built-in code snippets, read from
the bundled text file `CodeSnippets.js`. Code can be saved under a name in the user defaults, and a table lists the
saved code for loading and deleting.

This project models the extension's two view controllers and the data they handle:

- `optional.dfy` (module `Optional`): Swift optionals and `??`.
- `text_split.dfy` (module `TextSplit`): Foundation's `components(separatedBy:)` on a non-empty separator.
  - The text is scanned left to right, occurrences do not overlap, and there is always at least one component.
  - `Join` is its inverse, with the conditions under which splitting a joined list gives the list back.
- `string_order.dfy` (module `StringOrder`): the order Swift's `sorted()` puts strings in, and a dictionary's keys in
  ascending order.
- `code_snippets.dfy` (module `CodeSnippets`): the snippet catalog.
  - The resource is split on `"\n\n// MARK: "`, the header is skipped, and each record is split on `".\n"` into a name
    (component 0) and code (component 1).
  - A record with no `".\n"` makes component 1 out of range. The model does not crash there: it records the trap's
    index.
  - The bundled `CodeSnippets.js` is written out as its header and eight snippets, and is proved to parse into them.
- `host_bridge.dfy` (module `HostBridge`): what passes between the extension and Safari.
  - In: the page title and address from the preprocessing results.
  - Out: the finalize argument `{"code": text}`, with its fallback.
- `saved_code_store.dfy` (module `SavedCodeStore`): the saved-code dictionary.
  - Loading it from and persisting it to the user defaults under `"code"`.
  - Inserting and removing entries.
  - The three-way decision on a request to save under a name.
- `saved_code_list.dfy` (module `SavedCodeList`): the table's invariant. Its row labels are the dictionary's keys,
  each once, in ascending order. The module shows what a delete does to that invariant.
- `extension.dfy` (module `Extension`): the classes `ActionViewController` and `SavedCodeTableViewController`.
  - Their stored properties are fields, and their actions are methods that update them.
  - The user's answer to a confirmation alert is a `bool` parameter.
  - The text typed into the name field is an `Option<string>`.
  - The user defaults are the field `defaults`, and each completion of the extension request is appended to
    `completions`.

## Model

| member | source | states |
|---|---|---|
| TextSplit.IndexOf | Extension/ActionViewController.swift:75 | an index it returns is where the separator occurs |
| TextSplit.IndexOfFirst | Extension/ActionViewController.swift:75 | that occurrence is the first, with none before it; `None` only when the text is free of the separator |
| TextSplit.Components | Extension/ActionViewController.swift:75 | at least one component |
| TextSplit.SingleComponent | Extension/ActionViewController.swift:75 | exactly one component when the separator does not occur |
| TextSplit.JoinComponents | Extension/ActionViewController.swift:75 | joining the components with the separator gives back the text: splitting loses nothing |
| TextSplit.ComponentsFree | Extension/ActionViewController.swift:79 | no component contains the separator |
| TextSplit.ComponentsJoin | Extension/ActionViewController.swift:75 | splitting a join gives back the parts, when every part but the last is unambiguous before the separator and the last is free of it |
| CodeSnippets.SnippetOf | Extension/ActionViewController.swift:79-80 | no snippet exactly when the record has no ".\n"; otherwise the name is the record's text up to its first ".\n" (the code is stated by SnippetOfSplitsAtTerminators) |
| CodeSnippets.SnippetOfComponents | Extension/ActionViewController.swift:79-80 | a record reads as `CodeSnippet(components[0], components[1])` of its split on ".\n", and traps exactly when there is no component 1 |
| CodeSnippets.SnippetOfFails | Extension/ActionViewController.swift:80 | a record traps exactly when it holds no ".\n" |
| CodeSnippets.SnippetOfSplitsAtTerminators | Extension/ActionViewController.swift:79-80 | the code is the text after the first ".\n" (where the name ends), up to the second ".\n" or the end, and holds no ".\n" |
| CodeSnippets.SnippetDropsTrailer | Extension/ActionViewController.swift:79-80 | text after a second ".\n" in a record is silently dropped |
| CodeSnippets.RecordRoundTrip | Extension/ActionViewController.swift:79-80 | a record `name + ".\n" + code` reads back as the snippet, when the name is unambiguous and the code holds no ".\n" |
| CodeSnippets.ParseFrom | Extension/ActionViewController.swift:77-83 | one snippet per record when nothing traps; on a trap, one per record before the trapping one |
| CodeSnippets.ParseFromReads | Extension/ActionViewController.swift:77-83 | the k-th snippet appended is what record `index + k` reads as: records are taken in source order |
| CodeSnippets.ParseFromReadsAt | Extension/ActionViewController.swift:77-83 | record j, from `index` on, reads as snippet `j - index` of the parse, for every snippet the parse holds |
| CodeSnippets.ParseFromComponents | Extension/ActionViewController.swift:79-81 | one turn of the loop: a record with fewer than two components traps with the snippets appended so far; otherwise its components 0 and 1 are appended and the parse resumes at the next record |
| CodeSnippets.ParseFromTraps | Extension/ActionViewController.swift:77-83 | the loop traps exactly when some record does not read, and the trapping record is one that does not read |
| CodeSnippets.ParseCatalog | Extension/ActionViewController.swift:75-83 | fewer snippets than segments; without a trap, exactly one per segment after the header |
| CodeSnippets.ParseCatalogReads | Extension/ActionViewController.swift:77-81 | the header never becomes a snippet: snippet k is segment k + 1 read as a snippet |
| CodeSnippets.ParseCatalogTraps | Extension/ActionViewController.swift:78-80 | the parse traps exactly when a segment after the header holds no ".\n", and then at the first such segment |
| CodeSnippets.ParseRender | Extension/ActionViewController.swift:75-83 | a resource written as a header plus records, with no separator hidden in any part, parses back into exactly its snippets without trapping |
| CodeSnippets.PlainCatalogWellFormed | Extension/CodeSnippets.js:1-33 | a one-line header with snippets whose names are single lines and whose texts lack ':' and ".\n" makes a resource that parses back |
| CodeSnippets.BundledCatalogParses | Extension/CodeSnippets.js:1-33 | the bundled resource parses without a trap into its eight snippets, the first `("window.alert()", "alert(message);")` |
| StringOrder.SortedKeys | Extension/SavedCodeTableViewController.swift:21 | `Array(keys).sorted()`: strictly ascending, the same elements as the key set, as many as there are keys |
| StringOrder.SortedUnique | Extension/SavedCodeTableViewController.swift:21 | two strictly ascending lists with the same elements are equal |
| HostBridge.StringOrEmpty | Extension/ActionViewController.swift:59-60 | `as? String ?? ""`: the entry when it is a string; "" when it is absent or not a string |
| HostBridge.PageContextOf | Extension/ActionViewController.swift:56-60 | a context exactly when the item is a dictionary whose preprocessing-results entry is a dictionary; then title and URL are the string entries, "" when absent or not strings |
| HostBridge.FinalizeArgumentFor | Extension/ActionViewController.swift:166 | the argument has the single key "code"; its value is the text when there is one, the fallback only when there is none |
| HostBridge.FinalizeItemFor | Extension/ActionViewController.swift:166-167 | the returned item's dictionary has the single key `NSExtensionJavaScriptFinalizeArgumentKey`, holding the argument `{"code": text ?? fallback}` |
| HostBridge.FallbackOnlyWithoutText | Extension/ActionViewController.swift:166 | the fallback is sent exactly when there is no text; an empty text is sent as "" |
| HostBridge.FinalizeArgumentInjective | Extension/ActionViewController.swift:166 | different texts give different arguments |
| SavedCodeStore.Loaded | Extension/ActionViewController.swift:102-107 | the stored dictionary when the defaults hold one under "code"; otherwise the dictionary already held, not an empty one |
| SavedCodeStore.Persist | Extension/ActionViewController.swift:159 | the whole dictionary is stored under "code"; other defaults are untouched |
| SavedCodeStore.LoadAfterPersist | Extension/ActionViewController.swift:102-107 | loading after persisting gives back exactly what was persisted |
| SavedCodeStore.LoadIdempotent | Extension/ActionViewController.swift:102-107 | loading twice is the same as loading once |
| SavedCodeStore.Upsert | Extension/ActionViewController.swift:157 | the name now maps to the code; every other entry is unchanged; no other key appears |
| SavedCodeStore.Remove | Extension/ActionViewController.swift:222 | the key is gone; every other entry is unchanged |
| SavedCodeStore.RemoveAbsent | Extension/ActionViewController.swift:222 | deleting an absent key is a no-op |
| SavedCodeStore.RemoveAfterUpsert | Extension/ActionViewController.swift:221-225 | saving under a new name and then deleting it restores the dictionary |
| SavedCodeStore.RemoveUndoesUpsert | Extension/ActionViewController.swift:221-225 | overwriting an entry and then deleting it is the same as deleting it |
| SavedCodeStore.Decide | Extension/ActionViewController.swift:141-150 | reject exactly when the name is empty; ask to overwrite exactly when it is non-empty and taken; save at once exactly when it is non-empty and new |
| SavedCodeStore.SaveNeverLosesEntries | Extension/ActionViewController.swift:143-157 | a save keeps every existing name; it grows the dictionary by one for a new name and by none for an overwrite |
| SavedCodeList.SortedKeysAligned | Extension/SavedCodeTableViewController.swift:21 | the sorted keys are aligned with the dictionary |
| SavedCodeList.AlignedUnique | Extension/SavedCodeTableViewController.swift:21 | the sorted keys are the only aligned list |
| SavedCodeList.AlignedLength | Extension/SavedCodeTableViewController.swift:35-37 | while aligned, the row count `savedCode.count` equals the number of labels |
| SavedCodeList.AlignedRowStored | Extension/SavedCodeTableViewController.swift:41 | while aligned, every label names a stored entry |
| SavedCodeList.RemoveAt | Extension/SavedCodeTableViewController.swift:61 | the labels without the deleted row, the others in order |
| SavedCodeList.DeleteAtKeepsAlignment | Extension/SavedCodeTableViewController.swift:59-61 | deleting a row from both the dictionary and the labels keeps them aligned |
| SavedCodeList.DeleteBreaksAlignment | Extension/SavedCodeTableViewController.swift:59 | deleting from the dictionary alone breaks the alignment: the deleted key is still listed, and there is one label more than there are entries |
| Extension.ActionViewController.constructor | Extension/ActionViewController.swift:14-18 | title and URL start as "", no snippets, no saved code |
| Extension.ActionViewController.ReceivePreprocessingResults | Extension/ActionViewController.swift:56-60 | title and URL come from the results, "" when absent or not strings; unchanged when either guard returns |
| Extension.ActionViewController.LoadCodeSnippets | Extension/ActionViewController.swift:71-87 | the loop appends exactly the catalog parse of the resource, and traps where the parse traps; nothing happens without a resource |
| Extension.ActionViewController.AppendSnippets | Extension/ActionViewController.swift:77-83 | the loop over the split resource appends exactly the parse of the records after the header, and stops at the trap the parse reports |
| Extension.ActionViewController.LoadSavedCode | Extension/ActionViewController.swift:102-107 | the dictionary held becomes the loaded one |
| Extension.ActionViewController.ShowSavedCode | Extension/ActionViewController.swift:109-117 | loads first, then opens a new table on the loaded dictionary, with this controller as its delegate |
| Extension.ActionViewController.Cancel | Extension/ActionViewController.swift:119-121 | the request completes with no items |
| Extension.ActionViewController.CompleteRequest | Extension/ActionViewController.swift:163-172 | the request completes with one item whose finalize argument, under `NSExtensionJavaScriptFinalizeArgumentKey`, is `{"code": text}`, or the fallback when there is no text |
| Extension.ActionViewController.SaveCode | Extension/ActionViewController.swift:156-161 | the text (or "" when there is none) is stored under the key; the whole dictionary is written under "code"; then the request completes |
| Extension.ActionViewController.RequestNameToSaveCode | Extension/ActionViewController.swift:133-154 | no name field text: nothing. Otherwise the stored dictionary is loaded, then the decision is taken. An empty name, or a taken name without confirmation, saves nothing and completes nothing. Otherwise the name maps to the text, every other entry is kept, and the dictionary is persisted and the request completed |
| Extension.ActionViewController.DidSelectSavedCode | Extension/ActionViewController.swift:214-219 | once confirmed, the editor's text becomes `savedCode[key]` (`None` for a key no longer held); unchanged otherwise |
| Extension.ActionViewController.DeleteSavedCode | Extension/ActionViewController.swift:221-225 | the key is removed, other entries kept, and the dictionary persisted |
| Extension.SavedCodeTableViewController.constructor | Extension/SavedCodeTableViewController.swift:12-15 | no delegate, no dictionary, no labels |
| Extension.SavedCodeTableViewController.ViewDidLoad | Extension/SavedCodeTableViewController.swift:17-21 | with a dictionary, the labels are aligned with it (its keys, each once, ascending); without one, they stay as they were |
| Extension.SavedCodeTableViewController.NumberOfRows | Extension/SavedCodeTableViewController.swift:35-37 | the row count is the dictionary's size, equal to the number of labels while aligned |
| Extension.SavedCodeTableViewController.CellText | Extension/SavedCodeTableViewController.swift:39-44 | row i shows label i, a stored name while aligned |
| Extension.SavedCodeTableViewController.DidSelectRow | Extension/SavedCodeTableViewController.swift:46-49 | reports exactly label i to the delegate, which loads that entry on confirmation |
| Extension.SavedCodeTableViewController.CommitDelete | Extension/SavedCodeTableViewController.swift:52-67 | as written: a confirmed delete of row i removes label i from the table's dictionary and the delegate's, persists the delegate's, and leaves the labels as they were; anything else changes nothing |
| Extension.SavedCodeTableViewController.CommitDeleteCorrected | Extension/SavedCodeTableViewController.swift:52-67 | the same delete, also removing label i, so that an aligned table stays aligned |
| Extension.StaleRowAfterDelete | Extension/SavedCodeTableViewController.swift:52-62 | two entries "a" and "b", delete row 0 as written: one row remains, for which the data source answers "a", no longer stored; tapping it reports "a" and loading it sets the editor's text to nil (`None`) |
| Extension.RowFollowsDelete | Extension/SavedCodeTableViewController.swift:52-62 | the same with the corrected delete: the remaining row is "b", stored, and loading it puts its code in the editor |

## Left out

- Keyboard handling (`adjustTextViewForKeyboard`) is left out: it is geometry on UIKit insets.
- Alerts, menus and navigation (`showAlert`, `showCodeSnippets`, `done`, the buttons wired in `viewDidLoad`,
  `popViewController`, `deleteRows`, `deselectRow`) are left out. Only the decisions they lead to are modelled, as
  parameters.
- Inserting a snippet at the cursor (`insertText`) and text selection are left out: they are text-view behaviour.
- `loadCodeSnippets` runs on a background queue and appends to `codeSnippets` without synchronisation. The model runs
  the loop sequentially.
- Reading the bundle file is a parameter `resource`, with `None` when the file is missing or unreadable.
- The user defaults and the extension context are fields of the controller. The model does not share them between
  processes.
- The out-of-range trap on component 1 ends the process. The model stops the loop there and returns the record's
  index instead.
- `components(separatedBy:)` is modelled as a literal search for the separator, character by character. Without
  the `.literal` option, Foundation matches by composed character sequences: a combining mark right after the
  marker's final space, for instance, would stop that occurrence from splitting. That matching is library behaviour
  and is not part of this model.
- StringOrder.SortedKeys: Swift orders strings by Unicode canonical equivalence. The model orders them
  lexicographically by character, which agrees with Swift on text already in Unicode NFC.
- SavedCodeStore.Decide, SavedCodeStore.Upsert, SavedCodeStore.Remove: the model's string equality (dictionary keys,
  `keys.contains`, `savedCode[key] = …`, `removeValue(forKey:)`) is exact by character, not Unicode canonical
  equivalence as Swift's `String` `==` and hashing are. Names that differ only in normalization (U+00E9 and
  "e" + U+0301, or U+212B and U+00C5) are one key in the source and two in the model: `Decide` answers "save new"
  where the source asks to overwrite, and `Upsert` then keeps both entries.
- Extension.ActionViewController.ShowSavedCode: instantiating the table from the storyboard is assumed to succeed. The storyboard is not
  part of this model.
- `script.text` is an `Option<string>`, as Swift types it. The model does not say whether the text view ever reports
  `nil`: that is UIKit behaviour, not part of this model.
- `[weak self]` closures are assumed to run while the controller is alive. The table's weak delegate is an `Option`
  and may be absent.
- The `.insert` editing-style branch is empty in the source and is a no-op in the model.
- CodeSnippets.CodeSnippetsFile is the bundled resource written as its header and records joined by the marker. It is
  not a single 548-character literal.
- Extension/Action.js (the page-side glue that evaluates the code) is not part of this model.
- Extension/SavedCodeDelegate.swift is not part of this model: the model calls the delegate's methods directly.

## Findings

| source | as written | input that shows it | evidently intended | confidence | as-written member | corrected member |
|---|---|---|---|---|---|---|
| Extension/SavedCodeTableViewController.swift:58-62 | A confirmed delete removes the key from `savedCode` but not from `savedCodeKeys`. From then on, row i no longer corresponds to the i-th key. | Saved code `{"a", "b"}`; delete row 0 ("a") and confirm. One row remains. The data source still answers "a" for it, while the cell on screen shows "b" until the table reloads. Tapping it reports "a", which is no longer stored, and loading it sets the editor's text to nil. "b" can no longer be selected. | Also remove label `indexPath.row` from `savedCodeKeys`, keeping it the sorted key list of `savedCode`. | high; not executed | Extension.SavedCodeTableViewController.CommitDelete, Extension.StaleRowAfterDelete | Extension.SavedCodeTableViewController.CommitDeleteCorrected, Extension.RowFollowsDelete |
