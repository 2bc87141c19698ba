# Kogito tooling: key-binding help list, GWT state control and embedded-editor router

This project models three small pieces of the Kogito tooling's editor framework
in Dafny and proves what they promise.

- **Keyboard-shortcut help overlay** (micro-editor envelope). The registered
  shortcuts are deduplicated by combination (the first registration wins),
  the hidden ones are dropped, `Ctrl` becomes `Cmd` on macOS, each label
  `"Category | Label"` is split on `|` and trimmed, and the entries are
  grouped by category in first-appearance order. A combination such as
  `shift+/` is shown as `Shift + /`. The JavaScript string built-ins this
  relies on (`indexOf`, `split`, `join`, `replace` with a literal pattern,
  `trim`) are modelled with their ECMAScript semantics in module `Strings`.
- **GWT state control** (GWT editors). A service with an undo slot and a redo
  slot, written by setters on the API objects the service exposes, and
  `Undo`/`Redo` that call the slot's command when there is one. Callbacks are
  abstract commands; calling one appends it to the service's invocation log.
- **Embedded-editor router**. The relative path to an envelope page, the
  target origin for posted messages, and the extension-to-language lookup.

Files: `wrappers.dfy` (Option), `strings.dfy`, `key_bindings_help_overlay.dfy`,
`gwt_state_control.dfy`, `embedded_editor_router.dfy`.

## Model

| member | source | states |
|---|---|---|
| `Strings.FindFirst` | packages/microeditor-envelope/src/KeyBindingsHelpOverlay/KeyBindingsHelpOverlay.tsx:128 | the first occurrence of a literal pattern: a match there, none before it, and `None` exactly when there is no match anywhere |
| `Strings.FindFirstPrefix` | packages/microeditor-envelope/src/KeyBindingsHelpOverlay/KeyBindingsHelpOverlay.tsx:128 | appending text never moves a first occurrence already present |
| `Strings.Split` | packages/microeditor-envelope/src/KeyBindingsHelpOverlay/KeyBindingsHelpOverlay.tsx:47 | a split always has at least one piece, so `split("\|")[0]` is always defined |
| `Strings.JoinSplit` | packages/microeditor-envelope/src/KeyBindingsHelpOverlay/KeyBindingsHelpOverlay.tsx:141-144 | joining the pieces of a split with the same separator gives the string back |
| `Strings.SplitPiecesFree` | packages/microeditor-envelope/src/KeyBindingsHelpOverlay/KeyBindingsHelpOverlay.tsx:142 | no piece of a split contains the separator |
| `Strings.SplitJoin` | packages/microeditor-envelope/src/KeyBindingsHelpOverlay/KeyBindingsHelpOverlay.tsx:142-144 | splitting a join gives the pieces back when no piece runs into the separator |
| `Strings.SplitNoSeparator` | packages/microeditor-envelope/src/KeyBindingsHelpOverlay/KeyBindingsHelpOverlay.tsx:47-48 | a string without the separator character splits into itself alone |
| `Strings.SplitAtFirst` | packages/microeditor-envelope/src/KeyBindingsHelpOverlay/KeyBindingsHelpOverlay.tsx:47-48 | a split on one character cuts exactly at its first occurrence |
| `Strings.NoCharNoMatch` | packages/microeditor-envelope/src/KeyBindingsHelpOverlay/KeyBindingsHelpOverlay.tsx:142 | a one-character pattern is absent exactly when the character does not occur |
| `Strings.EndsAtSpacedPlus` | packages/microeditor-envelope/src/KeyBindingsHelpOverlay/KeyBindingsHelpOverlay.tsx:144 | a piece without `+` contains no `" + "`, so the joining separator is the first one found |
| `Strings.TrimStart` | packages/microeditor-envelope/src/KeyBindingsHelpOverlay/KeyBindingsHelpOverlay.tsx:47-48 | a suffix of the input, only trimmable characters dropped, not starting with one |
| `Strings.TrimEnd` | packages/microeditor-envelope/src/KeyBindingsHelpOverlay/KeyBindingsHelpOverlay.tsx:47-48 | a prefix of the input, only trimmable characters dropped, not ending with one |
| `Strings.Trim` | packages/microeditor-envelope/src/KeyBindingsHelpOverlay/KeyBindingsHelpOverlay.tsx:47-48 | a slice of the input with only trimmable characters around it, neither starting nor ending with one |
| `Strings.TrimIdempotent` | packages/microeditor-envelope/src/KeyBindingsHelpOverlay/KeyBindingsHelpOverlay.tsx:47-48 | trimming twice is trimming once |
| `KeyBindingsHelpOverlay.IndexOf` | packages/microeditor-envelope/src/KeyBindingsHelpOverlay/KeyBindingsHelpOverlay.tsx:136 | -1 exactly when the value is absent, otherwise a position holding it with no earlier one |
| `KeyBindingsHelpOverlay.IndexOfIsFirst` | packages/microeditor-envelope/src/KeyBindingsHelpOverlay/KeyBindingsHelpOverlay.tsx:136 | the `indexOf(...) === pos` test holds exactly when no earlier element has the same attribute value |
| `KeyBindingsHelpOverlay.KeepFirstFromIsFirstOccurrences` | packages/microeditor-envelope/src/KeyBindingsHelpOverlay/KeyBindingsHelpOverlay.tsx:134-138 | the source's filter from any position equals a left-to-right scan that skips values already seen |
| `KeyBindingsHelpOverlay.RemoveDuplicatesByAttrIsFirstOccurrences` | packages/microeditor-envelope/src/KeyBindingsHelpOverlay/KeyBindingsHelpOverlay.tsx:134-138 | `removeDuplicatesByAttr` equals that scan started with nothing seen |
| `KeyBindingsHelpOverlay.FirstOccurrencesDistinct` | packages/microeditor-envelope/src/KeyBindingsHelpOverlay/KeyBindingsHelpOverlay.tsx:134-138 | the scan keeps pairwise distinct values, none of them seen before |
| `KeyBindingsHelpOverlay.FirstOccurrencesKeySet` | packages/microeditor-envelope/src/KeyBindingsHelpOverlay/KeyBindingsHelpOverlay.tsx:134-138 | the scan keeps every value not seen before |
| `KeyBindingsHelpOverlay.FirstOccurrencesMembers` | packages/microeditor-envelope/src/KeyBindingsHelpOverlay/KeyBindingsHelpOverlay.tsx:134-138 | an element is kept exactly when it is the first with its value and the value is unseen |
| `KeyBindingsHelpOverlay.RemoveDuplicatesByAttrDistinct` | packages/microeditor-envelope/src/KeyBindingsHelpOverlay/KeyBindingsHelpOverlay.tsx:134-138 | output attribute values are pairwise distinct, and every value of the input appears in the output |
| `KeyBindingsHelpOverlay.RemoveDuplicatesByAttrKeepsFirst` | packages/microeditor-envelope/src/KeyBindingsHelpOverlay/KeyBindingsHelpOverlay.tsx:135-137 | the output is an order-preserving subsequence of the input holding exactly the first element with each value |
| `KeyBindingsHelpOverlay.RemoveDuplicatesByAttrIdempotent` | packages/microeditor-envelope/src/KeyBindingsHelpOverlay/KeyBindingsHelpOverlay.tsx:135-137 | applying it twice equals applying it once |
| `KeyBindingsHelpOverlay.VisibleBindings` | packages/microeditor-envelope/src/KeyBindingsHelpOverlay/KeyBindingsHelpOverlay.tsx:43 | a binding is in the result exactly when it is in the input and not hidden; the result is an order-preserving subsequence |
| `KeyBindingsHelpOverlay.VisibleBindingsMultiplicity` | packages/microeditor-envelope/src/KeyBindingsHelpOverlay/KeyBindingsHelpOverlay.tsx:43 | each visible binding is kept as many times as it occurs, each hidden one never |
| `KeyBindingsHelpOverlay.HandleMacOsCombinationSpec` | packages/microeditor-envelope/src/KeyBindingsHelpOverlay/KeyBindingsHelpOverlay.tsx:126-132 | identity off macOS; on macOS identity without `Ctrl`, otherwise only the first `Ctrl` becomes `Cmd` |
| `KeyBindingsHelpOverlay.HandleMacOsCombinationExample` | packages/microeditor-envelope/src/KeyBindingsHelpOverlay/KeyBindingsHelpOverlay.tsx:126-132 | `Ctrl+Shift+Ctrl` becomes `Cmd+Shift+Ctrl` on macOS; `Ctrl+z` is unchanged on Linux |
| `KeyBindingsHelpOverlay.LabelWithoutSeparator` | packages/microeditor-envelope/src/KeyBindingsHelpOverlay/KeyBindingsHelpOverlay.tsx:47-48 | without `\|` the category is the whole label trimmed and the label is absent |
| `KeyBindingsHelpOverlay.LabelWithSeparator` | packages/microeditor-envelope/src/KeyBindingsHelpOverlay/KeyBindingsHelpOverlay.tsx:47-48 | the category is the trimmed text before the first `\|`, the label the trimmed text up to a second `\|`; later segments are dropped |
| `KeyBindingsHelpOverlay.HelpEntriesSpec` | packages/microeditor-envelope/src/KeyBindingsHelpOverlay/KeyBindingsHelpOverlay.tsx:42-50 | an entry is shown exactly when it is built from a visible binding registered first for its combination, with that combination rewritten for the operating system and that label split; one entry per surviving binding |
| `KeyBindingsHelpOverlay.SurvivingBindingsSpec` | packages/microeditor-envelope/src/KeyBindingsHelpOverlay/KeyBindingsHelpOverlay.tsx:42-43 | a binding survives exactly when it is visible and the first registered for its combination; survivors keep registration order and have distinct combinations |
| `KeyBindingsHelpOverlay.HiddenFirstSuppresses` | packages/microeditor-envelope/src/KeyBindingsHelpOverlay/KeyBindingsHelpOverlay.tsx:42-43 | a hidden first binding for a combination suppresses every later visible binding with that combination |
| `KeyBindingsHelpOverlay.CategoryOrderMembers` | packages/microeditor-envelope/src/KeyBindingsHelpOverlay/KeyBindingsHelpOverlay.tsx:51-58 | a category is a key exactly when some entry has it, and its collection is then non-empty |
| `KeyBindingsHelpOverlay.CategoryOrderDistinct` | packages/microeditor-envelope/src/KeyBindingsHelpOverlay/KeyBindingsHelpOverlay.tsx:51-58 | each category is a key once |
| `KeyBindingsHelpOverlay.CategoryOrderIsFirstAppearance` | packages/microeditor-envelope/src/KeyBindingsHelpOverlay/KeyBindingsHelpOverlay.tsx:51-58 | the key order is the entries' categories deduplicated, i.e. first-appearance order |
| `KeyBindingsHelpOverlay.GroupingPartitions` | packages/microeditor-envelope/src/KeyBindingsHelpOverlay/KeyBindingsHelpOverlay.tsx:51-58 | every entry lands in its own category's collection, and the collections hold exactly as many items as there are entries |
| `KeyBindingsHelpOverlay.GroupByCategory` | packages/microeditor-envelope/src/KeyBindingsHelpOverlay/KeyBindingsHelpOverlay.tsx:51-58 | the reduce's map: keys in first-appearance order, each key's collection the items of its category in input order, none empty |
| `KeyBindingsHelpOverlay.KeyBindings` | packages/microeditor-envelope/src/KeyBindingsHelpOverlay/KeyBindingsHelpOverlay.tsx:41-59 | the whole pipeline: the grouping of the entries of the surviving bindings |
| `KeyBindingsHelpOverlay.CapitalizeFirstSpec` | packages/microeditor-envelope/src/KeyBindingsHelpOverlay/KeyBindingsHelpOverlay.tsx:143 | only the first character can change, only when it is `a`-`z`, into its upper case; length kept, no `+` introduced |
| `KeyBindingsHelpOverlay.CapitalizeAllSpec` | packages/microeditor-envelope/src/KeyBindingsHelpOverlay/KeyBindingsHelpOverlay.tsx:143 | as many pieces as before, each of the same length, unchanged after its first character, and still free of `+` when it was |
| `KeyBindingsHelpOverlay.FormatKeyBindingCombinationPieces` | packages/microeditor-envelope/src/KeyBindingsHelpOverlay/KeyBindingsHelpOverlay.tsx:140-145 | splitting the formatted text on `" + "` gives the combination's `+`-pieces capitalised, as many as the combination has |
| `KeyBindingsHelpOverlay.FormatKeyBindingCombinationExample` | packages/microeditor-envelope/src/KeyBindingsHelpOverlay/KeyBindingsHelpOverlay.tsx:62-64 | `shift+/` is shown as `Shift + /` |
| `GwtStateControl.GwtStateControlService.constructor` | packages/kie-bc-editors/src/gwtStateControl/GwtStateControl.ts:32-34 | a new service has both slots empty and has called nothing |
| `GwtStateControl.GwtStateControlService.Undo` | packages/kie-bc-editors/src/gwtStateControl/GwtStateControl.ts:36-40 | calls the undo command exactly once when set, nothing otherwise; never touches the slots |
| `GwtStateControl.GwtStateControlService.Redo` | packages/kie-bc-editors/src/gwtStateControl/GwtStateControl.ts:42-46 | calls the redo command exactly once when set, nothing otherwise; never touches the slots |
| `GwtStateControl.GwtStateControlService.ExposeApi` | packages/kie-bc-editors/src/gwtStateControl/GwtStateControl.ts:48-52 | a new API object bound to this very service |
| `GwtStateControl.GwtStateControlApi.SetUndoCommand` | packages/kie-bc-editors/src/gwtStateControl/GwtStateControl.ts:53-55 | overwrites the service's undo slot and nothing else |
| `GwtStateControl.GwtStateControlApi.SetRedoCommand` | packages/kie-bc-editors/src/gwtStateControl/GwtStateControl.ts:56-58 | overwrites the service's redo slot and nothing else |
| `GwtStateControl.UndoRedoSession` | packages/kie-bc-editors/src/gwtStateControl/GwtStateControl.ts:36-58 | undo/redo on empty slots call nothing; setters from two API objects write the same slots, last write wins; each undo calls the last undo command once, redo only the redo command |
| `EmbeddedEditorRouter.EmbeddedEditorRouter.GetRelativePathTo` | packages/embedded-editor/src/embedded/EmbeddedEditorRouter.ts:28-30 | `"../"` followed by the URI, three characters longer |
| `EmbeddedEditorRouter.GetRelativePathToInjective` | packages/embedded-editor/src/embedded/EmbeddedEditorRouter.ts:28-30 | distinct URIs give distinct relative paths |
| `EmbeddedEditorRouter.EmbeddedEditorRouter.GetLanguageData` | packages/embedded-editor/src/embedded/EmbeddedEditorRouter.ts:32-34 | the map's entry for the extension when present, nothing when absent |
| `EmbeddedEditorRouter.EmbeddedEditorRouter.GetTargetOrigin` | packages/embedded-editor/src/embedded/EmbeddedEditorRouter.ts:36-38 | always the empty string, whatever the router was built from |

## Left out

- The React side of the overlay (`useState`, `useEffect`, the registration of `shift+/` and `esc`, the modal and its rendering) is UI; `useMemo` caching is not modelled, only the value it computes.
- The keyboard-shortcut API behind `registered()` is not part of this model; the registered shortcuts are a parameter.
- The collections in the grouped map are sequences: each added value is a fresh object literal, which a JavaScript `Set` never merges, so a `Set` there behaves as an insertion-ordered list.
- `EditorContext` is reduced to its operating system, and a shortcut's options to `hidden`.
- `Strings.Split`: only non-empty separators are modelled, the only kind the overlay passes.
- Strings are sequences of Unicode code points, not of UTF-16 code units as in JavaScript: lone surrogates cannot be represented and positions count code points. The separators, `Ctrl` and the trimmed characters all lie in the Basic Multilingual Plane, and a first character outside it is not matched by `\w`, so the operations modelled give the same results.
- `toUpperCase` is applied only to characters `\w` matches, which are ASCII, so no Unicode case mapping is needed.
- The `registry` that `exposeApi` also returns (`DefaultKogitoCommandRegistryImpl` and its message bus) is not part of this model.
- What an undo or redo callback does inside the editor is not modelled; a call is recorded in the invocation log.
- The base `Router` class is not part of this model: how it builds the extension map from the constructor's routes, and the shape of its language data, which the model leaves as a type parameter.
