# Notebook store — a Dafny model

A model of the state layer of a browser notebook/checklist manager. The
program keeps one global state object: a list of notebooks, newest first,
each holding a list of checklist items, newest first, and the id of the
selected notebook (or `null`). Eight operations change that state —
`createNotebook`, `renameNotebook`, `deleteNotebook`, `selectNotebook`,
`addItem`, `toggleItemDone`, `editItem` and `deleteItem` — and each one that
changes something writes the whole state through to `localStorage`. On
startup `loadState` reads the stored document back, falling back to the
empty state when nothing usable is stored.

Six operations are defensive: `renameNotebook`, `deleteNotebook`,
`addItem`, `toggleItemDone`, `editItem` and `deleteItem` leave the state
unchanged when no notebook is selected or the id matches nothing, and
`renameNotebook`, `addItem` and `editItem` also when the new text is blank.
Of these, all but `renameNotebook` then return without saving;
`renameNotebook` still writes the unchanged state through when a notebook is
selected. The other two always act: `createNotebook` names a notebook with a
blank name "Untitled", and `selectNotebook` stores whatever id it is given,
even one that matches no notebook, and saves it. New notebooks and items are
prepended. Deleting the selected notebook selects the new first notebook, or
nothing when none is left.

Layout:

- `wrappers.dfy` — `Option`, standing for `null`.
- `text.dfy` (module `Text`) — `String.prototype.trim`.
- `model.dfy` (module `Model`) — items, notebooks and the state as values;
  lookup by id (`find`/`findIndex`); `getSelectedNotebook` as an index; the
  invariants (unique ids, clean names and texts).
- `notebooks.dfy` (module `Notebooks`) — each operation as a function from
  the old state to the new one, with a contract that says what changes and
  what does not.
- `laws.dfy` (module `Laws`) — what undoes what, the invariants each
  operation preserves, and two end-to-end scenarios.
- `persistence.dfy` (module `Persistence`) — `loadState`/`saveState` over the
  parsed stored document.
- `store.dfy` (module `Store`) — class `NotebookStore`: the mutable state
  object. Its fields are the state and the durable store. Each method
  updates the fields in place as the program does, and is proved to produce
  exactly the state the corresponding `Notebooks` function describes.

Ids and timestamps, which the program draws from the clock and `Math.random`,
are parameters of the operations that create things.

The stored selection is normalised with `|| null`, so an empty-string
selection is read back as `null`. The save/load round trip is therefore
exact only when the selection is `null` or a non-empty string; `Persistence.Save`
proves both directions of that.

## Model

| member | source | states |
|---|---|---|
| `Text.Trim` | app.js:122 | the trimmed text has no white space at either end; it is empty exactly when the input is blank; an already trimmed string is returned unchanged |
| `Text.TrimIsInfix` | app.js:122 | trimming removes only white space, and only from the two ends: the result is an infix of the input with blank text on each side |
| `Model.FindNotebook` | app.js:96-98 | `findIndex` on notebooks: the result is the first index whose id matches, and there is none exactly when no notebook has the id |
| `Model.FindItem` | app.js:159 | `find`/`findIndex` on items: the first index whose id matches, none exactly when no item has the id |
| `Model.SelectedIndex` | app.js:65-69 | `getSelectedNotebook`: the first notebook whose id equals the selection; none when the selection is `null` or matches no notebook |
| `Notebooks.LocateItem` | app.js:135-138 | the selected notebook and the first item in it with the given id; none when either lookup misses |
| `Notebooks.CreateNotebook` | app.js:73-84 | exactly one notebook is prepended, with the given id and timestamp, no items, and the trimmed name or "Untitled" when the name is blank; the old notebooks follow unchanged; the new notebook is selected and is what the lookup finds |
| `Notebooks.RenameNotebook` | app.js:86-92 | no-op when nothing is selected or the new name is blank; otherwise only the selected notebook's name changes, to the trimmed name; the lookup still finds the same notebook |
| `Notebooks.DeleteNotebook` | app.js:94-109 | no-op when the selection is falsy or matches nothing; otherwise exactly the first matching notebook is removed (length drops by one, order kept) and the new first notebook is selected, or nothing when none is left |
| `Notebooks.SelectNotebook` | app.js:111-115 | the selection becomes the id unconditionally, the notebooks are unchanged, and the lookup then finds the first notebook with that id, if any |
| `Notebooks.AddItem` | app.js:119-132 | no-op when nothing is selected or the text is blank; otherwise only the selected notebook changes, gaining one item at the front with the given id and timestamp, the trimmed text and `done` false |
| `Notebooks.ToggleItemDone` | app.js:134-142 | no-op when the notebook or item lookup misses; otherwise only the located item changes, and only its `done`, which is flipped |
| `Notebooks.EditItem` | app.js:144-154 | no-op when a lookup misses or the text is blank; otherwise only the located item changes, and only its text, to the trimmed text |
| `Notebooks.DeleteItem` | app.js:156-164 | no-op when a lookup misses; otherwise exactly the located item is removed from its notebook, the others keep their order, nothing else changes |
| `Laws.ToggleItemDoneTwice` | app.js:134-142 | toggling the same item twice restores the whole state |
| `Laws.CreateThenDeleteNotebook` | app.js:73-109 | deleting the notebook just created (with a non-empty id) gives back the old notebooks and selects the first of them, or nothing |
| `Laws.AddThenDeleteItem` | app.js:119-164 | deleting the item just added to the selected notebook restores the whole state |
| `Laws.RenameBack` | app.js:86-92 | renaming back to the old, clean name restores the whole state |
| `Laws.EditBack` | app.js:144-154 | editing an item back to its old, clean text restores the whole state |
| `Laws.CreateNotebookValid` | app.js:73-84 | with an unused id, creating keeps ids unique and every name and text non-empty and trimmed |
| `Laws.RenameNotebookValid` | app.js:86-92 | renaming keeps ids unique and names and texts clean |
| `Laws.DeleteNotebookValid` | app.js:94-109 | deleting keeps the invariants, and with unique ids the deleted notebook's id no longer occurs |
| `Laws.SelectNotebookValid` | app.js:111-115 | selecting keeps the invariants |
| `Laws.AddItemValid` | app.js:119-132 | with an unused item id, adding keeps the invariants |
| `Laws.ToggleItemDoneValid` | app.js:134-142 | toggling keeps the invariants |
| `Laws.EditItemValid` | app.js:144-154 | editing keeps the invariants |
| `Laws.DeleteItemValid` | app.js:156-164 | deleting an item keeps the invariants, and with unique ids no item with that id is left in the selected notebook |
| `Laws.GroceriesScenario` | app.js:119-164 | from the empty state: create a notebook, add two items, toggle the newer, delete the older; the items were newest first, and one notebook is left with the single done item |
| `Laws.TwoNotebooksScenario` | app.js:73-109 | from the empty state: create A then B, giving [B, A] with B selected; deleting leaves [A] with A selected |
| `Persistence.Load` | app.js:25-44 | nothing usable stored, or `notebooks` not an array, gives the empty state; otherwise the notebooks are taken as stored and a falsy selection becomes `null`; a loaded selection is never the empty string |
| `Persistence.Save` | app.js:46-54 | the document holds exactly the notebooks and the selection; loading it back gives the same state if and only if the selection is not the empty string |
| `Persistence.LoadSaveLoad` | app.js:25-54 | a loaded state survives a save and a load unchanged |
| `Store.NotebookStore.constructor` | app.js:3-6 | the state starts as no notebooks and no selection |
| `Store.NotebookStore.LoadState` | app.js:25-44 | the state becomes what `Persistence.Load` gives for the stored document; storage is untouched |
| `Store.NotebookStore.SaveState` | app.js:46-54 | the stored document becomes the saved state, and it reloads to the current state when the selection is not empty |
| `Store.NotebookStore.GetSelectedNotebook` | app.js:65-69 | the notebook returned is the first in the list that carries the selected id; none exactly when the selection is `null` or matches no notebook |
| `Store.NotebookStore.CreateNotebook` | app.js:73-84 | the new state is `Notebooks.CreateNotebook` of the old one, and it is written through to storage |
| `Store.NotebookStore.RenameNotebook` | app.js:86-92 | the new state is `Notebooks.RenameNotebook` of the old one; it is written through whenever a notebook is selected, even if the blank name changed nothing |
| `Store.NotebookStore.DeleteNotebook` | app.js:94-109 | the new state is `Notebooks.DeleteNotebook` of the old one; written through only when a notebook was removed |
| `Store.NotebookStore.SelectNotebook` | app.js:111-115 | the new state is `Notebooks.SelectNotebook` of the old one, always written through |
| `Store.NotebookStore.AddItem` | app.js:119-132 | the new state is `Notebooks.AddItem` of the old one; written through only when an item was added |
| `Store.NotebookStore.ToggleItemDone` | app.js:134-142 | the new state is `Notebooks.ToggleItemDone` of the old one; written through only when the item was found |
| `Store.NotebookStore.EditItem` | app.js:144-154 | the new state is `Notebooks.EditItem` of the old one; written through only when the item was found and the text is not blank |
| `Store.NotebookStore.DeleteItem` | app.js:156-164 | the new state is `Notebooks.DeleteItem` of the old one; written through only when the item was found |

## Left out

- Rendering (`renderNotebooks`, `renderMain`, `render`) and date formatting (`formatDateShort`): DOM construction and locale-dependent output, no state logic.
- Event listeners and the `window.prompt`/`window.confirm` dialogs: user-interface wiring that guards the calls to the operations (blank input, a selected notebook before rename, delete and add, an existing item before edit, a non-empty id before select, a cancelled prompt or an unconfirmed delete); the operations themselves are modelled for all inputs, so the guards only narrow which calls happen.
- `localStorage` access, `JSON.parse`/`JSON.stringify` and the `console.error` diagnostic logged when a stored document cannot be loaded: the stored document is modelled already parsed (`Persistence.Record`), with an unparseable or empty stored value folded into `None`; JSON is assumed to round-trip strings, booleans and arrays exactly.
- `createId` and `new Date().toISOString()`: clock and randomness; fresh ids and timestamps are parameters. Uniqueness of ids is an assumption of the invariant lemmas (`Laws.CreateNotebookValid`, `Laws.AddItemValid`), not something the operations enforce, just as in the program.
- `Persistence.Load`: a stored selection that is a truthy non-string (a number, an object) is not modelled; the selection is `null` or a string. The stored notebooks are assumed to have the shape of `Model.Notebook`; the program does not check them either, and a malformed notebook would make later operations throw, which the model does not capture.
- `Text.IsWhitespace`: the fixed character set ECMAScript's `trim` strips (white space, every Unicode space separator, and line terminators); no other Unicode detail.
- Aliasing: the program mutates the notebook and item objects it finds; the model replaces them by value inside the `seq` fields. Every notebook and item is a distinct object in the program (the list is built by `unshift` of fresh objects or by `JSON.parse`), so no sharing is lost.
- Write failures of `localStorage` (quota exceeded): they propagate as exceptions in the program; the model's writes always succeed.
