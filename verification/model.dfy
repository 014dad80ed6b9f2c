/**
 * The records of the notebook store: items, notebooks and the single
 * application state, with the two lookups every operation relies on
 * (`Array.prototype.find`/`findIndex` by id) and the invariants the
 * operations keep.
 */
module Model {
  import opened Wrappers
  import opened Text

  /** One checklist entry. `createdAt` is an ISO-8601 timestamp string. */
  datatype Item = Item(id: string, text: string, done: bool, createdAt: string)

  /** A named list of items, newest item first. */
  datatype Notebook = Notebook(id: string, name: string, createdAt: string, items: seq<Item>)

  /** The whole store: notebooks newest first, and the selected notebook's id
      (`None` stands for `null`). */
  datatype AppState = AppState(notebooks: seq<Notebook>, selectedNotebookId: Option<string>)

  /** `{ notebooks: [], selectedNotebookId: null }`. */
  const EmptyState := AppState([], None)

  /** The JavaScript truth value of a selection: `null` and `""` are falsy. */
  predicate IsTruthy(sel: Option<string>) {
    sel.Some? && sel.value != ""
  }

  /** The index of the first notebook whose id is `id` (`findIndex`), if any. */
  function FindNotebook(notebooks: seq<Notebook>, id: string): (r: Option<nat>)
    ensures r.Some? ==> r.value < |notebooks| && notebooks[r.value].id == id
    ensures r.Some? ==> forall j :: 0 <= j < r.value ==> notebooks[j].id != id
    ensures r.None? <==> forall j :: 0 <= j < |notebooks| ==> notebooks[j].id != id
  {
    if |notebooks| == 0 then None
    else if notebooks[0].id == id then Some(0)
    else match FindNotebook(notebooks[1..], id)
      case None => None
      case Some(k) => Some(k + 1)
  }

  /** The index of the first item whose id is `id` (`find`/`findIndex`), if any.
      The same linear search as `FindNotebook`, over the items of a notebook. */
  function FindItem(items: seq<Item>, id: string): (r: Option<nat>)
    ensures r.Some? ==> r.value < |items| && items[r.value].id == id
    ensures r.Some? ==> forall j :: 0 <= j < r.value ==> items[j].id != id
    ensures r.None? <==> forall j :: 0 <= j < |items| ==> items[j].id != id
  {
    if |items| == 0 then None
    else if items[0].id == id then Some(0)
    else match FindItem(items[1..], id)
      case None => None
      case Some(k) => Some(k + 1)
  }

  /** `getSelectedNotebook`, as the position of the notebook it returns: the
      first notebook whose id equals the selection. A `null` selection never
      matches, since every id is a string. */
  function SelectedIndex(s: AppState): (r: Option<nat>)
    ensures r.Some? ==> s.selectedNotebookId.Some? && r.value < |s.notebooks|
                        && s.notebooks[r.value].id == s.selectedNotebookId.value
    ensures r.Some? ==> forall j :: 0 <= j < r.value ==> s.notebooks[j].id != s.selectedNotebookId.value
    ensures r.None? <==> (s.selectedNotebookId.None?
                          || forall j :: 0 <= j < |s.notebooks| ==> s.notebooks[j].id != s.selectedNotebookId.value)
  {
    match s.selectedNotebookId
    case None => None
    case Some(id) => FindNotebook(s.notebooks, id)
  }

  /** No two notebooks share an id. */
  predicate UniqueNotebookIds(notebooks: seq<Notebook>) {
    forall i, j :: 0 <= i < j < |notebooks| ==> notebooks[i].id != notebooks[j].id
  }

  /** No two items share an id. */
  predicate UniqueItemIds(items: seq<Item>) {
    forall i, j :: 0 <= i < j < |items| ==> items[i].id != items[j].id
  }

  /** A user-supplied text the store keeps: non-empty and already trimmed. */
  predicate IsCleanText(t: string) {
    t != [] && IsTrimmed(t)
  }

  /** Every item text is clean. */
  predicate CleanItemTexts(items: seq<Item>) {
    forall m :: 0 <= m < |items| ==> IsCleanText(items[m].text)
  }

  /** A notebook's own invariant: a clean name, item ids unique within it,
      clean item texts. */
  predicate ValidNotebook(notebook: Notebook) {
    IsCleanText(notebook.name) && UniqueItemIds(notebook.items) && CleanItemTexts(notebook.items)
  }

  /** The state invariant the operations preserve: notebook ids are unique,
      and every notebook keeps its own invariant. */
  predicate Valid(s: AppState) {
    UniqueNotebookIds(s.notebooks)
    && forall k :: 0 <= k < |s.notebooks| ==> ValidNotebook(s.notebooks[k])
  }
}
