/**
 * The eight store operations as transitions from one application state to
 * the next. Six of them (rename, delete notebook, add, toggle, edit, delete
 * item) leave the state exactly as it was when nothing is selected or the
 * id matches nothing; rename, add and edit also do so for blank input.
 * Creating always adds a notebook (named "Untitled" when the name is
 * blank), and selecting stores any id, even one that matches nothing.
 * Fresh ids and timestamps are parameters (the program draws them from the
 * clock and a random source).
 */
module Notebooks {
  import opened Wrappers
  import opened Text
  import opened Model

  /** `r` differs from `s` at most in notebook `i`, and keeps the selection. */
  predicate ChangesOnlyNotebook(s: AppState, r: AppState, i: nat) {
    i < |s.notebooks| && |r.notebooks| == |s.notebooks|
    && r.selectedNotebookId == s.selectedNotebookId
    && forall j :: 0 <= j < |s.notebooks| && j != i ==> r.notebooks[j] == s.notebooks[j]
  }

  /** `after` differs from `before` at most in item `k`. */
  predicate ChangesOnlyItem(before: Notebook, after: Notebook, k: nat) {
    k < |before.items| && |after.items| == |before.items|
    && after.(items := before.items) == before
    && forall m :: 0 <= m < |before.items| && m != k ==> after.items[m] == before.items[m]
  }

  /** Lookup by id depends only on the ids of the notebooks. */
  lemma {:induction false} FindNotebookSameIds(a: seq<Notebook>, b: seq<Notebook>, id: string)
    requires |a| == |b| && forall j :: 0 <= j < |a| ==> a[j].id == b[j].id
    ensures FindNotebook(a, id) == FindNotebook(b, id)
  {
    if |a| > 0 && a[0].id != id {
      FindNotebookSameIds(a[1..], b[1..], id);
    }
  }

  /** Lookup by id depends only on the ids of the items. */
  lemma {:induction false} FindItemSameIds(a: seq<Item>, b: seq<Item>, id: string)
    requires |a| == |b| && forall j :: 0 <= j < |a| ==> a[j].id == b[j].id
    ensures FindItem(a, id) == FindItem(b, id)
  {
    if |a| > 0 && a[0].id != id {
      FindItemSameIds(a[1..], b[1..], id);
    }
  }

  /** The selected notebook depends only on the selection and the ids. */
  lemma SelectedIndexSameIds(s: AppState, r: AppState)
    requires r.selectedNotebookId == s.selectedNotebookId && |r.notebooks| == |s.notebooks|
    requires forall j :: 0 <= j < |s.notebooks| ==> r.notebooks[j].id == s.notebooks[j].id
    ensures SelectedIndex(r) == SelectedIndex(s)
  {
    if s.selectedNotebookId.Some? {
      FindNotebookSameIds(s.notebooks, r.notebooks, s.selectedNotebookId.value);
    }
  }

  /** The state after notebook `i` is updated in place to `notebook`. When
      the id is kept, the selection still finds the same notebook. */
  function WithNotebook(s: AppState, i: nat, notebook: Notebook): (r: AppState)
    requires i < |s.notebooks|
    ensures ChangesOnlyNotebook(s, r, i) && r.notebooks[i] == notebook
    ensures notebook.id == s.notebooks[i].id ==> SelectedIndex(r) == SelectedIndex(s)
  {
    var r := s.(notebooks := s.notebooks[i := notebook]);
    if notebook.id == s.notebooks[i].id then SelectedIndexSameIds(s, r); r else r
  }

  /** The notebook after its item `k` is updated in place to `item`. */
  function WithItem(notebook: Notebook, k: nat, item: Item): (r: Notebook)
    requires k < |notebook.items|
    ensures ChangesOnlyItem(notebook, r, k) && r.items[k] == item
  {
    notebook.(items := notebook.items[k := item])
  }

  /** The position of the item an item operation acts on: the selected
      notebook, then the first item in it with id `itemId`. */
  function LocateItem(s: AppState, itemId: string): (r: Option<(nat, nat)>)
    ensures r.Some? ==> SelectedIndex(s) == Some(r.value.0)
                        && r.value.1 < |s.notebooks[r.value.0].items|
                        && FindItem(s.notebooks[r.value.0].items, itemId) == Some(r.value.1)
    ensures r.None? <==> (SelectedIndex(s).None?
                          || FindItem(s.notebooks[SelectedIndex(s).value].items, itemId).None?)
  {
    match SelectedIndex(s)
    case None => None
    case Some(i) =>
      match FindItem(s.notebooks[i].items, itemId)
      case None => None
      case Some(k) => Some((i, k))
  }

  /** `createNotebook(name)`: prepend a new, empty notebook named by the
      trimmed name (or "Untitled") and select it. */
  function CreateNotebook(s: AppState, name: string, id: string, createdAt: string): (r: AppState)
    ensures |r.notebooks| == |s.notebooks| + 1 && r.notebooks[1..] == s.notebooks
    ensures r.notebooks[0].id == id && r.notebooks[0].createdAt == createdAt
    ensures r.notebooks[0].items == []
    ensures IsBlank(name) ==> r.notebooks[0].name == "Untitled"
    ensures !IsBlank(name) ==> r.notebooks[0].name == Trim(name)
    ensures r.selectedNotebookId == Some(id) && SelectedIndex(r) == Some(0)
  {
    var trimmed := Trim(name);
    var notebook := Notebook(id, if trimmed == "" then "Untitled" else trimmed, createdAt, []);
    AppState([notebook] + s.notebooks, Some(id))
  }

  /** `renameNotebook(newName)`: give the selected notebook the trimmed new
      name, unless it is blank. */
  function RenameNotebook(s: AppState, newName: string): (r: AppState)
    ensures SelectedIndex(s).None? || IsBlank(newName) ==> r == s
    ensures SelectedIndex(s).Some? ==>
              var i := SelectedIndex(s).value;
              ChangesOnlyNotebook(s, r, i)
              && r.notebooks[i].(name := s.notebooks[i].name) == s.notebooks[i]
              && (!IsBlank(newName) ==> r.notebooks[i].name == Trim(newName))
    ensures SelectedIndex(r) == SelectedIndex(s)
  {
    match SelectedIndex(s)
    case None => s
    case Some(i) =>
      var notebook := s.notebooks[i];
      var trimmed := Trim(newName);
      WithNotebook(s, i, notebook.(name := if trimmed == "" then notebook.name else trimmed))
  }

  /** `deleteNotebook()`: when the selection is truthy and names a notebook,
      remove the first such notebook and select the new first notebook, or
      nothing when none is left. */
  function DeleteNotebook(s: AppState): (r: AppState)
    ensures !IsTruthy(s.selectedNotebookId) || SelectedIndex(s).None? ==> r == s
    ensures IsTruthy(s.selectedNotebookId) && SelectedIndex(s).Some? ==>
              var i := SelectedIndex(s).value;
              |r.notebooks| == |s.notebooks| - 1
              && r.notebooks == s.notebooks[..i] + s.notebooks[i + 1..]
              && (r.notebooks == [] ==> r.selectedNotebookId == None)
              && (r.notebooks != [] ==> r.selectedNotebookId == Some(r.notebooks[0].id)
                                        && SelectedIndex(r) == Some(0))
  {
    if !IsTruthy(s.selectedNotebookId) then s
    else
      match FindNotebook(s.notebooks, s.selectedNotebookId.value)
      case None => s
      case Some(i) =>
        var rest := s.notebooks[..i] + s.notebooks[i + 1..];
        AppState(rest, if |rest| > 0 then Some(rest[0].id) else None)
  }

  /** `selectNotebook(id)`: select `id`, whether or not a notebook has it. */
  function SelectNotebook(s: AppState, id: string): (r: AppState)
    ensures r.notebooks == s.notebooks && r.selectedNotebookId == Some(id)
    ensures SelectedIndex(r) == FindNotebook(s.notebooks, id)
  {
    s.(selectedNotebookId := Some(id))
  }

  /** `addItem(text)`: prepend a new, not-done item with the trimmed text to
      the selected notebook, unless the text is blank. */
  function AddItem(s: AppState, text: string, id: string, createdAt: string): (r: AppState)
    ensures SelectedIndex(s).None? || IsBlank(text) ==> r == s
    ensures SelectedIndex(s).Some? ==>
              var i := SelectedIndex(s).value;
              ChangesOnlyNotebook(s, r, i)
              && r.notebooks[i].(items := s.notebooks[i].items) == s.notebooks[i]
    ensures SelectedIndex(s).Some? && !IsBlank(text) ==>
              var i := SelectedIndex(s).value;
              var items := r.notebooks[i].items;
              |items| == |s.notebooks[i].items| + 1
              && items[1..] == s.notebooks[i].items
              && items[0] == Item(id, Trim(text), false, createdAt)
    ensures SelectedIndex(r) == SelectedIndex(s)
  {
    match SelectedIndex(s)
    case None => s
    case Some(i) =>
      var cleanText := Trim(text);
      if cleanText == "" then s
      else
        var notebook := s.notebooks[i];
        WithNotebook(s, i, notebook.(items := [Item(id, cleanText, false, createdAt)] + notebook.items))
  }

  /** `toggleItemDone(itemId)`: flip `done` on the located item. */
  function ToggleItemDone(s: AppState, itemId: string): (r: AppState)
    ensures LocateItem(s, itemId).None? ==> r == s
    ensures LocateItem(s, itemId).Some? ==>
              var (i, k) := LocateItem(s, itemId).value;
              var item := s.notebooks[i].items[k];
              ChangesOnlyNotebook(s, r, i) && ChangesOnlyItem(s.notebooks[i], r.notebooks[i], k)
              && r.notebooks[i].items[k].done == !item.done
              && r.notebooks[i].items[k].(done := item.done) == item
  {
    match LocateItem(s, itemId)
    case None => s
    case Some((i, k)) =>
      var notebook := s.notebooks[i];
      var item := notebook.items[k];
      WithNotebook(s, i, WithItem(notebook, k, item.(done := !item.done)))
  }

  /** `editItem(itemId, newText)`: give the located item the trimmed new
      text, unless it is blank. */
  function EditItem(s: AppState, itemId: string, newText: string): (r: AppState)
    ensures LocateItem(s, itemId).None? || IsBlank(newText) ==> r == s
    ensures LocateItem(s, itemId).Some? && !IsBlank(newText) ==>
              var (i, k) := LocateItem(s, itemId).value;
              var item := s.notebooks[i].items[k];
              ChangesOnlyNotebook(s, r, i) && ChangesOnlyItem(s.notebooks[i], r.notebooks[i], k)
              && r.notebooks[i].items[k].text == Trim(newText)
              && r.notebooks[i].items[k].(text := item.text) == item
  {
    match LocateItem(s, itemId)
    case None => s
    case Some((i, k)) =>
      var cleanText := Trim(newText);
      if cleanText == "" then s
      else
        var notebook := s.notebooks[i];
        WithNotebook(s, i, WithItem(notebook, k, notebook.items[k].(text := cleanText)))
  }

  /** `deleteItem(itemId)`: remove the located item, keeping the order of the
      others. */
  function DeleteItem(s: AppState, itemId: string): (r: AppState)
    ensures LocateItem(s, itemId).None? ==> r == s
    ensures LocateItem(s, itemId).Some? ==>
              var (i, k) := LocateItem(s, itemId).value;
              var items := s.notebooks[i].items;
              ChangesOnlyNotebook(s, r, i)
              && r.notebooks[i].(items := items) == s.notebooks[i]
              && |r.notebooks[i].items| == |items| - 1
              && r.notebooks[i].items == items[..k] + items[k + 1..]
  {
    match LocateItem(s, itemId)
    case None => s
    case Some((i, k)) =>
      var notebook := s.notebooks[i];
      WithNotebook(s, i, notebook.(items := notebook.items[..k] + notebook.items[k + 1..]))
  }
}
