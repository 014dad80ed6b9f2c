/**
 * The notebook store as the program keeps it: one mutable state object whose
 * fields every operation updates in place, writing the whole state through
 * to durable storage after each change that it makes.
 */
module Store {
  import opened Wrappers
  import opened Text
  import opened Model
  import Notebooks
  import Persistence

  class NotebookStore {
    /** The notebooks, newest first. */
    var notebooks: seq<Notebook>
    /** The selected notebook's id; `None` stands for `null`. */
    var selectedNotebookId: Option<string>
    /** The durable store's single key, as its parsed document; `None` when
        it holds nothing usable. */
    var storage: Option<Persistence.Record>

    /** The in-memory state as a value. */
    function State(): AppState
      reads this
    {
      AppState(notebooks, selectedNotebookId)
    }

    /** Startup: the state starts empty; `storage` is whatever was stored. */
    constructor (storage: Option<Persistence.Record>)
      ensures State() == EmptyState && this.storage == storage
    {
      notebooks := [];
      selectedNotebookId := None;
      this.storage := storage;
    }

    /** `loadState`: replace the state with what the stored document holds. */
    method LoadState()
      modifies this
      ensures State() == Persistence.Load(old(storage)) && storage == old(storage)
      ensures selectedNotebookId != Some("")
    {
      if storage.None? {
        notebooks := [];
        selectedNotebookId := None;
        return;
      }
      var parsed := storage.value;
      if parsed.notebooks.None? {
        // the "Invalid data" error, caught at once
        notebooks := [];
        selectedNotebookId := None;
        return;
      }
      notebooks := parsed.notebooks.value;
      selectedNotebookId := if IsTruthy(parsed.selectedNotebookId) then parsed.selectedNotebookId else None;
    }

    /** `saveState`: overwrite the stored document with the whole state. */
    method SaveState()
      modifies this`storage
      ensures storage == Some(Persistence.Save(State()))
      ensures selectedNotebookId != Some("") ==> Persistence.Load(storage) == State()
    {
      storage := Some(Persistence.Record(Some(notebooks), selectedNotebookId));
    }

    /** `getSelectedNotebook`: the first notebook whose id is the selection. */
    function GetSelectedNotebook(): (r: Option<Notebook>)
      reads this
      ensures r.None? <==> (selectedNotebookId.None?
                            || forall j :: 0 <= j < |notebooks| ==> notebooks[j].id != selectedNotebookId.value)
      ensures r.Some? ==> Some(r.value.id) == selectedNotebookId
      ensures r.Some? ==> exists j :: 0 <= j < |notebooks| && notebooks[j] == r.value
                                      && forall k :: 0 <= k < j ==> notebooks[k].id != r.value.id
    {
      match SelectedIndex(State())
      case None => None
      case Some(i) => Some(notebooks[i])
    }

    /** `createNotebook(name)`, with the fresh id and timestamp given. */
    method CreateNotebook(name: string, id: string, createdAt: string)
      modifies this
      ensures State() == Notebooks.CreateNotebook(old(State()), name, id, createdAt)
      ensures storage == Some(Persistence.Save(State()))
    {
      ghost var before := State();
      var trimmed := Trim(name);
      var notebook := Notebook(id, if trimmed == "" then "Untitled" else trimmed, createdAt, []);
      notebooks := [notebook] + notebooks;
      selectedNotebookId := Some(id);
      assert State() == Notebooks.CreateNotebook(before, name, id, createdAt);
      SaveState();
    }

    /** `renameNotebook(newName)`. The state is saved whenever a notebook is
        selected, even if the blank new name left it as it was. */
    method RenameNotebook(newName: string)
      modifies this
      ensures State() == Notebooks.RenameNotebook(old(State()), newName)
      ensures storage == if SelectedIndex(old(State())).Some? then Some(Persistence.Save(State())) else old(storage)
    {
      ghost var before := State();
      var found := SelectedIndex(State());
      if found.None? { return; }
      var i := found.value;
      var notebook := notebooks[i];
      var trimmed := Trim(newName);
      notebooks := notebooks[i := notebook.(name := if trimmed == "" then notebook.name else trimmed)];
      assert State() == Notebooks.WithNotebook(before, i, notebooks[i]);
      SaveState();
    }

    /** `deleteNotebook()`. */
    method DeleteNotebook()
      modifies this
      ensures State() == Notebooks.DeleteNotebook(old(State()))
      ensures storage == if IsTruthy(old(selectedNotebookId)) && SelectedIndex(old(State())).Some?
                         then Some(Persistence.Save(State())) else old(storage)
    {
      if !IsTruthy(selectedNotebookId) { return; }
      var found := FindNotebook(notebooks, selectedNotebookId.value);
      if found.None? { return; }
      var i := found.value;
      notebooks := notebooks[..i] + notebooks[i + 1..];
      if |notebooks| > 0 {
        selectedNotebookId := Some(notebooks[0].id);
      } else {
        selectedNotebookId := None;
      }
      SaveState();
    }

    /** `selectNotebook(id)`. */
    method SelectNotebook(id: string)
      modifies this
      ensures State() == Notebooks.SelectNotebook(old(State()), id)
      ensures storage == Some(Persistence.Save(State()))
    {
      selectedNotebookId := Some(id);
      SaveState();
    }

    /** `addItem(text)`, with the fresh id and timestamp given. */
    method AddItem(text: string, id: string, createdAt: string)
      modifies this
      ensures State() == Notebooks.AddItem(old(State()), text, id, createdAt)
      ensures storage == if SelectedIndex(old(State())).Some? && !IsBlank(text)
                         then Some(Persistence.Save(State())) else old(storage)
    {
      ghost var before := State();
      var found := SelectedIndex(State());
      if found.None? { return; }
      var cleanText := Trim(text);
      if cleanText == "" { return; }
      var i := found.value;
      var notebook := notebooks[i];
      notebooks := notebooks[i := notebook.(items := [Item(id, cleanText, false, createdAt)] + notebook.items)];
      assert State() == Notebooks.WithNotebook(before, i, notebooks[i]);
      SaveState();
    }

    /** `toggleItemDone(itemId)`. */
    method ToggleItemDone(itemId: string)
      modifies this
      ensures State() == Notebooks.ToggleItemDone(old(State()), itemId)
      ensures storage == if Notebooks.LocateItem(old(State()), itemId).Some?
                         then Some(Persistence.Save(State())) else old(storage)
    {
      ghost var before := State();
      var found := SelectedIndex(State());
      if found.None? { return; }
      var i := found.value;
      var notebook := notebooks[i];
      var itemIndex := FindItem(notebook.items, itemId);
      if itemIndex.None? { return; }
      var k := itemIndex.value;
      var item := notebook.items[k];
      notebooks := notebooks[i := notebook.(items := notebook.items[k := item.(done := !item.done)])];
      assert Notebooks.LocateItem(before, itemId) == Some((i, k));
      assert notebooks[i] == Notebooks.WithItem(notebook, k, item.(done := !item.done));
      assert State() == Notebooks.WithNotebook(before, i, notebooks[i]);
      SaveState();
    }

    /** `editItem(itemId, newText)`. */
    method EditItem(itemId: string, newText: string)
      modifies this
      ensures State() == Notebooks.EditItem(old(State()), itemId, newText)
      ensures storage == if Notebooks.LocateItem(old(State()), itemId).Some? && !IsBlank(newText)
                         then Some(Persistence.Save(State())) else old(storage)
    {
      ghost var before := State();
      var found := SelectedIndex(State());
      if found.None? { return; }
      var i := found.value;
      var notebook := notebooks[i];
      var itemIndex := FindItem(notebook.items, itemId);
      if itemIndex.None? { return; }
      var cleanText := Trim(newText);
      if cleanText == "" { return; }
      var k := itemIndex.value;
      notebooks := notebooks[i := notebook.(items := notebook.items[k := notebook.items[k].(text := cleanText)])];
      assert Notebooks.LocateItem(before, itemId) == Some((i, k));
      assert notebooks[i] == Notebooks.WithItem(notebook, k, notebook.items[k].(text := cleanText));
      assert State() == Notebooks.WithNotebook(before, i, notebooks[i]);
      SaveState();
    }

    /** `deleteItem(itemId)`. */
    method DeleteItem(itemId: string)
      modifies this
      ensures State() == Notebooks.DeleteItem(old(State()), itemId)
      ensures storage == if Notebooks.LocateItem(old(State()), itemId).Some?
                         then Some(Persistence.Save(State())) else old(storage)
    {
      ghost var before := State();
      var found := SelectedIndex(State());
      if found.None? { return; }
      var i := found.value;
      var notebook := notebooks[i];
      var itemIndex := FindItem(notebook.items, itemId);
      if itemIndex.None? { return; }
      var k := itemIndex.value;
      notebooks := notebooks[i := notebook.(items := notebook.items[..k] + notebook.items[k + 1..])];
      assert Notebooks.LocateItem(before, itemId) == Some((i, k));
      assert State() == Notebooks.WithNotebook(before, i, notebooks[i]);
      SaveState();
    }
  }
}
