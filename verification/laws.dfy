/**
 * Properties that relate several store operations: what undoes what, the
 * invariants every operation keeps, and two end-to-end scenarios.
 */
module Laws {
  import opened Wrappers
  import opened Text
  import opened Model
  import opened Notebooks

  /** No notebook has id `id`. */
  predicate NotebookIdUnused(s: AppState, id: string) {
    forall k :: 0 <= k < |s.notebooks| ==> s.notebooks[k].id != id
  }

  /** No item of any notebook has id `id`. */
  predicate ItemIdUnused(s: AppState, id: string) {
    forall k, m :: 0 <= k < |s.notebooks| && 0 <= m < |s.notebooks[k].items| ==>
      s.notebooks[k].items[m].id != id
  }

  // ---------- Inverses ----------

  /** An edit confined to one item that keeps that item's id changes no
      lookup: the same notebook and item are located afterwards. */
  lemma LocateItemUnchanged(s: AppState, t: AppState, i: nat, k: nat, itemId: string)
    requires ChangesOnlyNotebook(s, t, i) && ChangesOnlyItem(s.notebooks[i], t.notebooks[i], k)
    requires t.notebooks[i].items[k].id == s.notebooks[i].items[k].id
    ensures SelectedIndex(t) == SelectedIndex(s)
    ensures LocateItem(t, itemId) == LocateItem(s, itemId)
  {
    assert t.notebooks[i].id == s.notebooks[i].id;
    SelectedIndexSameIds(s, t);
    FindItemSameIds(s.notebooks[i].items, t.notebooks[i].items, itemId);
  }

  /** Toggling the same item twice restores the state. */
  lemma ToggleItemDoneTwice(s: AppState, itemId: string)
    ensures ToggleItemDone(ToggleItemDone(s, itemId), itemId) == s
  {
    match LocateItem(s, itemId)
    case None =>
    case Some((i, k)) =>
      var notebook := s.notebooks[i];
      var item := notebook.items[k];
      var flipped := item.(done := !item.done);
      var t := ToggleItemDone(s, itemId);
      assert t == WithNotebook(s, i, WithItem(notebook, k, flipped));
      LocateItemUnchanged(s, t, i, k, itemId);
      assert flipped.(done := !flipped.done) == item;
      WithItemLaws(notebook, k, flipped, item);
      WithItemLaws(notebook, k, item, item);
      WithNotebookLaws(s, i, WithItem(notebook, k, flipped), notebook);
      WithNotebookLaws(s, i, notebook, notebook);
  }

  /** Deleting the notebook just created gives back the old notebooks, and
      selects the first of them (or nothing). The new id must be truthy, as
      every id the program generates is. */
  lemma CreateThenDeleteNotebook(s: AppState, name: string, id: string, createdAt: string)
    requires id != ""
    ensures DeleteNotebook(CreateNotebook(s, name, id, createdAt)).notebooks == s.notebooks
    ensures DeleteNotebook(CreateNotebook(s, name, id, createdAt)).selectedNotebookId
              == (if s.notebooks == [] then None else Some(s.notebooks[0].id))
  {
    var c := CreateNotebook(s, name, id, createdAt);
    assert c.notebooks[..0] + c.notebooks[1..] == s.notebooks;
  }

  /** Deleting the item just added restores the state. */
  lemma AddThenDeleteItem(s: AppState, text: string, id: string, createdAt: string)
    requires SelectedIndex(s).Some? && !IsBlank(text)
    ensures DeleteItem(AddItem(s, text, id, createdAt), id) == s
  {
    var a := AddItem(s, text, id, createdAt);
    var i := SelectedIndex(s).value;
    assert LocateItem(a, id) == Some((i, 0));
    assert a.notebooks[i].items[..0] + a.notebooks[i].items[1..] == s.notebooks[i].items;
    assert a.notebooks[i := s.notebooks[i]] == s.notebooks;
  }

  /** Writing a notebook back over itself changes nothing, and of two
      writes to the same notebook only the last counts. */
  lemma WithNotebookLaws(s: AppState, i: nat, first: Notebook, second: Notebook)
    requires i < |s.notebooks|
    ensures WithNotebook(s, i, s.notebooks[i]) == s
    ensures WithNotebook(WithNotebook(s, i, first), i, second) == WithNotebook(s, i, second)
  {
    assert s.notebooks[i := s.notebooks[i]] == s.notebooks;
    assert s.notebooks[i := first][i := second] == s.notebooks[i := second];
  }

  /** The same two laws for the items of a notebook. */
  lemma WithItemLaws(notebook: Notebook, k: nat, first: Item, second: Item)
    requires k < |notebook.items|
    ensures WithItem(notebook, k, notebook.items[k]) == notebook
    ensures WithItem(WithItem(notebook, k, first), k, second) == WithItem(notebook, k, second)
  {
    assert notebook.items[k := notebook.items[k]] == notebook.items;
    assert notebook.items[k := first][k := second] == notebook.items[k := second];
  }

  /** Renaming back to the old (clean) name restores the state. */
  lemma RenameBack(s: AppState, newName: string)
    requires SelectedIndex(s).Some? && IsCleanText(s.notebooks[SelectedIndex(s).value].name)
    ensures RenameNotebook(RenameNotebook(s, newName), s.notebooks[SelectedIndex(s).value].name) == s
  {
    var i := SelectedIndex(s).value;
    var notebook := s.notebooks[i];
    var t := RenameNotebook(s, newName);
    assert !IsBlank(notebook.name) && Trim(notebook.name) == notebook.name;
    var renamed := t.notebooks[i];
    WithNotebookLaws(s, i, renamed, notebook);
    assert renamed.(name := notebook.name) == notebook;
  }

  /** Editing an item to the text it already has, when that text is clean,
      changes nothing. */
  lemma EditItemToSameText(s: AppState, itemId: string, i: nat, k: nat)
    requires LocateItem(s, itemId) == Some((i, k))
    requires IsCleanText(s.notebooks[i].items[k].text)
    ensures EditItem(s, itemId, s.notebooks[i].items[k].text) == s
  {
    var notebook := s.notebooks[i];
    var item := notebook.items[k];
    assert !IsBlank(item.text) && Trim(item.text) == item.text;
    WithItemLaws(notebook, k, item, item);
    WithNotebookLaws(s, i, notebook, notebook);
  }

  /** Editing an item to a non-blank text and then back to its old, clean
      text restores the state. */
  lemma EditAndBack(s: AppState, itemId: string, newText: string, i: nat, k: nat)
    requires LocateItem(s, itemId) == Some((i, k))
    requires IsCleanText(s.notebooks[i].items[k].text) && !IsBlank(newText)
    ensures EditItem(EditItem(s, itemId, newText), itemId, s.notebooks[i].items[k].text) == s
  {
    var notebook := s.notebooks[i];
    var item := notebook.items[k];
    var edited := item.(text := Trim(newText));
    var t := EditItem(s, itemId, newText);
    assert t == WithNotebook(s, i, WithItem(notebook, k, edited));
    LocateItemUnchanged(s, t, i, k, itemId);
    assert !IsBlank(item.text) && Trim(item.text) == item.text;
    assert edited.(text := item.text) == item;
    WithItemLaws(notebook, k, edited, item);
    WithItemLaws(notebook, k, item, item);
    WithNotebookLaws(s, i, WithItem(notebook, k, edited), notebook);
    WithNotebookLaws(s, i, notebook, notebook);
  }

  /** Editing an item back to its old (clean) text restores the state. */
  lemma EditBack(s: AppState, itemId: string, newText: string)
    requires LocateItem(s, itemId).Some?
    requires IsCleanText(s.notebooks[LocateItem(s, itemId).value.0].items[LocateItem(s, itemId).value.1].text)
    ensures var (i, k) := LocateItem(s, itemId).value;
            EditItem(EditItem(s, itemId, newText), itemId, s.notebooks[i].items[k].text) == s
  {
    var (i, k) := LocateItem(s, itemId).value;
    if IsBlank(newText) {
      EditItemToSameText(s, itemId, i, k);
    } else {
      EditAndBack(s, itemId, newText, i, k);
    }
  }

  // ---------- Invariants ----------

  /** Updating one notebook in place, keeping its id and its own invariant,
      keeps the state invariant. */
  lemma ValidWithNotebook(s: AppState, i: nat, notebook: Notebook)
    requires Valid(s) && i < |s.notebooks|
    requires notebook.id == s.notebooks[i].id && ValidNotebook(notebook)
    ensures Valid(WithNotebook(s, i, notebook))
  {
    var r := WithNotebook(s, i, notebook);
    assert forall j :: 0 <= j < |r.notebooks| ==> r.notebooks[j].id == s.notebooks[j].id;
  }

  /** Updating one item in place, keeping its id and with a clean text,
      keeps the notebook's invariant. */
  lemma ValidNotebookWithItem(notebook: Notebook, k: nat, item: Item)
    requires ValidNotebook(notebook) && k < |notebook.items|
    requires item.id == notebook.items[k].id && IsCleanText(item.text)
    ensures ValidNotebook(WithItem(notebook, k, item))
  {
    var r := WithItem(notebook, k, item);
    assert forall m :: 0 <= m < |r.items| ==> r.items[m].id == notebook.items[m].id;
  }

  /** Removing one notebook keeps notebook ids unique. */
  lemma UniqueNotebookIdsRemove(a: seq<Notebook>, i: nat)
    requires UniqueNotebookIds(a) && i < |a|
    ensures UniqueNotebookIds(a[..i] + a[i + 1..])
  {
    var r := a[..i] + a[i + 1..];
    forall p, q | 0 <= p < q < |r| ensures r[p].id != r[q].id {
      var p', q' := if p < i then p else p + 1, if q < i then q else q + 1;
      assert r[p] == a[p'] && r[q] == a[q'];
    }
  }

  /** Removing one item keeps a notebook's invariant. */
  lemma ValidNotebookRemoveItem(notebook: Notebook, k: nat)
    requires ValidNotebook(notebook) && k < |notebook.items|
    ensures ValidNotebook(notebook.(items := notebook.items[..k] + notebook.items[k + 1..]))
  {
    var a := notebook.items;
    var r := a[..k] + a[k + 1..];
    forall m | 0 <= m < |r| ensures r[m] == a[if m < k then m else m + 1] { }
    forall p, q | 0 <= p < q < |r| ensures r[p].id != r[q].id {
      var p', q' := if p < k then p else p + 1, if q < k then q else q + 1;
      assert r[p] == a[p'] && r[q] == a[q'];
    }
  }

  /** Creating a notebook with an unused id keeps the invariant. */
  lemma CreateNotebookValid(s: AppState, name: string, id: string, createdAt: string)
    requires Valid(s) && NotebookIdUnused(s, id)
    ensures Valid(CreateNotebook(s, name, id, createdAt))
  {
    var r := CreateNotebook(s, name, id, createdAt);
    assert IsTrimmed("Untitled");
    assert ValidNotebook(r.notebooks[0]);
    forall k | 1 <= k < |r.notebooks| ensures r.notebooks[k] == s.notebooks[k - 1] { }
  }

  /** Renaming keeps the invariant. */
  lemma RenameNotebookValid(s: AppState, newName: string)
    requires Valid(s)
    ensures Valid(RenameNotebook(s, newName))
  {
    if SelectedIndex(s).Some? {
      var i := SelectedIndex(s).value;
      var notebook := s.notebooks[i];
      var trimmed := Trim(newName);
      ValidWithNotebook(s, i, notebook.(name := if trimmed == "" then notebook.name else trimmed));
    }
  }

  /** Deleting a notebook keeps the invariant, and when it acts the deleted
      notebook's id no longer occurs. */
  lemma DeleteNotebookValid(s: AppState)
    requires Valid(s)
    ensures Valid(DeleteNotebook(s))
    ensures IsTruthy(s.selectedNotebookId) ==> NotebookIdUnused(DeleteNotebook(s), s.selectedNotebookId.value)
  {
    var r := DeleteNotebook(s);
    if IsTruthy(s.selectedNotebookId) && SelectedIndex(s).Some? {
      var i := SelectedIndex(s).value;
      UniqueNotebookIdsRemove(s.notebooks, i);
      forall k | 0 <= k < |r.notebooks|
        ensures r.notebooks[k] == s.notebooks[if k < i then k else k + 1]
      { }
    }
  }

  /** Selecting does not touch the notebooks, so it keeps the invariant. */
  lemma SelectNotebookValid(s: AppState, id: string)
    requires Valid(s)
    ensures Valid(SelectNotebook(s, id))
  {
  }

  /** Prepending a clean item with an id the notebook does not use keeps
      the notebook's invariant. */
  lemma ValidNotebookPrependItem(notebook: Notebook, item: Item)
    requires ValidNotebook(notebook) && IsCleanText(item.text)
    requires forall m :: 0 <= m < |notebook.items| ==> notebook.items[m].id != item.id
    ensures ValidNotebook(notebook.(items := [item] + notebook.items))
  {
    var items := [item] + notebook.items;
    forall m | 1 <= m < |items| ensures items[m] == notebook.items[m - 1] { }
  }

  /** Adding an item with an unused id keeps the invariant. */
  lemma AddItemValid(s: AppState, text: string, id: string, createdAt: string)
    requires Valid(s) && ItemIdUnused(s, id)
    ensures Valid(AddItem(s, text, id, createdAt))
  {
    if SelectedIndex(s).Some? && !IsBlank(text) {
      var i := SelectedIndex(s).value;
      var notebook := s.notebooks[i];
      var item := Item(id, Trim(text), false, createdAt);
      assert forall m :: 0 <= m < |notebook.items| ==> notebook.items[m].id != id;
      ValidNotebookPrependItem(notebook, item);
      ValidWithNotebook(s, i, notebook.(items := [item] + notebook.items));
    }
  }

  /** Toggling keeps the invariant. */
  lemma ToggleItemDoneValid(s: AppState, itemId: string)
    requires Valid(s)
    ensures Valid(ToggleItemDone(s, itemId))
  {
    if LocateItem(s, itemId).Some? {
      var (i, k) := LocateItem(s, itemId).value;
      var notebook := s.notebooks[i];
      var item := notebook.items[k];
      ValidNotebookWithItem(notebook, k, item.(done := !item.done));
      ValidWithNotebook(s, i, WithItem(notebook, k, item.(done := !item.done)));
    }
  }

  /** Editing keeps the invariant. */
  lemma EditItemValid(s: AppState, itemId: string, newText: string)
    requires Valid(s)
    ensures Valid(EditItem(s, itemId, newText))
  {
    if LocateItem(s, itemId).Some? && !IsBlank(newText) {
      var (i, k) := LocateItem(s, itemId).value;
      var notebook := s.notebooks[i];
      var item := notebook.items[k].(text := Trim(newText));
      ValidNotebookWithItem(notebook, k, item);
      ValidWithNotebook(s, i, WithItem(notebook, k, item));
    }
  }

  /** Deleting an item keeps the invariant, and when it acts no item with
      that id is left in the selected notebook. */
  lemma DeleteItemValid(s: AppState, itemId: string)
    requires Valid(s)
    ensures Valid(DeleteItem(s, itemId))
    ensures LocateItem(s, itemId).Some? ==>
              FindItem(DeleteItem(s, itemId).notebooks[LocateItem(s, itemId).value.0].items, itemId).None?
  {
    if LocateItem(s, itemId).Some? {
      var (i, k) := LocateItem(s, itemId).value;
      var notebook := s.notebooks[i];
      var items := notebook.items[..k] + notebook.items[k + 1..];
      ValidNotebookRemoveItem(notebook, k);
      ValidWithNotebook(s, i, notebook.(items := items));
      forall m | 0 <= m < |items| ensures items[m] == notebook.items[if m < k then m else m + 1] { }
    }
  }

  // ---------- Scenarios ----------

  /** Adding a clean text to the selected sole notebook prepends the item. */
  lemma AddItemToSoleNotebook(s: AppState, text: string, id: string, createdAt: string)
    requires |s.notebooks| == 1 && SelectedIndex(s) == Some(0) && IsCleanText(text)
    ensures var r := AddItem(s, text, id, createdAt);
            |r.notebooks| == 1 && SelectedIndex(r) == Some(0)
            && r.notebooks[0].items == [Item(id, text, false, createdAt)] + s.notebooks[0].items
  {
    var r := AddItem(s, text, id, createdAt);
    assert !IsBlank(text) && Trim(text) == text;
    var items := r.notebooks[0].items;
    assert items == [items[0]] + items[1..];
  }

  /** The first half of the groceries scenario: adding two items to a
      freshly created, selected notebook leaves both in it, newest first. */
  lemma GroceriesFill(s1: AppState, milk: string, eggs: string,
                      milkId: string, eggsId: string, t2: string, t3: string)
    requires |s1.notebooks| == 1 && SelectedIndex(s1) == Some(0) && s1.notebooks[0].items == []
    requires IsCleanText(milk) && IsCleanText(eggs)
    ensures var s3 := AddItem(AddItem(s1, milk, milkId, t2), eggs, eggsId, t3);
            |s3.notebooks| == 1 && SelectedIndex(s3) == Some(0)
            && s3.notebooks[0].items == [Item(eggsId, eggs, false, t3), Item(milkId, milk, false, t2)]
  {
    AddItemToSoleNotebook(s1, milk, milkId, t2);
    var s2 := AddItem(s1, milk, milkId, t2);
    AddItemToSoleNotebook(s2, eggs, eggsId, t3);
  }

  /** The second half of the groceries scenario: toggling the newer item and
      deleting the older one leaves the single, done, newer item. */
  lemma GroceriesCheckOff(s3: AppState, milk: string, eggs: string,
                          milkId: string, eggsId: string, t2: string, t3: string)
    requires |s3.notebooks| == 1 && SelectedIndex(s3) == Some(0) && milkId != eggsId
    requires s3.notebooks[0].items == [Item(eggsId, eggs, false, t3), Item(milkId, milk, false, t2)]
    ensures var s5 := DeleteItem(ToggleItemDone(s3, eggsId), milkId);
            |s5.notebooks| == 1 && s5.notebooks[0].items == [Item(eggsId, eggs, true, t3)]
  {
    var items3 := s3.notebooks[0].items;
    assert LocateItem(s3, eggsId) == Some((0, 0));
    var s4 := ToggleItemDone(s3, eggsId);
    var items4 := s4.notebooks[0].items;
    LocateItemUnchanged(s3, s4, 0, 0, milkId);
    assert |items4| == 2 && items4[1] == items3[1];
    assert items4[0] == items3[0].(done := true);
    assert FindItem(items3, milkId) == Some(1);
    var s5 := DeleteItem(s4, milkId);
    assert s5.notebooks[0].items == items4[..1];
  }

  /** Create a notebook ("Groceries"), add two items ("Milk", then "Eggs"),
      toggle the second, delete the first: the items are newest first, and one
      notebook is left holding the single done item. */
  lemma GroceriesScenario(s: AppState, list: string, milk: string, eggs: string,
                          listId: string, milkId: string, eggsId: string, t1: string, t2: string, t3: string)
    requires s == EmptyState
    requires IsCleanText(list) && IsCleanText(milk) && IsCleanText(eggs) && milkId != eggsId
    ensures var s1 := CreateNotebook(s, list, listId, t1);
            var s2 := AddItem(s1, milk, milkId, t2);
            var s3 := AddItem(s2, eggs, eggsId, t3);
            var s4 := ToggleItemDone(s3, eggsId);
            var s5 := DeleteItem(s4, milkId);
            |s3.notebooks| == 1
            && s3.notebooks[0].items == [Item(eggsId, eggs, false, t3), Item(milkId, milk, false, t2)]
            && |s5.notebooks| == 1
            && s5.notebooks[0].items == [Item(eggsId, eggs, true, t3)]
  {
    var s1 := CreateNotebook(s, list, listId, t1);
    assert |s1.notebooks| == 1 && s1.notebooks[0].items == [];
    GroceriesFill(s1, milk, eggs, milkId, eggsId, t2, t3);
    var s3 := AddItem(AddItem(s1, milk, milkId, t2), eggs, eggsId, t3);
    GroceriesCheckOff(s3, milk, eggs, milkId, eggsId, t2, t3);
  }

  /** Create notebooks "A" then "B" (order [B, A], B selected) and delete the
      selected one: only "A" is left, and it is selected. */
  lemma TwoNotebooksScenario(s: AppState, nameA: string, nameB: string, idA: string, idB: string, t1: string, t2: string)
    requires s == EmptyState
    requires IsCleanText(nameA) && IsCleanText(nameB) && idB != ""
    ensures var s1 := CreateNotebook(s, nameA, idA, t1);
            var s2 := CreateNotebook(s1, nameB, idB, t2);
            var s3 := DeleteNotebook(s2);
            s2.notebooks == [Notebook(idB, nameB, t2, []), Notebook(idA, nameA, t1, [])]
            && s2.selectedNotebookId == Some(idB)
            && s3.notebooks == [Notebook(idA, nameA, t1, [])]
            && s3.selectedNotebookId == Some(idA)
  {
    var s1 := CreateNotebook(s, nameA, idA, t1);
    assert s1.notebooks == [Notebook(idA, nameA, t1, [])];
    var s2 := CreateNotebook(s1, nameB, idB, t2);
    assert s2.notebooks == [Notebook(idB, nameB, t2, []), Notebook(idA, nameA, t1, [])];
    assert SelectedIndex(s2) == Some(0);
    var s3 := DeleteNotebook(s2);
    assert s3.notebooks == s2.notebooks[1..];
  }
}
