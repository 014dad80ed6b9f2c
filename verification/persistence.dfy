/**
 * The persistence adapter, over a document that has already been parsed:
 * the store writes `{ notebooks, selectedNotebookId }` and reads it back,
 * falling back to the empty state when nothing usable is stored.
 */
module Persistence {
  import opened Wrappers
  import opened Model

  /** The stored document once parsed. `notebooks` is `None` when the field
      is missing or is not an array. */
  datatype Record = Record(notebooks: Option<seq<Notebook>>, selectedNotebookId: Option<string>)

  /** `loadState`. `raw` is `None` when nothing (or the empty string) is
      stored, or the stored text does not parse to an object. Such input,
      and a document whose `notebooks` is not an array, give the empty state;
      otherwise the notebooks are taken as they are and a falsy selection
      (`null` or `""`) becomes `null`. */
  function Load(raw: Option<Record>): (r: AppState)
    ensures raw.None? || raw.value.notebooks.None? ==> r == EmptyState
    ensures raw.Some? && raw.value.notebooks.Some? ==>
              r.notebooks == raw.value.notebooks.value
              && (IsTruthy(raw.value.selectedNotebookId) ==> r.selectedNotebookId == raw.value.selectedNotebookId)
              && (!IsTruthy(raw.value.selectedNotebookId) ==> r.selectedNotebookId == None)
    ensures r.selectedNotebookId != Some("")
  {
    match raw
    case None => EmptyState
    case Some(parsed) =>
      match parsed.notebooks
      case None => EmptyState
      case Some(notebooks) =>
        AppState(notebooks, if IsTruthy(parsed.selectedNotebookId) then parsed.selectedNotebookId else None)
  }

  /** `saveState`: the document written holds exactly the two fields of the
      state. Loading it back gives the same state exactly when the selection
      is not the empty string, which loading turns into `null`. */
  function Save(s: AppState): (r: Record)
    ensures r.notebooks == Some(s.notebooks) && r.selectedNotebookId == s.selectedNotebookId
    ensures Load(Some(r)) == s <==> s.selectedNotebookId != Some("")
  {
    Record(Some(s.notebooks), s.selectedNotebookId)
  }

  /** Every loaded state survives a save and a load unchanged. */
  lemma LoadSaveLoad(raw: Option<Record>)
    ensures Load(Some(Save(Load(raw)))) == Load(raw)
  {
  }
}
