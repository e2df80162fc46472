/** Properties that span several requests. */
module Scenario {
  import opened Wrappers
  import opened Antraege
  import opened Listing
  import opened Handlers

  const NoFilter: Query := Query(None, None)

  /** Once a row is deleted, editing or deleting its id again is a 404 and
      leaves the table as it is. */
  lemma DeleteThenNotFound(s: Store, id: int, form: Form, parse: string -> Option<Date>)
    requires Valid(s)
    requires DeleteAntrag(s, id).outcome.Redirect?
    ensures var s1 := DeleteAntrag(s, id).store;
      && EditAntrag(s1, id, form, parse) == Response(s1, NotFound)
      && DeleteAntrag(s1, id) == Response(s1, NotFound)
  {
  }

  /** A motion is filed, shows up as open in the overview, is accepted and
      then found under the "angenommen" filter, and after deletion is no
      longer listed. */
  lemma {:induction false} BudgetLifecycle(s: Store, parse: string -> Option<Date>, today: Date)
    requires Valid(s)
    ensures
      var id := s.nextId;
      var added := AddAntrag(s, map["titel" := "Budget 2024", "antragsteller" := "Mueller",
                                    "datum" := "2024-01-10"], parse, today);
      var edited := EditAntrag(added.store, id,
                               map["titel" := "Budget 2024", "antragsteller" := "Mueller",
                                   "datum" := "2024-01-10", "beschluss" := "angenommen",
                                   "status" := "offen"], parse);
      var deleted := DeleteAntrag(edited.store, id);
      && added.outcome.Redirect? && edited.outcome.Redirect? && deleted.outcome.Redirect?
      && (exists a | a in ListAntraege(added.store, NoFilter).antraege ::
            a.id == id && a.titel == "Budget 2024" && a.antragsteller == "Mueller"
            && a.beschluss == "offen" && a.status == "offen")
      && (exists a | a in ListAntraege(edited.store, Query(None, Some("angenommen"))).antraege ::
            a.id == id)
      && (forall a | a in ListAntraege(deleted.store, NoFilter).antraege :: a.id != id)
  {
    var id := s.nextId;
    var addForm := map["titel" := "Budget 2024", "antragsteller" := "Mueller", "datum" := "2024-01-10"];
    var editForm := map["titel" := "Budget 2024", "antragsteller" := "Mueller", "datum" := "2024-01-10",
                        "beschluss" := "angenommen", "status" := "offen"];
    assert forall k | k in AddFields :: k in addForm;
    assert forall k | k in EditFields :: k in editForm;
    var added := AddAntrag(s, addForm, parse, today);
    var a1 := Find(added.store.rows, id).value;
    assert a1 in ListAntraege(added.store, NoFilter).antraege;
    var edited := EditAntrag(added.store, id, editForm, parse);
    var a2 := Find(edited.store.rows, id).value;
    assert Selected(a2, Query(None, Some("angenommen")));
    assert a2 in ListAntraege(edited.store, Query(None, Some("angenommen"))).antraege;
  }
}
