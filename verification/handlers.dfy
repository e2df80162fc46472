/** The three POST handlers that change the table: add, edit and delete.
    Each takes the table before the request and returns the table after it
    together with what the client sees. */
module Handlers {
  import opened Wrappers
  import opened Antraege

  /** The submitted form fields, `request.form`. */
  type Form = map<string, string>

  /** What the client gets back: the redirect to the overview on success,
      404 for an unknown id, 400 for a required form field that is missing. */
  datatype Outcome = Redirect | NotFound | BadRequest(missing: string)

  datatype Response = Response(store: Store, outcome: Outcome)

  /** Fields the add form must carry, in the order the handler reads them. */
  const AddFields: seq<string> := ["titel", "antragsteller", "datum"]

  /** Fields the edit form must carry, in the order the handler reads them. */
  const EditFields: seq<string> := ["titel", "antragsteller", "datum", "beschluss", "status"]

  /** The first required field the form lacks; reading it is where the
      handler stops with a 400. */
  function FirstMissing(form: Form, keys: seq<string>): (r: Option<string>)
    ensures r.None? <==> forall k | k in keys :: k in form
    ensures r.Some? ==> exists i | 0 <= i < |keys| ::
      keys[i] == r.value && r.value !in form && forall j | 0 <= j < i :: keys[j] in form
  {
    if |keys| == 0 then None
    else if keys[0] !in form then Some(keys[0])
    else
      var rest := FirstMissing(form, keys[1..]);
      assert forall k | k in keys :: k == keys[0] || k in keys[1..] by {
        assert keys == [keys[0]] + keys[1..];
      }
      if rest.Some? then
        var i :| 0 <= i < |keys[1..]| && keys[1..][i] == rest.value && rest.value !in form
          && forall j | 0 <= j < i :: keys[1..][j] in form;
        assert keys[i + 1] == rest.value;
        assert forall j | 0 <= j < i + 1 :: keys[j] in form by {
          forall j | 0 <= j < i + 1
            ensures keys[j] in form
          {
            if j > 0 {
              assert keys[j] == keys[1..][j - 1];
            }
          }
        }
        rest
      else
        rest
  }

  /** What a lookup should see once `a` is appended: old rows win, then the new one. */
  function FindAfterAppend(rows: seq<Antrag>, a: Antrag, id: int): Option<Antrag>
  {
    if Find(rows, id).Some? then Find(rows, id) else if a.id == id then Some(a) else None
  }

  lemma {:induction false} FindAppend(rows: seq<Antrag>, a: Antrag, id: int)
    ensures Find(rows + [a], id) == FindAfterAppend(rows, a, id)
  {
    if |rows| > 0 {
      assert (rows + [a])[1..] == rows[1..] + [a];
      FindAppend(rows[1..], a, id);
    }
  }

  /** Writes `a` over the row that carries its id; ids and order stay put. */
  function Replace(rows: seq<Antrag>, a: Antrag): (r: seq<Antrag>)
    ensures |r| == |rows|
    ensures forall i | 0 <= i < |rows| :: r[i].id == rows[i].id
    ensures forall id :: Find(r, id) == if id == a.id && Find(rows, id).Some? then Some(a) else Find(rows, id)
  {
    if |rows| == 0 then []
    else
      var rest := Replace(rows[1..], a);
      var r := [if rows[0].id == a.id then a else rows[0]] + rest;
      assert r[1..] == rest;
      r
  }

  /** Drops every row with the given id and keeps the rest in order. */
  function Remove(rows: seq<Antrag>, id: int): (r: seq<Antrag>)
    ensures forall a :: a in r <==> a in rows && a.id != id
    ensures forall k :: Find(r, k) == if k == id then None else Find(rows, k)
  {
    if |rows| == 0 then []
    else
      assert rows == [rows[0]] + rows[1..];
      var rest := Remove(rows[1..], id);
      if rows[0].id == id then rest
      else
        var r := [rows[0]] + rest;
        assert r[1..] == rest;
        r
  }

  /** Removing an id that no row carries changes nothing. */
  lemma {:induction false} RemoveAbsent(rows: seq<Antrag>, id: int)
    requires Find(rows, id).None?
    ensures Remove(rows, id) == rows
  {
    if |rows| > 0 {
      assert rows == [rows[0]] + rows[1..];
      RemoveAbsent(rows[1..], id);
    }
  }

  /** Removal keeps ids unique. */
  lemma {:induction false} RemoveKeepsUnique(rows: seq<Antrag>, id: int)
    requires UniqueIds(rows)
    ensures UniqueIds(Remove(rows, id))
  {
    if |rows| > 0 {
      assert rows == [rows[0]] + rows[1..];
      UniqueIdsCons(rows[0], rows[1..]);
      RemoveKeepsUnique(rows[1..], id);
      if rows[0].id != id {
        UniqueIdsCons(rows[0], Remove(rows[1..], id));
      }
    }
  }

  /** With unique ids, removing a present id drops exactly one row. */
  lemma {:induction false} RemoveCount(rows: seq<Antrag>, id: int)
    requires UniqueIds(rows)
    requires Find(rows, id).Some?
    ensures |Remove(rows, id)| == |rows| - 1
  {
    assert rows == [rows[0]] + rows[1..];
    UniqueIdsCons(rows[0], rows[1..]);
    if rows[0].id == id {
      RemoveAbsent(rows[1..], id);
    } else {
      RemoveCount(rows[1..], id);
    }
  }

  /** POST `/antrag/neu`: a new row with a fresh id, the submitted title and
      submitter, the submitted date or today's when it does not parse, and
      both `beschluss` and `status` set to "offen". */
  function AddAntrag(s: Store, form: Form, parse: string -> Option<Date>, today: Date): (r: Response)
    requires Valid(s)
    ensures r.outcome.Redirect? || r.outcome.BadRequest?
    ensures r.outcome.Redirect? <==> forall k | k in AddFields :: k in form
    ensures r.outcome.BadRequest? ==> r.store == s && r.outcome.missing in AddFields && r.outcome.missing !in form
    ensures r.outcome.Redirect? ==>
      && Valid(r.store)
      && |r.store.rows| == |s.rows| + 1
      && Find(s.rows, s.nextId).None?
      && Find(r.store.rows, s.nextId).Some?
      && (forall id | id != s.nextId :: Find(r.store.rows, id) == Find(s.rows, id))
      && (forall a | a in s.rows :: a in r.store.rows)
    ensures r.outcome.Redirect? ==>
      var n := Find(r.store.rows, s.nextId).value;
      && n.id == s.nextId
      && n.titel == form["titel"]
      && n.antragsteller == form["antragsteller"]
      && (parse(form["datum"]).Some? ==> n.datum == parse(form["datum"]).value)
      && (parse(form["datum"]).None? ==> n.datum == today)
      && n.beschluss == "offen"
      && n.status == "offen"
      && n.notizen == None
  {
    match FirstMissing(form, AddFields)
    case Some(k) => Response(s, BadRequest(k))
    case None =>
      var neu := Antrag(s.nextId, form["titel"], form["antragsteller"],
                        parse(form["datum"]).GetOr(today), "offen", "offen", None);
      var rows := s.rows + [neu];
      assert forall id :: Find(rows, id) == FindAfterAppend(s.rows, neu, id) by {
        forall id {
          FindAppend(s.rows, neu, id);
        }
      }
      assert rows[|s.rows|] == neu;
      Response(Store(rows, s.nextId + 1), Redirect)
  }

  /** POST `/antrag/bearbeiten/<id>`: every submitted field overwrites the
      row, except that a date which does not parse leaves the old date. */
  function EditAntrag(s: Store, id: int, form: Form, parse: string -> Option<Date>): (r: Response)
    requires Valid(s)
    ensures r.outcome.NotFound? <==> Find(s.rows, id).None?
    ensures r.outcome.Redirect? <==> Find(s.rows, id).Some? && forall k | k in EditFields :: k in form
    ensures r.outcome.BadRequest? ==> r.outcome.missing in EditFields && r.outcome.missing !in form
    ensures !r.outcome.Redirect? ==> r.store == s
    ensures r.outcome.Redirect? ==>
      && Valid(r.store)
      && r.store.nextId == s.nextId
      && |r.store.rows| == |s.rows|
      && Find(r.store.rows, id).Some?
      && (forall k | k != id :: Find(r.store.rows, k) == Find(s.rows, k))
    ensures r.outcome.Redirect? ==>
      var prev := Find(s.rows, id).value;
      var n := Find(r.store.rows, id).value;
      && n.id == id
      && n.titel == form["titel"]
      && n.antragsteller == form["antragsteller"]
      && (parse(form["datum"]).Some? ==> n.datum == parse(form["datum"]).value)
      && (parse(form["datum"]).None? ==> n.datum == prev.datum)
      && n.beschluss == form["beschluss"]
      && n.status == form["status"]
      && (n.notizen.Some? <==> "notizen" in form)
      && ("notizen" in form ==> n.notizen.value == form["notizen"])
  {
    match Find(s.rows, id)
    case None => Response(s, NotFound)
    case Some(prev) =>
      match FirstMissing(form, EditFields)
      case Some(k) => Response(s, BadRequest(k))
      case None =>
        var notizen := if "notizen" in form then Some(form["notizen"]) else None;
        var updated := Antrag(id, form["titel"], form["antragsteller"],
                              parse(form["datum"]).GetOr(prev.datum),
                              form["beschluss"], form["status"], notizen);
        var rows := Replace(s.rows, updated);
        assert UniqueIds(rows);
        Response(Store(rows, s.nextId), Redirect)
  }

  /** POST `/antrag/loeschen/<id>`: the row with that id is gone, nothing else. */
  function DeleteAntrag(s: Store, id: int): (r: Response)
    requires Valid(s)
    ensures r.outcome.NotFound? || r.outcome.Redirect?
    ensures r.outcome.NotFound? <==> Find(s.rows, id).None?
    ensures r.outcome.NotFound? ==> r.store == s
    ensures r.outcome.Redirect? ==>
      && Valid(r.store)
      && r.store.nextId == s.nextId
      && |r.store.rows| == |s.rows| - 1
      && Find(r.store.rows, id).None?
      && (forall k | k != id :: Find(r.store.rows, k) == Find(s.rows, k))
      && (forall a :: a in r.store.rows <==> a in s.rows && a.id != id)
  {
    match Find(s.rows, id)
    case None => Response(s, NotFound)
    case Some(_) =>
      RemoveKeepsUnique(s.rows, id);
      RemoveCount(s.rows, id);
      Response(Store(Remove(s.rows, id), s.nextId), Redirect)
  }
}
