/** The overview page: the rows that pass the optional `status` and
    `beschluss` filters, newest date first, together with the choices
    offered for both filters. */
module Listing {
  import opened Wrappers
  import opened Antraege
  import opened StringOrder

  /** The two query parameters as `request.args.get` returns them. */
  datatype Query = Query(status: Option<string>, beschluss: Option<string>)

  /** What the overview hands to its template. */
  datatype Overview = Overview(
    antraege: seq<Antrag>,
    aktiverStatus: Option<string>,
    aktiverBeschluss: Option<string>,
    verfuegbareStati: seq<string>,
    verfuegbareBeschluesse: seq<string>)

  /** Python truthiness of an optional string: absent and "" are false. */
  predicate Truthy(p: Option<string>)
  {
    p.Some? && p.value != ""
  }

  /** A row is shown when it equals every filter that is switched on. */
  predicate Selected(a: Antrag, q: Query)
  {
    && (Truthy(q.status) ==> a.status == q.status.value)
    && (Truthy(q.beschluss) ==> a.beschluss == q.beschluss.value)
  }

  /** Newer (or equal) dates come before older ones. */
  predicate DescendingByDatum(xs: seq<Antrag>)
  {
    forall i, j | 0 <= i < j < |xs| :: DateLe(xs[j].datum, xs[i].datum)
  }

  /** `filter_by(field=v)`: keeps exactly the rows whose column equals `v`,
      each as often as before. */
  function Where(rows: seq<Antrag>, f: Field, v: string): (r: seq<Antrag>)
    ensures forall a :: multiset(r)[a] == if FieldOf(a, f) == v then multiset(rows)[a] else 0
  {
    if |rows| == 0 then []
    else
      assert rows == [rows[0]] + rows[1..];
      var rest := Where(rows[1..], f, v);
      if FieldOf(rows[0], f) == v then [rows[0]] + rest else rest
  }

  /** Places `a` into a list ordered newest first, before any row with the same date. */
  function InsertByDatum(a: Antrag, xs: seq<Antrag>): (r: seq<Antrag>)
    requires DescendingByDatum(xs)
    ensures DescendingByDatum(r)
    ensures multiset(r) == multiset(xs) + multiset{a}
  {
    if |xs| == 0 then [a]
    else if DateLe(xs[0].datum, a.datum) then
      assert forall x | x in xs :: DateLe(x.datum, a.datum) by {
        forall x | x in xs
          ensures DateLe(x.datum, a.datum)
        {
          var k :| 0 <= k < |xs| && xs[k] == x;
        }
      }
      [a] + xs
    else
      assert xs == [xs[0]] + xs[1..];
      var rest := InsertByDatum(a, xs[1..]);
      assert forall x | x in rest :: DateLe(x.datum, xs[0].datum) by {
        forall x | x in rest
          ensures DateLe(x.datum, xs[0].datum)
        {
          assert x in multiset(rest);
          if x != a {
            assert x in xs[1..];
            var k :| 0 <= k < |xs[1..]| && xs[1..][k] == x;
            assert xs[k + 1] == x;
          }
        }
      }
      [xs[0]] + rest
  }

  /** `order_by(datum.desc())`: the same rows, newest first. */
  function SortByDatumDesc(xs: seq<Antrag>): (r: seq<Antrag>)
    ensures DescendingByDatum(r)
    ensures multiset(r) == multiset(xs)
  {
    if |xs| == 0 then []
    else
      assert xs == [xs[0]] + xs[1..];
      InsertByDatum(xs[0], SortByDatumDesc(xs[1..]))
  }

  /** Some row carries `v` in column `f`. */
  predicate Occurs(rows: seq<Antrag>, f: Field, v: string)
  {
    exists a | a in rows :: FieldOf(a, f) == v
  }

  /** `[a.field for a in rows]`. */
  function Column(rows: seq<Antrag>, f: Field): (r: seq<string>)
    ensures forall v :: v in r <==> Occurs(rows, f, v)
  {
    if |rows| == 0 then []
    else
      assert rows == [rows[0]] + rows[1..];
      [FieldOf(rows[0], f)] + Column(rows[1..], f)
  }

  /** `sorted(list(set(column)))` over the whole table. */
  function Choices(rows: seq<Antrag>, f: Field): (r: seq<string>)
    ensures StrictlyAscending(r)
    ensures forall v :: v in r <==> Occurs(rows, f, v)
  {
    SortedDistinct(Column(rows, f))
  }

  /** The overview: filters applied one after the other, then ordered by
      date; the choices are taken over all rows whatever the filters say. */
  function ListAntraege(s: Store, q: Query): (r: Overview)
    ensures r.aktiverStatus == q.status && r.aktiverBeschluss == q.beschluss
    ensures forall a :: multiset(r.antraege)[a] == if Selected(a, q) then multiset(s.rows)[a] else 0
    ensures forall a :: a in r.antraege <==> a in s.rows && Selected(a, q)
    ensures DescendingByDatum(r.antraege)
    ensures StrictlyAscending(r.verfuegbareStati)
    ensures forall v :: v in r.verfuegbareStati <==> exists a | a in s.rows :: a.status == v
    ensures StrictlyAscending(r.verfuegbareBeschluesse)
    ensures forall v :: v in r.verfuegbareBeschluesse <==> exists a | a in s.rows :: a.beschluss == v
  {
    var byStatus := if Truthy(q.status) then Where(s.rows, Status, q.status.value) else s.rows;
    var byBoth := if Truthy(q.beschluss) then Where(byStatus, Beschluss, q.beschluss.value) else byStatus;
    var antraege := SortByDatumDesc(byBoth);
    assert forall a :: multiset(antraege)[a] == if Selected(a, q) then multiset(s.rows)[a] else 0;
    Overview(antraege, q.status, q.beschluss, Choices(s.rows, Status), Choices(s.rows, Beschluss))
  }

  /** An option list depends only on which values occur in its column: not
      on the order or number of the rows, and so not on the active filters
      either, which the overview never applies to it. */
  lemma ChoicesDependOnlyOnValues(rows1: seq<Antrag>, rows2: seq<Antrag>, f: Field)
    requires forall v :: Occurs(rows1, f, v) <==> Occurs(rows2, f, v)
    ensures Choices(rows1, f) == Choices(rows2, f)
  {
    AscendingListingUnique(Choices(rows1, f), Choices(rows2, f));
  }
}
