/** The `Antrag` table: one record type and the table of rows that the
    database keeps, with the lookup by primary key that `get_or_404` does. */
module Antraege {
  import opened Wrappers

  /** A calendar date as Python's `datetime.date` holds it. */
  datatype Date = Date(year: int, month: int, day: int)

  /** `a <= b` on dates: year first, then month, then day. */
  predicate DateLe(a: Date, b: Date)
  {
    a.year < b.year
    || (a.year == b.year && (a.month < b.month || (a.month == b.month && a.day <= b.day)))
  }

  /** One row of the table. `beschluss`, `status` and `notizen` are nullable
      in the schema; only `notizen` is ever NULL in a table the three
      handlers produce, so only it is optional here. */
  datatype Antrag = Antrag(
    id: int,
    titel: string,
    antragsteller: string,
    datum: Date,
    beschluss: string,
    status: string,
    notizen: Option<string>)

  /** The two columns the listing filters on and offers choices for. */
  datatype Field = Status | Beschluss

  function FieldOf(a: Antrag, f: Field): string
  {
    match f
    case Status => a.status
    case Beschluss => a.beschluss
  }

  /** The table: rows in storage order, and the id the database hands out next. */
  datatype Store = Store(rows: seq<Antrag>, nextId: int)

  /** No two rows share an id. */
  predicate UniqueIds(rows: seq<Antrag>)
  {
    forall i, j | 0 <= i < j < |rows| :: rows[i].id != rows[j].id
  }

  /** Ids are unique in `[h] + t` exactly when they are unique in `t` and
      `h` carries an id no row of `t` has. */
  lemma UniqueIdsCons(h: Antrag, t: seq<Antrag>)
    ensures UniqueIds([h] + t) <==> UniqueIds(t) && forall a | a in t :: a.id != h.id
  {
    var r := [h] + t;
    if UniqueIds(t) && forall a | a in t :: a.id != h.id {
      forall i, j | 0 <= i < j < |r|
        ensures r[i].id != r[j].id
      {
        assert r[j] == t[j - 1];
        if i > 0 {
          assert r[i] == t[i - 1];
        }
      }
    }
    if UniqueIds(r) {
      forall a | a in t
        ensures a.id != h.id
      {
        var k :| 0 <= k < |t| && t[k] == a;
        assert r[0] == h && r[k + 1] == a;
      }
      forall i, j | 0 <= i < j < |t|
        ensures t[i].id != t[j].id
      {
        assert r[i + 1] == t[i] && r[j + 1] == t[j];
      }
    }
  }

  /** Every id was handed out before (ids start at 1) and is used once. */
  predicate Valid(s: Store)
  {
    && 1 <= s.nextId
    && (forall i | 0 <= i < |s.rows| :: 1 <= s.rows[i].id < s.nextId)
    && UniqueIds(s.rows)
  }

  /** An empty `antrag` table: the state the model starts from. */
  function Empty(): (s: Store)
    ensures Valid(s)
    ensures forall id :: Find(s.rows, id) == None
  {
    Store([], 1)
  }

  /** The row with primary key `id`, if there is one. */
  function Find(rows: seq<Antrag>, id: int): (r: Option<Antrag>)
    ensures r.Some? ==> r.value in rows && r.value.id == id
    ensures r.None? <==> forall a | a in rows :: a.id != id
  {
    if |rows| == 0 then None
    else if rows[0].id == id then Some(rows[0])
    else
      assert forall a | a in rows :: a == rows[0] || a in rows[1..] by {
        assert rows == [rows[0]] + rows[1..];
      }
      Find(rows[1..], id)
  }

  /** With unique ids, every row is what looking up its own id returns. */
  lemma FindEachRow(rows: seq<Antrag>, a: Antrag)
    requires UniqueIds(rows)
    requires a in rows
    ensures Find(rows, a.id) == Some(a)
  {
  }
}
