# Antrag record store — a Dafny model

This project models the core of a small Flask application that keeps
"Anträge" (motions): each record has a title (`titel`), a submitter
(`antragsteller`), a date (`datum`), a resolution (`beschluss`), a workflow
status (`status`) and optional notes (`notizen`). The model covers the one
table of records, the overview page with its two equality filters and its
date ordering, the option lists offered for both filters, and the three
form submissions that change the table: add, edit and delete.

The database and the web framework are abstracted away. The table is a
value, `Store`: its rows in storage order plus the id the database hands out
next. Each POST handler is a pure function from the table before the request
to a `Response`, holding the table after the request and the outcome the
client sees: the redirect to the overview, 404, or 400 for a missing
required form field. Date parsing (`strptime` with `%Y-%m-%d`) is a
parameter `parse: string -> Option<Date>`, and today's date is a parameter
too.

Files:

- `wrappers.dfy` — `Option`.
- `string_order.dfy` — Python's `<` on `str`, proved a strict total order,
  and `sorted(set(xs))` as `SortedDistinct`.
- `antraege.dfy` — `Date`, the `Antrag` record, the `Store`, its invariant
  `Valid` (ids unique, all in `[1, nextId)`), and lookup by id, `Find`.
- `listing.dfy` — the overview, `ListAntraege`, with filters (`Where`),
  ordering (`SortByDatumDesc`) and option lists (`Choices`).
- `handlers.dfy` — `AddAntrag`, `EditAntrag`, `DeleteAntrag`.
- `scenario.dfy` — properties that span several requests.

Three behaviours of the code worth knowing:

- The listing orders by `datum` only. There is no secondary key, so nothing
  is promised about the order of two rows with the same date. The model's
  sort happens to keep storage order among equal dates, but no contract
  relies on that.
- `titel` and `antragsteller` are not checked for being non-empty. A form
  field that is present but empty is stored as the empty string. Only a
  field that is missing altogether stops the request, with a 400.
- The date fallback differs between add and edit. On add, an unparseable
  date becomes today's date. On edit, it leaves the stored date as it was.
  Both behaviours are modelled as written.

## Model

| member | source | states |
|---|---|---|
| `Antraege.Empty` | app.py:21-28 | an `antrag` table with the declared schema and no rows satisfies the store invariant and holds no row under any id |
| `Antraege.Find` | app.py:94 | the lookup behind `get_or_404` returns a row that is in the table and has the requested id, and returns nothing exactly when no row carries that id |
| `Antraege.UniqueIdsCons` | app.py:22 | ids are unique in a table with one more row in front exactly when they are unique in the rest and the new row's id appears nowhere in it |
| `Antraege.FindEachRow` | app.py:22 | since `id` is the primary key, looking up any row's own id returns that very row |
| `StringOrder.LessIrreflexive` | app.py:54-55 | no string sorts strictly before itself |
| `StringOrder.LessTransitive` | app.py:54-55 | the string order that `sorted` uses is transitive |
| `StringOrder.LessTotal` | app.py:54-55 | any two different strings are ordered one way or the other |
| `StringOrder.AscendingIsDistinct` | app.py:54-55 | a strictly ascending list contains no value twice |
| `StringOrder.Insert` | app.py:54-55 | adding one value to a sorted distinct list gives a sorted distinct list holding exactly the old values plus the new one |
| `StringOrder.SortedDistinct` | app.py:54-55 | `sorted(set(xs))` is strictly ascending and contains exactly the values of `xs` |
| `StringOrder.AscendingListingUnique` | app.py:54-55 | two strictly ascending lists with the same values are equal, so the sorted option list is fully determined by the set of values |
| `Listing.Where` | app.py:46-49 | `filter_by(field=v)` keeps each row whose column equals `v` as often as it occurs, and drops every other row |
| `Listing.InsertByDatum` | app.py:51 | inserting one row into a list ordered newest-first keeps it newest-first and adds exactly that row |
| `Listing.SortByDatumDesc` | app.py:51 | `order_by(datum.desc())` returns a permutation of its input in which dates never increase |
| `Listing.Column` | app.py:54-55 | the column list `[a.status for a in rows]` contains exactly the values that some row carries in that column |
| `Listing.Choices` | app.py:54-55 | an option list is strictly ascending and contains exactly the values present in that column across all rows |
| `Listing.ListAntraege` | app.py:39-63 | the overview lists each row satisfying every non-empty filter exactly as often as it is stored, and no other row. Absent and empty filters impose nothing, and the two filters combine conjunctively. The rows appear in non-increasing date order, the active filters are passed through unchanged, and both option lists are strictly ascending and hold exactly the values present over the whole table, whatever the filters |
| `Listing.ChoicesDependOnlyOnValues` | app.py:54-55 | two tables whose column carries the same values yield the same option list, however their rows are ordered or repeated; the list is computed over all rows (`Antrag.query.all()`), so the active filters cannot change it |
| `Handlers.FirstMissing` | app.py:69-71 | the handler stops at the first required form field that is missing, and only when such a field exists |
| `Handlers.FindAppend` | app.py:86-87 | after appending a row, a lookup finds the old row for every id already present, and the new row for its own id |
| `Handlers.Replace` | app.py:96-109 | overwriting a row keeps the number of rows and every row's id. A lookup of the overwritten id yields the new contents, and a lookup of any other id is unaffected |
| `Handlers.Remove` | app.py:117-118 | after removal, no row carries the removed id and every other row is still present; lookups of other ids are unaffected |
| `Handlers.RemoveAbsent` | app.py:116-118 | removing an id that no row carries leaves the rows unchanged |
| `Handlers.RemoveKeepsUnique` | app.py:117-118 | removal keeps ids unique |
| `Handlers.RemoveCount` | app.py:117-118 | with unique ids, removing a present id drops exactly one row |
| `Handlers.AddAntrag` | app.py:68-87 | add succeeds exactly when titel, antragsteller and datum are submitted, and otherwise answers 400 with the table unchanged. On success it inserts exactly one row, under an id no row had. That row holds the submitted titel and antragsteller, the parsed date (or today when parsing fails), `beschluss` and `status` equal to "offen", and no notes. Every other id looks up as before, and the store invariant is kept |
| `Handlers.EditAntrag` | app.py:94-109 | edit answers 404 exactly when the id is absent and 400 when a required field is missing, and in both cases leaves the table unchanged. On success the row keeps its id and takes titel, antragsteller, beschluss, status and notizen (absent when not submitted) from the form. It takes the parsed date, or keeps its previous date when parsing fails. Every other id looks up as before, and the store invariant is kept |
| `Handlers.DeleteAntrag` | app.py:116-118 | delete answers 404 with the table unchanged exactly when the id is absent. Otherwise it removes exactly that row: one row fewer, the id no longer found, every other id looks up as before, and the store invariant is kept |
| `Scenario.DeleteThenNotFound` | app.py:114-118 | after a row is deleted, editing or deleting its id again answers 404 and leaves the table unchanged |
| `Scenario.BudgetLifecycle` | app.py:39-119 | a motion that has been added is listed with beschluss and status "offen". After it is edited to "angenommen", it appears under that filter. After it is deleted, it is no longer listed |

## Left out

- Routing, `redirect`/`url_for`, template rendering and the GET branches that only render a form (app.py:33-36, 58-63, 89, 111) are presentation; the overview's result is the record of values handed to the template.
- Database configuration, the environment variable, `db.create_all()` and the `__main__` block (app.py:6-18, 121-124) are bootstrapping; the model starts from `Antraege.Empty`.
- The model assumes the `antrag` table already exists. The startup `db.create_all()` (app.py:17-18) runs before `class Antrag` is defined (app.py:21), so it registers no table and creates nothing. Nothing later creates the table either: the `__main__` block (app.py:121-124) only starts the server. On a fresh database, every handler that touches `Antrag` therefore ends in an uncaught "no such table" error; the model does not represent that state.
- Rows with a NULL `beschluss` or `status` are excluded: both columns are nullable in the schema (app.py:26-27), but add writes "offen" (app.py:83-84) and edit writes a submitted string (app.py:105-106), so only a table filled by something other than these handlers can hold NULL there. In such a table the overview's `sorted(list(set(...)))` (app.py:54-55) would compare `None` with a string and fail with a 500.
- The internals of `strptime` with `'%Y-%m-%d'` (app.py:73, 101) are library code; parsing is an arbitrary function from strings to optional dates.
- `datetime.date.today()` (app.py:76) reads the clock; today's date is a parameter.
- Id generation is the database's. The model hands out a counter, `nextId`, that is never reused (`Valid` keeps every id below it). This is stricter than the default SQLite table, whose `INTEGER PRIMARY KEY` without AUTOINCREMENT hands out max(id)+1 and can reissue the id of a just-deleted highest row. No contract depends on ids never being reused; they only rely on the new id being absent from the table.
- A commit that fails is not modelled: an unreachable database, or a database that rejects a value longer than its column (`String(200)` and the like), ends the request in an uncaught error with the table unchanged. The model assumes every commit succeeds.
- EditAntrag: promises 404 for every absent id, but the route converter `<int:antrag_id>` (app.py:91) has no upper bound. On the default SQLite store (app.py:10), an id outside the signed 64-bit range makes the driver raise an overflow error inside `get_or_404` (app.py:94). The client then gets an uncaught 500 rather than a 404, and the table is unchanged. The model treats the database's integer range as unbounded.
- DeleteAntrag: the same holds for `/antrag/loeschen/<int:antrag_id>` (app.py:113, 116). On SQLite, an id outside the signed 64-bit range gives a 500 rather than a 404, with the table unchanged.
- Commit atomicity and concurrent requests (last write wins) are not modelled; each handler is one atomic step.
- Column length limits (app.py:23-27) are the database's business, not this code's.
- `__repr__` (app.py:30-31) is debug output.
- Dates are compared as (year, month, day) triples, as Python does; whether a triple is a real calendar date is the parser's concern.
