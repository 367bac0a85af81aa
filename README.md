# Feedback entry store, modelled in Dafny

The feedback service keeps every form submission in one process-wide array
(`formEntries`) and exposes five HTTP routes over it: create
(`POST /api/submit`), list (`GET /api/data`), get by id (`GET /api/data/:id`),
update (`PUT /api/data/:id`) and delete (`DELETE /api/data/:id`). This project
models that array and those five handlers. Express, the request and response
objects and the JSON replies are not modelled.

- `js_values.dfy`, module `JsValues`: the values a JSON body can carry
  (`undefined`, `null`, booleans, numbers, strings, and one value standing
  for any object or array) and
  JavaScript truthiness (`Truthy`). The handlers' presence check
  `!name || !email || !age || !message` is truthiness, so an `age` of `0` or
  an empty string is refused just like a missing field.
- `entries.dfy`, module `Entries`: the `Entry` record (an id and the four
  fields) and the three array built-ins the handlers call, each specialised to
  the id predicate the handlers pass: `FindIndex` (`findIndex`), `Find`
  (`find`) and `Filter` (`filter`). Lemmas about them cover first-match
  lookup, order-preserving removal, and that the stored fields stay valid.
- `store.dfy`, module `FeedbackStore`: class `Store`, whose field `entries`
  plays the part of `formEntries`. It has one method per route. `List`
  returns the stored sequence itself (HTTP 200). The other four return
  `Ok(...)`, `ValidationError` (HTTP 400) or `NotFound` (HTTP 404). A
  create's `Ok` is HTTP 201; any other `Ok` is 200. Create appends with
  `entries + [e]`, like `push`. Update overwrites one slot with
  `entries[i := e]`. Delete reassigns the field to the filtered copy.

Two behaviours of the code are kept, not hidden:

- Ids come from `Date.now().toString()`, so two creates in the same
  millisecond get the same id. The model passes the id to `Store.Create` as a
  parameter and never assumes it is fresh. `CreateThenGet` proves that a get
  returns the created entry when no stored entry already had that id.
  `CreateThenGetCollision` shows the case where a get returns the older entry
  instead.
- Get and update act on the *first* entry with the id. Delete uses `filter`,
  so it removes *every* entry with the id. The comment at server.js:27 calls
  the clock id unique; with unique ids a delete removes exactly one entry and
  a create followed by a get returns the created entry. The code delivers
  both only while ids really are unique. The model follows the code. It
  proves the one-entry delete under a `UniqueIds` hypothesis
  (`FilterUnique`), the create-then-get round under a fresh-id hypothesis
  (`CreateThenGet`), and that the operations keep ids unique while new ids
  are fresh (`UniqueIdsCreate`, `UniqueIdsUpdate`, `UniqueIdsFilter`). It
  proves the collision behaviour with concrete lemmas
  (`CreateThenGetCollision`, `DeleteRemovesAllCollisions`).

The store invariant is `Store.Valid()`: every stored entry has all four
fields truthy. The constructor sets it up. Every mutating method
states `old(Valid()) ==> Valid()`. The methods themselves require nothing of
their callers, as the handlers don't. `List` and `Get` use the invariant:
every entry they hand out has its four fields present. `Scenario` in
`store.dfy` walks through create, get, update, delete, get, a second delete
that answers NotFound and changes nothing, then a refused
create with an empty name and one with `age` 0. Its assertions are checked statically.

## Model

| member | source | states |
|---|---|---|
| JsValues.TruthyIffNotFalsy | server.js:21 | a field passes the presence check exactly when it is none of undefined, null, false, 0 and "" |
| Entries.FindIndex | server.js:73 | the result is -1 exactly when no entry has the id; otherwise it is the position of the first entry with that id |
| Entries.Find | server.js:52 | the result is absent exactly when no entry has the id; otherwise it is the entry at the first position with that id |
| Entries.FindAgreesWithFindIndex | server.js:52-53 | `find` returns the entry at the position `findIndex` reports, and nothing when that position is -1 |
| Entries.CountId | server.js:104 | the number of entries with the id is at most the length, and is zero exactly when no entry has the id |
| Entries.Filter | server.js:104 | the result is as long as the input minus the number of entries with the id, and no entry in it carries the id |
| Entries.FilterMembers | server.js:104 | an entry is in the filtered store exactly when it was stored and carries another id |
| Entries.FilterKeepsOrder | server.js:104 | the filtered store is the old store read at a strictly increasing run of positions, and those positions are exactly the ones whose id differs, so the relative order is kept |
| Entries.FilterConcat | server.js:104 | filtering a concatenation equals concatenating the filtered parts |
| Entries.FilterAbsent | server.js:97-104 | filtering an id that no entry carries returns the store unchanged |
| Entries.FilterUnique | server.js:97-104 | when ids are unique, exactly one entry carries a present id, and filtering removes exactly the entry at its `findIndex` position, keeping the rest in order and shortening the store by one |
| Entries.FilterOnlyAt | server.js:104 | when the first match is the only entry with the id, filtering removes exactly that entry and keeps the rest in order |
| Entries.FindAppend | server.js:33 | after an append, `find` still returns the earlier first match if one existed; otherwise it returns the appended entry when the ids match, and nothing when they don't |
| Entries.FindAfterReplace | server.js:73-87 | after the first match is overwritten with new fields and the same id, `find` by that id returns the new entry |
| Entries.AllValidAppend | server.js:21-33 | appending an entry with valid fields keeps every stored entry valid |
| Entries.AllValidFilter | server.js:104 | filtering keeps every stored entry valid |
| Entries.UniqueIdsFilter | server.js:104 | filtering keeps ids unique |
| FeedbackStore.Store.constructor | server.js:13 | the store starts empty and valid |
| FeedbackStore.Store.Create | server.js:16-39 | invalid fields give ValidationError and leave the store unchanged; valid fields append exactly one entry built from the given id and fields, return it, and leave all earlier entries unchanged; validity is preserved |
| FeedbackStore.Store.List | server.js:41-47 | returns exactly the stored entries in insertion order and changes nothing; in a valid store every returned entry has its four fields present |
| FeedbackStore.Store.Get | server.js:50-60 | NotFound exactly when no entry has the id; otherwise the entry at the first position with that id; never ValidationError; changes nothing; in a valid store the returned entry has its four fields present |
| FeedbackStore.Store.Update | server.js:63-91 | validation comes before lookup: invalid fields give ValidationError for any id; valid fields with an unknown id give NotFound; neither changes the store; otherwise only the first matching slot is replaced, it keeps its id and takes the four new fields, every other slot and the length stay the same, and the returned entry is the stored one |
| FeedbackStore.Store.Delete | server.js:94-110 | an unknown id gives NotFound and leaves the store unchanged; otherwise Ok, and the store becomes the order-preserving filter of all entries with that id, shrinking by their count (at least one); afterwards no entry has the id |
| FeedbackStore.CreateThenGet | server.js:27-33 | when no stored entry has the id, a get after the create returns exactly the created entry |
| FeedbackStore.CreateThenGetCollision | server.js:27 | two entries created with the same clock id: a get by that id returns the first one, not the one the second create returned |
| FeedbackStore.DeleteRemovesAllCollisions | server.js:104 | a delete of an id held by two entries removes both |
| FeedbackStore.UniqueIdsCreate | server.js:26-33 | a create with a fresh id keeps ids unique |
| FeedbackStore.UniqueIdsUpdate | server.js:79-85 | an update that keeps the slot's id keeps ids unique |

## Left out

- Express setup, CORS, JSON body parsing, `app.listen` and console output (server.js:1-10, 113-115): framework and I/O plumbing.
- The `try`/`catch` blocks that answer 500: nothing in the model can throw, so these paths never run.
- JSON reply bodies and message strings: a handler's result is a `Response` value, mapped to the status codes listed above.
- `Date.now()` (server.js:27): the clock reading is a parameter of `Store.Create`. The model does not claim new ids are unique, because the code does not make them so.
- Extra request-body fields and the object spread in update (server.js:79-85): destructuring means only the four named fields ever reach an entry, and the spread only contributes the kept `id`.
- Non-integral numbers: a JSON number is modelled as an integer; fractional numbers and infinities are not modelled. A fractional number, and the infinity an out-of-range literal such as `1e400` parses to, is truthy, like any non-zero `Num`, so the presence check treats them alike. A JSON body cannot produce `NaN`.
- Object and array field values: every object or array is the one value `Compound`, which is truthy as they all are. Two different object-valued fields are therefore equal in the model, so "the returned entry is the stored one" holds only up to that collapse.
- The stored field values are never inspected beyond truthiness, as in the source; there is no type or format check to model. Strings, numbers, booleans and `null` are stored verbatim; objects and arrays are stored as `Compound`.
