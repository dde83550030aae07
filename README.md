# Student records service — verified model

The service keeps one JSON document, `{ students: [...] }`, and exposes it
under `/api/students` with five handlers: list, create, get by id, update
and delete. Each record is `{id, name, email, address}`; the id is the
creation timestamp. This project models that collection and those handlers
in Dafny and proves what each handler returns and how it changes the list.

- `collection.dfy`, module `Collection`: the records, the document, and the
  three array searches the handlers use (`find`, `findIndex`, `filter` on the
  id) as recursive functions, with lemmas about how they interact.
- `server.dfy`, module `Server`: the responses with their status codes, and
  a class `Store` whose `students` field is the loaded list. It has one
  method per handler. The methods that change the list have
  `modifies this`. Four client methods at the end call the handlers in
  sequence and prove the service's advertised round trips from the handler
  contracts alone.

Modelling choices:

- Each handler is one atomic step. A handler reloads the document, changes
  it and writes it back. When handlers run one after another, the reload
  returns what the previous handler left, so the model keeps only the list.
- The path id is an `Option<int>`. `parseInt` of a non-numeric id gives NaN,
  and NaN is never `===` a stored id, so NaN is `None`, which matches no
  record.
- The creation timestamp (`Date.now()`) is the parameter `now` of `Create`.
- Request-body fields are `Option<string>`; `None` stands for an absent
  field. `Create` needs each field to be JavaScript-truthy, which for a
  string means present and non-empty (`Truthy`). `Update` overwrites every
  field that is not `undefined`, so `Some("")` is stored as given.
- Ids are not checked for uniqueness, so two creates with the same
  timestamp both succeed. Lookups then find the older record
  (`FindAfterAppend`). The create-then-get round trip therefore needs a
  timestamp that no stored record already carries.
- Initialisation follows the code. `db.data ||= { students: [] }` replaces
  only a missing document. A document that is present but lacks the
  `students` field is kept as it is. The model's `Document` always carries a
  list, so it cannot represent that case.

## Model

| member | source | states |
|---|---|---|
| `Server.Store.constructor` | server.js:16-30 | a missing document starts as an empty student list; a loaded document's list is kept unchanged |
| `Server.Store.List` | server.js:38-42 | answers 200 with the stored list, in insertion order, and changes nothing |
| `Server.Store.Get` | server.js:67-77 | answers 404 exactly when no record carries the id (always for a NaN id), otherwise 200 with the first record carrying it; changes nothing |
| `Server.Store.Create` | server.js:45-64 | 400 exactly when name, email or address is missing or empty, and then the list is unchanged; otherwise 201 with a record whose id is the timestamp and whose fields are the inputs, appended at the end with all earlier records unchanged |
| `Server.Store.Update` | server.js:80-100 | 404 exactly when no record carries the id, with the list unchanged; otherwise only the first match is replaced. Its id and the omitted fields keep their values, each supplied field (even an empty one) is stored, the length and every other record are unchanged, and the updated record is returned |
| `Server.Store.Delete` | server.js:103-118 | the new list is the old one with every record carrying the id removed; 404 exactly when none did, and then the list is unchanged, otherwise 204 |
| `Collection.FindById` | server.js:70 | `find` yields nothing exactly when no record carries the id, otherwise the record at the first position carrying it |
| `Collection.IndexOf` | server.js:86-88 | `findIndex` yields -1 exactly when no record carries the id, otherwise the first position carrying it |
| `Collection.Without` | server.js:107-112 | `filter` leaves no record carrying the id, keeps every other record with its multiplicity, never lengthens the list, keeps the length exactly when nothing matched, and then returns the list itself |
| `Collection.WithoutAppend` | server.js:110 | filtering distributes over concatenation, so the records that survive a delete keep their relative order |
| `Collection.WithoutRemovesOne` | server.js:110-113 | when the id is unique, deleting it removes exactly that record and keeps the records before and after it |
| `Collection.FindAgreesWithIndex` | server.js:70-86 | `find` and `findIndex` locate the same record for every list and id |
| `Collection.FindAfterAppend` | server.js:60-70 | after a record is appended, a lookup finds an older record with the id when one exists, else the new record if it carries the id, else nothing |
| `Collection.FindAfterReplace` | server.js:86-95 | replacing the first match with a record of the same id makes a later lookup return the replacement |
| `Server.CreateThenGet` | server.js:45-77 | creating with non-empty fields under a timestamp no record carries, then getting that id, returns 201 and then 200 with exactly the fields sent |
| `Server.UpdateEmailThenGet` | server.js:67-100 | updating only the email of a stored record and then getting it returns that record with the new email and its old id, name and address |
| `Server.DeleteTwice` | server.js:103-118 | deleting a stored id answers 204, and deleting it again answers 404 |
| `Server.RejectedCreateKeepsList` | server.js:38-49 | a create with an empty name answers 400, and listing before and after it gives the same list |

## Left out

- Reading and writing `db.json` through lowdb (`db.read()`, `db.write()`): this is file I/O in a library outside the model. The store is the in-memory list only. A later reload that shows the created record (persistence across a restart) is not modelled.
- Read and write failures of the storage medium: the code does not handle them, so they surface as server faults. They are not modelled.
- Interleaving of handlers at their `await` points: this is concurrency, and it allows lost updates. Each handler is modelled as one atomic step.
- `Date.now()` and `parseInt`: a clock read and a numeric parser. They are replaced by the `now` parameter and by an `Option<int>` id. A path id such as `"12abc"`, which `parseInt` reads as 12, is the caller's concern.
- Body fields that are not strings: JSON numbers, booleans, objects and `null` are not modelled. `Create`'s truthiness test also rejects `0`, `false` and `null`, and `Update` stores a `null`, because `null !== undefined`.
- Error bodies (`{ error: ... }`), JSON serialisation and console logging: they are response formatting only, so only the status code and the returned records are modelled.
- Express setup, static files, the `/` route and `app.listen`: HTTP plumbing.
- A loaded document that lacks the `students` field: the code keeps it, and any later handler would then fail. The `Document` type always has a list, so this case is not represented.
