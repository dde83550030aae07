/** The `/api/students` request handlers of server.js, each one atomic step on
    the document's student list, with the response it sends. */
module Server {
  import opened Collection

  /** What a handler answers: a status code and, where there is one, a body. */
  datatype Response =
    | Listed(students: seq<Student>)   // 200 with the whole list
    | Found(student: Student)          // 200 with one record
    | Created(student: Student)        // 201 with the new record
    | NoContent                        // 204
    | BadRequest                       // 400, a required field is missing
    | NotFound                         // 404, no record carries the id

  function StatusCode(r: Response): int {
    match r
    case Listed(_) => 200
    case Found(_) => 200
    case Created(_) => 201
    case NoContent => 204
    case BadRequest => 400
    case NotFound => 404
  }

  /** The loaded document. Every handler reloads it before acting and writes it
      back after a change; sequentially, that leaves it holding exactly what the
      previous handler left in memory, so the model keeps just the list. */
  class Store {
    var students: seq<Student>

    /** Startup: a document that could not be found becomes `{ students: [] }`;
        a loaded one is kept as it is. */
    constructor (loaded: Option<Document>)
      ensures loaded.None? ==> students == []
      ensures loaded.Some? ==> students == loaded.value.students
    {
      var data := if loaded.Some? then loaded.value else Document([]);
      students := data.students;
    }

    /** GET /api/students: every record, in insertion order. */
    method List() returns (r: Response)
      ensures r == Listed(students) && StatusCode(r) == 200
    {
      r := Listed(students);
    }

    /** GET /api/students/:id: the first record carrying the id, or 404. */
    method Get(key: Option<int>) returns (r: Response)
      ensures r.Found? || r.NotFound?
      ensures StatusCode(r) == 404 <==> !HasId(students, key)
      ensures key.None? ==> r == NotFound
      ensures r.Found? ==> exists i :: IsFirstMatch(students, key, i) && students[i] == r.student
    {
      var found := FindById(students, key);
      if found.None? {
        r := NotFound;
      } else {
        r := Found(found.value);
      }
    }

    /** POST /api/students: with all three fields present and non-empty, append
        a record whose id is the timestamp `now`; otherwise 400 and no change. */
    method Create(name: Option<string>, email: Option<string>, address: Option<string>, now: int)
      returns (r: Response)
      modifies this
      ensures r.Created? || r.BadRequest?
      ensures StatusCode(r) == 400 <==> !(Truthy(name) && Truthy(email) && Truthy(address))
      ensures r.BadRequest? ==> students == old(students)
      ensures r.Created? ==>
                r.student == Student(now, name.value, email.value, address.value) &&
                students == old(students) + [r.student] && StatusCode(r) == 201
    {
      if !Truthy(name) || !Truthy(email) || !Truthy(address) {
        return BadRequest;
      }
      var student := Student(now, name.value, email.value, address.value);
      students := students + [student];
      r := Created(student);
    }

    /** PUT /api/students/:id: overwrite, on the first record carrying the id,
        each field the body supplies (empty strings included), or 404. */
    method Update(key: Option<int>, name: Option<string>, email: Option<string>, address: Option<string>)
      returns (r: Response)
      modifies this
      ensures r.Found? || r.NotFound?
      ensures StatusCode(r) == 404 <==> !HasId(old(students), key)
      ensures r.NotFound? ==> students == old(students)
      ensures r.Found? ==>
                var i := IndexOf(old(students), key);
                var was := old(students)[i];
                0 <= i && |students| == |old(students)| &&
                students == old(students)[i := r.student] &&
                r.student == Student(was.id, name.GetOr(was.name), email.GetOr(was.email),
                                     address.GetOr(was.address))
    {
      var i := IndexOf(students, key);
      if i == -1 {
        return NotFound;
      }
      var student := students[i];
      if name.Some? { student := student.(name := name.value); }
      if email.Some? { student := student.(email := email.value); }
      if address.Some? { student := student.(address := address.value); }
      students := students[i := student];
      r := Found(students[i]);
    }

    /** DELETE /api/students/:id: drop every record carrying the id, keeping the
        others in order; 404 and no change when none did. */
    method Delete(key: Option<int>) returns (r: Response)
      modifies this
      ensures r.NoContent? || r.NotFound?
      ensures students == Without(old(students), key)
      ensures StatusCode(r) == 404 <==> !HasId(old(students), key)
      ensures r.NotFound? ==> students == old(students)
    {
      var initialLength := |students|;
      students := Without(students, key);
      if |students| == initialLength {
        r := NotFound;
      } else {
        r := NoContent;
      }
    }
  }

  /** A client of the handlers: creating a record under a fresh timestamp and
      then fetching that id returns the fields that were sent. */
  method CreateThenGet(store: Store, now: int, name: string, email: string, address: string)
    returns (created: Response, fetched: Response)
    requires name != "" && email != "" && address != ""
    requires !HasId(store.students, Some(now))
    modifies store
    ensures created == Created(Student(now, name, email, address))
    ensures fetched == Found(Student(now, name, email, address))
  {
    created := store.Create(Some(name), Some(email), Some(address), now);
    FindAfterAppend(old(store.students), created.student, Some(now));
    fetched := store.Get(Some(now));
    FindAgreesWithIndex(store.students, Some(now));
  }

  /** A client: updating only the email of a stored record and fetching it
      again shows the new email beside the old id, name and address. */
  method UpdateEmailThenGet(store: Store, key: Option<int>, email: string)
    returns (updated: Response, fetched: Response)
    requires HasId(store.students, key)
    modifies store
    ensures updated.Found? && fetched == updated
    ensures fetched.student == FindById(old(store.students), key).value.(email := email)
  {
    updated := store.Update(key, None, Some(email), None);
    FindAgreesWithIndex(old(store.students), key);
    FindAfterReplace(old(store.students), key, updated.student);
    fetched := store.Get(key);
    var i :| IsFirstMatch(store.students, key, i) && store.students[i] == fetched.student;
    FindAgreesWithIndex(store.students, key);
    FirstMatchUnique(store.students, key, i, IndexOf(store.students, key));
  }

  /** A client: deleting a stored id succeeds once, and the second delete of
      the same id answers 404. */
  method DeleteTwice(store: Store, key: Option<int>) returns (first: Response, second: Response)
    requires HasId(store.students, key)
    modifies store
    ensures first == NoContent && second == NotFound
    ensures store.students == Without(old(store.students), key)
  {
    first := store.Delete(key);
    second := store.Delete(key);
  }

  /** A client: a create with an empty name is refused and the list read before
      and after it is the same. */
  method RejectedCreateKeepsList(store: Store, now: int, email: Option<string>, address: Option<string>)
    returns (before: Response, rejected: Response, after: Response)
    modifies store
    ensures rejected == BadRequest && after == before
  {
    before := store.List();
    rejected := store.Create(Some(""), email, address, now);
    after := store.List();
  }
}
