/** The student collection kept in the JSON document (`db.data.students`) and the
    array searches the request handlers of server.js run over it: `find`,
    `findIndex` and `filter` keyed on a student's id. */
module Collection {

  datatype Option<+T> = None | Some(value: T) {
    /** The carried value, or `fallback` when there is none. */
    function GetOr(fallback: T): T {
      match this
      case Some(v) => v
      case None => fallback
    }
  }

  /** One stored record. The id is the creation timestamp in milliseconds. */
  datatype Student = Student(id: int, name: string, email: string, address: string)

  /** The whole persisted document, `{ students: [...] }`. */
  datatype Document = Document(students: seq<Student>)

  /** `s.id === key`. A path id that `parseInt` turns into NaN is `None`, and
      NaN is never strictly equal to a stored id, so `None` matches nothing. */
  predicate Matches(st: Student, key: Option<int>) {
    key == Some(st.id)
  }

  /** Some record of `s` carries the id `key`. */
  predicate HasId(s: seq<Student>, key: Option<int>) {
    exists i :: 0 <= i < |s| && Matches(s[i], key)
  }

  /** `i` is the position of the first record of `s` carrying `key`. */
  predicate IsFirstMatch(s: seq<Student>, key: Option<int>, i: int) {
    0 <= i < |s| && Matches(s[i], key) &&
    forall j :: 0 <= j < i ==> !Matches(s[j], key)
  }

  /** JavaScript truthiness of a string field of a request body: present
      (not `undefined`) and not the empty string. */
  predicate Truthy(field: Option<string>) {
    field.Some? && field.value != ""
  }

  /** `students.find(s => s.id === key)`: the first record with the id, if any. */
  function FindById(s: seq<Student>, key: Option<int>): (r: Option<Student>)
    ensures r.None? <==> !HasId(s, key)
    ensures r.Some? ==> exists i :: IsFirstMatch(s, key, i) && s[i] == r.value
  {
    if |s| == 0 then None
    else if Matches(s[0], key) then
      assert IsFirstMatch(s, key, 0);
      Some(s[0])
    else
      var r := FindById(s[1..], key);
      if r.Some? then
        var i :| IsFirstMatch(s[1..], key, i) && s[1..][i] == r.value;
        assert IsFirstMatch(s, key, i + 1);
        r
      else
        assert forall i :: 1 <= i < |s| ==> s[i] == s[1..][i - 1];
        r
  }

  /** `students.findIndex(s => s.id === key)`: the position of the first record
      with the id, or -1. */
  function IndexOf(s: seq<Student>, key: Option<int>): (i: int)
    ensures -1 <= i < |s|
    ensures i == -1 <==> !HasId(s, key)
    ensures i != -1 ==> IsFirstMatch(s, key, i)
  {
    if |s| == 0 then -1
    else if Matches(s[0], key) then 0
    else
      var j := IndexOf(s[1..], key);
      if j == -1 then
        assert forall i :: 1 <= i < |s| ==> s[i] == s[1..][i - 1];
        -1
      else
        j + 1
  }

  /** `students.filter(s => s.id !== key)`: every record without the id, in
      their stored order. */
  function Without(s: seq<Student>, key: Option<int>): (r: seq<Student>)
    ensures |r| <= |s|
    ensures !HasId(r, key)
    ensures forall x :: !Matches(x, key) ==> multiset(r)[x] == multiset(s)[x]
    ensures |r| == |s| <==> !HasId(s, key)
    ensures !HasId(s, key) ==> r == s
  {
    if |s| == 0 then []
    else
      var rest := Without(s[1..], key);
      assert s == [s[0]] + s[1..];
      assert multiset(s) == multiset{s[0]} + multiset(s[1..]);
      HasIdFront(s, key);
      if Matches(s[0], key) then
        rest
      else
        var r := [s[0]] + rest;
        assert r[1..] == rest;
        HasIdFront(r, key);
        r
  }

  /** A non-empty collection carries an id when its head or its tail does. */
  lemma HasIdFront(s: seq<Student>, key: Option<int>)
    requires |s| > 0
    ensures HasId(s, key) <==> Matches(s[0], key) || HasId(s[1..], key)
  {
  }

  /** Filtering commutes with concatenation: the records that survive a delete
      keep their relative order. */
  lemma {:induction false} WithoutAppend(a: seq<Student>, b: seq<Student>, key: Option<int>)
    ensures Without(a + b, key) == Without(a, key) + Without(b, key)
  {
    if |a| == 0 {
      assert a + b == b;
    } else {
      assert (a + b)[1..] == a[1..] + b;
      WithoutAppend(a[1..], b, key);
    }
  }

  /** `find` and `findIndex` locate the same record. */
  lemma FindAgreesWithIndex(s: seq<Student>, key: Option<int>)
    ensures FindById(s, key) == if IndexOf(s, key) == -1 then None else Some(s[IndexOf(s, key)])
  {
  }

  /** The first match is unique. */
  lemma FirstMatchUnique(s: seq<Student>, key: Option<int>, i: int, j: int)
    requires IsFirstMatch(s, key, i) && IsFirstMatch(s, key, j)
    ensures i == j
  {
  }

  /** Looking an id up after appending a record: earlier records win, so the
      appended record is found only when no earlier one carries its id. */
  lemma {:induction false} FindAfterAppend(s: seq<Student>, x: Student, key: Option<int>)
    ensures FindById(s + [x], key) ==
              if HasId(s, key) then FindById(s, key)
              else if Matches(x, key) then Some(x)
              else None
  {
    if |s| == 0 {
      assert s + [x] == [x];
    } else {
      assert (s + [x])[1..] == s[1..] + [x];
      FindAfterAppend(s[1..], x, key);
      HasIdFront(s, key);
    }
  }

  /** Replacing the first match by a record with the same id: looking the id
      up afterwards finds the replacement. */
  lemma FindAfterReplace(s: seq<Student>, key: Option<int>, st: Student)
    requires IndexOf(s, key) != -1
    requires st.id == s[IndexOf(s, key)].id
    ensures FindById(s[IndexOf(s, key) := st], key) == Some(st)
  {
  }

  /** With ids unique around it, deleting a record's id removes exactly that
      record and leaves the records before and after it in place. */
  lemma WithoutRemovesOne(a: seq<Student>, x: Student, b: seq<Student>)
    requires !HasId(a, Some(x.id)) && !HasId(b, Some(x.id))
    ensures Without(a + [x] + b, Some(x.id)) == a + b
  {
    var key := Some(x.id);
    assert Without([x], key) == [] by {
      assert [x][1..] == [];
    }
    WithoutAppend(a, [x], key);
    assert Without(a + [x], key) == a;
    WithoutAppend(a + [x], b, key);
  }
}
