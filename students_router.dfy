/** The student endpoints that touch the store: creating a student under a
    freshly allocated id, and reading one back. */
module StudentsRouter {
  import opened Wrappers
  import opened Models
  import opened Crud

  /** Python's `max` over the store's keys. */
  function MaxKey(keys: seq<int>): (m: int)
    requires keys != []
    ensures m in keys
    ensures forall k :: k in keys ==> k <= m
  {
    if |keys| == 1 then keys[0]
    else
      var rest := MaxKey(keys[1..]);
      assert forall k :: k in keys ==> k == keys[0] || k in keys[1..];
      if keys[0] >= rest then keys[0] else rest
  }

  /** The id given to a new student: one more than the largest key, or 1 for
      an empty store. It is never a key already in use, and it is positive
      whenever every key is. */
  function NextId(keys: seq<int>): (id: int)
    ensures keys == [] ==> id == 1
    ensures keys != [] ==> id - 1 in keys
    ensures forall k :: k in keys ==> k < id
    ensures id !in keys
    ensures (forall k :: k in keys ==> k > 0) ==> id > 0
    ensures keys != [] ==> (id > 0 <==> MaxKey(keys) >= 0)
  {
    if keys == [] then 1 else MaxKey(keys) + 1
  }

  /** add_student: stores a record under the next id with the request's name
      and grades and returns it; every existing entry stays as it was. */
  method AddStudent(store: Store, request: StudentCreate) returns (created: Student)
    requires store.Valid()
    modifies store
    ensures store.Valid()
    ensures created == Student(NextId(old(store.order)), request.name, request.grades)
    ensures created.id !in old(store.db)
    ensures store.db == old(store.db)[created.id := created]
    ensures store.order == old(store.order) + [created.id]
    ensures forall k :: k in old(store.db) ==> store.GetStudent(k) == old(store.GetStudent(k))
  {
    if store.order == [] {
      assert forall k :: k !in store.db;
      assert store.db.Keys == {};
      assert store.db == map[];
    } else {
      assert store.order[0] in store.db;
    }
    var id := if store.db != map[] then MaxKey(store.order) + 1 else 1;
    var student := Student(id, request.name, request.grades);
    created := store.CreateStudent(id, student);
  }

  /** read_student: the stored record, or "Student not found" when the id is
      absent. A stored record is always truthy, so only absence fails. */
  method ReadStudent(store: Store, id: int) returns (r: Result<Student, string>)
    ensures r.Success? <==> id in store.db
    ensures r.Success? ==> r.value == store.db[id]
    ensures r.Failure? ==> r.error == "Student not found"
  {
    var student := store.GetStudent(id);
    if student.None? {
      return Failure("Student not found");
    }
    return Success(student.value);
  }
}
