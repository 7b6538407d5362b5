/** The in-memory student record store and the queries over it.

    The store is a dictionary from integer identifiers to students. Python
    dictionaries iterate in insertion order, and every listing the queries
    produce follows that order, so the store keeps its keys in a sequence
    beside the map. */
module Crud {
  import opened Wrappers
  import opened Models

  /** A `(name, grade)` row of the subject listing. */
  type Row = (string, real)

  // ------------------------------------------------------------------
  // Iteration order
  // ------------------------------------------------------------------

  ghost predicate Distinct(s: seq<int>) {
    forall i, j :: 0 <= i < j < |s| ==> s[i] != s[j]
  }

  predicate KeysIn(keys: seq<int>, db: map<int, Student>) {
    forall i :: 0 <= i < |keys| ==> keys[i] in db
  }

  /** The records met when iterating `students_db.values()`. */
  function ValuesOf(db: map<int, Student>, keys: seq<int>): (vs: seq<Student>)
    requires KeysIn(keys, db)
    ensures |vs| == |keys|
    ensures forall i :: 0 <= i < |keys| ==> vs[i] == db[keys[i]]
  {
    if keys == [] then [] else ValuesOf(db, keys[..|keys| - 1]) + [db[keys[|keys| - 1]]]
  }

  /** The keys of `s` that are not in `ks`, in their order: what is left of
      the iteration order after the keys `ks` were popped. */
  function Drop(s: seq<int>, ks: set<int>): (r: seq<int>)
    ensures forall x :: x in r <==> x in s && x !in ks
    ensures Distinct(s) ==> Distinct(r)
  {
    if s == [] then []
    else
      var rest := Drop(s[1..], ks);
      assert Distinct(s) ==> s[0] !in s[1..];
      if s[0] in ks then rest else [s[0]] + rest
  }

  lemma {:induction false} DropDrop(s: seq<int>, a: set<int>, b: set<int>)
    ensures Drop(Drop(s, a), b) == Drop(s, a + b)
  {
    if s != [] {
      DropDrop(s[1..], a, b);
    }
  }

  /** Dropping keys none of which occur changes nothing. */
  lemma {:induction false} DropNoneOf(s: seq<int>, ks: set<int>)
    requires forall i :: 0 <= i < |s| ==> s[i] !in ks
    ensures Drop(s, ks) == s
  {
    if s != [] {
      assert forall i :: 0 <= i < |s| - 1 ==> s[1..][i] == s[i + 1];
      DropNoneOf(s[1..], ks);
      assert [s[0]] + s[1..] == s;
    }
  }

  /** Popping the key at position `i` of a repeat-free order removes that
      position and leaves every other key where it was relative to the rest. */
  lemma {:induction false} DropAt(s: seq<int>, i: int)
    requires Distinct(s) && 0 <= i < |s|
    ensures Drop(s, {s[i]}) == s[..i] + s[i + 1..]
  {
    if i == 0 {
      assert forall j :: 0 <= j < |s| - 1 ==> s[1..][j] == s[j + 1] != s[0];
      DropNoneOf(s[1..], {s[0]});
    } else {
      var t := s[1..];
      assert forall a, b :: 0 <= a < b < |t| ==> t[a] == s[a + 1] && t[b] == s[b + 1];
      assert t[i - 1] == s[i] && s[0] != s[i];
      DropAt(t, i - 1);
      assert s[..i] == [s[0]] + t[..i - 1];
      assert s[i + 1..] == t[i..];
    }
  }

  /** `DropAt` for the key `k`, wherever it stands. */
  lemma DropKey(s: seq<int>, k: int)
    ensures Distinct(s) ==> forall i :: 0 <= i < |s| && s[i] == k ==> Drop(s, {k}) == s[..i] + s[i + 1..]
  {
    if Distinct(s) {
      forall i | 0 <= i < |s| && s[i] == k
        ensures Drop(s, {k}) == s[..i] + s[i + 1..]
      {
        DropAt(s, i);
      }
    }
  }

  /** The set of elements of a key sequence. */
  function Elems(s: seq<int>): set<int> {
    set k | k in s
  }

  // ------------------------------------------------------------------
  // get_students_by_subject and the grade collection of calculate_statistics
  // ------------------------------------------------------------------

  /** Number of records that hold a grade for `subject`. */
  function Holders(vs: seq<Student>, subject: string): nat {
    if vs == [] then 0
    else Holders(vs[..|vs| - 1], subject) + (if subject in vs[|vs| - 1].grades then 1 else 0)
  }

  /** The comprehension of get_students_by_subject, before sorting: one
      `(name, grade)` row per record holding `subject`, in iteration order. */
  function SubjectRows(vs: seq<Student>, subject: string): (rows: seq<Row>)
    ensures |rows| == Holders(vs, subject)
    ensures rows == [] <==> forall i :: 0 <= i < |vs| ==> subject !in vs[i].grades
    ensures forall r :: r in rows ==>
              exists i :: 0 <= i < |vs| && subject in vs[i].grades && r == (vs[i].name, vs[i].grades[subject])
    ensures forall i :: 0 <= i < |vs| && subject in vs[i].grades ==>
              (vs[i].name, vs[i].grades[subject]) in rows
  {
    if vs == [] then []
    else
      var init, v := vs[..|vs| - 1], vs[|vs| - 1];
      var rows := SubjectRows(init, subject) + (if subject in v.grades then [(v.name, v.grades[subject])] else []);
      assert forall i :: 0 <= i < |init| ==> init[i] == vs[i];
      rows
  }

  /** The grade list collected by calculate_statistics: the grade column of
      the unsorted subject listing. */
  function SubjectGrades(vs: seq<Student>, subject: string): (grades: seq<real>)
    ensures |grades| == |SubjectRows(vs, subject)| == Holders(vs, subject)
    ensures forall j :: 0 <= j < |grades| ==> grades[j] == SubjectRows(vs, subject)[j].1
  {
    if vs == [] then []
    else
      var v := vs[|vs| - 1];
      SubjectGrades(vs[..|vs| - 1], subject) + (if subject in v.grades then [v.grades[subject]] else [])
  }

  /** Rows sorted non-decreasingly by grade. */
  ghost predicate SortedByGrade(rows: seq<Row>) {
    forall i, j :: 0 <= i < j < |rows| ==> rows[i].1 <= rows[j].1
  }

  /** The rows whose grade is exactly `g`, in their order. Two sorts of the
      same rows agree on every such slice exactly when they order ties alike. */
  function WithGrade(rows: seq<Row>, g: real): seq<Row> {
    if rows == [] then []
    else (if rows[0].1 == g then [rows[0]] else []) + WithGrade(rows[1..], g)
  }

  /** Places `x` before the first row whose grade is not below its own. */
  function InsertRow(x: Row, rows: seq<Row>): (r: seq<Row>)
    requires SortedByGrade(rows)
    ensures SortedByGrade(r)
    ensures |r| == |rows| + 1 && (r[0] == x || (rows != [] && r[0] == rows[0]))
  {
    if rows == [] then [x]
    else if x.1 <= rows[0].1 then [x] + rows
    else [rows[0]] + InsertRow(x, rows[1..])
  }

  /** Insertion adds exactly the one row. */
  lemma {:induction false} InsertRowPerm(x: Row, rows: seq<Row>)
    requires SortedByGrade(rows)
    ensures multiset(InsertRow(x, rows)) == multiset(rows) + multiset{x}
  {
    if rows != [] && x.1 > rows[0].1 {
      InsertRowPerm(x, rows[1..]);
      assert [rows[0]] + rows[1..] == rows;
    }
  }

  /** The inserted row goes before the rows of its own grade. */
  lemma {:induction false} InsertRowTies(x: Row, rows: seq<Row>, g: real)
    requires SortedByGrade(rows)
    ensures WithGrade(InsertRow(x, rows), g) == (if x.1 == g then [x] else []) + WithGrade(rows, g)
  {
    if rows == [] {
    } else if x.1 <= rows[0].1 {
      assert ([x] + rows)[1..] == rows;
    } else {
      var rest := InsertRow(x, rows[1..]);
      InsertRowTies(x, rows[1..], g);
      assert ([rows[0]] + rest)[1..] == rest;
      var head := if rows[0].1 == g then [rows[0]] else [];
      var mine := if x.1 == g then [x] else [];
      calc {
        WithGrade(InsertRow(x, rows), g);
        WithGrade([rows[0]] + rest, g);
        head + WithGrade(rest, g);
        head + (mine + WithGrade(rows[1..], g));
        { assert head == [] || mine == []; }
        mine + (head + WithGrade(rows[1..], g));
        mine + WithGrade(rows, g);
      }
    }
  }

  /** Python's `sorted(rows, key=lambda x: x[1])`: ascending by grade. */
  function SortByGrade(rows: seq<Row>): (r: seq<Row>)
    ensures SortedByGrade(r)
  {
    if rows == [] then [] else InsertRow(rows[0], SortByGrade(rows[1..]))
  }

  /** The sort is a permutation, and it is stable: rows with equal grades
      keep their order. */
  lemma {:induction false} SortByGradeRows(rows: seq<Row>)
    ensures multiset(SortByGrade(rows)) == multiset(rows)
    ensures forall g :: WithGrade(SortByGrade(rows), g) == WithGrade(rows, g)
  {
    if rows != [] {
      SortByGradeRows(rows[1..]);
      InsertRowPerm(rows[0], SortByGrade(rows[1..]));
      forall g ensures WithGrade(SortByGrade(rows), g) == WithGrade(rows, g) {
        InsertRowTies(rows[0], SortByGrade(rows[1..]), g);
      }
      assert [rows[0]] + rows[1..] == rows;
    }
  }

  // ------------------------------------------------------------------
  // The average of calculate_statistics
  // ------------------------------------------------------------------

  function Sum(xs: seq<real>): real {
    if xs == [] then 0.0 else Sum(xs[..|xs| - 1]) + xs[|xs| - 1]
  }

  lemma {:induction false} SumAbove(xs: seq<real>, lo: real)
    requires xs != []
    requires forall i :: 0 <= i < |xs| ==> lo < xs[i]
    ensures (|xs| as real) * lo < Sum(xs)
  {
    var init := xs[..|xs| - 1];
    if init != [] {
      SumAbove(init, lo);
      assert (|xs| as real) * lo == (|init| as real) * lo + lo;
    }
  }

  lemma {:induction false} SumBelow(xs: seq<real>, hi: real)
    requires xs != []
    requires forall i :: 0 <= i < |xs| ==> xs[i] < hi
    ensures Sum(xs) < (|xs| as real) * hi
  {
    var init := xs[..|xs| - 1];
    if init != [] {
      SumBelow(init, hi);
      assert (|xs| as real) * hi == (|init| as real) * hi + hi;
    }
  }

  /** Some value is at most the mean and some value is at least the mean. */
  lemma MeanBetween(xs: seq<real>)
    requires xs != []
    ensures exists i :: 0 <= i < |xs| && xs[i] <= Sum(xs) / (|xs| as real)
    ensures exists i :: 0 <= i < |xs| && Sum(xs) / (|xs| as real) <= xs[i]
  {
    var n := |xs| as real;
    var m := Sum(xs) / n;
    assert n * m == Sum(xs);
    if forall i :: 0 <= i < |xs| ==> m < xs[i] {
      SumAbove(xs, m);
    }
    if forall i :: 0 <= i < |xs| ==> xs[i] < m {
      SumBelow(xs, m);
    }
  }

  /** The arithmetic mean (Python's `statistics.mean`, without rounding). It
      lies between the smallest and the largest value. */
  function Mean(xs: seq<real>): (m: real)
    requires xs != []
    ensures exists i :: 0 <= i < |xs| && xs[i] <= m
    ensures exists i :: 0 <= i < |xs| && m <= xs[i]
  {
    MeanBetween(xs);
    Sum(xs) / (|xs| as real)
  }

  // ------------------------------------------------------------------
  // students_below_average
  // ------------------------------------------------------------------

  /** The subjects of `grades` graded strictly below `threshold`. */
  function LowGrades(grades: map<string, real>, threshold: real): map<string, real> {
    map s | s in grades && grades[s] < threshold :: grades[s]
  }

  /** The new record built for a student: same id and name, only the low grades. */
  function Restricted(v: Student, threshold: real): Student {
    Student(v.id, v.name, LowGrades(v.grades, threshold))
  }

  /** `r` is obtained from `vs` by dropping some records and restricting the
      others, keeping their order. */
  ghost predicate RestrictsInOrder(r: seq<Student>, vs: seq<Student>, threshold: real)
    decreases |vs|
  {
    if vs == [] then r == []
    else
      (r != [] && r[|r| - 1] == Restricted(vs[|vs| - 1], threshold)
       && RestrictsInOrder(r[..|r| - 1], vs[..|vs| - 1], threshold))
      || RestrictsInOrder(r, vs[..|vs| - 1], threshold)
  }

  /** What students_below_average returns for the records `vs`: no record
      without grades, no grade at or above the threshold, and the records
      restricted in iteration order. */
  function BelowThreshold(vs: seq<Student>, threshold: real): (r: seq<Student>)
    ensures forall i :: 0 <= i < |r| ==> r[i].grades != map[]
    ensures forall i, s :: 0 <= i < |r| && s in r[i].grades ==> r[i].grades[s] < threshold
    ensures RestrictsInOrder(r, vs, threshold)
  {
    if vs == [] then []
    else
      var init, v := vs[..|vs| - 1], vs[|vs| - 1];
      var front := BelowThreshold(init, threshold);
      if LowGrades(v.grades, threshold) != map[] then
        var r := front + [Restricted(v, threshold)];
        assert r[..|r| - 1] == front;
        r
      else front
  }

  /** Every emitted record is the restriction of some stored record, so it
      copies that record's id and name. */
  lemma {:induction false} BelowThresholdSound(vs: seq<Student>, threshold: real)
    ensures forall i :: 0 <= i < |BelowThreshold(vs, threshold)| ==>
              exists j :: 0 <= j < |vs| && BelowThreshold(vs, threshold)[i] == Restricted(vs[j], threshold)
  {
    if vs != [] {
      var init, v := vs[..|vs| - 1], vs[|vs| - 1];
      BelowThresholdSound(init, threshold);
      var front := BelowThreshold(init, threshold);
      var r := BelowThreshold(vs, threshold);
      assert r == if LowGrades(v.grades, threshold) != map[] then front + [Restricted(v, threshold)] else front;
      forall i | 0 <= i < |r|
        ensures exists j :: 0 <= j < |vs| && r[i] == Restricted(vs[j], threshold)
      {
        if i < |front| {
          assert r[i] == front[i];
          var j :| 0 <= j < |init| && front[i] == Restricted(init[j], threshold);
          assert init[j] == vs[j];
          assert r[i] == Restricted(vs[j], threshold);
        } else {
          assert r[i] == Restricted(vs[|vs| - 1], threshold);
        }
      }
    } else {
      assert BelowThreshold(vs, threshold) == [];
    }
  }

  /** Every stored record with a grade below the threshold yields its
      restriction. */
  lemma {:induction false} BelowThresholdComplete(vs: seq<Student>, threshold: real)
    ensures forall j :: 0 <= j < |vs| && LowGrades(vs[j].grades, threshold) != map[] ==>
              Restricted(vs[j], threshold) in BelowThreshold(vs, threshold)
  {
    if vs != [] {
      var init, v := vs[..|vs| - 1], vs[|vs| - 1];
      BelowThresholdComplete(init, threshold);
      var front := BelowThreshold(init, threshold);
      var r := BelowThreshold(vs, threshold);
      assert r == if LowGrades(v.grades, threshold) != map[] then front + [Restricted(v, threshold)] else front;
      forall j | 0 <= j < |vs| && LowGrades(vs[j].grades, threshold) != map[]
        ensures Restricted(vs[j], threshold) in r
      {
        if j < |init| {
          assert init[j] == vs[j];
          assert Restricted(vs[j], threshold) in front;
        }
      }
    }
  }

  /** A restricted record keeps exactly the subjects below the threshold,
      with their original grades. */
  lemma RestrictedGrades(v: Student, threshold: real)
    ensures Restricted(v, threshold).id == v.id && Restricted(v, threshold).name == v.name
    ensures forall s :: s in Restricted(v, threshold).grades <==> s in v.grades && v.grades[s] < threshold
    ensures forall s :: s in Restricted(v, threshold).grades ==> Restricted(v, threshold).grades[s] == v.grades[s]
  {
  }

  // ------------------------------------------------------------------
  // remove_students_with_no_grades
  // ------------------------------------------------------------------

  /** Python truthiness of a record's fields, in declaration order (id, name,
      grades): iterating over the record visits each field, and every falsy
      one triggers a `pop`. */
  function FalsyFields(s: Student): seq<bool> {
    [s.id == 0, s.name == "", s.grades == map[]]
  }

  /** The live store and result list while the pruning pass runs. */
  datatype Pass = Pass(db: map<int, Student>, order: seq<int>, removed: seq<int>)

  /** The pass either runs on, or has raised `KeyError(key)` from a `pop`. */
  datatype Run = Running(pass: Pass) | Raised(pass: Pass, key: int)

  /** `students_db.pop(k)` followed by `students_with_no_grades.append(k)`. */
  function PopAndRecord(p: Pass, k: int): (r: Run)
    ensures r.Running? <==> k in p.db
    ensures r.Running? ==> r.pass.db == p.db - {k} && r.pass.removed == p.removed + [k]
                           && forall x :: x in r.pass.order <==> x in p.order && x != k
    ensures r.Running? && Distinct(p.order) ==>
              forall i :: 0 <= i < |p.order| && p.order[i] == k ==> r.pass.order == p.order[..i] + p.order[i + 1..]
    ensures r.Raised? ==> r == Raised(p, k)
  {
    DropKey(p.order, k);
    if k in p.db then Running(Pass(p.db - {k}, Drop(p.order, {k}), p.removed + [k]))
    else Raised(p, k)
  }

  /** One field of the inner loop: `if not value: pop and record`. Once a
      `pop` has raised, nothing more happens. */
  function FieldStep(falsy: bool, k: int, r: Run): Run {
    if r.Raised? || !falsy then r else PopAndRecord(r.pass, k)
  }

  /** The inner loop over one record's fields. */
  function FieldLoop(falsy: seq<bool>, k: int, r: Run): Run {
    if falsy == [] then r else FieldLoop(falsy[1..], k, FieldStep(falsy[0], k, r))
  }

  /** The inner loop over a record's three fields, unrolled. */
  lemma FieldLoopFields(s: Student, k: int, r: Run)
    ensures FieldLoop(FalsyFields(s), k, r)
         == FieldStep(s.grades == map[], k, FieldStep(s.name == "", k, FieldStep(s.id == 0, k, r)))
  {
    var f := FalsyFields(s);
    var r1 := FieldStep(s.id == 0, k, r);
    var r2 := FieldStep(s.name == "", k, r1);
    var r3 := FieldStep(s.grades == map[], k, r2);
    assert f[1..] == [s.name == "", s.grades == map[]];
    assert f[1..][1..] == [s.grades == map[]];
    assert f[1..][1..][1..] == [];
    calc {
      FieldLoop(f, k, r);
      FieldLoop(f[1..], k, r1);
      FieldLoop(f[1..][1..], k, r2);
      FieldLoop(f[1..][1..][1..], k, r3);
      r3;
    }
  }

  lemma {:induction false} FieldLoopRaised(falsy: seq<bool>, k: int, p: Pass, key: int)
    ensures FieldLoop(falsy, k, Raised(p, key)) == Raised(p, key)
  {
    if falsy != [] {
      FieldLoopRaised(falsy[1..], k, p, key);
    }
  }

  /** Every record of `a` is stored in `b` under the same key. */
  ghost predicate SubStore(a: map<int, Student>, b: map<int, Student>) {
    forall x :: x in a ==> x in b && a[x] == b[x]
  }

  /** The inner loop only ever removes records from the live store. */
  lemma {:induction false} FieldLoopShrinks(falsy: seq<bool>, k: int, r: Run)
    ensures SubStore(FieldLoop(falsy, k, r).pass.db, r.pass.db)
  {
    if falsy != [] {
      FieldLoopShrinks(falsy[1..], k, FieldStep(falsy[0], k, r));
    }
  }

  /** The outer loop over the snapshot's keys. */
  function RecordLoop(snapshot: map<int, Student>, todo: seq<int>, r: Run): Run
    requires KeysIn(todo, snapshot)
  {
    if todo == [] || r.Raised? then r
    else RecordLoop(snapshot, todo[1..], FieldLoop(FalsyFields(snapshot[todo[0]]), todo[0], r))
  }

  /** The outer loop only ever removes records from the live store. */
  lemma {:induction false} RecordLoopShrinks(snapshot: map<int, Student>, todo: seq<int>, r: Run)
    requires KeysIn(todo, snapshot)
    ensures SubStore(RecordLoop(snapshot, todo, r).pass.db, r.pass.db)
  {
    if todo != [] && r.Running? {
      var r' := FieldLoop(FalsyFields(snapshot[todo[0]]), todo[0], r);
      FieldLoopShrinks(FalsyFields(snapshot[todo[0]]), todo[0], r);
      RecordLoopShrinks(snapshot, todo[1..], r');
    }
  }

  /** What the pruning pass returns, or the error it raises. */
  datatype PruneOutcome = Removed(ids: seq<int>) | KeyError(key: int)

  /** The store after the pruning pass, and its outcome. */
  datatype Pruned = Pruned(db: map<int, Student>, order: seq<int>, outcome: PruneOutcome)

  /** remove_students_with_no_grades on the store `db` iterated in `order`. */
  function Prune(db: map<int, Student>, order: seq<int>): (r: Pruned)
    requires KeysIn(order, db)
    ensures SubStore(r.db, db)
  {
    RecordLoopShrinks(db, order, Running(Pass(db, order, [])));
    match RecordLoop(db, order, Running(Pass(db, order, [])))
    case Running(p) => Pruned(p.db, p.order, Removed(p.removed))
    case Raised(p, k) => Pruned(p.db, p.order, KeyError(k))
  }

  /** The ids of the gradeless records among `keys`, in their order. */
  function Gradeless(db: map<int, Student>, keys: seq<int>): (ids: seq<int>)
    requires KeysIn(keys, db)
    ensures forall k :: k in ids <==> k in keys && db[k].grades == map[]
  {
    if keys == [] then []
    else (if db[keys[0]].grades == map[] then [keys[0]] else []) + Gradeless(db, keys[1..])
  }

  lemma {:induction false} GradelessNone(db: map<int, Student>, keys: seq<int>)
    requires KeysIn(keys, db)
    requires forall i :: 0 <= i < |keys| ==> db[keys[i]].grades != map[]
    ensures Gradeless(db, keys) == []
  {
    if keys != [] {
      assert forall i :: 0 <= i < |keys| - 1 ==> keys[1..][i] == keys[i + 1];
      GradelessNone(db, keys[1..]);
    }
  }

  /** Every record has a non-zero id and a non-empty name, so its grades are
      the only field that can be falsy. */
  ghost predicate Tidy(db: map<int, Student>) {
    forall k :: k in db ==> db[k].id != 0 && db[k].name != ""
  }

  /** A store whose key sequence lists each key of the map once. */
  ghost predicate WellKeyed(db: map<int, Student>, order: seq<int>) {
    (forall k :: k in db <==> k in order) && KeysIn(order, db) && Distinct(order)
  }

  /** For a record whose id and name are truthy, the inner loop pops it
      exactly when its grades are empty. */
  lemma TidyFieldLoop(s: Student, k: int, p: Pass)
    requires s.id != 0 && s.name != ""
    ensures FieldLoop(FalsyFields(s), k, Running(p))
         == if s.grades == map[] then PopAndRecord(p, k) else Running(p)
  {
    FieldLoopFields(s, k, Running(p));
  }

  /** What a loop over the keys of `todo` may assume of the keys after the
      first: they are in both maps, repeat-free, and differ from the first. */
  lemma TailFacts(todo: seq<int>, snapshot: map<int, Student>, db: map<int, Student>)
    requires todo != [] && Distinct(todo) && KeysIn(todo, snapshot) && KeysIn(todo, db)
    ensures Distinct(todo[1..]) && KeysIn(todo[1..], snapshot)
    ensures KeysIn(todo[1..], db) && KeysIn(todo[1..], db - {todo[0]})
  {
    var rest := todo[1..];
    forall i | 0 <= i < |rest|
      ensures rest[i] == todo[i + 1] && rest[i] != todo[0]
    {
      assert rest[i] == todo[i + 1];
    }
    forall i, j | 0 <= i < j < |rest| ensures rest[i] != rest[j] {
      assert rest[i] == todo[i + 1] && rest[j] == todo[j + 1];
    }
  }

  /** Popping `k` and then the keys `g` is popping the keys `[k] + g`. */
  lemma RemovalCompose(p: Pass, k: int, g: seq<int>)
    ensures Pass((p.db - {k}) - Elems(g), Drop(Drop(p.order, {k}), Elems(g)), (p.removed + [k]) + g)
         == Pass(p.db - Elems([k] + g), Drop(p.order, Elems([k] + g)), p.removed + ([k] + g))
  {
    assert Elems([k] + g) == {k} + Elems(g);
    assert (p.db - {k}) - Elems(g) == p.db - ({k} + Elems(g));
    DropDrop(p.order, {k}, Elems(g));
  }

  /** The outer loop on a tidy snapshot pops exactly the gradeless keys. */
  lemma {:induction false} RecordLoopTidy(snapshot: map<int, Student>, todo: seq<int>, p: Pass)
    requires KeysIn(todo, snapshot) && Distinct(todo) && Tidy(snapshot)
    requires KeysIn(todo, p.db)
    ensures RecordLoop(snapshot, todo, Running(p))
         == Running(Pass(p.db - Elems(Gradeless(snapshot, todo)),
                         Drop(p.order, Elems(Gradeless(snapshot, todo))),
                         p.removed + Gradeless(snapshot, todo)))
  {
    if todo == [] {
      assert Gradeless(snapshot, todo) == [] && Elems([]) == {};
      assert p.db - {} == p.db;
      DropNone(p.order);
      assert p.removed + [] == p.removed;
    } else {
      var k, rest := todo[0], todo[1..];
      var g := Gradeless(snapshot, rest);
      TailFacts(todo, snapshot, p.db);
      TidyFieldLoop(snapshot[k], k, p);
      assert RecordLoop(snapshot, todo, Running(p))
          == RecordLoop(snapshot, rest, FieldLoop(FalsyFields(snapshot[k]), k, Running(p)));
      if snapshot[k].grades == map[] {
        var p' := Pass(p.db - {k}, Drop(p.order, {k}), p.removed + [k]);
        RecordLoopTidy(snapshot, rest, p');
        assert Gradeless(snapshot, todo) == [k] + g;
        RemovalCompose(p, k, g);
      } else {
        RecordLoopTidy(snapshot, rest, p);
        assert Gradeless(snapshot, todo) == g;
      }
    }
  }

  lemma {:induction false} DropNone(s: seq<int>)
    ensures Drop(s, {}) == s
  {
    if s != [] {
      DropNone(s[1..]);
    }
  }

  /** On a tidy store, the pruning pass removes exactly the gradeless
      students from the map and from the iteration order and returns their ids
      in iteration order; every record with a grade stays, unchanged. */
  lemma PruneRemovesExactlyGradeless(db: map<int, Student>, order: seq<int>)
    requires WellKeyed(db, order) && Tidy(db)
    ensures KeysIn(order, db)
    ensures var gone := Elems(Gradeless(db, order));
            Prune(db, order) == Pruned(db - gone, Drop(order, gone), Removed(Gradeless(db, order)))
    ensures forall k :: k in Prune(db, order).db <==> k in db && db[k].grades != map[]
    ensures forall k :: k in Prune(db, order).db ==> Prune(db, order).db[k] == db[k]
    ensures WellKeyed(Prune(db, order).db, Prune(db, order).order) && Tidy(Prune(db, order).db)
  {
    RecordLoopTidy(db, order, Pass(db, order, []));
    assert [] + Gradeless(db, order) == Gradeless(db, order);
    var gone := Elems(Gradeless(db, order));
    var order' := Drop(order, gone);
    assert KeysIn(order', db - gone) by {
      forall i | 0 <= i < |order'| ensures order'[i] in db - gone {
        assert order'[i] in order';
      }
    }
  }

  /** On a tidy store with no gradeless record, the pass changes nothing. */
  lemma {:induction false} PruneNothingToRemove(db: map<int, Student>, order: seq<int>)
    requires WellKeyed(db, order) && Tidy(db)
    requires forall k :: k in db ==> db[k].grades != map[]
    ensures KeysIn(order, db)
    ensures Prune(db, order) == Pruned(db, order, Removed([]))
  {
    PruneRemovesExactlyGradeless(db, order);
    var g := Gradeless(db, order);
    GradelessNone(db, order);
    assert Elems(g) == {};
    assert db - {} == db;
    DropNone(order);
  }

  /** On a tidy store, a second pruning pass removes nothing. */
  lemma PruneIdempotent(db: map<int, Student>, order: seq<int>)
    requires WellKeyed(db, order) && Tidy(db)
    ensures KeysIn(order, db)
    ensures var r := Prune(db, order);
            KeysIn(r.order, r.db) && Prune(r.db, r.order) == Pruned(r.db, r.order, Removed([]))
  {
    PruneRemovesExactlyGradeless(db, order);
    var r := Prune(db, order);
    PruneNothingToRemove(r.db, r.order);
  }

  /** The pruning pass over a store holding the single record `s` under `k`. */
  lemma PruneSingle(k: int, s: Student)
    ensures var p := Pass(map[k := s], [k], []);
            RecordLoop(map[k := s], [k], Running(p)) == FieldLoop(FalsyFields(s), k, Running(p))
    ensures PopAndRecord(Pass(map[k := s], [k], []), k) == Running(Pass(map[], [], [k]))
    ensures PopAndRecord(Pass(map[], [], [k]), k) == Raised(Pass(map[], [], [k]), k)
  {
    var db := map[k := s];
    assert db - {k} == map[];
    assert Drop([k], {k}) == [];
    assert [k][1..] == [];
  }

  /** As written, a record with two falsy fields, met anywhere in a running
      pass, is popped by the first and makes the second `pop` raise KeyError. */
  lemma PruneTwoFalsyFieldsRaises(s: Student, k: int, p: Pass)
    requires (s.id == 0 && s.name == "") || (s.id == 0 && s.grades == map[]) || (s.name == "" && s.grades == map[])
    requires k in p.db
    ensures FieldLoop(FalsyFields(s), k, Running(p))
         == Raised(Pass(p.db - {k}, Drop(p.order, {k}), p.removed + [k]), k)
  {
    FieldLoopFields(s, k, Running(p));
  }

  /** As written, a graded record with an empty name, met anywhere in a
      running pass, is removed and reported too. */
  lemma PruneRemovesNamelessGraded(s: Student, k: int, p: Pass)
    requires s.id != 0 && s.name == "" && s.grades != map[]
    requires k in p.db
    ensures FieldLoop(FalsyFields(s), k, Running(p))
         == Running(Pass(p.db - {k}, Drop(p.order, {k}), p.removed + [k]))
  {
    FieldLoopFields(s, k, Running(p));
  }

  /** A store holding one record with two falsy fields: the pass raises
      KeyError and leaves the store empty. */
  lemma PruneTwoFalsyFieldsExample(k: int, s: Student)
    requires (s.id == 0 && s.name == "") || (s.id == 0 && s.grades == map[]) || (s.name == "" && s.grades == map[])
    ensures Prune(map[k := s], [k]) == Pruned(map[], [], KeyError(k))
  {
    var p := Pass(map[k := s], [k], []);
    PruneSingle(k, s);
    PruneTwoFalsyFieldsRaises(s, k, p);
  }

  /** A store holding one graded record with an empty name: the pass removes
      and reports it. */
  lemma PruneNamelessGradedExample(k: int, s: Student)
    requires s.id != 0 && s.name == "" && s.grades != map[]
    ensures Prune(map[k := s], [k]) == Pruned(map[], [], Removed([k]))
  {
    var p := Pass(map[k := s], [k], []);
    PruneSingle(k, s);
    PruneRemovesNamelessGraded(s, k, p);
  }

  // ------------------------------------------------------------------
  // Worked examples
  // ------------------------------------------------------------------

  lemma SortTwoExample()
    ensures SortByGrade([("B", 4.0), ("C", 6.0)]) == [("B", 4.0), ("C", 6.0)]
  {
    var r1: Row, r2: Row := ("B", 4.0), ("C", 6.0);
    assert [r1, r2][1..] == [r2] && [r2][1..] == [];
    assert SortByGrade([r2]) == InsertRow(r2, SortByGrade([])) == [r2];
  }

  lemma InsertLastExample()
    ensures InsertRow(("A", 8.0), [("B", 4.0), ("C", 6.0)]) == [("B", 4.0), ("C", 6.0), ("A", 8.0)]
  {
    var r0: Row, r1: Row, r2: Row := ("A", 8.0), ("B", 4.0), ("C", 6.0);
    assert [r1, r2][1..] == [r2] && [r2][1..] == [];
    assert InsertRow(r0, [r2]) == [r2] + InsertRow(r0, []) == [r2, r0];
  }

  lemma SubjectRowsExample()
    ensures var a, b, c := Student(1, "A", map["math" := 8.0]), Student(2, "B", map["math" := 4.0]), Student(3, "C", map["math" := 6.0]);
            SubjectRows([a, b, c], "math") == [("A", 8.0), ("B", 4.0), ("C", 6.0)]
  {
    var a, b, c := Student(1, "A", map["math" := 8.0]), Student(2, "B", map["math" := 4.0]), Student(3, "C", map["math" := 6.0]);
    var r0: Row, r1: Row := ("A", 8.0), ("B", 4.0);
    assert [a, b, c][..2] == [a, b] && [a, b][..1] == [a] && [a][..0] == [];
    assert SubjectRows([a], "math") == [r0];
    assert SubjectRows([a, b], "math") == [r0, r1];
  }

  lemma SortExample()
    ensures SortByGrade([("A", 8.0), ("B", 4.0), ("C", 6.0)]) == [("B", 4.0), ("C", 6.0), ("A", 8.0)]
  {
    SortTwoExample();
    InsertLastExample();
    var r0: Row, r1: Row, r2: Row := ("A", 8.0), ("B", 4.0), ("C", 6.0);
    assert [r0, r1, r2][1..] == [r1, r2];
  }

  /** Students A (math 8.0), B (math 4.0) and C (math 6.0), stored in that
      order, are listed as B, C, A. */
  lemma SubjectListingExample()
    ensures var a, b, c := Student(1, "A", map["math" := 8.0]), Student(2, "B", map["math" := 4.0]), Student(3, "C", map["math" := 6.0]);
            SortByGrade(SubjectRows([a, b, c], "math")) == [("B", 4.0), ("C", 6.0), ("A", 8.0)]
  {
    SubjectRowsExample();
    SortExample();
  }

  /** Grades are collected per subject in store order. */
  lemma SubjectGradesExample()
    ensures var a, b := Student(1, "A", map["x" := 4.0, "y" := 4.0]), Student(2, "B", map["x" := 6.0]);
            SubjectGrades([a, b], "x") == [4.0, 6.0] && SubjectGrades([a, b], "y") == [4.0]
  {
    var a, b := Student(1, "A", map["x" := 4.0, "y" := 4.0]), Student(2, "B", map["x" := 6.0]);
    assert [a, b][..1] == [a] && [a][..0] == [];
    assert "y" !in b.grades;
  }

  /** A store holding A (graded) and D (no grades): the pass removes D, and a
      second pass removes nothing. */
  lemma PruneExample()
    ensures var a, d := Student(1, "A", map["math" := 8.0]), Student(2, "D", map[]);
            Prune(map[1 := a, 2 := d], [1, 2]) == Pruned(map[1 := a], [1], Removed([2]))
            && Prune(map[1 := a], [1]) == Pruned(map[1 := a], [1], Removed([]))
  {
    var a, d := Student(1, "A", map["math" := 8.0]), Student(2, "D", map[]);
    var db := map[1 := a, 2 := d];
    assert "math" in a.grades;
    assert [1, 2][1..] == [2] && [2][1..] == [];
    assert Gradeless(db, [2]) == [2] + Gradeless(db, []);
    assert Gradeless(db, [1, 2]) == [2];
    assert Distinct([1, 2]);
    PruneRemovesExactlyGradeless(db, [1, 2]);
    assert Elems([2]) == {2};
    assert db - {2} == map[1 := a];
    assert Drop([1, 2], {2}) == [1] by {
      assert Drop([2], {2}) == Drop([], {2});
    }
    PruneNothingToRemove(map[1 := a], [1]);
  }

  /** Grades 4.0 and 6.0 average to 5.0. */
  lemma MeanExample()
    ensures Mean([4.0, 6.0]) == 5.0
  {
    assert [4.0, 6.0][..1] == [4.0] && [4.0][..0] == [];
  }

  /** No record in iteration order holds `subject` exactly when no stored
      record does. */
  lemma NoHolderInValues(db: map<int, Student>, order: seq<int>, subject: string)
    requires WellKeyed(db, order)
    ensures (forall i :: 0 <= i < |ValuesOf(db, order)| ==> subject !in ValuesOf(db, order)[i].grades)
        ==> (forall k :: k in db ==> subject !in db[k].grades)
    ensures (forall k :: k in db ==> subject !in db[k].grades)
        ==> (forall i :: 0 <= i < |ValuesOf(db, order)| ==> subject !in ValuesOf(db, order)[i].grades)
  {
    var vs := ValuesOf(db, order);
    if forall i :: 0 <= i < |vs| ==> subject !in vs[i].grades {
      forall k | k in db ensures subject !in db[k].grades {
        assert k in order;
        var i :| 0 <= i < |order| && order[i] == k;
        assert vs[i] == db[k];
      }
    } else {
      var i :| 0 <= i < |vs| && subject in vs[i].grades;
      assert order[i] in db && vs[i] == db[order[i]];
    }
  }

  // ------------------------------------------------------------------
  // The store
  // ------------------------------------------------------------------

  /** `students_db`, with its keys in insertion order. */
  class Store {
    var db: map<int, Student>
    var order: seq<int>

    ghost predicate Valid()
      reads this
    {
      WellKeyed(db, order)
    }

    /** The empty store of module load time. */
    constructor ()
      ensures Valid() && db == map[] && order == []
    {
      db := map[];
      order := [];
    }

    /** The records in iteration order. */
    function Values(): (vs: seq<Student>)
      reads this
      requires Valid()
      ensures |vs| == |order| && forall i :: 0 <= i < |order| ==> vs[i] == db[order[i]]
    {
      ValuesOf(db, order)
    }

    /** get_student: the record stored under `id`, if any. */
    function GetStudent(id: int): (r: Option<Student>)
      reads this
      ensures r.Some? <==> id in db
      ensures r.Some? ==> r.value == db[id]
    {
      if id in db then Some(db[id]) else None
    }

    /** create_student: stores `student` under `id`, overwriting any record
        there; an overwritten key keeps its place in the iteration order. */
    method CreateStudent(id: int, student: Student) returns (r: Student)
      requires Valid()
      modifies this
      ensures Valid()
      ensures r == student
      ensures db == old(db)[id := student]
      ensures order == if id in old(db) then old(order) else old(order) + [id]
      ensures GetStudent(id) == Some(student)
      ensures forall k :: k != id ==> GetStudent(k) == old(GetStudent(k))
    {
      if id !in db {
        order := order + [id];
      }
      db := db[id := student];
      r := student;
    }

    /** get_students_by_subject: the `(name, grade)` rows of the records
        holding `subject`, sorted by grade, ties in iteration order. */
    function StudentsBySubject(subject: string): (r: seq<Row>)
      reads this
      requires Valid()
      ensures SortedByGrade(r)
      ensures multiset(r) == multiset(SubjectRows(Values(), subject))
      ensures forall g :: WithGrade(r, g) == WithGrade(SubjectRows(Values(), subject), g)
      ensures |r| == Holders(Values(), subject)
      ensures r == [] <==> forall k :: k in db ==> subject !in db[k].grades
    {
      var rows := SubjectRows(Values(), subject);
      SortByGradeRows(rows);
      NoHolderInValues(db, order, subject);
      assert |multiset(SortByGrade(rows))| == |SortByGrade(rows)|;
      SortByGrade(rows)
    }

    /** calculate_statistics: nothing when fewer than two records hold a
        grade for `subject`, otherwise the mean of the collected grades. */
    function CalculateStatistics(subject: string): (r: Option<Statistics>)
      reads this
      requires Valid()
      ensures r.None? <==> |SubjectGrades(Values(), subject)| < 2
      ensures r.Some? ==>
                var grades := SubjectGrades(Values(), subject);
                (exists i :: 0 <= i < |grades| && grades[i] <= r.value.average)
                && (exists i :: 0 <= i < |grades| && r.value.average <= grades[i])
    {
      var grades := SubjectGrades(Values(), subject);
      if grades == [] then None
      else if |grades| == 1 then None
      else Some(Statistics(Mean(grades)))
    }

    /** students_below_average: for each record with a grade strictly below
        `threshold`, a new record with the same id and name holding only those
        grades, in iteration order. The store is only read. */
    method StudentsBelowAverage(threshold: real := 6.0) returns (r: seq<Student>)
      requires Valid()
      ensures r == BelowThreshold(Values(), threshold)
      ensures forall i :: 0 <= i < |r| ==> r[i].grades != map[]
      ensures forall i, s :: 0 <= i < |r| && s in r[i].grades ==> r[i].grades[s] < threshold
    {
      r := [];
      ghost var vs := Values();
      for i := 0 to |order|
        invariant r == BelowThreshold(vs[..i], threshold)
      {
        var student := db[order[i]];
        var low := map s | s in student.grades && student.grades[s] < threshold :: student.grades[s];
        assert vs[..i + 1][..i] == vs[..i] && vs[i] == student;
        if low != map[] {
          r := r + [Student(student.id, student.name, low)];
        }
      }
      assert vs[..|order|] == vs;
    }

    /** remove_students_with_no_grades, as written: iterates over a snapshot
        of the store and, for each falsy field of a record, pops that record
        from the live store and records its id; a second pop of the same
        record raises KeyError. */
    method RemoveStudentsWithNoGrades() returns (outcome: PruneOutcome)
      requires Valid()
      modifies this
      ensures Valid()
      ensures Pruned(db, order, outcome) == Prune(old(db), old(order))
    {
      var removed: seq<int> := [];
      var snapshot := db;
      var keys := order;
      ghost var target := RecordLoop(snapshot, keys, Running(Pass(db, order, [])));
      for i := 0 to |keys|
        invariant Valid()
        invariant RecordLoop(snapshot, keys[i..], Running(Pass(db, order, removed))) == target
      {
        var k := keys[i];
        var falsy := FalsyFields(snapshot[k]);
        for j := 0 to |falsy|
          invariant Valid()
          invariant RecordLoop(snapshot, keys[i + 1..], FieldLoop(falsy[j..], k, Running(Pass(db, order, removed)))) == target
        {
          if falsy[j] {
            if k !in db {
              FieldLoopRaised(falsy[j + 1..], k, Pass(db, order, removed), k);
              assert falsy[j..][1..] == falsy[j + 1..];
              outcome := KeyError(k);
              return;
            }
            db := db - {k};
            order := Drop(order, {k});
            removed := removed + [k];
          }
        }
      }
      outcome := Removed(removed);
    }
  }
}
