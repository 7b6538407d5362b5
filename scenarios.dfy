/** Example sessions of the service: students are added through the router
    and the store's queries are then asked about them. */
module Scenarios {
  import opened Wrappers
  import opened Models
  import opened Crud
  import opened StudentsRouter

  /** Three students graded in math are listed from the lowest grade up. */
  method SubjectListingScenario() {
    var store := new Store();
    var sa, sb, sc := Student(1, "A", map["math" := 8.0]), Student(2, "B", map["math" := 4.0]), Student(3, "C", map["math" := 6.0]);
    var a := AddStudent(store, StudentCreate("A", map["math" := 8.0]));
    assert a == sa && store.db == map[1 := sa] && store.order == [1];
    var b := AddStudent(store, StudentCreate("B", map["math" := 4.0]));
    assert b == sb && store.db == map[1 := sa, 2 := sb] && store.order == [1, 2];
    var c := AddStudent(store, StudentCreate("C", map["math" := 6.0]));
    assert c == sc && store.db == map[1 := sa, 2 := sb, 3 := sc] && store.order == [1, 2, 3];
    assert store.Values() == [sa, sb, sc];
    SubjectListingExample();
    var rows := store.StudentsBySubject("math");
    assert rows == [("B", 4.0), ("C", 6.0), ("A", 8.0)];
  }

  /** A gradeless student is pruned once; a second pass removes nothing. */
  method PruningScenario() {
    var store := new Store();
    var a := AddStudent(store, StudentCreate("A", map["math" := 8.0]));
    var d := AddStudent(store, StudentCreate("D", map[]));
    assert store.order == [1, 2] && store.db == map[1 := a, 2 := d];
    PruneExample();
    var first := store.RemoveStudentsWithNoGrades();
    assert first == Removed([2]);
    var second := store.RemoveStudentsWithNoGrades();
    assert second == Removed([]);
  }

  /** Two grades give statistics; a single grade gives none. */
  method StatisticsScenario() {
    var store := new Store();
    var a := AddStudent(store, StudentCreate("A", map["x" := 4.0, "y" := 4.0]));
    var b := AddStudent(store, StudentCreate("B", map["x" := 6.0]));
    assert a == Student(1, "A", map["x" := 4.0, "y" := 4.0]) && b == Student(2, "B", map["x" := 6.0]);
    assert store.Values() == [a, b];
    SubjectGradesExample();
    MeanExample();
    assert SubjectGrades(store.Values(), "x") == [4.0, 6.0];
    assert SubjectGrades(store.Values(), "y") == [4.0];
    var x := store.CalculateStatistics("x");
    assert x == Some(Statistics(5.0));
    var y := store.CalculateStatistics("y");
    assert y == None;
  }
}
