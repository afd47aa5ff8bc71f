/**
 * The rows of the school's tables that the core reads and writes, and the
 * lookups by key that its SQL statements perform. Rows are listed in rowid
 * order, which is the order SQLite returns them in when a query has no
 * ORDER BY.
 */
module Schema {
  import opened Common

  /** A row of `students`: id INTEGER PRIMARY KEY, name, age, level, user_id. */
  datatype Student = Student(id: int, name: string, age: int, level: string, userId: Option<int>)

  /** A row of `rewards`. Its AUTOINCREMENT id is not modelled: nothing in the core reads it. */
  datatype Reward = Reward(
    recommenderId: int,
    newStudentId: int,
    rewardName: string,
    monthsRewarded: int,
    dateAwarded: string)

  /** The PRIMARY KEY constraint on `students.id`. */
  predicate UniqueIds(students: seq<Student>)
  {
    forall i, j :: 0 <= i < j < |students| ==> students[i].id != students[j].id
  }

  /** A join `ON x = students.id`: the student row with that id, if any. */
  function StudentById(students: seq<Student>, id: int): (r: Option<Student>)
    ensures r.None? <==> forall i :: 0 <= i < |students| ==> students[i].id != id
    ensures r.Some? ==> r.value in students && r.value.id == id
  {
    if students == [] then None
    else if students[0].id == id then Some(students[0])
    else StudentById(students[1..], id)
  }

  /** With unique ids the join finds exactly the row that carries the id. */
  lemma {:induction false} StudentByIdUnique(students: seq<Student>, i: int)
    requires UniqueIds(students) && 0 <= i < |students|
    ensures StudentById(students, students[i].id) == Some(students[i])
  {
    if i > 0 {
      assert students[0].id != students[i].id;
      StudentByIdUnique(students[1..], i - 1);
    }
  }

  /** Row `i` is the first student named `name`. */
  predicate IsFirstNamed(students: seq<Student>, name: string, i: int)
  {
    0 <= i < |students| && students[i].name == name
    && forall j :: 0 <= j < i ==> students[j].name != name
  }

  /** The scalar subquery `(SELECT id FROM students WHERE name = ?)`: the id of the first
      student with that name, or NULL when there is none. */
  function FirstIdByName(students: seq<Student>, name: string): (r: Option<int>)
    ensures r.None? <==> forall i :: 0 <= i < |students| ==> students[i].name != name
    ensures r.Some? ==> (exists i :: IsFirstNamed(students, name, i) && students[i].id == r.value)
  {
    if students == [] then None
    else if students[0].name == name then
      assert IsFirstNamed(students, name, 0);
      Some(students[0].id)
    else
      var r := FirstIdByName(students[1..], name);
      if r.Some? then
        var k :| IsFirstNamed(students[1..], name, k) && students[1..][k].id == r.value;
        assert IsFirstNamed(students, name, k + 1);
        r
      else r
  }
}
