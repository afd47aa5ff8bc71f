/**
 * The store: the `students`, `levels` and `rewards` tables, changed in place by
 * the table functions of the database layer. Each statement's effect on a table
 * is first given as a function on rows, with the constraint it keeps; the class
 * `Database` holds the tables and its methods apply those functions. Foreign keys
 * are declared in the schema but SQLite does not enforce them unless asked to, so
 * deleting a student leaves its rewards in place.
 */
module Store {
  import opened Common
  import opened Schema
  import opened Rows
  import opened Ledger

  /** The levels `init_levels` seeds, in the order it inserts them. */
  const DefaultLevels: seq<string> :=
    ["A1", "A2", "B1", "B2", "C1", "C2", "A1_Ad", "A2_Ad", "B1_Ad", "B2_Ad", "C1_Ad", "C2_Ad"]

  /** No value occurs twice: the UNIQUE constraint on `levels.name`. */
  predicate Distinct<T(==)>(s: seq<T>)
  {
    forall i, j :: 0 <= i < j < |s| ==> s[i] != s[j]
  }

  /** The error SQLite raises when a statement would break a UNIQUE constraint. */
  datatype IntegrityError = UniqueViolation(name: string)

  // ---------------------------------------------------------------------------
  // students
  // ---------------------------------------------------------------------------

  /** The rowid SQLite gives a row inserted without one into a table whose key is a
      plain INTEGER PRIMARY KEY: one more than the largest id, or 1 in an empty table. */
  function NextStudentId(students: seq<Student>): (id: int)
    ensures forall i :: 0 <= i < |students| ==> students[i].id < id
    ensures students == [] ==> id == 1
    ensures students != [] ==> exists i :: 0 <= i < |students| && students[i].id == id - 1
  {
    if students == [] then 1
    else
      var init := students[..|students| - 1];
      var last := students[|students| - 1].id;
      var prev := NextStudentId(init);
      assert forall i :: 0 <= i < |init| ==> init[i] == students[i];
      if init == [] || last >= prev then last + 1 else prev
  }

  /** `insert_student`: the new row goes at the end with a fresh id, so ids stay unique.
      Nothing checks the name: a second student with the same name is a new row. */
  function InsertStudentRows(students: seq<Student>, name: string, age: int, level: string,
                             userId: Option<int>): (r: seq<Student>)
    ensures |r| == |students| + 1 && r[..|students|] == students
    ensures r[|students|].name == name && r[|students|].age == age && r[|students|].level == level
      && r[|students|].userId == userId
    ensures UniqueIds(students) ==> UniqueIds(r)
  {
    students + [Student(NextStudentId(students), name, age, level, userId)]
  }

  /** Inserting twice under one name yields two distinct rows with that name. */
  lemma DuplicateNamesAllowed(students: seq<Student>, name: string, age: int, level: string)
    requires UniqueIds(students)
    ensures var once := InsertStudentRows(students, name, age, level, None);
      var twice := InsertStudentRows(once, name, age, level, None);
      twice[|students|].name == name && twice[|students| + 1].name == name
      && twice[|students|] != twice[|students| + 1]
  {
    var once := InsertStudentRows(students, name, age, level, None);
    var twice := InsertStudentRows(once, name, age, level, None);
    assert twice[|students|] == once[|students|];
  }

  /** The rows `DELETE FROM students WHERE name = ?` keeps. */
  function NameIsNot(name: string): Student -> bool
  {
    (st: Student) => st.name != name
  }

  /** Keeping some rows, in order, keeps their ids unique. */
  lemma FilterKeepsUniqueIds(students: seq<Student>, p: Student -> bool)
    requires UniqueIds(students)
    ensures UniqueIds(Filter(students, p))
  {
    var idx := FilterOrder(students, p);
    var r := Filter(students, p);
    forall k, l | 0 <= k < l < |r| ensures r[k].id != r[l].id {
      assert idx[k] < idx[l];
    }
  }

  /** `delete_student(name)` removes every student with that name and no other row. */
  lemma DeleteStudentSpec(students: seq<Student>, name: string)
    requires UniqueIds(students)
    ensures UniqueIds(Filter(students, NameIsNot(name)))
    ensures forall st :: st in Filter(students, NameIsNot(name)) <==> st in students && st.name != name
  {
    FilterKeepsUniqueIds(students, NameIsNot(name));
    forall st ensures st in Filter(students, NameIsNot(name)) <==> st in students && st.name != name {
      FilterMembership(students, NameIsNot(name), st);
    }
  }

  /** `UPDATE students SET name = ?, age = ?, level = ? WHERE name = ?`: every row with the
      old name takes the new values; ids, user ids and all other rows are unchanged. */
  function UpdateStudentRows(students: seq<Student>, oldName: string, newName: string,
                             newAge: int, newLevel: string): (r: seq<Student>)
    ensures |r| == |students|
    ensures forall i :: 0 <= i < |r| ==> r[i].id == students[i].id && r[i].userId == students[i].userId
    ensures forall i :: 0 <= i < |r| && students[i].name == oldName ==>
      r[i].name == newName && r[i].age == newAge && r[i].level == newLevel
    ensures forall i :: 0 <= i < |r| && students[i].name != oldName ==> r[i] == students[i]
    ensures UniqueIds(students) ==> UniqueIds(r)
  {
    if students == [] then []
    else
      var st := students[|students| - 1];
      UpdateStudentRows(students[..|students| - 1], oldName, newName, newAge, newLevel)
        + [if st.name == oldName then st.(name := newName, age := newAge, level := newLevel) else st]
  }

  /** A row of `fetch_students`: the student without its user id. */
  datatype StudentView = StudentView(id: int, name: string, age: int, level: string)

  function ViewOf(st: Student): StudentView
  {
    StudentView(st.id, st.name, st.age, st.level)
  }

  /** `fetch_students`: every student, in rowid order. */
  function FetchStudents(students: seq<Student>): (views: seq<StudentView>)
    ensures |views| == |students|
    ensures forall i :: 0 <= i < |views| ==> views[i] == ViewOf(students[i])
  {
    if students == [] then [] else FetchStudents(students[..|students| - 1]) + [ViewOf(students[|students| - 1])]
  }

  /** What the student round trip relies on: after an insert the listing shows the new
      student, and after deleting that name it shows no student with it. */
  lemma InsertThenDeleteStudent(students: seq<Student>, name: string, age: int, level: string)
    ensures StudentView(NextStudentId(students), name, age, level)
      in FetchStudents(InsertStudentRows(students, name, age, level, None))
    ensures forall v :: (v in FetchStudents(Filter(InsertStudentRows(students, name, age, level, None), NameIsNot(name)))
      ==> v.name != name)
  {
    var after := InsertStudentRows(students, name, age, level, None);
    assert FetchStudents(after)[|students|] == ViewOf(after[|students|]);
    var kept := Filter(after, NameIsNot(name));
    forall v | v in FetchStudents(kept) ensures v.name != name {
      var i :| 0 <= i < |kept| && FetchStudents(kept)[i] == v;
      FilterMembership(after, NameIsNot(name), kept[i]);
    }
  }

  // ---------------------------------------------------------------------------
  // levels
  // ---------------------------------------------------------------------------

  /** `INSERT OR IGNORE INTO levels (name) VALUES (?)`. */
  function InsertOrIgnore(levels: seq<string>, name: string): (r: seq<string>)
    ensures Distinct(levels) ==> Distinct(r)
    ensures forall x :: x in r <==> x in levels || x == name
    ensures |r| >= |levels| && r[..|levels|] == levels
  {
    if name in levels then levels else levels + [name]
  }

  /** The loop of `init_levels`: one INSERT OR IGNORE per name, in order. */
  function InsertOrIgnoreAll(levels: seq<string>, names: seq<string>): (r: seq<string>)
  {
    if names == [] then levels
    else InsertOrIgnore(InsertOrIgnoreAll(levels, names[..|names| - 1]), names[|names| - 1])
  }

  /** One more name of the list is one more INSERT OR IGNORE. */
  lemma InsertOrIgnoreAllStep(levels: seq<string>, names: seq<string>, i: int)
    requires 0 <= i < |names|
    ensures InsertOrIgnoreAll(levels, names[..i + 1]) == InsertOrIgnore(InsertOrIgnoreAll(levels, names[..i]), names[i])
  {
    assert names[..i + 1][..i] == names[..i];
  }

  /** The loop keeps the constraint, keeps every existing row in place, and afterwards
      exactly the old names and the inserted ones are present. */
  lemma {:induction false} InsertOrIgnoreAllSpec(levels: seq<string>, names: seq<string>)
    ensures Distinct(levels) ==> Distinct(InsertOrIgnoreAll(levels, names))
    ensures forall x :: x in InsertOrIgnoreAll(levels, names) <==> x in levels || x in names
    ensures |InsertOrIgnoreAll(levels, names)| >= |levels|
    ensures InsertOrIgnoreAll(levels, names)[..|levels|] == levels
  {
    if names != [] {
      var init := names[..|names| - 1];
      InsertOrIgnoreAllSpec(levels, init);
      var prev := InsertOrIgnoreAll(levels, init);
      assert names == init + [names[|names| - 1]];
      assert InsertOrIgnoreAll(levels, names)[..|prev|] == prev;
    }
  }

  /** When every name is present already, the loop inserts nothing. */
  lemma {:induction false} InsertOrIgnoreAllPresent(levels: seq<string>, names: seq<string>)
    requires forall x :: x in names ==> x in levels
    ensures InsertOrIgnoreAll(levels, names) == levels
  {
    if names != [] {
      var init := names[..|names| - 1];
      assert forall x :: x in init ==> x in names;
      InsertOrIgnoreAllPresent(levels, init);
      assert names[|names| - 1] in names;
    }
  }

  /** `init_levels` is idempotent, and afterwards each default level occurs exactly once. */
  lemma InitLevelsIdempotent(levels: seq<string>)
    requires Distinct(levels)
    ensures InsertOrIgnoreAll(InsertOrIgnoreAll(levels, DefaultLevels), DefaultLevels)
      == InsertOrIgnoreAll(levels, DefaultLevels)
    ensures var r := InsertOrIgnoreAll(levels, DefaultLevels);
      Distinct(r) && forall x :: x in DefaultLevels ==> x in r
  {
    InsertOrIgnoreAllSpec(levels, DefaultLevels);
    InsertOrIgnoreAllPresent(InsertOrIgnoreAll(levels, DefaultLevels), DefaultLevels);
  }

  /** `insert_level`: a name already in the table makes the INSERT fail and the table
      stay as it was; any other name is appended. */
  function InsertLevelRows(levels: seq<string>, name: string): (r: Result<seq<string>, IntegrityError>)
    ensures r.Err? <==> name in levels
    ensures r.Err? ==> r.error == UniqueViolation(name)
    ensures r.Ok? ==> |r.value| == |levels| + 1 && r.value[..|levels|] == levels && (forall x :: x in r.value <==> x in levels || x == name)
    ensures r.Ok? && Distinct(levels) ==> Distinct(r.value)
  {
    if name in levels then Err(UniqueViolation(name)) else Ok(levels + [name])
  }

  /** `UPDATE levels SET name = ? WHERE name = ?` on the row rewrite alone. */
  function RenameLevel(levels: seq<string>, oldName: string, newName: string): (r: seq<string>)
    ensures |r| == |levels|
  {
    if levels == [] then []
    else
      var l := levels[|levels| - 1];
      RenameLevel(levels[..|levels| - 1], oldName, newName) + [if l == oldName then newName else l]
  }

  lemma {:induction false} RenameLevelAt(levels: seq<string>, oldName: string, newName: string)
    ensures forall i :: 0 <= i < |levels| ==>
      RenameLevel(levels, oldName, newName)[i] == if levels[i] == oldName then newName else levels[i]
  {
    if levels != [] {
      var init := levels[..|levels| - 1];
      RenameLevelAt(init, oldName, newName);
      assert forall i :: 0 <= i < |init| ==> init[i] == levels[i];
    }
  }

  /** `update_level`: the statement fails, changing nothing, exactly when the row to rename
      exists and another row already holds the new name. Otherwise the old name is gone
      (unless it is also the new one), the new name is present if the old one was, and the
      constraint still holds. */
  function UpdateLevelRows(levels: seq<string>, oldName: string, newName: string)
    : (r: Result<seq<string>, IntegrityError>)
    requires Distinct(levels)
    ensures r.Err? <==> oldName in levels && newName in levels && newName != oldName
    ensures r.Err? ==> r.error == UniqueViolation(newName)
    ensures r.Ok? ==> |r.value| == |levels| && Distinct(r.value)
    ensures r.Ok? ==> forall x :: x in r.value <==>
      (x in levels && x != oldName) || (x == newName && oldName in levels)
  {
    if oldName in levels && newName in levels && newName != oldName then Err(UniqueViolation(newName))
    else
      var r := RenameLevel(levels, oldName, newName);
      RenameLevelAt(levels, oldName, newName);
      assert forall x :: x in r <==> (x in levels && x != oldName) || (x == newName && oldName in levels) by {
        forall x ensures x in r <==> (x in levels && x != oldName) || (x == newName && oldName in levels) {
          if x in levels && x != oldName {
            var i :| 0 <= i < |levels| && levels[i] == x;
            assert r[i] == x;
          }
          if x == newName && oldName in levels {
            var i :| 0 <= i < |levels| && levels[i] == oldName;
            assert r[i] == x;
          }
        }
      }
      Ok(r)
  }

  /** The rows `DELETE FROM levels WHERE name = ?` keeps. */
  function LevelIsNot(name: string): string -> bool
  {
    (l: string) => l != name
  }

  /** `delete_level`: the named level is gone, every other level stays, the constraint holds. */
  lemma DeleteLevelSpec(levels: seq<string>, name: string)
    requires Distinct(levels)
    ensures Distinct(Filter(levels, LevelIsNot(name)))
    ensures forall x :: x in Filter(levels, LevelIsNot(name)) <==> x in levels && x != name
  {
    var r := Filter(levels, LevelIsNot(name));
    var idx := FilterOrder(levels, LevelIsNot(name));
    forall k, l | 0 <= k < l < |r| ensures r[k] != r[l] {
      assert idx[k] < idx[l];
    }
    forall x ensures x in r <==> x in levels && x != name {
      FilterMembership(levels, LevelIsNot(name), x);
    }
  }

  /** The insert, rename and delete of the level round trip leave the table as it was. */
  lemma LevelRoundTrip(levels: seq<string>, original: string, updated: string)
    requires Distinct(levels) && original !in levels && updated !in levels && original != updated
    ensures InsertLevelRows(levels, original).Ok?
    ensures var t1 := InsertLevelRows(levels, original).value;
      var t2 := UpdateLevelRows(t1, original, updated);
      t2.Ok? && updated in t2.value && original !in t2.value
      && Filter(t2.value, LevelIsNot(updated)) == levels
  {
    var p := LevelIsNot(updated);
    var t1 := InsertLevelRows(levels, original).value;
    assert t1 == levels + [original];
    var t2 := UpdateLevelRows(t1, original, updated).value;
    RenameLevelAt(t1, original, updated);
    assert t2 == levels + [updated];
    FilterConcat(levels, [updated], p);
    FilterAll(levels, p);
  }

  // ---------------------------------------------------------------------------
  // The database object
  // ---------------------------------------------------------------------------

  /** The three tables of the school's database that the core changes. */
  class Database {
    var students: seq<Student>
    var levels: seq<string>
    var rewards: seq<Reward>

    /** The constraints SQLite maintains: unique student ids and unique level names. */
    ghost predicate Valid()
      reads this
    {
      UniqueIds(students) && Distinct(levels)
    }

    /** A database whose tables `create_tables` has just created. */
    constructor()
      ensures Valid()
      ensures students == [] && levels == [] && rewards == []
    {
      students := [];
      levels := [];
      rewards := [];
    }

    /** `insert_student(name, age, level, user_id)`. */
    method InsertStudent(name: string, age: int, level: string, userId: Option<int>)
      requires Valid()
      modifies this
      ensures Valid()
      ensures students == InsertStudentRows(old(students), name, age, level, userId)
      ensures levels == old(levels) && rewards == old(rewards)
    {
      students := students + [Student(NextStudentId(students), name, age, level, userId)];
    }

    /** `delete_student(name)`: every student with that name; their rewards stay. */
    method DeleteStudent(name: string)
      requires Valid()
      modifies this
      ensures Valid()
      ensures students == Filter(old(students), NameIsNot(name))
      ensures levels == old(levels) && rewards == old(rewards)
    {
      DeleteStudentSpec(students, name);
      students := Filter(students, NameIsNot(name));
    }

    /** `update_student(old_name, new_name, new_age, new_level)`. */
    method UpdateStudent(oldName: string, newName: string, newAge: int, newLevel: string)
      requires Valid()
      modifies this
      ensures Valid()
      ensures students == UpdateStudentRows(old(students), oldName, newName, newAge, newLevel)
      ensures levels == old(levels) && rewards == old(rewards)
    {
      students := UpdateStudentRows(students, oldName, newName, newAge, newLevel);
    }

    /** `init_levels`: the loop over the default names. */
    method InitLevels()
      requires Valid()
      modifies this
      ensures Valid()
      ensures levels == InsertOrIgnoreAll(old(levels), DefaultLevels)
      ensures students == old(students) && rewards == old(rewards)
    {
      var i := 0;
      while i < |DefaultLevels|
        invariant 0 <= i <= |DefaultLevels|
        invariant levels == InsertOrIgnoreAll(old(levels), DefaultLevels[..i])
        invariant Distinct(levels)
        invariant students == old(students) && rewards == old(rewards)
      {
        InsertOrIgnoreAllStep(old(levels), DefaultLevels, i);
        levels := InsertOrIgnore(levels, DefaultLevels[i]);
        i := i + 1;
      }
      assert DefaultLevels[..i] == DefaultLevels;
    }

    /** `insert_level(name)`: an error when the INSERT raises. */
    method InsertLevel(name: string) returns (r: Result<(), IntegrityError>)
      requires Valid()
      modifies this
      ensures Valid()
      ensures r.Err? <==> InsertLevelRows(old(levels), name).Err?
      ensures levels == if r.Ok? then InsertLevelRows(old(levels), name).value else old(levels)
      ensures students == old(students) && rewards == old(rewards)
    {
      if name in levels {
        return Err(UniqueViolation(name));
      }
      levels := levels + [name];
      return Ok(());
    }

    /** `update_level(old_name, new_name)`. */
    method UpdateLevel(oldName: string, newName: string) returns (r: Result<(), IntegrityError>)
      requires Valid()
      modifies this
      ensures Valid()
      ensures r.Err? <==> UpdateLevelRows(old(levels), oldName, newName).Err?
      ensures levels == if r.Ok? then UpdateLevelRows(old(levels), oldName, newName).value else old(levels)
      ensures students == old(students) && rewards == old(rewards)
    {
      match UpdateLevelRows(levels, oldName, newName) {
        case Err(e) => return Err(e);
        case Ok(t) =>
          levels := t;
          return Ok(());
      }
    }

    /** `delete_level(name)`. */
    method DeleteLevel(name: string)
      requires Valid()
      modifies this
      ensures Valid()
      ensures levels == Filter(old(levels), LevelIsNot(name))
      ensures students == old(students) && rewards == old(rewards)
    {
      DeleteLevelSpec(levels, name);
      levels := Filter(levels, LevelIsNot(name));
    }

    /** `insert_reward(recommender_id, new_student_id, months, date_awarded)`: one row
        appended, whether or not the new student was rewarded before. */
    method InsertReward(recommenderId: int, newStudentId: int, months: int, dateAwarded: string)
      requires Valid()
      modifies this
      ensures Valid()
      ensures rewards == old(rewards) + [RewardRow(recommenderId, newStudentId, months, dateAwarded)]
      ensures RewardAlreadyGranted(rewards, newStudentId)
      ensures students == old(students) && levels == old(levels)
    {
      rewards := rewards + [RewardRow(recommenderId, newStudentId, months, dateAwarded)];
      assert rewards[|rewards| - 1].newStudentId == newStudentId;
    }

    /** `delete_reward(recommender_name, new_student_name)`. */
    method DeleteReward(recommenderName: string, newStudentName: string)
      requires Valid()
      modifies this
      ensures Valid()
      ensures rewards == DeleteRewardRows(old(rewards), students, recommenderName, newStudentName)
      ensures students == old(students) && levels == old(levels)
    {
      rewards := DeleteRewardRows(rewards, students, recommenderName, newStudentName);
    }
  }
}
