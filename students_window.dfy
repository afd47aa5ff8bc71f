/**
 * The students window: the guards of "Añadir Alumno" and "Editar Alumno" and the
 * name search over the student table. The duplicate check of an insert looks at
 * the names the table shows at that moment, which is every student only when the
 * search box was empty at the last load.
 */
module StudentsWindow {
  import opened Common
  import opened Text
  import opened Rows
  import opened Store
  import opened Forms

  datatype StudentError =
    | MissingField
    | InvalidAge
    | DuplicateName(name: string)
    | NotSelected
    | InvalidFields

  /** The arguments of `insert_student` (no user id). */
  datatype StudentInsert = StudentInsert(name: string, age: int, level: string)

  /** The arguments of `update_student`, keyed by the name in the selected row. */
  datatype StudentUpdate = StudentUpdate(oldName: string, newName: string, age: int, level: string)

  /** `age.isdigit() and 12 <= int(age) <= 120`. */
  predicate ValidAge(t: string)
  {
    IsDigits(t) && 12 <= DigitsValue(t) <= 120
  }

  /** Stripped name, stripped age and level all present. */
  predicate FieldsPresent(nameText: string, ageText: string, level: string)
  {
    !Blank(nameText) && !Blank(ageText) && level != []
  }

  /**
   * `add_student`: the three fields present, an age of 12 to 120 in digits, and a
   * name that no displayed row carries, ignoring case; the level comes from the combo
   * box and is not stripped.
   */
  function AddStudent(nameText: string, ageText: string, level: string, displayed: seq<string>)
    : (r: Result<StudentInsert, StudentError>)
    ensures r == Err(MissingField) <==> !FieldsPresent(nameText, ageText, level)
    ensures r == Err(InvalidAge) <==> FieldsPresent(nameText, ageText, level) && !ValidAge(Strip(ageText))
    ensures r == Err(DuplicateName(Strip(nameText))) <==>
      FieldsPresent(nameText, ageText, level) && ValidAge(Strip(ageText))
      && ShownIgnoringCase(Strip(nameText), displayed)
    ensures r.Ok? <==>
      FieldsPresent(nameText, ageText, level) && ValidAge(Strip(ageText))
      && !ShownIgnoringCase(Strip(nameText), displayed)
    ensures r.Ok? ==> (r.value == StudentInsert(Strip(nameText), DigitsValue(Strip(ageText)), level)
      && 12 <= r.value.age <= 120
      && forall i :: 0 <= i < |displayed| ==> Lower(displayed[i]) != Lower(r.value.name))
  {
    var name, age := Strip(nameText), Strip(ageText);
    if name == [] || age == [] || level == [] then Err(MissingField)
    else if !ValidAge(age) then Err(InvalidAge)
    else if ShownIgnoringCase(name, displayed) then Err(DuplicateName(name))
    else Ok(StudentInsert(name, DigitsValue(age), level))
  }

  /**
   * `edit_student`: a selected row, then a non-empty name, a digit age and a level,
   * all reported by one warning. There is no age range and no duplicate check, and
   * every student named as in the selected row is updated.
   */
  function EditStudent(selected: int, displayed: seq<string>, nameText: string, ageText: string, level: string)
    : (r: Result<StudentUpdate, StudentError>)
    requires -1 <= selected < |displayed|
    ensures r == Err(NotSelected) <==> selected == -1
    ensures r == Err(InvalidFields) <==>
      selected != -1 && !(!Blank(nameText) && IsDigits(Strip(ageText)) && level != [])
    ensures r.Ok? ==>
      r.value == StudentUpdate(displayed[selected], Strip(nameText), DigitsValue(Strip(ageText)), level)
  {
    if selected == -1 then Err(NotSelected)
    else
      var name, age := Strip(nameText), Strip(ageText);
      if name != [] && IsDigits(age) && level != [] then
        Ok(StudentUpdate(displayed[selected], name, DigitsValue(age), level))
      else Err(InvalidFields)
  }

  /** The edit form has no age range: with the fields present and a digit age, the
      edit is accepted whatever the age, while the add refuses exactly the ages outside
      12 to 120. */
  lemma EditSkipsAgeRange(selected: int, displayed: seq<string>, nameText: string, ageText: string, level: string)
    requires 0 <= selected < |displayed|
    requires FieldsPresent(nameText, ageText, level) && IsDigits(Strip(ageText))
    ensures EditStudent(selected, displayed, nameText, ageText, level).Ok?
    ensures AddStudent(nameText, ageText, level, displayed) == Err(InvalidAge) <==>
      !(12 <= DigitsValue(Strip(ageText)) <= 120)
  {
  }

  /** The edit form has no duplicate check: renaming the selected student to the name
      of another displayed row is accepted, where the add refuses that name. */
  lemma EditSkipsDuplicateCheck(selected: int, other: int, displayed: seq<string>,
                                nameText: string, ageText: string, level: string)
    requires 0 <= selected < |displayed| && 0 <= other < |displayed| && other != selected
    requires FieldsPresent(nameText, ageText, level) && ValidAge(Strip(ageText))
    requires Strip(nameText) == displayed[other]
    ensures EditStudent(selected, displayed, nameText, ageText, level).Ok?
    ensures EditStudent(selected, displayed, nameText, ageText, level).value.newName == displayed[other]
    ensures AddStudent(nameText, ageText, level, displayed) == Err(DuplicateName(displayed[other]))
  {
    assert Lower(displayed[other]) == Lower(Strip(nameText));
  }

  /** Pressing "Añadir Alumno" against the store: one student row is added, with no user
      id, exactly when the form is accepted. */
  method SubmitStudent(db: Database, nameText: string, ageText: string, level: string, displayed: seq<string>)
    returns (r: Result<StudentInsert, StudentError>)
    requires db.Valid()
    modifies db
    ensures db.Valid()
    ensures r == AddStudent(nameText, ageText, level, displayed)
    ensures db.students ==
      if r.Ok? then InsertStudentRows(old(db.students), r.value.name, r.value.age, r.value.level, None)
      else old(db.students)
    ensures db.levels == old(db.levels) && db.rewards == old(db.rewards)
  {
    r := AddStudent(nameText, ageText, level, displayed);
    if r.Ok? {
      db.InsertStudent(r.value.name, r.value.age, r.value.level, None);
    }
  }

  /** Pressing "Editar Alumno" against the store: every student named as in the selected
      row takes the new fields, exactly when the form is accepted. */
  method SubmitStudentEdit(db: Database, selected: int, displayed: seq<string>,
                           nameText: string, ageText: string, level: string)
    returns (r: Result<StudentUpdate, StudentError>)
    requires db.Valid()
    requires -1 <= selected < |displayed|
    modifies db
    ensures db.Valid()
    ensures r == EditStudent(selected, displayed, nameText, ageText, level)
    ensures db.students ==
      if r.Ok? then UpdateStudentRows(old(db.students), r.value.oldName, r.value.newName, r.value.age, r.value.level)
      else old(db.students)
    ensures db.levels == old(db.levels) && db.rewards == old(db.rewards)
  {
    r := EditStudent(selected, displayed, nameText, ageText, level);
    if r.Ok? {
      db.UpdateStudent(r.value.oldName, r.value.newName, r.value.age, r.value.level);
    }
  }

  // ---------------------------------------------------------------------------
  // The table
  // ---------------------------------------------------------------------------

  /** A table row: name, age as `str(age)`, level. */
  datatype StudentRow = StudentRow(name: string, age: string, level: string)

  function RowOf(s: StudentView): StudentRow
  {
    StudentRow(s.name, IntToString(s.age), s.level)
  }

  /** The students whose lower-cased name contains the lower-cased search text. */
  function NameContains(f: string): StudentView -> bool
  {
    (s: StudentView) => Contains(Lower(s.name), f)
  }

  /** The list comprehension of `load_students`: every student without a search text,
      otherwise those whose name contains it, ignoring case. */
  function ShownStudents(students: seq<StudentView>, filterText: string): seq<StudentView>
  {
    if filterText == [] then students else Filter(students, NameContains(Lower(filterText)))
  }

  /** The comprehension agrees with the plain filter even for an empty search text. */
  lemma ShownStudentsIsFilter(students: seq<StudentView>, filterText: string)
    ensures ShownStudents(students, filterText) == Filter(students, NameContains(Lower(filterText)))
  {
    if filterText == [] {
      forall i | 0 <= i < |students| ensures NameContains(Lower(filterText))(students[i]) {
        ContainsEmpty(Lower(students[i].name));
      }
      FilterAll(students, NameContains(Lower(filterText)));
    }
  }

  /** `load_students(filter_text)`: one row per shown student, in listing order. */
  method LoadStudents(students: seq<StudentView>, filterText: string) returns (rows: seq<StudentRow>)
    ensures |rows| == |ShownStudents(students, filterText)|
    ensures forall i :: 0 <= i < |rows| ==> rows[i] == RowOf(ShownStudents(students, filterText)[i])
  {
    var shown := students;
    if filterText != [] {
      var f := Lower(filterText);
      shown := Filter(students, NameContains(f));
    }
    rows := [];
    var i := 0;
    while i < |shown|
      invariant 0 <= i <= |shown|
      invariant |rows| == i && forall j :: 0 <= j < i ==> rows[j] == RowOf(shown[j])
    {
      rows := rows + [StudentRow(shown[i].name, IntToString(shown[i].age), shown[i].level)];
      i := i + 1;
    }
  }

  /** Against a table loaded without a search text, an accepted insert never duplicates
      any student's name, ignoring case. */
  lemma AddAfterFullLoadIsNew(students: seq<StudentView>, rows: seq<StudentRow>,
                              nameText: string, ageText: string, level: string)
    requires |rows| == |students| && forall i :: 0 <= i < |rows| ==> rows[i] == RowOf(students[i])
    requires AddStudent(nameText, ageText, level, Map(rows, (r: StudentRow) => r.name)).Ok?
    ensures forall i :: 0 <= i < |students| ==> Lower(students[i].name) != Lower(Strip(nameText))
  {
    var names := Map(rows, (r: StudentRow) => r.name);
    forall i | 0 <= i < |students| ensures Lower(students[i].name) != Lower(Strip(nameText)) {
      assert names[i] == students[i].name;
    }
  }

  /** Against a table narrowed by a search, the duplicate check sees only the matching
      rows: a well-formed name the search text does not occur in is accepted whatever
      the stored students are called, so a stored "Ana" does not stop an insert of
      "ana" while the table shows the search for "Luis". */
  lemma {:induction false} FilteredTableMissesDuplicates(students: seq<StudentView>, filterText: string,
                                       rows: seq<StudentRow>, nameText: string, ageText: string, level: string)
    requires |rows| == |ShownStudents(students, filterText)|
    requires forall i :: 0 <= i < |rows| ==> rows[i] == RowOf(ShownStudents(students, filterText)[i])
    requires FieldsPresent(nameText, ageText, level) && ValidAge(Strip(ageText))
    requires filterText != [] && !Contains(Lower(Strip(nameText)), Lower(filterText))
    ensures AddStudent(nameText, ageText, level, Map(rows, (r: StudentRow) => r.name)).Ok?
  {
    var p := NameContains(Lower(filterText));
    var shown := Filter(students, p);
    var names := Map(rows, (r: StudentRow) => r.name);
    forall i | 0 <= i < |names| ensures Lower(names[i]) != Lower(Strip(nameText)) {
      assert names[i] == shown[i].name;
      FilterMembership(students, p, shown[i]);
      assert Contains(Lower(shown[i].name), Lower(filterText));
    }
  }
}
