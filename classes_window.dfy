/**
 * The classes window: the guards of "Añadir Clase" and "Editar Clase" and the
 * rebuilding of its table. The class table itself is not held by the store model;
 * each accepted form is modelled by the one store call it makes.
 */
module ClassesWindow {
  import opened Common
  import opened Text
  import opened Rows
  import opened Forms

  datatype ClassError = MissingField | DuplicateName(name: string) | NotSelected

  /** The one store call an accepted form makes: `insert_class`, or `update_class`
      keyed by the name in the selected row. */
  datatype ClassCall =
    | InsertClass(name: string, date: string, professor: string)
    | UpdateClass(oldName: string, newName: string, date: string, professor: string)

  predicate FieldsPresent(nameText: string, dateText: string, professorText: string)
  {
    !Blank(nameText) && !Blank(dateText) && !Blank(professorText)
  }

  /** `add_class`: three stripped fields present, then a name that no displayed class
      carries, ignoring case. */
  function AddClass(nameText: string, dateText: string, professorText: string, displayed: seq<string>)
    : (r: Result<ClassCall, ClassError>)
    ensures r == Err(MissingField) <==> !FieldsPresent(nameText, dateText, professorText)
    ensures r == Err(DuplicateName(Strip(nameText))) <==>
      FieldsPresent(nameText, dateText, professorText) && ShownIgnoringCase(Strip(nameText), displayed)
    ensures r.Ok? <==>
      FieldsPresent(nameText, dateText, professorText) && !ShownIgnoringCase(Strip(nameText), displayed)
    ensures r.Ok? ==> r.value == InsertClass(Strip(nameText), Strip(dateText), Strip(professorText))
  {
    var name, date, professor := Strip(nameText), Strip(dateText), Strip(professorText);
    if name == [] || date == [] || professor == [] then Err(MissingField)
    else if ShownIgnoringCase(name, displayed) then Err(DuplicateName(name))
    else Ok(InsertClass(name, date, professor))
  }

  /** `edit_class`: a selected row, three stripped fields present, and, only when the
      name changes other than in case, a name no displayed class carries. */
  function EditClass(selected: int, displayed: seq<string>, nameText: string, dateText: string, professorText: string)
    : (r: Result<ClassCall, ClassError>)
    requires -1 <= selected < |displayed|
    ensures r == Err(NotSelected) <==> selected == -1
    ensures r == Err(MissingField) <==> selected != -1 && !FieldsPresent(nameText, dateText, professorText)
    ensures r == Err(DuplicateName(Strip(nameText))) <==>
      selected != -1 && FieldsPresent(nameText, dateText, professorText)
      && Lower(Strip(nameText)) != Lower(displayed[selected]) && ShownIgnoringCase(Strip(nameText), displayed)
    ensures r.Ok? <==>
      selected != -1 && FieldsPresent(nameText, dateText, professorText)
      && !(Lower(Strip(nameText)) != Lower(displayed[selected]) && ShownIgnoringCase(Strip(nameText), displayed))
    ensures r.Ok? ==>
      r.value == UpdateClass(displayed[selected], Strip(nameText), Strip(dateText), Strip(professorText))
  {
    if selected == -1 then Err(NotSelected)
    else
      var name, date, professor := Strip(nameText), Strip(dateText), Strip(professorText);
      if name == [] || date == [] || professor == [] then Err(MissingField)
      else if Lower(name) != Lower(displayed[selected]) && ShownIgnoringCase(name, displayed) then
        Err(DuplicateName(name))
      else Ok(UpdateClass(displayed[selected], name, date, professor))
  }

  /** A rename that changes only the case of the selected class is accepted even though
      its name is, ignoring case, in the table. */
  lemma CaseOnlyRenameAccepted(selected: int, displayed: seq<string>,
                               nameText: string, dateText: string, professorText: string)
    requires 0 <= selected < |displayed|
    requires FieldsPresent(nameText, dateText, professorText)
    requires Lower(Strip(nameText)) == Lower(displayed[selected])
    ensures ShownIgnoringCase(Strip(nameText), displayed)
    ensures EditClass(selected, displayed, nameText, dateText, professorText).Ok?
  {
  }

  /** An accepted insert keeps the displayed class names unique ignoring case. */
  lemma AddClassKeepsUnique(displayed: seq<string>, nameText: string, dateText: string, professorText: string)
    requires UniqueIgnoringCase(displayed)
    requires AddClass(nameText, dateText, professorText, displayed).Ok?
    ensures UniqueIgnoringCase(displayed + [AddClass(nameText, dateText, professorText, displayed).value.name])
  {
    var names := displayed + [Strip(nameText)];
    forall i, j | 0 <= i < |names| && 0 <= j < |names| && i != j
      ensures Lower(names[i]) != Lower(names[j])
    {
      if i < |displayed| && j < |displayed| {
        assert names[i] == displayed[i] && names[j] == displayed[j];
      } else if i < |displayed| {
        assert names[i] == displayed[i];
      } else {
        assert names[j] == displayed[j];
      }
    }
  }

  /** An accepted edit keeps the displayed class names unique ignoring case: the selected
      row takes the new name and no other row carries it. */
  lemma EditClassKeepsUnique(selected: int, displayed: seq<string>,
                             nameText: string, dateText: string, professorText: string)
    requires 0 <= selected < |displayed|
    requires UniqueIgnoringCase(displayed)
    requires EditClass(selected, displayed, nameText, dateText, professorText).Ok?
    ensures UniqueIgnoringCase(displayed[selected := EditClass(selected, displayed, nameText, dateText, professorText).value.newName])
  {
    var name := Strip(nameText);
    var names := displayed[selected := name];
    forall i, j | 0 <= i < |names| && 0 <= j < |names| && i != j
      ensures Lower(names[i]) != Lower(names[j])
    {
      if i != selected && j != selected {
      } else if i == selected {
        if Lower(name) == Lower(displayed[selected]) {
        } else {
          assert !ShownIgnoringCase(name, displayed);
        }
      } else {
        if Lower(name) == Lower(displayed[selected]) {
        } else {
          assert !ShownIgnoringCase(name, displayed);
        }
      }
    }
  }

  // ---------------------------------------------------------------------------
  // The table
  // ---------------------------------------------------------------------------

  /** A row of `fetch_classes`: id, name, date, professor. */
  datatype ClassRecord = ClassRecord(id: int, name: string, date: string, professor: string)

  /** A table row: name, date, professor. */
  datatype ClassRow = ClassRow(name: string, date: string, professor: string)

  function RowOf(c: ClassRecord): ClassRow
  {
    ClassRow(c.name, c.date, c.professor)
  }

  /** `load_classes`: every class, in listing order, without its id. */
  method LoadClasses(classes: seq<ClassRecord>) returns (rows: seq<ClassRow>)
    ensures |rows| == |classes|
    ensures forall i :: 0 <= i < |classes| ==> rows[i] == RowOf(classes[i])
  {
    rows := [];
    for i := 0 to |classes|
      invariant |rows| == i && forall j :: 0 <= j < i ==> rows[j] == RowOf(classes[j])
    {
      rows := rows + [ClassRow(classes[i].name, classes[i].date, classes[i].professor)];
    }
  }

  /** The table shows every class, so an accepted insert never repeats, ignoring case,
      the name of any stored class. */
  lemma AddClassIsNew(classes: seq<ClassRecord>, rows: seq<ClassRow>,
                      nameText: string, dateText: string, professorText: string)
    requires |rows| == |classes| && forall i :: 0 <= i < |classes| ==> rows[i] == RowOf(classes[i])
    requires AddClass(nameText, dateText, professorText, Map(rows, (r: ClassRow) => r.name)).Ok?
    ensures forall i :: 0 <= i < |classes| ==> Lower(classes[i].name) != Lower(Strip(nameText))
  {
    var names := Map(rows, (r: ClassRow) => r.name);
    forall i | 0 <= i < |classes| ensures Lower(classes[i].name) != Lower(Strip(nameText)) {
      assert names[i] == classes[i].name;
    }
  }
}
