/**
 * The levels window: the guards of "Añadir Nivel" and "Editar Nivel" and the
 * rebuilding of its table, against the level table of the store. The table shows
 * every level, so the window's duplicate check sees the whole table; it compares
 * ignoring case, while the store's UNIQUE constraint compares exactly.
 */
module LevelsWindow {
  import opened Common
  import opened Text
  import opened Rows
  import opened Store
  import opened Forms

  datatype LevelError = EmptyName | DuplicateName(name: string) | NotSelected

  /** The arguments of `update_level`: the name in the selected row and the new name. */
  datatype LevelRename = LevelRename(oldName: string, newName: string)

  /** `add_level`: a non-empty stripped name that no displayed level carries, ignoring
      case; the result is the name passed to `insert_level`. */
  function AddLevel(nameText: string, displayed: seq<string>): (r: Result<string, LevelError>)
    ensures r == Err(EmptyName) <==> Blank(nameText)
    ensures r == Err(DuplicateName(Strip(nameText))) <==>
      !Blank(nameText) && ShownIgnoringCase(Strip(nameText), displayed)
    ensures r.Ok? <==> !Blank(nameText) && !ShownIgnoringCase(Strip(nameText), displayed)
    ensures r.Ok? ==> r.value == Strip(nameText)
  {
    var name := Strip(nameText);
    if name == [] then Err(EmptyName)
    else if ShownIgnoringCase(name, displayed) then Err(DuplicateName(name))
    else Ok(name)
  }

  /**
   * `edit_level` as written: a selection, then a non-empty name, then, only when the
   * name changes other than in case, a name no displayed level carries.
   */
  function EditLevel(selected: int, displayed: seq<string>, nameText: string): (r: Result<LevelRename, LevelError>)
    requires -1 <= selected < |displayed|
    ensures r == Err(NotSelected) <==> selected == -1
    ensures r == Err(EmptyName) <==> selected != -1 && Blank(nameText)
    ensures r == Err(DuplicateName(Strip(nameText))) <==>
      selected != -1 && !Blank(nameText)
      && Lower(Strip(nameText)) != Lower(displayed[selected]) && ShownIgnoringCase(Strip(nameText), displayed)
    ensures r.Ok? <==>
      selected != -1 && !Blank(nameText)
      && !(Lower(Strip(nameText)) != Lower(displayed[selected]) && ShownIgnoringCase(Strip(nameText), displayed))
    ensures r.Ok? ==> r.value == LevelRename(displayed[selected], Strip(nameText))
  {
    if selected == -1 then Err(NotSelected)
    else
      var name := Strip(nameText);
      if name == [] then Err(EmptyName)
      else if Lower(name) != Lower(displayed[selected]) && ShownIgnoringCase(name, displayed) then
        Err(DuplicateName(name))
      else Ok(LevelRename(displayed[selected], name))
  }

  /** `edit_level` with the duplicate check the window evidently intends: the new name
      must not be carried, ignoring case, by any row other than the selected one. */
  function EditLevelChecked(selected: int, displayed: seq<string>, nameText: string): (r: Result<LevelRename, LevelError>)
    requires -1 <= selected < |displayed|
    ensures r == Err(NotSelected) <==> selected == -1
    ensures r == Err(EmptyName) <==> selected != -1 && Blank(nameText)
    ensures r == Err(DuplicateName(Strip(nameText))) <==>
      selected != -1 && !Blank(nameText)
      && exists j :: 0 <= j < |displayed| && j != selected && Lower(displayed[j]) == Lower(Strip(nameText))
    ensures r.Ok? <==>
      selected != -1 && !Blank(nameText)
      && !exists j :: 0 <= j < |displayed| && j != selected && Lower(displayed[j]) == Lower(Strip(nameText))
    ensures r.Ok? ==> r.value == LevelRename(displayed[selected], Strip(nameText))
  {
    if selected == -1 then Err(NotSelected)
    else
      var name := Strip(nameText);
      if name == [] then Err(EmptyName)
      else if exists j :: 0 <= j < |displayed| && j != selected && Lower(displayed[j]) == Lower(name) then
        Err(DuplicateName(name))
      else Ok(LevelRename(displayed[selected], name))
  }

  /** Names unique ignoring case are unique. */
  lemma UniqueIgnoringCaseIsDistinct(names: seq<string>)
    requires UniqueIgnoringCase(names)
    ensures Distinct(names)
  {
    forall i, j | 0 <= i < |names| && 0 <= j < |names| && i != j ensures names[i] != names[j] {
      assert Lower(names[i]) != Lower(names[j]);
    }
  }

  /** While no two levels differ only in case, the corrected check and the one as written
      decide every edit alike. */
  lemma EditLevelCheckedAgrees(selected: int, displayed: seq<string>, nameText: string)
    requires -1 <= selected < |displayed|
    requires UniqueIgnoringCase(displayed)
    ensures EditLevelChecked(selected, displayed, nameText) == EditLevel(selected, displayed, nameText)
  {
    if selected != -1 && !Blank(nameText) {
      var name := Strip(nameText);
      if Lower(name) == Lower(displayed[selected]) {
        forall j | 0 <= j < |displayed| && j != selected ensures Lower(displayed[j]) != Lower(name) {
          assert Lower(displayed[j]) != Lower(displayed[selected]);
        }
      } else if ShownIgnoringCase(name, displayed) {
        var j :| 0 <= j < |displayed| && Lower(displayed[j]) == Lower(name);
        assert j != selected;
      }
    }
  }

  // ---------------------------------------------------------------------------
  // Against the store
  // ---------------------------------------------------------------------------

  /** The table shows every level, so an accepted insert never hits the UNIQUE
      constraint. */
  lemma AddLevelNeverViolatesUnique(levels: seq<string>, nameText: string)
    requires AddLevel(nameText, levels).Ok?
    ensures InsertLevelRows(levels, AddLevel(nameText, levels).value).Ok?
  {
    var name := Strip(nameText);
    if name in levels {
      ShownVerbatim(name, levels);
    }
  }

  /** With the corrected check, an accepted rename never hits the UNIQUE constraint:
      a new name the table already holds can only be the selected row's own. */
  lemma EditLevelCheckedNeverViolatesUnique(selected: int, levels: seq<string>, nameText: string)
    requires Distinct(levels)
    requires -1 <= selected < |levels|
    requires EditLevelChecked(selected, levels, nameText).Ok?
    ensures var c := EditLevelChecked(selected, levels, nameText).value;
      UpdateLevelRows(levels, c.oldName, c.newName).Ok?
  {
    var name := Strip(nameText);
    if name in levels {
      var j :| 0 <= j < |levels| && levels[j] == name;
      assert j == selected;
    }
  }

  /** As written, renaming one of two levels that differ only in case to the other skips
      the duplicate check, and the store then refuses the update on its UNIQUE
      constraint. */
  lemma CaseVariantRenameHitsUnique(levels: seq<string>, i: int, j: int, nameText: string)
    requires Distinct(levels)
    requires 0 <= i < |levels| && 0 <= j < |levels| && i != j
    requires Lower(levels[i]) == Lower(levels[j]) && Strip(nameText) == levels[i]
    ensures EditLevel(j, levels, nameText) == Ok(LevelRename(levels[j], levels[i]))
    ensures UpdateLevelRows(levels, levels[j], levels[i]) == Err(UniqueViolation(levels[i]))
  {
    assert levels[i] in levels && levels[j] in levels;
  }

  /** Two levels differing only in case do arise: once a default level has been renamed
      to another case of itself (which the window accepts), the next start-up's
      `init_levels` inserts the default name again beside it. */
  lemma CaseVariantPairArises(levels: seq<string>, k: int, nameText: string)
    requires Distinct(levels) && 0 <= k < |levels| && levels[k] in DefaultLevels
    requires Strip(nameText) != levels[k] && Lower(Strip(nameText)) == Lower(levels[k])
    requires Strip(nameText) !in levels
    ensures EditLevel(k, levels, nameText) == Ok(LevelRename(levels[k], Strip(nameText)))
    ensures UpdateLevelRows(levels, levels[k], Strip(nameText)).Ok?
    ensures var restarted := InsertOrIgnoreAll(UpdateLevelRows(levels, levels[k], Strip(nameText)).value, DefaultLevels);
      exists a, b :: 0 <= a < |restarted| && 0 <= b < |restarted| && a != b
        && restarted[a] == levels[k] && restarted[b] == Strip(nameText)
  {
    var d, x := levels[k], Strip(nameText);
    var renamed := UpdateLevelRows(levels, d, x).value;
    assert x in renamed;
    InitLevelsIdempotent(renamed);
    var restarted := InsertOrIgnoreAll(renamed, DefaultLevels);
    InsertOrIgnoreAllSpec(renamed, DefaultLevels);
    assert d in restarted && x in restarted;
    var a :| 0 <= a < |restarted| && restarted[a] == d;
    var b :| 0 <= b < |restarted| && restarted[b] == x;
  }

  // ---------------------------------------------------------------------------
  // The table and the buttons
  // ---------------------------------------------------------------------------

  /** `load_levels`: the level names, in listing order. */
  method LoadLevels(levels: seq<string>) returns (rows: seq<string>)
    ensures rows == levels
  {
    rows := [];
    for i := 0 to |levels|
      invariant rows == levels[..i]
    {
      rows := rows + [levels[i]];
    }
    assert levels[..|levels|] == levels;
  }

  /** Pressing "Añadir Nivel": the table shown is the whole level table, and the store
      gains the stripped name exactly when the form is accepted. */
  method SubmitLevel(db: Database, nameText: string) returns (r: Result<string, LevelError>)
    requires db.Valid()
    modifies db
    ensures db.Valid()
    ensures r == AddLevel(nameText, old(db.levels))
    ensures db.levels == if r.Ok? then old(db.levels) + [r.value] else old(db.levels)
    ensures db.students == old(db.students) && db.rewards == old(db.rewards)
  {
    var displayed := LoadLevels(db.levels);
    r := AddLevel(nameText, displayed);
    if r.Ok? {
      AddLevelNeverViolatesUnique(db.levels, nameText);
      var stored := db.InsertLevel(r.value);
    }
  }

  /** Pressing "Editar Nivel" with the corrected duplicate check: the selected level is
      renamed exactly when the form is accepted, and the store never refuses it. */
  method SubmitLevelEdit(db: Database, selected: int, nameText: string) returns (r: Result<LevelRename, LevelError>)
    requires db.Valid()
    requires -1 <= selected < |db.levels|
    modifies db
    ensures db.Valid()
    ensures r == EditLevelChecked(selected, old(db.levels), nameText)
    ensures db.levels ==
      if r.Ok? then UpdateLevelRows(old(db.levels), r.value.oldName, r.value.newName).value else old(db.levels)
    ensures db.students == old(db.students) && db.rewards == old(db.rewards)
  {
    var displayed := LoadLevels(db.levels);
    r := EditLevelChecked(selected, displayed, nameText);
    if r.Ok? {
      EditLevelCheckedNeverViolatesUnique(selected, db.levels, nameText);
      var stored := db.UpdateLevel(r.value.oldName, r.value.newName);
    }
  }
}
