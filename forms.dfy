/**
 * What the management windows share: a form field is read with `text().strip()`,
 * "required" means non-empty after stripping, a duplicate check compares the
 * lower-cased entry against the lower-cased names of the table's current rows,
 * and a search box keeps a row when the box is empty or its lower-cased text
 * occurs in the lower-cased field.
 */
module Forms {
  import opened Text

  /** `not field`: the stripped field is empty. */
  predicate Blank(text: string)
  {
    Strip(text) == []
  }

  /** `name.lower() in [row.lower() for row in displayed]`. */
  predicate ShownIgnoringCase(name: string, displayed: seq<string>)
  {
    exists i :: 0 <= i < |displayed| && Lower(displayed[i]) == Lower(name)
  }

  /** A name that is displayed verbatim is caught by the duplicate check. */
  lemma ShownVerbatim(name: string, displayed: seq<string>)
    requires name in displayed
    ensures ShownIgnoringCase(name, displayed)
  {
    var i :| 0 <= i < |displayed| && displayed[i] == name;
  }

  /** `not (f and f not in field.lower())`, with `f` the lower-cased search text. */
  predicate PassesFilter(field: string, f: string)
  {
    f == [] || Contains(Lower(field), f)
  }

  /** The search ignores case on both sides: lower-casing the field before the
      search changes nothing, so "ANA" in a table is found by "ana" and by "Ana". */
  lemma FilterIgnoresCase(field: string, searchText: string)
    ensures PassesFilter(field, Lower(searchText)) <==> PassesFilter(Lower(field), Lower(searchText))
  {
    LowerIdempotent(field);
  }

  /** No two names of a table are equal once lower-cased: the state the duplicate
      checks of the class and level windows are meant to keep. */
  predicate UniqueIgnoringCase(names: seq<string>)
  {
    forall i, j :: 0 <= i < |names| && 0 <= j < |names| && i != j ==> Lower(names[i]) != Lower(names[j])
  }
}
