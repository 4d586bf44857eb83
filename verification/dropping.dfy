/** Properties of the drop handler: it only ever appends, and it appends
    even when the id is already on the diagram. */
module Dropping {
  import opened Wrappers
  import opened StepModel
  import opened Diagram
  import Selection

  /** A decoded payload whose id some entry already carries is still
      appended, so the combined sequence then holds that id twice. */
  lemma DropAcceptsDuplicateId(s: State, parsed: Model, pointer: Option<Point>)
    requires HasId(s.Combined(), parsed.id)
    ensures Drop(s, Some(parsed), pointer).Success?
    ensures var c := Drop(s, Some(parsed), pointer).value.Combined();
      exists i, j :: 0 <= i < j < |c| && c[i].model.id == parsed.id && c[j].model.id == parsed.id
  {
    var c := Drop(s, Some(parsed), pointer).value.Combined();
    var i := FindIndex(s.Combined(), parsed.id).value;
    var j := |s.Combined()|;
    assert c == s.Combined() + [DroppedEntry(parsed, pointer)];
    assert c[i] == s.Combined()[i];
    assert c[j].model.id == parsed.id;
  }

  /** A drop changes the combined sequence only by one entry at its end, so
      every id lookup that succeeded before gives the same position after. */
  lemma DropKeepsEarlierLookups(s: State, parsed: Model, pointer: Option<Point>, id: string)
    requires HasId(s.Combined(), id)
    ensures FindIndex(Drop(s, Some(parsed), pointer).value.Combined(), id) == FindIndex(s.Combined(), id)
  {
    var r := Drop(s, Some(parsed), pointer).value;
    assert r.Combined() == s.Combined() + [DroppedEntry(parsed, pointer)];
    Selection.FindIndexConcat(s.Combined(), [DroppedEntry(parsed, pointer)], id);
  }
}
