/** Properties of node selection: how the combined lookup orders fixed and
    dropped steps, and what repeated clicks do. */
module Selection {
  import opened Wrappers
  import opened StepModel
  import opened Diagram

  /** Looking up an id in `a + b` finds the first match in `a` when there is
      one, and otherwise the first match in `b`, shifted past `a`. */
  lemma {:induction false} FindIndexConcat(a: seq<Step>, b: seq<Step>, id: string)
    ensures FindIndex(a + b, id) ==
      match FindIndex(a, id)
      case Some(i) => Some(i)
      case None =>
        match FindIndex(b, id)
        case Some(k) => Some(|a| + k)
        case None => None
  {
    if |a| == 0 {
      assert a + b == b;
    } else {
      assert (a + b)[0] == a[0];
      if a[0].model.id != id {
        assert (a + b)[1..] == a[1..] + b;
        FindIndexConcat(a[1..], b, id);
      }
    }
  }

  /** A fixed step shadows every dropped step with the same id: clicking a
      new id that some fixed step carries selects the first such fixed step. */
  lemma FixedStepShadowsDropped(s: State, target: string)
    requires target != "" && s.selected.model.id != target
    requires HasId(s.steps, target)
    ensures FindIndex(s.steps, target).Some?
    ensures Click(s, target).selected == s.steps[FindIndex(s.steps, target).value]
  {
    FindIndexConcat(s.steps, s.tempSteps, target);
  }

  /** A dropped step is selected only when no fixed step has its id, and then
      it is the first dropped step with that id. */
  lemma DroppedStepSelectedWhenUnshadowed(s: State, target: string)
    requires target != "" && s.selected.model.id != target
    requires !HasId(s.steps, target) && HasId(s.tempSteps, target)
    ensures FindIndex(s.tempSteps, target).Some?
    ensures Click(s, target).selected == s.tempSteps[FindIndex(s.tempSteps, target).value]
  {
    FindIndexConcat(s.steps, s.tempSteps, target);
    var k := FindIndex(s.tempSteps, target).value;
    assert s.Combined()[|s.steps| + k] == s.tempSteps[k];
  }

  /** Clicking the selected step again only flips the panel. */
  lemma ReClickOnlyTogglesPanel(s: State)
    requires s.selected.model.id != ""
    ensures Click(s, s.selected.model.id) == s.(panelExpanded := !s.panelExpanded)
  {
  }

  /** Two clicks on the same non-empty id: the second never changes the
      selection the first produced, and the panel is back where it started. */
  lemma SecondClickOnlyTogglesPanel(s: State, target: string)
    requires target != ""
    ensures Click(Click(s, target), target).selected == Click(s, target).selected
    ensures Click(Click(s, target), target).panelExpanded == s.panelExpanded
  {
  }

  /** After the close button, any click on a node with an id opens the panel. */
  lemma ClickAfterCloseOpensPanel(s: State, target: string)
    requires target != ""
    ensures Click(ClosePanel(s), target).panelExpanded
    ensures Click(ClosePanel(s), target).selected == Click(s, target).selected
  {
  }
}
