/** The interaction state of the step diagram and the three handlers that
    change it: a click on a node, the panel's close button, and a drop. */
module Diagram {
  import opened Wrappers
  import opened StepModel

  /** The component's state: the fixed steps it was given (read-only), the
      steps dropped onto it, the selected step and whether the detail panel
      is expanded. */
  datatype State = State(
    steps: seq<Step>,
    tempSteps: seq<Step>,
    selected: Step,
    panelExpanded: bool)
  {
    /** `steps.concat(tempSteps)`: fixed steps first, then dropped ones. */
    function Combined(): seq<Step>
    {
      steps + tempSteps
    }
  }

  /** Why a drop can fail: the payload text did not decode to a step. */
  datatype DropError = MalformedPayload

  /** The state right after the component mounts with fixed steps `steps`. */
  function Init(steps: seq<Step>): (s: State)
    ensures s.steps == steps && s.tempSteps == []
    ensures s.selected == InitialSelection
    ensures s.selected.model.id == "" && s.selected.viz == EmptyViz
    ensures !s.panelExpanded
  {
    State(steps, [], InitialSelection, false)
  }

  /** The position `find` on model ids stops at: the first entry of `xs`
      whose model id is `id`, or nothing if no entry has it. */
  function FindIndex(xs: seq<Step>, id: string): (r: Option<nat>)
    ensures r.Some? ==> r.value < |xs| && xs[r.value].model.id == id
    ensures r.Some? ==> forall j :: 0 <= j < r.value ==> xs[j].model.id != id
    ensures r.None? <==> !HasId(xs, id)
    decreases |xs|
  {
    if |xs| == 0 then None
    else if xs[0].model.id == id then Some(0)
    else
      match FindIndex(xs[1..], id)
      case None => assert forall j :: 1 <= j < |xs| ==> xs[j] == xs[1..][j - 1]; None
      case Some(k) => Some(k + 1)
  }

  /** `Array.prototype.find` on model ids: the first matching entry. */
  function Find(xs: seq<Step>, id: string): (r: Option<Step>)
    ensures r.Some? <==> HasId(xs, id)
    ensures r.Some? ==> r.value.model.id == id && r.value in xs
    ensures r.Some? ==>
      exists i :: 0 <= i < |xs| && r.value == xs[i] && forall j :: 0 <= j < i ==> xs[j].model.id != id
  {
    match FindIndex(xs, id)
    case None => None
    case Some(i) => Some(xs[i])
  }

  /** `handleClickStep`. A click whose target has no id is ignored. Otherwise,
      when the id differs from the selected step's, the first combined entry
      with that id becomes the selection (the old one is kept if none has
      it); in every case the panel flag is flipped. */
  function Click(s: State, target: string): (r: State)
    ensures target == "" ==> r == s
    ensures target != "" ==> r.panelExpanded == !s.panelExpanded
    ensures r.steps == s.steps && r.tempSteps == s.tempSteps
    ensures s.selected.model.id == target ==> r.selected == s.selected
    ensures target != "" && s.selected.model.id != target && HasId(s.Combined(), target) ==>
      r.selected == s.Combined()[FindIndex(s.Combined(), target).value]
    ensures !HasId(s.Combined(), target) ==> r.selected == s.selected
  {
    if target == "" then s
    else
      var selected :=
        if s.selected.model.id != target then Find(s.Combined(), target).GetOr(s.selected)
        else s.selected;
      s.(selected := selected, panelExpanded := !s.panelExpanded)
  }

  /** `onClosePanelClick`: collapses the panel and touches nothing else. */
  function ClosePanel(s: State): (r: State)
    ensures !r.panelExpanded
    ensures r.steps == s.steps && r.tempSteps == s.tempSteps && r.selected == s.selected
  {
    s.(panelExpanded := false)
  }

  /** The entry the drop handler builds from a decoded payload and the
      pointer position: the payload is the model, and the viz carries the
      payload's name both as its label and as its id. */
  function DroppedEntry(parsed: Model, pointer: Option<Point>): (e: Step)
    ensures e.model == parsed
    ensures e.viz.dataLabel == Some(parsed.name) && e.viz.nodeId == Some(parsed.name)
    ensures e.viz.position == pointer
  {
    Step(parsed, Viz(Some(parsed.name), Some(parsed.name), pointer))
  }

  /** The drop handler. `payload` is what decoding the dragged text yields,
      nothing when decoding throws; `pointer` is the stage's pointer
      position, nothing when the stage has none (its spread is then `{}`).
      A decoded payload is appended to the dropped steps without any check. */
  function Drop(s: State, payload: Option<Model>, pointer: Option<Point>): (r: Result<State, DropError>)
    ensures payload.None? <==> r.Failure?
    ensures r.Success? ==>
      && r.value.steps == s.steps
      && r.value.selected == s.selected
      && r.value.panelExpanded == s.panelExpanded
      && r.value.tempSteps == s.tempSteps + [DroppedEntry(payload.value, pointer)]
  {
    match payload
    case None => Failure(MalformedPayload)
    case Some(parsed) => Success(s.(tempSteps := s.tempSteps + [DroppedEntry(parsed, pointer)]))
  }
}
