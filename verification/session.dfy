/** The component over a whole sequence of user events, each handled by the
    transition it triggers, starting from the mounted state. */
module Session {
  import opened Wrappers
  import opened StepModel
  import opened Diagram

  /** A user event the component reacts to. */
  datatype Event =
    | ClickOn(target: string)
    | CloseClicked
    | Dropped(payload: Option<Model>, pointer: Option<Point>)

  /** Handles one event. A drop that fails throws out of the handler, so the
      state stays as it was. */
  function Apply(s: State, e: Event): (r: State)
    ensures e.Dropped? && e.payload.None? ==> r == s
    ensures e.Dropped? && e.payload.Some? ==>
      r == s.(tempSteps := s.tempSteps + [DroppedEntry(e.payload.value, e.pointer)])
  {
    match e
    case ClickOn(t) => Click(s, t)
    case CloseClicked => ClosePanel(s)
    case Dropped(p, pt) =>
      match Drop(s, p, pt)
      case Success(s') => s'
      case Failure(_) => s
  }

  /** Handles `evs` in order. */
  function Run(s: State, evs: seq<Event>): State
    decreases |evs|
  {
    if |evs| == 0 then s else Run(Apply(s, evs[0]), evs[1..])
  }

  /** The entries the successful drops among `evs` contribute, in order. */
  function DroppedEntries(evs: seq<Event>): seq<Step>
    decreases |evs|
  {
    if |evs| == 0 then []
    else
      var rest := DroppedEntries(evs[1..]);
      match evs[0]
      case Dropped(Some(m), pt) => [DroppedEntry(m, pt)] + rest
      case _ => rest
  }

  /** The number of clicks among `evs` whose target has an id. */
  function ClicksWithId(evs: seq<Event>): nat
    decreases |evs|
  {
    if |evs| == 0 then 0
    else (if evs[0].ClickOn? && evs[0].target != "" then 1 else 0) + ClicksWithId(evs[1..])
  }

  /** Over any run the fixed steps never change, and the dropped steps are
      the initial ones followed by one entry per successful drop, in the
      order the drops happened. */
  lemma {:induction false} RunAppendsDrops(s: State, evs: seq<Event>)
    ensures Run(s, evs).steps == s.steps
    ensures Run(s, evs).tempSteps == s.tempSteps + DroppedEntries(evs)
    decreases |evs|
  {
    if |evs| > 0 {
      RunAppendsDrops(Apply(s, evs[0]), evs[1..]);
      if evs[0].Dropped? && evs[0].payload.Some? {
        var d := [DroppedEntry(evs[0].payload.value, evs[0].pointer)];
        assert s.tempSteps + (d + DroppedEntries(evs[1..])) == (s.tempSteps + d) + DroppedEntries(evs[1..]);
      }
    }
  }

  /** Without a press of the close button, the panel is expanded exactly
      when its initial flag was flipped an odd number of times, once per
      click on a node with an id. */
  lemma {:induction false} PanelParity(s: State, evs: seq<Event>)
    requires forall i :: 0 <= i < |evs| ==> !evs[i].CloseClicked?
    ensures Run(s, evs).panelExpanded == (s.panelExpanded != (ClicksWithId(evs) % 2 == 1))
    decreases |evs|
  {
    if |evs| > 0 {
      assert forall i :: 0 <= i < |evs[1..]| ==> evs[1..][i] == evs[i + 1];
      PanelParity(Apply(s, evs[0]), evs[1..]);
    }
  }

  /** The selection is the mounted placeholder or one of the diagram's steps. */
  predicate SelectionValid(s: State)
  {
    s.selected == InitialSelection || s.selected in s.Combined()
  }

  /** Every handler keeps the selection valid. */
  lemma ApplyKeepsSelectionValid(s: State, e: Event)
    requires SelectionValid(s)
    ensures SelectionValid(Apply(s, e))
  {
  }

  /** From the mounted state, every run ends with a valid selection: the
      selected step is the placeholder or an entry of the diagram. */
  lemma {:induction false} RunKeepsSelectionValid(s: State, evs: seq<Event>)
    requires SelectionValid(s)
    ensures SelectionValid(Run(s, evs))
    decreases |evs|
  {
    if |evs| > 0 {
      ApplyKeepsSelectionValid(s, evs[0]);
      RunKeepsSelectionValid(Apply(s, evs[0]), evs[1..]);
    }
  }

  /** The selection of any run from mount has the empty id of the
      placeholder or the id of some step on the diagram. */
  lemma SelectedIdExists(steps: seq<Step>, evs: seq<Event>)
    ensures var r := Run(Init(steps), evs);
      r.selected.model.id == "" || HasId(r.Combined(), r.selected.model.id)
  {
    var r := Run(Init(steps), evs);
    RunKeepsSelectionValid(Init(steps), evs);
    if r.selected != InitialSelection {
      var i :| 0 <= i < |r.Combined()| && r.Combined()[i] == r.selected;
      assert r.Combined()[i].model.id == r.selected.model.id;
    }
  }
}
