# Step diagram interaction model

A Dafny model of the decision logic of the `Visualization` component of the
kaoto-ui application: the diagram that draws a pipeline's fixed steps along
a track, accepts further steps dragged onto it, shows the clicked step in a
side detail panel, and shortens long step names under each node.

The component's React state becomes an explicit `Diagram.State` value:

- `steps`: the fixed steps the component receives (read-only);
- `tempSteps`: the steps dropped onto the diagram, initially empty;
- `selected`: the selected step, initially a placeholder whose model id is empty;
- `panelExpanded`: whether the detail panel is open, initially false.

Each handler is a pure transition on that value:

- `Diagram.Click` is the node click handler;
- `Diagram.ClosePanel` is the panel's close button;
- `Diagram.Drop` is the drop handler.

`Session.Run` threads a sequence of events through them. `Labels.Truncate`
is the name shortening helper.

Files: `wrappers.dfy` (Option, Result), `step_model.dfy` (step records),
`labels.dfy`, `diagram.dfy` (state and handlers), `selection.dfy` and
`dropping.dfy` (properties of the handlers), `session.dfy` (event sequences).

The drop handler performs no checks, and the component does no layout:

- a drop is appended even when its id is already on the diagram (`Dropping.DropAcceptsDuplicateId`);
- no required fields of the payload are validated;
- the pointer position is stored as the stage reports it, with no coordinate transform;
- no position is computed from a step's index: a fixed step is drawn at its `viz.position.x` on the track, and its `viz.position.y` is not used.

## Model

| member | source | states |
|---|---|---|
| Labels.Truncate | src/components/Visualization.tsx:29-35 | a string of length at most `n` is returned unchanged; a longer one becomes exactly `n + 2` characters: its first `n` followed by ".." |
| Labels.TruncateIdempotent | src/components/Visualization.tsx:29-35 | shortening an already shortened string changes nothing |
| Labels.TruncateFixedPoint | src/components/Visualization.tsx:29-35 | the strings left unchanged are exactly those of length at most `n` and those of length `n + 2` whose last two characters are ".." |
| Labels.Label | src/components/Visualization.tsx:188 | node labels keep names of up to 14 characters and cut longer ones to exactly their first 14 characters followed by ".." |
| Diagram.Init | src/components/Visualization.tsx:40-52 | the mounted state has no dropped steps, a closed panel, and the placeholder selection: empty-string api version, icon, id, name and type, no optional fields, and an empty viz |
| Diagram.FindIndex | src/components/Visualization.tsx:70 | the lookup yields the first position whose model id matches, and nothing exactly when no entry has the id |
| Diagram.Find | src/components/Visualization.tsx:69-70 | the lookup yields an entry with the target id exactly when one exists, and that entry is the first one carrying the id |
| Wrappers.Option.GetOr | src/components/Visualization.tsx:70 | `??`: a found value is returned as is, and an absent one is replaced by the fallback |
| Diagram.Click | src/components/Visualization.tsx:62-75 | the lookup runs over `State.Combined`, fixed steps then dropped steps, and falls back to the old selection through `Option.GetOr`; an empty target changes nothing; any other flips the panel; the selected id clicked again keeps the selection; a different id that exists selects the first combined entry with that id; an unknown id keeps the old selection; the step lists never change |
| Diagram.ClosePanel | src/components/Visualization.tsx:81-83 | the panel is closed and steps, dropped steps and selection are unchanged |
| Diagram.DroppedEntry | src/components/Visualization.tsx:140-147 | the new entry's model is the payload, its viz label and viz id are both the payload's name, its position is the pointer position |
| Diagram.Drop | src/components/Visualization.tsx:132-147 | the drop fails exactly when the payload does not decode; on success exactly one entry is appended, whose model is the payload, whose viz label and viz id are the payload's name and whose position is the pointer position, and fixed steps, earlier dropped steps, selection and panel are unchanged |
| Selection.FindIndexConcat | src/components/Visualization.tsx:69-70 | a lookup in fixed steps followed by dropped steps finds the first fixed match, and only when there is none the first dropped match |
| Selection.FixedStepShadowsDropped | src/components/Visualization.tsx:68-71 | clicking a new id that a fixed step carries selects the first such fixed step, whatever the dropped steps hold |
| Selection.DroppedStepSelectedWhenUnshadowed | src/components/Visualization.tsx:68-71 | clicking a new id that only dropped steps carry selects the first such dropped step |
| Selection.ReClickOnlyTogglesPanel | src/components/Visualization.tsx:67-74 | clicking the selected step's non-empty id changes only the panel flag |
| Selection.SecondClickOnlyTogglesPanel | src/components/Visualization.tsx:62-75 | a second click on the same id keeps the first click's selection and restores the panel flag |
| Selection.ClickAfterCloseOpensPanel | src/components/Visualization.tsx:74-83 | after the close button a click with an id opens the panel and selects as it would have without the close |
| Dropping.DropAcceptsDuplicateId | src/components/Visualization.tsx:138-147 | a payload whose id is already on the diagram is still appended, leaving two entries with that id |
| Dropping.DropKeepsEarlierLookups | src/components/Visualization.tsx:69-70 | a drop does not change which entry an id that was already present resolves to |
| Session.Apply | src/components/Visualization.tsx:132-147 | a drop whose payload does not decode leaves the whole state unchanged; a decoded one appends its entry to the dropped steps and changes nothing else |
| Session.RunAppendsDrops | src/components/Visualization.tsx:140 | over any event sequence the fixed steps stay as given and the dropped steps are the initial ones followed by one entry per decoded drop, in drop order |
| Session.PanelParity | src/components/Visualization.tsx:74 | with no close press, the panel flag ends flipped exactly when an odd number of clicks had an id |
| Session.ApplyKeepsSelectionValid | src/components/Visualization.tsx:68-71 | every handler keeps the selection equal to the placeholder or to an entry of the diagram |
| Session.RunKeepsSelectionValid | src/components/Visualization.tsx:62-147 | any event sequence keeps the selection equal to the placeholder or to an entry of the diagram |
| Session.SelectedIdExists | src/components/Visualization.tsx:43-71 | after any events from mount, the selected id is the placeholder's empty id or the id of some step on the diagram |

## Left out

- Rendering: the stage, layers, circles, images, texts, backbone line, drawer and detail grid, and the cursor styling on mouse enter and leave.
- Drawing geometry: the backbone line's end points, image and text offsets, colours and sizes. These are display arithmetic with no rule to state.
- Icon loading through `createImage`: an asynchronous call outside this file.
- `JSON.parse`: the decoded payload is an input, `Option<Model>`, with `None` for text that fails to decode. A payload that decodes to `null` also makes the handler throw and is covered by `None`. One that decodes to a non-object is not modelled.
- The stage's pointer conversion: the pointer position is an input, `Option<Point>`. `None` stands for a stage without a pointer position, whose spread is the empty object.
- Coordinates are integers. The stage reports floating-point positions, but the model only stores them and never computes with them.
- String lengths count characters, not JavaScript's UTF-16 code units.
- Window sizing, the empty drag-end and panel-expand handlers, and React's hook and closure semantics. Each handler is one atomic transition from the state it saw.
- Payloads that lack `id`, `name`, `icon`, `apiVersion` or `type`, or hold non-string values there, are not modelled: `Model` makes these fields strings. The component appends such a payload anyway, and then throws when it shortens an `undefined` name for the label.
- Session.RunKeepsSelectionValid and Session.SelectedIdExists assume the fixed steps never change during a session. In the component they are a prop, and a parent may replace them; the selection and the dropped steps are then kept, so the selection may name a step no longer on the diagram.
- Duplicate-id rejection, required-field validation and the layout computation of fixed steps: the code performs none of them.
