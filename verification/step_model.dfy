/** The records the diagram shows: a step's descriptive model (the
    `IStepProps` of the application) and its visual placement (`viz`). */
module StepModel {
  import opened Wrappers

  /** A position on the drawing stage. */
  datatype Point = Point(x: int, y: int)

  /** The descriptive record of one pipeline step. The five fields the
      component initialises are plain strings; the others may be absent. */
  datatype Model = Model(
    apiVersion: string,
    icon: string,
    id: string,
    name: string,
    stepType: string,
    title: Option<string>,
    description: Option<string>,
    group: Option<string>,
    kind: Option<string>,
    kameletType: Option<string>)

  /** The visual placement of a step. The source types it `any`; every field
      the component writes or reads is optional, and `{}` has none of them. */
  datatype Viz = Viz(dataLabel: Option<string>, nodeId: Option<string>, position: Option<Point>)

  /** One diagram entry: `{viz, model}`. */
  datatype Step = Step(model: Model, viz: Viz)

  /** The empty viz object `{}`. */
  const EmptyViz: Viz := Viz(None, None, None)

  /** The placeholder selection the component starts with: every initialised
      model field is the empty string, the optional ones are absent, and the
      viz is `{}`. */
  const InitialSelection: Step :=
    Step(Model("", "", "", "", "", None, None, None, None, None), EmptyViz)

  /** True when some entry of `xs` has model id `id`. */
  predicate HasId(xs: seq<Step>, id: string)
  {
    exists i :: 0 <= i < |xs| && xs[i].model.id == id
  }
}
