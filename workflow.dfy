/**
 * The educational workflow graph: the intention detector, exactly one of
 * three generators chosen by the detected intention, then the media
 * generator, then the end. The graph library's scheduler becomes an explicit
 * transition function over the five node names, and each step applies the
 * node's state function. `Oracle` bundles every input from outside the
 * program: the language model, the JSON decoder and the media environment.
 */
module Workflow {
  import opened Wrappers
  import Json
  import opened Schemas
  import Strings
  import CodeUtils
  import Nodes
  import Media

  /** The nodes added to the graph; the code fixer is not one of them. */
  datatype Node = Detector | StaticGen | DynamicGen | ImprovementGen | MediaGen

  function NodeName(n: Node): string {
    match n
    case Detector => "intention_detector"
    case StaticGen => "static_generator"
    case DynamicGen => "dynamic_generator"
    case ImprovementGen => "improvement_agent"
    case MediaGen => "media_generator"
  }

  /** The node names are distinct, so the table of names is a faithful index of the nodes. */
  lemma NodeNamesDistinct(a: Node, b: Node)
    ensures NodeName(a) == NodeName(b) ==> a == b
  {
  }

  /** Where an edge leads. */
  datatype Target = Goto(node: Node) | End

  const EntryPoint: Node := Detector

  /** The routing table of `route_by_intention`. */
  const RoutingMap: map<string, string> :=
    map["static" := "static_generator", "dynamic" := "dynamic_generator", "improvement" := "improvement_agent"]

  /**
   * `route_by_intention`, on the value of `state.get("intention_type")`: a
   * missing intention counts as "static", and an intention the table lacks
   * routes to the static generator.
   */
  function RouteByIntention(intention: Option<string>): (r: string)
    ensures r in {"static_generator", "dynamic_generator", "improvement_agent"}
    ensures intention == Some("static") ==> r == "static_generator"
    ensures intention == Some("dynamic") ==> r == "dynamic_generator"
    ensures intention == Some("improvement") ==> r == "improvement_agent"
    ensures intention !in {Some("dynamic"), Some("improvement")} ==> r == "static_generator"
  {
    var key := intention.GetOr("static");
    if key in RoutingMap then RoutingMap[key] else "static_generator"
  }

  /** The path map of the conditional edges: route name to node. */
  const PathMap: map<string, Node> :=
    map["static_generator" := StaticGen, "dynamic_generator" := DynamicGen, "improvement_agent" := ImprovementGen]

  /** The generator an intention selects. */
  function GeneratorFor(i: Intention): Node {
    match i
    case Static => StaticGen
    case Dynamic => DynamicGen
    case Improvement => ImprovementGen
  }

  /** Every route name is a key of the path map, and each intention reaches its own generator. */
  lemma RoutingSelectsGenerator(i: Intention)
    ensures RouteByIntention(Some(IntentionName(i))) in PathMap
    ensures PathMap[RouteByIntention(Some(IntentionName(i)))] == GeneratorFor(i)
    ensures NodeName(GeneratorFor(i)) == RouteByIntention(Some(IntentionName(i)))
  {
  }

  /** How far a node is from the end; every edge lowers it, so the graph has no cycle. */
  function Rank(n: Node): nat {
    match n
    case Detector => 3
    case MediaGen => 1
    case _ => 2
  }

  /**
   * The edges of the graph: the detector's conditional edge, an unconditional
   * edge from each generator to the media generator, and from that to the end.
   */
  function Successor(n: Node, state: EducationalState): (t: Target)
    ensures t.Goto? ==> Rank(t.node) < Rank(n)
    ensures n == Detector ==> t == Goto(GeneratorFor(state.intention))
    ensures n in {StaticGen, DynamicGen, ImprovementGen} ==> t == Goto(MediaGen)
    ensures n == MediaGen ==> t == End
  {
    match n
    case Detector =>
      RoutingSelectsGenerator(state.intention);
      Goto(PathMap[RouteByIntention(Some(IntentionName(state.intention)))])
    case StaticGen => Goto(MediaGen)
    case DynamicGen => Goto(MediaGen)
    case ImprovementGen => Goto(MediaGen)
    case MediaGen => End
  }

  /** Everything the run depends on besides its arguments. */
  datatype Oracle = Oracle(llm: Nodes.Prompt -> string, decode: string -> Option<Json.Value>, media: Media.MediaEnv)

  /** A state the media generator has finished with. */
  predicate Settled(s: EducationalState) {
    && s.status in {Success, Failed}
    && (s.status == Success ==> s.mediaPath.Some? && s.mediaType.Some? && s.errorMessage.None?)
    && (s.status == Failed ==> s.errorMessage.Some?)
  }

  /**
   * One node applied to the state. No node touches `retry_count`, and the
   * media generator never raises and always leaves a settled state.
   */
  function ApplyNode(n: Node, state: EducationalState, oracle: Oracle): (r: Result<EducationalState, Nodes.Fault>)
    ensures r.Ok? ==> r.value.retryCount == state.retryCount
    ensures n == MediaGen ==> r.Ok? && Settled(r.value)
  {
    match n
    case Detector => Nodes.IntentionDetector(state, oracle.llm, oracle.decode)
    case StaticGen => Nodes.StaticGenerator(state, oracle.llm)
    case DynamicGen => Nodes.DynamicGenerator(state, oracle.llm)
    case ImprovementGen => Nodes.ImprovementAgent(state, oracle.llm)
    case MediaGen => Ok(Media.MediaGenerator(state, oracle.media))
  }

  /** A node function as the scheduler invokes it: a node name and the state in, the new state or an exception out. */
  type Step = (Node, EducationalState) -> Result<EducationalState, Nodes.Fault>

  /** What the scheduler's guarantees rest on: the two facts `ApplyNode` promises, for every node and state. */
  ghost predicate StepsBehave(step: Step) {
    && (forall n, s :: step(n, s).Ok? ==> step(n, s).value.retryCount == s.retryCount)
    && (forall s :: step(MediaGen, s).Ok? && Settled(step(MediaGen, s).value))
  }

  /** The nodes of this graph, bound to the outside inputs; they keep the scheduler's guarantees. */
  function Steps(oracle: Oracle): (step: Step)
    ensures forall n, s :: step(n, s) == ApplyNode(n, s, oracle)
    ensures StepsBehave(step)
  {
    (n, s) => ApplyNode(n, s, oracle)
  }

  /**
   * The graph run from node `n`: the nodes visited and the final state, or the
   * exception a node raised, which ends the run.
   */
  function Execute(n: Node, state: EducationalState, step: Step)
    : (r: (seq<Node>, Result<EducationalState, Nodes.Fault>))
    requires StepsBehave(step)
    ensures 1 <= |r.0| <= Rank(n) && r.0[0] == n
    ensures r.1.Ok? ==> r.0[|r.0| - 1] == MediaGen
    ensures r.1.Ok? ==> Settled(r.1.value)
    ensures r.1.Ok? ==> r.1.value.retryCount == state.retryCount
    decreases Rank(n)
  {
    match step(n, state)
    case Err(f) => ([n], Err(f))
    case Ok(next) =>
      match Successor(n, next)
      case End => ([n], Ok(next))
      case Goto(m) =>
        var (trace, result) := Execute(m, next, step);
        ([n] + trace, result)
  }

  /**
   * The run from a generator completes exactly when the generator does not
   * raise, and then it visits the generator and the media generator.
   */
  lemma ExecuteGenerator(g: Node, state: EducationalState, step: Step)
    requires StepsBehave(step)
    requires g in {StaticGen, DynamicGen, ImprovementGen}
    ensures Execute(g, state, step).1.Ok? <==> step(g, state).Ok?
    ensures Execute(g, state, step).1.Ok? ==> Execute(g, state, step).0 == [g, MediaGen]
  {
    var a := step(g, state);
    if a.Ok? {
      assert Successor(g, a.value) == Goto(MediaGen);
      assert Execute(MediaGen, a.value, step).1.Ok?;
    }
    var run := Execute(g, state, step);
    if run.1.Ok? {
      TwoNodeTrace(g, run.0);
    }
  }

  /** A trace of at most two nodes that starts at a generator and ends at the media generator is those two. */
  lemma TwoNodeTrace(g: Node, trace: seq<Node>)
    requires g != MediaGen
    requires 1 <= |trace| <= 2 && trace[0] == g && trace[|trace| - 1] == MediaGen
    ensures trace == [g, MediaGen]
  {
  }

  /** The run from the detector: the detector, then the run from the generator it routes to. */
  lemma ExecuteDetector(state: EducationalState, step: Step)
    requires StepsBehave(step)
    ensures var a := step(Detector, state);
            && (a.Err? ==> Execute(Detector, state, step) == ([Detector], Err(a.error)))
            && (a.Ok? ==>
                  var rest := Execute(GeneratorFor(a.value.intention), a.value, step);
                  Execute(Detector, state, step) == ([Detector] + rest.0, rest.1))
  {
    var a := step(Detector, state);
    if a.Ok? {
      assert Successor(Detector, a.value) == Goto(GeneratorFor(a.value.intention));
    }
  }

  /** The run from the detector, from any state: the detector, its generator, the media generator. */
  lemma ExecuteVisits(state: EducationalState, step: Step)
    requires StepsBehave(step)
    ensures Execute(Detector, state, step).1.Ok? ==>
              && step(Detector, state).Ok?
              && Execute(Detector, state, step).0 == [Detector, GeneratorFor(step(Detector, state).value.intention), MediaGen]
  {
    ExecuteDetector(state, step);
    var d := step(Detector, state);
    if d.Ok? {
      var g := GeneratorFor(d.value.intention);
      ExecuteGenerator(g, d.value, step);
      var rest := Execute(g, d.value, step);
      if rest.1.Ok? {
        PrependDetector(g, rest.0);
      }
    }
  }

  /**
   * The final state of a completed run from the detector: the media
   * generator's output on the state the routed generator returned.
   */
  lemma ExecuteResult(state: EducationalState, step: Step)
    requires StepsBehave(step)
    requires Execute(Detector, state, step).1.Ok?
    ensures var d := step(Detector, state);
            && d.Ok?
            && var g := step(GeneratorFor(d.value.intention), d.value);
               && g.Ok?
               && Execute(Detector, state, step).1.value == step(MediaGen, g.value).value
  {
    ExecuteDetector(state, step);
    var d := step(Detector, state);
    assert d.Ok?;
    var gen := GeneratorFor(d.value.intention);
    ExecuteGenerator(gen, d.value, step);
    var g := step(gen, d.value);
    assert g.Ok?;
    assert Successor(gen, g.value) == Goto(MediaGen);
    assert Successor(MediaGen, step(MediaGen, g.value).value) == End;
    assert Execute(MediaGen, g.value, step).1 == step(MediaGen, g.value);
  }

  /** The detector in front of a generator's two-node trace. */
  lemma PrependDetector(g: Node, rest: seq<Node>)
    requires rest == [g, MediaGen]
    ensures [Detector] + rest == [Detector, g, MediaGen]
  {
  }

  /** The initial state of `run_educational_workflow`: its detection fields hold the schema's defaults. */
  function InitialState(pdfText: string, userQuery: string, existingCode: Option<string>): (s: EducationalState)
    ensures s.curriculum == DefaultDetection().curriculum && s.intention == DefaultDetection().intention
    ensures |s.concepts| == |DefaultDetection().concepts| && s.summary == Json.Str(DefaultDetection().summary)
  {
    EducationalState(pdfText, userQuery, Unknown, Static, [], Json.Str(""), existingCode.GetOr(""), "",
                     None, None, Pending, None, None)
  }

  /** The dictionary `run_educational_workflow` returns. */
  datatype WorkflowResult = WorkflowResult(
    mediaPath: Option<string>,
    mediaType: Option<string>,
    status: ExecutionStatus,
    error: Option<string>,
    curriculum: Curriculum,
    intention: Intention,
    manimCode: string,
    detectedConcepts: seq<Json.Value>,
    analysisSummary: Json.Value)

  /** The result projection: each result key reads one state field. */
  function Project(s: EducationalState): WorkflowResult {
    WorkflowResult(s.mediaPath, s.mediaType, s.status, s.errorMessage, s.curriculum, s.intention,
                   s.manimCode, s.concepts, s.summary)
  }

  /** `run_educational_workflow`, with the trace of visited nodes. */
  function RunWorkflow(pdfText: string, userQuery: string, existingCode: Option<string>, oracle: Oracle)
    : (seq<Node>, Result<WorkflowResult, Nodes.Fault>)
  {
    var (trace, result) := Execute(EntryPoint, InitialState(pdfText, userQuery, existingCode), Steps(oracle));
    (trace, match result case Ok(s) => Ok(Project(s)) case Err(f) => Err(f))
  }

  /** The state after the detector, as the generator sees it. */
  function Detected(pdfText: string, userQuery: string, existingCode: Option<string>, oracle: Oracle)
    : Result<EducationalState, Nodes.Fault>
  {
    Nodes.IntentionDetector(InitialState(pdfText, userQuery, existingCode), oracle.llm, oracle.decode)
  }

  /**
   * A completed run visits exactly three nodes: the detector, the generator of
   * the detected intention, and the media generator; a failed run stops at the
   * node that raised, never after the media generator.
   */
  lemma RunVisitsThreeNodes(pdfText: string, userQuery: string, existingCode: Option<string>, oracle: Oracle)
    ensures var (trace, result) := RunWorkflow(pdfText, userQuery, existingCode, oracle);
            && 1 <= |trace| <= 3
            && trace[0] == Detector
            && (result.Ok? ==>
                  && Detected(pdfText, userQuery, existingCode, oracle).Ok?
                  && trace == [Detector, GeneratorFor(Detected(pdfText, userQuery, existingCode, oracle).value.intention), MediaGen])
  {
    var init := InitialState(pdfText, userQuery, existingCode);
    ExecuteVisits(init, Steps(oracle));
    assert RunWorkflow(pdfText, userQuery, existingCode, oracle).0 == Execute(Detector, init, Steps(oracle)).0;
    assert Detected(pdfText, userQuery, existingCode, oracle) == Steps(oracle)(Detector, init);
  }

  /**
   * Because the media generator always runs last, a completed run never
   * reports "pending": a success has a path and a type and no error, and a
   * failure has an error.
   */
  lemma RunEndsSettled(pdfText: string, userQuery: string, existingCode: Option<string>, oracle: Oracle)
    ensures var result := RunWorkflow(pdfText, userQuery, existingCode, oracle).1;
            && (result.Ok? ==> result.value.status in {Success, Failed})
            && (result.Ok? && result.value.status == Success ==>
                  result.value.mediaPath.Some? && result.value.mediaType.Some? && result.value.error.None?)
            && (result.Ok? && result.value.status == Failed ==> result.value.error.Some?)
  {
  }

  /** No node in the graph sets `retry_count`, so a completed run never has one. */
  lemma RunNeverRetries(pdfText: string, userQuery: string, existingCode: Option<string>, oracle: Oracle)
    ensures var r := Execute(EntryPoint, InitialState(pdfText, userQuery, existingCode), Steps(oracle)).1;
            r.Ok? ==> r.value.retryCount.None?
  {
  }

  /**
   * When the detector's reply cannot be decoded the run cannot raise: the
   * fallback record yields no concepts, so the generator's join never runs.
   */
  lemma UndecodableReplyNeverFaults(pdfText: string, userQuery: string, existingCode: Option<string>, oracle: Oracle)
    requires var init := InitialState(pdfText, userQuery, existingCode);
             oracle.decode(Strings.Strip(DetectorCandidate(init, oracle))).None?
    ensures RunWorkflow(pdfText, userQuery, existingCode, oracle).1.Ok?
    ensures Detected(pdfText, userQuery, existingCode, oracle).Ok?
    ensures Detected(pdfText, userQuery, existingCode, oracle).value.intention == Static
  {
    var init := InitialState(pdfText, userQuery, existingCode);
    var d := Nodes.IntentionDetector(init, oracle.llm, oracle.decode);
    assert d.Ok? && d.value.concepts == [] && d.value.intention == Static by {
      Nodes.DetectorFallsBackToDefaults(init, oracle.llm, oracle.decode);
    }
    assert Nodes.ConceptsString(d.value.concepts).Ok?;
    RunCompletesThrough(init, Steps(oracle));
  }

  /** A run completes when the detector and the generator it routes to both return. */
  lemma RunCompletesThrough(state: EducationalState, step: Step)
    requires StepsBehave(step)
    requires step(Detector, state).Ok?
    requires step(GeneratorFor(step(Detector, state).value.intention), step(Detector, state).value).Ok?
    ensures Execute(Detector, state, step).1.Ok?
  {
    var d := step(Detector, state).value;
    ExecuteDetector(state, step);
    ExecuteGenerator(GeneratorFor(d.intention), d, step);
  }

  /** Every generator stores code free of the dangerous patterns and importing Manim. */
  lemma GeneratedCodeIsSafe(g: Node, state: EducationalState, oracle: Oracle)
    requires g in {StaticGen, DynamicGen, ImprovementGen}
    requires ApplyNode(g, state, oracle).Ok?
    ensures var code := ApplyNode(g, state, oracle).value.manimCode;
            && (forall p :: p in CodeUtils.DangerousPatterns ==> !Strings.Contains(code, p))
            && CodeUtils.HasManimImport(code)
  {
  }

  /** A completed run returns the projection of the media generator's output on the routed generator's state. */
  lemma RunFinalState(pdfText: string, userQuery: string, existingCode: Option<string>, oracle: Oracle)
    requires RunWorkflow(pdfText, userQuery, existingCode, oracle).1.Ok?
    ensures var step := Steps(oracle);
            var d := step(Detector, InitialState(pdfText, userQuery, existingCode));
            && d.Ok?
            && var g := step(GeneratorFor(d.value.intention), d.value);
               && g.Ok?
               && RunWorkflow(pdfText, userQuery, existingCode, oracle).1.value == Project(step(MediaGen, g.value).value)
  {
    var init := InitialState(pdfText, userQuery, existingCode);
    var step := Steps(oracle);
    assert Execute(Detector, init, step).1.Ok?;
    ExecuteResult(init, step);
  }

  /**
   * A completed run returns what the media generator produced from the
   * routed generator's state: its status, error, path and type, and, as
   * `manim_code`, the code that generator stored, which is free of the
   * dangerous patterns and imports Manim.
   */
  lemma RunReturnsGeneratedCode(pdfText: string, userQuery: string, existingCode: Option<string>, oracle: Oracle)
    requires RunWorkflow(pdfText, userQuery, existingCode, oracle).1.Ok?
    ensures var d := Detected(pdfText, userQuery, existingCode, oracle);
            && d.Ok?
            && var g := ApplyNode(GeneratorFor(d.value.intention), d.value, oracle);
               && g.Ok?
               && var m := Media.MediaGenerator(g.value, oracle.media);
                  var r := RunWorkflow(pdfText, userQuery, existingCode, oracle).1.value;
                  && r.status == m.status && r.error == m.errorMessage
                  && r.mediaPath == m.mediaPath && r.mediaType == m.mediaType
                  && r.manimCode == g.value.manimCode
                  && (forall p :: p in CodeUtils.DangerousPatterns ==> !Strings.Contains(r.manimCode, p))
                  && CodeUtils.HasManimImport(r.manimCode)
  {
    RunFinalState(pdfText, userQuery, existingCode, oracle);
    var init := InitialState(pdfText, userQuery, existingCode);
    var step := Steps(oracle);
    assert step(Detector, init) == Detected(pdfText, userQuery, existingCode, oracle);
    var d := Detected(pdfText, userQuery, existingCode, oracle).value;
    var gen := GeneratorFor(d.intention);
    assert step(gen, d) == ApplyNode(gen, d, oracle);
    var g := ApplyNode(gen, d, oracle).value;
    assert step(MediaGen, g) == Ok(Media.MediaGenerator(g, oracle.media));
    assert Media.MediaGenerator(g, oracle.media).manimCode == g.manimCode;
    GeneratedCodeIsSafe(gen, d, oracle);
  }

  /** The text the detector hands to the decoder. */
  function DetectorCandidate(init: EducationalState, oracle: Oracle): string {
    CodeUtils.JsonCandidate(oracle.llm(Nodes.DetectorPrompt(init)))
  }

  /**
   * On the improvement route the existing code of the request reaches the
   * improvement prompt unchanged, since the detector does not touch the code.
   */
  lemma ExistingCodeReachesImprovementPrompt(pdfText: string, userQuery: string, code: string, oracle: Oracle)
    requires |code| > 0
    requires Detected(pdfText, userQuery, Some(code), oracle).Ok?
    ensures var d := Detected(pdfText, userQuery, Some(code), oracle).value;
            d.manimCode == code && Nodes.ExistingCode(d) == code
  {
  }
}
