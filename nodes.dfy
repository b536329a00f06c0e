/**
 * The language-model nodes of the workflow. Each is a function from the
 * incoming state to the state it returns (`{**state, ...}`), or to the
 * exception it raises. The model call is the parameter `llm`, applied to the
 * rendered prompt; the prompt is kept as the template name and its keyword
 * arguments, since the templates themselves are files this model does not read.
 */
module Nodes {
  import opened Wrappers
  import opened Strings
  import Json
  import CodeUtils
  import opened Schemas

  /** A keyword argument of `render_prompt`: text, or a decoded value passed on as it is. */
  datatype PromptArg = Text(text: string) | Data(value: Json.Value)

  /** `render_prompt(template, **args)`. */
  datatype Prompt = Prompt(template: string, args: map<string, PromptArg>)

  /** The exception a node raises. */
  datatype Fault =
    | ReplyNotAnObject       // `.get` on a decoded reply that is not a dict (AttributeError)
    | ConceptNotAString(index: nat)  // `", ".join` meeting a non-str item (TypeError)

  // ---------------------------------------------------------------------------
  // intention_detector

  const DetectorTemplate: string := "intention_detector"

  /** `parsed.get("curriculum", "unknown")`, then anything but the four literals becomes "unknown". */
  function NormalizeCurriculum(v: Option<Json.Value>): (r: Curriculum)
    ensures forall c :: v == Some(Json.Str(CurriculumName(c))) ==> r == c
    ensures r == Unknown || v == Some(Json.Str(CurriculumName(r)))
  {
    match v
    case Some(Str(s)) => ParseCurriculum(s).GetOr(Unknown)
    case _ => Unknown
  }

  /** `parsed.get("intention", "static")`, then anything but the three literals becomes "static". */
  function NormalizeIntention(v: Option<Json.Value>): (r: Intention)
    ensures forall i :: v == Some(Json.Str(IntentionName(i))) ==> r == i
    ensures r == Static || v == Some(Json.Str(IntentionName(r)))
  {
    match v
    case Some(Str(s)) => ParseIntention(s).GetOr(Static)
    case _ => Static
  }

  /** `parsed.get("concepts", [])`, then anything but a list becomes `[]`. */
  function NormalizeConcepts(v: Option<Json.Value>): (r: seq<Json.Value>)
    ensures (v.Some? && v.value.Array?) ==> r == v.value.items
    ensures !(v.Some? && v.value.Array?) ==> r == []
  {
    match v
    case Some(Array(items)) => items
    case _ => []
  }

  /** The prompt of the intention detector. */
  function DetectorPrompt(state: EducationalState): Prompt {
    Prompt(DetectorTemplate, map["pdf_text" := Text(state.pdfText), "user_query" := Text(state.userQuery)])
  }

  /**
   * `intention_detector`: the reply is parsed, the labels are normalised, and
   * only the four detection fields of the state change.
   */
  function IntentionDetector(state: EducationalState, llm: Prompt -> string, decode: string -> Option<Json.Value>)
    : (r: Result<EducationalState, Fault>)
    ensures var parsed := CodeUtils.ParseJsonResponse(llm(DetectorPrompt(state)), decode);
            && (r.Ok? <==> parsed.Object?)
            && (r.Ok? ==> r.value == state.(curriculum := r.value.curriculum, intention := r.value.intention,
                                           concepts := r.value.concepts, summary := r.value.summary))
            && (r.Ok? ==>
                  && r.value.curriculum == NormalizeCurriculum(Json.Get(parsed.fields, "curriculum"))
                  && r.value.intention == NormalizeIntention(Json.Get(parsed.fields, "intention"))
                  && r.value.concepts == NormalizeConcepts(Json.Get(parsed.fields, "concepts"))
                  && r.value.summary == Json.Get(parsed.fields, "summary").GetOr(Json.Str("")))
  {
    var parsed := CodeUtils.ParseJsonResponse(llm(DetectorPrompt(state)), decode);
    if !parsed.Object? then Err(ReplyNotAnObject)
    else
      var fields := parsed.fields;
      Ok(state.(
        curriculum := NormalizeCurriculum(Json.Get(fields, "curriculum")),
        intention := NormalizeIntention(Json.Get(fields, "intention")),
        concepts := NormalizeConcepts(Json.Get(fields, "concepts")),
        summary := Json.Get(fields, "summary").GetOr(Json.Str(""))))
  }

  /**
   * A reply the decoder rejects never makes the detector raise: the state gets
   * the detection defaults (curriculum "unknown", intention "static", no
   * concepts) and, as summary, the first 200 characters of the candidate text,
   * or "Unable to parse response" when it is empty.
   */
  lemma DetectorFallsBackToDefaults(state: EducationalState, llm: Prompt -> string, decode: string -> Option<Json.Value>)
    requires decode(Strip(CodeUtils.JsonCandidate(llm(DetectorPrompt(state))))).None?
    ensures var r := IntentionDetector(state, llm, decode);
            && r.Ok?
            && r.value.curriculum == DefaultDetection().curriculum
            && r.value.intention == DefaultDetection().intention
            && r.value.concepts == []
            && r.value.summary.Str?
            && var summary := r.value.summary.s;
               var candidate := CodeUtils.JsonCandidate(llm(DetectorPrompt(state)));
               if |candidate| == 0 then summary == CodeUtils.ParseFailureSummary
               else |summary| == (if |candidate| < 200 then |candidate| else 200)
                    && summary == candidate[..|summary|]
  {
    CodeUtils.ParseFailureGivesFallback(llm(DetectorPrompt(state)), decode);
  }

  /**
   * The detector's fallbacks are the defaults of the detection schema: a
   * curriculum or intention that names no label, concepts that are not a
   * list, and a missing summary each give the schema's default value.
   */
  lemma DetectorFallbacksAreSchemaDefaults(state: EducationalState, llm: Prompt -> string, decode: string -> Option<Json.Value>)
    requires CodeUtils.ParseJsonResponse(llm(DetectorPrompt(state)), decode).Object?
    ensures var fields := CodeUtils.ParseJsonResponse(llm(DetectorPrompt(state)), decode).fields;
            var r := IntentionDetector(state, llm, decode);
            && r.Ok?
            && ((forall c :: Json.Get(fields, "curriculum") != Some(Json.Str(CurriculumName(c)))) ==>
                  r.value.curriculum == DefaultDetection().curriculum)
            && ((forall i :: Json.Get(fields, "intention") != Some(Json.Str(IntentionName(i)))) ==>
                  r.value.intention == DefaultDetection().intention)
            && (!(Json.Get(fields, "concepts").Some? && Json.Get(fields, "concepts").value.Array?) ==>
                  |r.value.concepts| == |DefaultDetection().concepts|)
            && (Json.Get(fields, "summary").None? ==> r.value.summary == Json.Str(DefaultDetection().summary))
  {
  }

  /** Labels that already name an enum value are kept: normalisation is idempotent. */
  lemma DetectorKeepsValidLabels(state: EducationalState, llm: Prompt -> string, decode: string -> Option<Json.Value>,
                                 c: Curriculum, i: Intention)
    requires var parsed := CodeUtils.ParseJsonResponse(llm(DetectorPrompt(state)), decode);
             && parsed.Object?
             && Json.Get(parsed.fields, "curriculum") == Some(Json.Str(CurriculumName(c)))
             && Json.Get(parsed.fields, "intention") == Some(Json.Str(IntentionName(i)))
    ensures var r := IntentionDetector(state, llm, decode);
            r.Ok? && r.value.curriculum == c && r.value.intention == i
  {
  }

  // ---------------------------------------------------------------------------
  // The concepts argument shared by the generators and the code fixer

  const GeneralConcepts: string := "general concepts"

  /** The first item at or after `from` that is not a string. */
  function FirstNonString(vs: seq<Json.Value>, from: nat): (r: Option<nat>)
    ensures r.Some? ==> from <= r.value < |vs| && !vs[r.value].Str?
    ensures r.Some? ==> forall k :: from <= k < r.value ==> vs[k].Str?
    ensures r.None? ==> forall k :: from <= k < |vs| ==> vs[k].Str?
    decreases |vs| - from
  {
    if from >= |vs| then None
    else if !vs[from].Str? then Some(from)
    else FirstNonString(vs, from + 1)
  }

  /** The texts of a list of strings. */
  function Texts(vs: seq<Json.Value>): (r: seq<string>)
    requires forall k :: 0 <= k < |vs| ==> vs[k].Str?
    ensures |r| == |vs| && forall k :: 0 <= k < |vs| ==> r[k] == vs[k].s
  {
    if |vs| == 0 then [] else [vs[0].s] + Texts(vs[1..])
  }

  /**
   * `", ".join(concepts) if concepts else "general concepts"`: an empty list
   * gives the fixed phrase, and a list with a non-string item raises at the
   * first such item.
   */
  function ConceptsString(concepts: seq<Json.Value>): (r: Result<string, Fault>)
    ensures r.Ok? <==> forall k :: 0 <= k < |concepts| ==> concepts[k].Str?
    ensures |concepts| == 0 ==> r == Ok(GeneralConcepts)
    ensures r.Ok? && |concepts| > 0 ==> r.value == Join(Texts(concepts), ", ")
    ensures r.Err? ==> r.error.ConceptNotAString?
    ensures r.Err? && r.error.ConceptNotAString? ==>
              var k := r.error.index;
              && k < |concepts| && !concepts[k].Str?
              && forall j :: 0 <= j < k ==> concepts[j].Str?
  {
    if |concepts| == 0 then Ok(GeneralConcepts)
    else
      match FirstNonString(concepts, 0)
      case Some(k) => Err(ConceptNotAString(k))
      case None => Ok(Join(Texts(concepts), ", "))
  }

  /** A single concept is passed on as it is. */
  lemma SingleConceptUnchanged(concept: string)
    ensures ConceptsString([Json.Str(concept)]) == Ok(concept)
  {
    assert Texts([Json.Str(concept)]) == [concept];
  }

  // ---------------------------------------------------------------------------
  // static_generator, dynamic_generator

  const StaticTemplate: string := "static_generator"
  const DynamicTemplate: string := "dynamic_generator"

  /** The code a node stores from a model reply: the extracted block, sanitised. */
  function CodeFromReply(reply: string): (code: string)
    ensures forall p :: p in CodeUtils.DangerousPatterns ==> !Contains(code, p)
    ensures CodeUtils.HasManimImport(code)
  {
    CodeUtils.Sanitized(CodeUtils.ExtractCodeBlock(reply))
  }

  /** A reply that is already bare, clean Manim code is stored exactly as it is. */
  lemma CleanReplyStoredVerbatim(reply: string)
    requires !Contains(reply, CodeUtils.Fence)
    requires NoOuterSpace(reply)
    requires forall p :: p in CodeUtils.DangerousPatterns ==> !Contains(reply, p)
    requires CodeUtils.HasManimImport(reply)
    ensures CodeFromReply(reply) == reply
  {
    CodeUtils.CleanCodeSurvives(reply);
  }

  /** Storing the code of a reply twice over changes nothing the second time. */
  lemma CodeFromReplyIsStable(reply: string)
    ensures CodeUtils.Sanitized(CodeFromReply(reply)) == CodeFromReply(reply)
  {
    CodeUtils.SanitizeIdempotent(CodeUtils.ExtractCodeBlock(reply));
  }

  /** The prompt of the static and dynamic generators. */
  function GeneratorPrompt(template: string, state: EducationalState, concepts: string): Prompt {
    Prompt(template, map[
      "curriculum_component" := Text(CurriculumName(state.curriculum)),
      "detected_concepts" := Text(concepts),
      "analysis_summary" := Data(state.summary),
      "pdf_text" := Text(state.pdfText),
      "user_query" := Text(state.userQuery)])
  }

  /** The common body of the two generators, which differ in template and explanation. */
  function Generate(state: EducationalState, llm: Prompt -> string, template: string, explanation: string)
    : (r: Result<EducationalState, Fault>)
    ensures r.Ok? <==> ConceptsString(state.concepts).Ok?
    ensures r.Err? ==> r.error == ConceptsString(state.concepts).error
    ensures r.Ok? ==> r.value == state.(manimCode := r.value.manimCode, codeExplanation := explanation)
    ensures r.Ok? ==> r.value.manimCode == CodeFromReply(llm(GeneratorPrompt(template, state, ConceptsString(state.concepts).value)))
  {
    match ConceptsString(state.concepts)
    case Err(f) => Err(f)
    case Ok(concepts) =>
      var reply := llm(GeneratorPrompt(template, state, concepts));
      Ok(state.(manimCode := CodeFromReply(reply), codeExplanation := explanation))
  }

  /**
   * `static_generator`: new sanitised code and the fixed explanation naming the
   * curriculum; every other field, status and intention included, is unchanged.
   */
  function StaticGenerator(state: EducationalState, llm: Prompt -> string): (r: Result<EducationalState, Fault>)
    ensures r.Ok? <==> ConceptsString(state.concepts).Ok?
    ensures r.Ok? ==> r.value == state.(manimCode := r.value.manimCode, codeExplanation := r.value.codeExplanation)
    ensures r.Ok? ==> r.value.codeExplanation
                        == "Static visualization generated for " + CurriculumName(state.curriculum) + " content"
    ensures r.Ok? ==> (forall p :: p in CodeUtils.DangerousPatterns ==> !Contains(r.value.manimCode, p))
                      && CodeUtils.HasManimImport(r.value.manimCode)
  {
    Generate(state, llm, StaticTemplate,
             "Static visualization generated for " + CurriculumName(state.curriculum) + " content")
  }

  /** `dynamic_generator`: as the static generator, with its own template and explanation. */
  function DynamicGenerator(state: EducationalState, llm: Prompt -> string): (r: Result<EducationalState, Fault>)
    ensures r.Ok? <==> ConceptsString(state.concepts).Ok?
    ensures r.Ok? ==> r.value == state.(manimCode := r.value.manimCode, codeExplanation := r.value.codeExplanation)
    ensures r.Ok? ==> r.value.codeExplanation
                        == "Dynamic animation generated for " + CurriculumName(state.curriculum) + " content"
    ensures r.Ok? ==> (forall p :: p in CodeUtils.DangerousPatterns ==> !Contains(r.value.manimCode, p))
                      && CodeUtils.HasManimImport(r.value.manimCode)
  {
    Generate(state, llm, DynamicTemplate,
             "Dynamic animation generated for " + CurriculumName(state.curriculum) + " content")
  }

  // ---------------------------------------------------------------------------
  // improvement_agent

  const ImprovementTemplate: string := "improvement_agent"
  const NoExistingCode: string := "# No existing code provided"

  /** The code the improvement prompt shows: the state's code, or a placeholder when it is empty. */
  function ExistingCode(state: EducationalState): (r: string)
    ensures |r| > 0
    ensures |state.manimCode| > 0 ==> r == state.manimCode
    ensures |state.manimCode| == 0 ==> r == NoExistingCode
  {
    if |state.manimCode| == 0 then NoExistingCode else state.manimCode
  }

  function ImprovementPrompt(state: EducationalState, concepts: string): Prompt {
    Prompt(ImprovementTemplate, map[
      "manim_code" := Text(ExistingCode(state)),
      "user_query" := Text(state.userQuery),
      "curriculum_component" := Text(CurriculumName(state.curriculum)),
      "detected_concepts" := Text(concepts)])
  }

  const ImprovementExplanation: string := "Code improved based on user feedback"

  /** `improvement_agent`: new sanitised code and the fixed explanation; nothing else changes. */
  function ImprovementAgent(state: EducationalState, llm: Prompt -> string): (r: Result<EducationalState, Fault>)
    ensures r.Ok? <==> ConceptsString(state.concepts).Ok?
    ensures r.Ok? ==> r.value == state.(manimCode := r.value.manimCode, codeExplanation := ImprovementExplanation)
    ensures r.Ok? ==> r.value.manimCode == CodeFromReply(llm(ImprovementPrompt(state, ConceptsString(state.concepts).value)))
  {
    match ConceptsString(state.concepts)
    case Err(f) => Err(f)
    case Ok(concepts) =>
      var reply := llm(ImprovementPrompt(state, concepts));
      Ok(state.(manimCode := CodeFromReply(reply), codeExplanation := ImprovementExplanation))
  }

  // ---------------------------------------------------------------------------
  // code_fixer

  const FixerTemplate: string := "code_fixer"

  /**
   * The arguments the code fixer hands to `format_error_for_retry`: the code,
   * the recorded error, and the validator's verdict only when it is invalid.
   */
  function FormatterArguments<V>(state: EducationalState, validate: string -> V, isValid: V -> bool)
    : (r: (string, Option<string>, Option<V>))
    ensures r.0 == state.manimCode && r.1 == state.errorMessage
    ensures r.2.Some? <==> !isValid(validate(state.manimCode))
    ensures r.2.Some? ==> r.2.value == validate(state.manimCode)
  {
    var verdict := validate(state.manimCode);
    (state.manimCode, state.errorMessage, if isValid(verdict) then None else Some(verdict))
  }

  function FixerPrompt(state: EducationalState, details: string, concepts: string): Prompt {
    Prompt(FixerTemplate, map[
      "manim_code" := Text(state.manimCode),
      "error_details" := Text(details),
      "curriculum_component" := Text(CurriculumName(state.curriculum)),
      "detected_concepts" := Text(concepts),
      "user_query" := Text(state.userQuery)])
  }

  /**
   * `code_fixer`: the validator and the error formatter are the uninterpreted
   * `validate`, `isValid` and `format`. The node stores the sanitised code of
   * the reply to the fixer prompt, whose error details are the formatter's
   * text; it clears the error, resets the status to pending and counts one
   * more retry.
   */
  function CodeFixer<V>(state: EducationalState, llm: Prompt -> string, validate: string -> V, isValid: V -> bool,
                        format: (string, Option<string>, Option<V>) -> string)
    : (r: Result<EducationalState, Fault>)
    ensures r.Ok? <==> ConceptsString(state.concepts).Ok?
    ensures r.Ok? ==> r.value == state.(manimCode := r.value.manimCode, errorMessage := None,
                                        status := Pending, retryCount := r.value.retryCount)
    ensures r.Ok? ==> r.value.retryCount == Some(state.retryCount.GetOr(0) + 1)
    ensures r.Ok? ==> (forall p :: p in CodeUtils.DangerousPatterns ==> !Contains(r.value.manimCode, p))
                      && CodeUtils.HasManimImport(r.value.manimCode)
    ensures r.Ok? ==>
              var args := FormatterArguments(state, validate, isValid);
              r.value.manimCode
                == CodeFromReply(llm(FixerPrompt(state, format(args.0, args.1, args.2), ConceptsString(state.concepts).value)))
  {
    var retries := state.retryCount.GetOr(0);
    var args := FormatterArguments(state, validate, isValid);
    var details := format(args.0, args.1, args.2);
    match ConceptsString(state.concepts)
    case Err(f) => Err(f)
    case Ok(concepts) =>
      var reply := llm(FixerPrompt(state, details, concepts));
      Ok(state.(manimCode := CodeFromReply(reply), errorMessage := None, status := Pending,
                retryCount := Some(retries + 1)))
  }

  /** Two successive fixes count two retries, whatever the replies. */
  lemma TwoFixesCountTwoRetries<V>(state: EducationalState, llm: Prompt -> string, validate: string -> V,
                                   isValid: V -> bool, format: (string, Option<string>, Option<V>) -> string)
    requires forall k :: 0 <= k < |state.concepts| ==> state.concepts[k].Str?
    ensures var once := CodeFixer(state, llm, validate, isValid, format);
            && once.Ok?
            && var twice := CodeFixer(once.value, llm, validate, isValid, format);
               twice.Ok? && twice.value.retryCount == Some(state.retryCount.GetOr(0) + 2)
  {
    FixOnce(state, llm, validate, isValid, format);
    var first := CodeFixer(state, llm, validate, isValid, format).value;
    FixOnce(first, llm, validate, isValid, format);
  }

  /** One fix keeps the concepts, so the next fix can run too, and counts one retry. */
  lemma FixOnce<V>(state: EducationalState, llm: Prompt -> string, validate: string -> V,
                   isValid: V -> bool, format: (string, Option<string>, Option<V>) -> string)
    requires forall k :: 0 <= k < |state.concepts| ==> state.concepts[k].Str?
    ensures var r := CodeFixer(state, llm, validate, isValid, format);
            && r.Ok?
            && r.value.concepts == state.concepts
            && r.value.retryCount.GetOr(0) == state.retryCount.GetOr(0) + 1
  {
    assert ConceptsString(state.concepts).Ok?;
  }
}
