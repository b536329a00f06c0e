/**
 * The record types of the educational workflow: the three literal enums, the
 * state that flows between the graph's nodes, the request constraints and
 * the defaults of an intention-detection result.
 */
module Schemas {
  import opened Wrappers
  import Json

  /** `CurriculumComponent`. */
  datatype Curriculum = Math | Chemistry | Physics | Unknown

  /** `IntentionType`. */
  datatype Intention = Static | Dynamic | Improvement

  /** `ExecutionStatus`. */
  datatype ExecutionStatus = Pending | Success | Failed

  /** The literal string a curriculum value is written as. */
  function CurriculumName(c: Curriculum): string {
    match c
    case Math => "math"
    case Chemistry => "chemistry"
    case Physics => "physics"
    case Unknown => "unknown"
  }

  /** The curriculum a literal names, if it names one. */
  function ParseCurriculum(s: string): (r: Option<Curriculum>)
    ensures r.Some? ==> CurriculumName(r.value) == s
  {
    if s == "math" then Some(Math)
    else if s == "chemistry" then Some(Chemistry)
    else if s == "physics" then Some(Physics)
    else if s == "unknown" then Some(Unknown)
    else None
  }

  /** Exactly four literals are curricula, and names and parsing are inverse. */
  lemma CurriculumLiterals(c: Curriculum, s: string)
    ensures ParseCurriculum(CurriculumName(c)) == Some(c)
    ensures ParseCurriculum(s).Some? <==> s in {"math", "chemistry", "physics", "unknown"}
  {
  }

  function IntentionName(i: Intention): string {
    match i
    case Static => "static"
    case Dynamic => "dynamic"
    case Improvement => "improvement"
  }

  function ParseIntention(s: string): (r: Option<Intention>)
    ensures r.Some? ==> IntentionName(r.value) == s
  {
    if s == "static" then Some(Static)
    else if s == "dynamic" then Some(Dynamic)
    else if s == "improvement" then Some(Improvement)
    else None
  }

  /** Exactly three literals are intentions, and names and parsing are inverse. */
  lemma IntentionLiterals(i: Intention, s: string)
    ensures ParseIntention(IntentionName(i)) == Some(i)
    ensures ParseIntention(s).Some? <==> s in {"static", "dynamic", "improvement"}
  {
  }

  function StatusName(st: ExecutionStatus): string {
    match st
    case Pending => "pending"
    case Success => "success"
    case Failed => "failed"
  }

  function ParseStatus(s: string): (r: Option<ExecutionStatus>)
    ensures r.Some? ==> StatusName(r.value) == s
  {
    if s == "pending" then Some(Pending)
    else if s == "success" then Some(Success)
    else if s == "failed" then Some(Failed)
    else None
  }

  /** Exactly three literals are statuses, and names and parsing are inverse. */
  lemma StatusLiterals(st: ExecutionStatus, s: string)
    ensures ParseStatus(StatusName(st)) == Some(st)
    ensures ParseStatus(s).Some? <==> s in {"pending", "success", "failed"}
  {
  }

  /**
   * `EducationalState`. The detected concepts and the summary hold whatever
   * values the decoded model reply carried (the nodes check only that the
   * concepts are a list), so they are JSON values. `retryCount` is the
   * `retry_count` key, which the record does not declare and which is absent
   * until the code fixer adds it.
   */
  datatype EducationalState = EducationalState(
    pdfText: string,
    userQuery: string,
    curriculum: Curriculum,
    intention: Intention,
    concepts: seq<Json.Value>,
    summary: Json.Value,
    manimCode: string,
    codeExplanation: string,
    mediaPath: Option<string>,
    mediaType: Option<string>,
    status: ExecutionStatus,
    errorMessage: Option<string>,
    retryCount: Option<nat>)

  /** The field constraints of `EducationalWorkflowRequest`. */
  const QueryMaxLength: nat := 2000

  datatype RequestViolation = PdfTextTooShort | QueryTooShort | QueryTooLong

  /** The constraints a request breaks, in field order; a request is accepted when there are none. */
  function RequestViolations(pdfText: string, query: string): (r: seq<RequestViolation>)
    ensures PdfTextTooShort in r <==> |pdfText| < 1
    ensures QueryTooShort in r <==> |query| < 1
    ensures QueryTooLong in r <==> |query| > QueryMaxLength
    ensures |r| == 0 <==> 1 <= |pdfText| && 1 <= |query| <= QueryMaxLength
  {
    (if |pdfText| < 1 then [PdfTextTooShort] else [])
    + (if |query| < 1 then [QueryTooShort] else [])
    + (if |query| > QueryMaxLength then [QueryTooLong] else [])
  }

  /** A query of exactly the maximum length is accepted; one more character is not. */
  lemma QueryLengthBoundary(pdfText: string, query: string, extra: char)
    requires |pdfText| >= 1 && |query| == QueryMaxLength
    ensures RequestViolations(pdfText, query) == []
    ensures RequestViolations(pdfText, query + [extra]) == [QueryTooLong]
  {
  }

  /** `EducationalWorkflowResponse`: status, curriculum and intention use the state's enums. */
  datatype WorkflowResponse = WorkflowResponse(
    status: ExecutionStatus,
    mediaPath: Option<string>,
    mediaType: Option<string>,
    curriculum: Curriculum,
    intention: Intention,
    error: Option<string>,
    manimCode: Option<string>)

  /** `IntentionDetectionResult`. */
  datatype DetectionResult = DetectionResult(
    curriculum: Curriculum,
    intention: Intention,
    concepts: seq<string>,
    summary: string)

  /** The defaults of `IntentionDetectionResult`. */
  function DefaultDetection(): DetectionResult {
    DetectionResult(Unknown, Static, [], "")
  }
}
