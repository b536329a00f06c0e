# Educational workflow core, modelled in Dafny

This project models the deterministic core of a service that turns a PDF text
and a user's question into a Manim visualisation. A language model first
classifies the request by curriculum (math, chemistry, physics, unknown) and by
intention (static, dynamic, improvement). One of three generator nodes then
asks the model for Manim code, which is extracted from the reply and sanitised.
Finally the media generator renders that code and publishes the resulting video
or image under `/static/generated/`.

The model covers:

- the string utilities (code-block extraction, JSON reply parsing with its
  fallback record, the sanitiser, scene-name search);
- the workflow graph as an explicit transition function, with its initial
  state and result projection. The scheduler `Workflow.Execute` runs any node
  functions, as the graph library does; its guarantees rest on two facts about
  the nodes (`Workflow.StepsBehave`), which `Workflow.Steps` proves for the
  five nodes of this graph;
- the node state transformers;
- the media generator's outcome cascade and its artefact search;
- the schema enums and the request limits;
- the tool registry class;
- the validation script's front-matter parser and media-path mapping;
- the PDF upload checks and the OCR page joiner.

Modules, one per source file or concern:

- `Wrappers`: `Option`, and `Result` with constructors `Ok` and `Err`.
- `Strings`: Python `str` operations (`strip`, `split`, `join`, `find`,
  `startswith`, `endswith`, `in`, slicing, ASCII `lower`).
- `Json`: decoded JSON values.
- `CodeUtils`: `project/app/agents/utils.py`.
- `Schemas`: `project/app/schemas/educational.py`.
- `Nodes`: the language-model nodes under `project/app/agents/nodes/`.
- `Media`: `project/app/agents/nodes/media_generator.py`.
- `Workflow`: `project/app/agents/educational_workflow.py`.
- `OrderedMap` and `Tools`: `project/app/agents/tools/base.py`. A Python dict
  is an association list in insertion order. `Tools.ToolRegistry` is a class
  whose methods reassign its two dict fields.
- `Frontmatter`: `parse_frontmatter` and the `/static/` mapping of
  `copy_generated_media` in `scripts/validate_educational_workflow.py`.
- `PdfService`: `validate_pdf`, the stored-name rule of `upload_pdf`, and
  `_combine_pages_markdown` in `project/app/services/pdf_service.py`.

Inputs the program gets from outside become parameters:

- the language model is a function from prompts to reply text;
- `json.loads` is a partial decoder, `string -> Option<Json.Value>`;
- the Manim subprocess is a function from the invocation to its outcome (exit
  code, stdout, stderr and the listing of the media directory, a timeout, or
  an exception);
- the 8-character file id, the copy outcome and the OCR reply are plain inputs;
- the validator and the error formatter used by the code fixer are
  uninterpreted functions.

Python's regular expressions are replaced by position-by-position matchers,
each proved equivalent to a declarative description of the pattern. For
`` ```tag\s*\n(.*?)``` `` that description is `FenceParse`: the greedy `\s*`
backtracks to the last newline of the whitespace run, and the lazy `.*?`
takes the first closing fence. For `class\s+(\w+)\s*\(\s*Scene\s*\)` it is
`SceneParse`. `re.search` becomes the leftmost start that matches.

Some functions define behaviour without a contract of their own. The lemmas
in the table state what they do:

- `Workflow.RunWorkflow` (project/app/agents/educational_workflow.py:104-161)
  and `Workflow.Project` (:151-161): see `Workflow.RunFinalState`,
  `Workflow.RunReturnsGeneratedCode` and `Workflow.RunVisitsThreeNodes`.
- `Schemas.DefaultDetection` (project/app/schemas/educational.py:91-109): see
  `Workflow.InitialState` and `Nodes.DetectorFallbacksAreSchemaDefaults`.
- `Frontmatter.Parsed` (scripts/validate_educational_workflow.py:80-110): see
  `Frontmatter.ParseFrontmatter` and the `Parsed*` and `EntriesLookup` lemmas.
- `PdfService.CombinedMarkdown` (project/app/services/pdf_service.py:191-209):
  see `PdfService.CombinePagesMarkdown`, `PdfService.PageTextsConcat` and
  `PdfService.PageTextsMembership`.
- `Media.FirstMedia` (project/app/agents/nodes/media_generator.py:25-51): see
  `Media.FindGeneratedMedia` and `Media.VideoPreferredOverImage`.
- `Media.OutputFilename` (project/app/agents/nodes/media_generator.py:129-131):
  see `Media.SuccessPublishesArtefact`.

Three behaviours of the code are worth stating, since the model follows them
exactly:

- On a non-zero exit the failure message keeps the first 500 characters of
  stderr (else stdout, else "Unknown Manim error").
- The media generator does not run a code validator before rendering.
- The graph has no repair loop and no retry bound. `code_fixer` is not a node
  of the graph, so it is modelled as a state function that no run reaches, and
  `retry_count` stays absent on every completed run.

## Model

| member | source | states |
|---|---|---|
| CodeUtils.FenceMatchAt | project/app/agents/utils.py:23-24 | a match of `` ```tag\s*\n(.*?)``` `` at position i satisfies the pattern, and its body contains no closing fence |
| CodeUtils.FenceMatchAtIsPreferredParse | project/app/agents/utils.py:23-24 | any parse of the pattern at i makes the matcher succeed, with the newline the greedy `\s*` prefers and the earliest closing fence the lazy `.*?` allows |
| CodeUtils.FenceSearch | project/app/agents/utils.py:24 | `re.search` semantics: the result is the leftmost position where the pattern matches, and nothing matches if it returns none |
| CodeUtils.ExtractCodeBlock | project/app/agents/utils.py:8-35 | in every branch the result has no leading or trailing whitespace |
| CodeUtils.ExtractPrefersPythonBlock | project/app/agents/utils.py:22-26 | if a python-fenced block parses anywhere, the result is the stripped body of the leftmost one |
| CodeUtils.ExtractFallsBackToGenericBlock | project/app/agents/utils.py:28-32 | the generic block is used only when no python block parses, and its body comes from the leftmost generic match |
| CodeUtils.ExtractWithoutFence | project/app/agents/utils.py:34-35 | content with no fence at all gives `content.strip()` |
| CodeUtils.FenceSearchNoneWithoutFence | project/app/agents/utils.py:22-32 | neither pattern matches content that contains no fence |
| CodeUtils.BodyHasNoFence | project/app/agents/utils.py:23 | an extracted body stops at the first closing fence, so it contains none |
| CodeUtils.ParseJsonResponse | project/app/agents/utils.py:38-73 | a successful decode of the stripped candidate is returned as is; otherwise the result is an object with exactly the four fallback keys |
| CodeUtils.ParseFailureGivesFallback | project/app/agents/utils.py:64-73 | on a decode failure: curriculum "unknown", intention "static", concepts [], and as summary the first 200 characters of the unstripped candidate, or "Unable to parse response" when it is empty |
| CodeUtils.JsonCandidateWithoutFence | project/app/agents/utils.py:52-62 | without fences the decoder sees the whole content |
| CodeUtils.LinesFreeOfSound | project/app/agents/utils.py:105-108 | every kept line is an input line that contains none of the patterns |
| CodeUtils.LinesFreeOfComplete | project/app/agents/utils.py:105-108 | every input line that contains none of the patterns is kept |
| CodeUtils.LinesFreeOfConcat | project/app/agents/utils.py:106-108 | filtering works line by line, so it distributes over concatenation and keeps order |
| CodeUtils.LinesFreeOfStep | project/app/agents/utils.py:102-108 | filtering pattern by pattern equals filtering by all the patterns seen so far |
| CodeUtils.DropLinesWithStep | project/app/agents/utils.py:102-108 | one iteration of the loop body (split, filter, join) extends the filter by one pattern |
| CodeUtils.DropLinesWithJoin | project/app/agents/utils.py:103-108 | the loop body's split-filter-join on joined lines is the line filter, including when the pattern is absent and nothing changes |
| CodeUtils.ImportLineIsFree | project/app/agents/utils.py:91-112 | the inserted import line contains none of the seven dangerous patterns |
| CodeUtils.SanitizedLinesAreFree | project/app/agents/utils.py:101-114 | every line of the sanitised output is free of the dangerous patterns, import prefix included |
| CodeUtils.FreeLinesJoinFree | project/app/agents/utils.py:106-108 | joining lines free of the patterns with "\n" creates no occurrence, since no pattern contains a newline |
| CodeUtils.Sanitized | project/app/agents/utils.py:76-114 | the output contains none of the seven dangerous substrings, and it contains "from manim import" or "import manim" |
| CodeUtils.SanitizeManimCode | project/app/agents/utils.py:90-114 | the loop over the pattern list, then the conditional prefix, computes exactly `Sanitized(code)` |
| CodeUtils.SanitizeIdempotent | project/app/agents/utils.py:101-114 | sanitising twice equals sanitising once |
| CodeUtils.SanitizeKeepsCleanCode | project/app/agents/utils.py:101-114 | code with no dangerous pattern and a manim import is returned unchanged |
| CodeUtils.CleanCodeSurvives | project/app/agents/utils.py:8-114 | a reply with no fence, no outer whitespace, no dangerous pattern and a manim import passes extract-then-sanitise unchanged |
| CodeUtils.SanitizeDropsOnlyDangerousLine | project/app/agents/utils.py:102-108 | only whole lines are removed: one dangerous line among clean ones disappears, and the rest survive unchanged and in order |
| CodeUtils.LinesFreeOfDropsLine | project/app/agents/utils.py:106-108 | the same, for the line filter with any pattern list |
| CodeUtils.SceneMatchAt | project/app/agents/utils.py:126 | a scene match at i has a non-empty name span after "class" |
| CodeUtils.SceneMatchAtIsParse | project/app/agents/utils.py:126 | a match of `class\s+(\w+)\s*\(\s*Scene\s*\)` at i parses the pattern, with the name as group 1 |
| CodeUtils.SceneParseIsMatch | project/app/agents/utils.py:126 | every parse of the pattern at i is the one the matcher finds |
| CodeUtils.SceneSearch | project/app/agents/utils.py:127 | leftmost-match semantics of `re.search` for the scene pattern |
| CodeUtils.ExtractSceneName | project/app/agents/utils.py:117-130 | a returned name is a non-empty run of word characters |
| CodeUtils.SceneNameMissingIffNoParse | project/app/agents/utils.py:126-130 | None is returned exactly when no `class N(Scene)` with `Scene` as the only base parses anywhere |
| CodeUtils.SceneNameIsLeftmostParse | project/app/agents/utils.py:126-129 | the name comes from the leftmost parse, as group 1 |
| Schemas.ParseCurriculum | project/app/schemas/educational.py:9 | a parsed literal names the value it parses to |
| Schemas.CurriculumLiterals | project/app/schemas/educational.py:9 | exactly four literals are curricula, and naming and parsing are inverse |
| Schemas.IntentionLiterals | project/app/schemas/educational.py:10 | exactly three literals are intentions, with inverse naming and parsing |
| Schemas.StatusLiterals | project/app/schemas/educational.py:11 | exactly three literals are statuses, with inverse naming and parsing |
| Schemas.RequestViolations | project/app/schemas/educational.py:42-55 | a request is accepted iff pdf_text has length ≥ 1 and the query has length in [1, 2000]; each violation is reported iff its bound fails |
| Schemas.QueryLengthBoundary | project/app/schemas/educational.py:50-55 | a 2000-character query is accepted, and 2001 characters are rejected as too long |
| Nodes.NormalizeCurriculum | project/app/agents/nodes/intention_detector.py:52-54 | a value naming a curriculum is kept; anything else, missing or not a string, becomes "unknown" |
| Nodes.NormalizeIntention | project/app/agents/nodes/intention_detector.py:57-59 | a value naming an intention is kept; anything else becomes "static" |
| Nodes.NormalizeConcepts | project/app/agents/nodes/intention_detector.py:62-64 | a list is kept as is; anything else becomes [] |
| Nodes.IntentionDetector | project/app/agents/nodes/intention_detector.py:39-75 | raises iff the parsed reply is not an object; otherwise only the four detection fields change, to the normalised values, with summary defaulting to "" |
| Nodes.DetectorFallsBackToDefaults | project/app/agents/nodes/intention_detector.py:49-75 | an undecodable reply never raises and yields the detection defaults with no concepts, and as summary the first 200 characters of the candidate, or "Unable to parse response" when it is empty |
| Nodes.DetectorFallbacksAreSchemaDefaults | project/app/agents/nodes/intention_detector.py:52-67 | the detector's fallbacks are the defaults of `IntentionDetectionResult` (schemas/educational.py:91-109): a curriculum or intention naming no label, concepts that are not a list, and a missing summary each give the schema's default |
| Nodes.DetectorKeepsValidLabels | project/app/agents/nodes/intention_detector.py:52-59 | valid labels pass through unchanged, so normalisation is idempotent |
| Nodes.ConceptsString | project/app/agents/nodes/static_generator.py:36 | an empty list gives "general concepts"; a list of strings gives their ", "-join; otherwise the first non-string item raises |
| Nodes.SingleConceptUnchanged | project/app/agents/nodes/static_generator.py:36 | a single concept is passed on unchanged |
| Nodes.CodeFromReply | project/app/agents/nodes/static_generator.py:52-55 | stored code is free of the dangerous patterns and imports manim |
| Nodes.CleanReplyStoredVerbatim | project/app/agents/nodes/static_generator.py:52-55 | a bare, stripped, clean reply with a manim import is stored exactly as it is |
| Nodes.CodeFromReplyIsStable | project/app/agents/nodes/static_generator.py:52-55 | sanitising stored code again changes nothing |
| Nodes.Generate | project/app/agents/nodes/static_generator.py:36-61 | fails exactly when the concepts join raises; otherwise manim_code is `sanitize(extract(reply))`, the explanation is set, and nothing else changes |
| Nodes.StaticGenerator | project/app/agents/nodes/static_generator.py:36-61 | only manim_code and code_explanation change; the explanation is "Static visualization generated for " + curriculum + " content"; the code is safe |
| Nodes.DynamicGenerator | project/app/agents/nodes/dynamic_generator.py:36-61 | the same, with "Dynamic animation generated for " + curriculum + " content" |
| Nodes.ExistingCode | project/app/agents/nodes/improvement_agent.py:38-40 | empty code is replaced by "# No existing code provided", and other code is passed as is |
| Nodes.ImprovementAgent | project/app/agents/nodes/improvement_agent.py:35-64 | manim_code is `sanitize(extract(reply))` for the improvement prompt, the explanation is "Code improved based on user feedback", and all other fields are unchanged |
| Nodes.FormatterArguments | project/app/agents/nodes/code_fixer.py:45-58 | the formatter gets the code and the recorded error, plus the verdict only when it is invalid |
| Nodes.CodeFixer | project/app/agents/nodes/code_fixer.py:35-95 | manim_code becomes `CodeFromReply` of the reply to the fixer prompt, whose error details are `format_error_for_retry(code, error, verdict only when invalid)`, so it is safe; retry_count becomes the previous count (default 0) plus one; error_message becomes None and status "pending"; no other field changes |
| Nodes.TwoFixesCountTwoRetries | project/app/agents/nodes/code_fixer.py:35-94 | two successive fixes add exactly two retries |
| Nodes.FixOnce | project/app/agents/nodes/code_fixer.py:35-94 | with string concepts one fix succeeds, keeps the concepts, and adds exactly one retry |
| Media.FirstMatchIndex | project/app/agents/nodes/media_generator.py:41-49 | the first name, in rglob order, that matches the glob |
| Media.FindGeneratedMedia | project/app/agents/nodes/media_generator.py:25-51 | the loops return exactly `FirstMedia(listing)`: nothing without media/videos, else the first mp4, else the first png under media/images |
| Media.NoVideosDirFindsNothing | project/app/agents/nodes/media_generator.py:36-39 | without media/videos nothing is found, even when images exist |
| Media.VideoPreferredOverImage | project/app/agents/nodes/media_generator.py:41-43 | if any mp4 exists, an mp4 no later than it is returned, never a png |
| Media.ImageOnlyWithoutVideo | project/app/agents/nodes/media_generator.py:45-49 | a png result requires media/images to exist |
| Media.Suffix | project/app/agents/nodes/media_generator.py:130 | `Path.suffix` is empty or a proper tail of the name that starts with its last "." and has no other dot; it is empty only when no dot strictly inside the name is the last one |
| Media.Mp4Suffix | project/app/agents/nodes/media_generator.py:130-137 | a file named `x.mp4` has suffix ".mp4" |
| Media.PngSuffix | project/app/agents/nodes/media_generator.py:130-137 | a file named `x.png` has suffix ".png" |
| Media.ProcessErrorText | project/app/agents/nodes/media_generator.py:111 | stderr if non-empty, else stdout if non-empty, else "Unknown Manim error" |
| Media.MediaTypeFor | project/app/agents/nodes/media_generator.py:137 | "video/mp4" exactly for ".mp4", else "image/png" |
| Media.MediaGenerator | project/app/agents/nodes/media_generator.py:54-161 | status is never pending; a failure sets an error and keeps media_path and media_type; a success sets both and clears the error; only these four fields change |
| Media.EmptyCodeRunsNothing | project/app/agents/nodes/media_generator.py:69-74 | empty code fails with "No Manim code to execute", whatever the environment |
| Media.NoSceneRunsNothing | project/app/agents/nodes/media_generator.py:77-83 | code with no `class N(Scene)` fails with "Could not find Scene class in the code" before anything runs |
| Media.NonZeroExitMessage | project/app/agents/nodes/media_generator.py:110-116 | a non-zero exit fails with "Manim execution failed: " + `error_msg[:500]`: exactly the first min(500, length) characters of stderr, else stdout, else "Unknown Manim error"; nothing else changes |
| Media.TimeoutFails | project/app/agents/nodes/media_generator.py:150-155 | a render past the time limit fails with "Manim execution timed out (120s limit)" and changes nothing else |
| Media.RaisedFails | project/app/agents/nodes/media_generator.py:156-161 | another exception in the render fails with "Error during media generation: " + its text |
| Media.NoArtefactFails | project/app/agents/nodes/media_generator.py:118-126 | a zero exit with no video and no image fails with "Manim ran successfully but no output file was found" |
| Media.CopyFailureFails | project/app/agents/nodes/media_generator.py:134-161 | a found artefact whose copy raises fails with "Error during media generation: " + the copy error |
| Media.SuccessPublishesArtefact | project/app/agents/nodes/media_generator.py:119-148 | a success needs a zero exit, a found artefact and a completed copy; media_path is "/static/generated/" + scene + "_" + id8 + suffix; the type is `MediaTypeFor(suffix)`: "video/mp4" iff the suffix is ".mp4", else "image/png" |
| Media.FixedFailureMessagesDistinct | project/app/agents/nodes/media_generator.py:69-161 | the four fixed failure messages (no code, no scene, no output, timeout) are pairwise distinct |
| Media.FailureMessagesDistinct | project/app/agents/nodes/media_generator.py:110-161 | the execution-failure and exception messages differ from each other and from the timeout and no-output messages, whatever text they carry |
| Workflow.NodeNamesDistinct | project/app/agents/educational_workflow.py:66-70 | the five node names are distinct |
| Workflow.RouteByIntention | project/app/agents/educational_workflow.py:28-45 | "static", "dynamic" and "improvement" route to their generators; anything else, or a missing intention, routes to "static_generator" |
| Workflow.RoutingSelectsGenerator | project/app/agents/educational_workflow.py:76-84 | every route is a key of the path map, and each intention reaches its own generator |
| Workflow.Successor | project/app/agents/educational_workflow.py:73-92 | the detector branches by intention; each generator goes to media_generator and media_generator to END; every edge lowers the rank, so the graph has no cycle |
| Workflow.ApplyNode | project/app/agents/educational_workflow.py:66-70 | no node changes retry_count; media_generator never raises and leaves status "success" with a path and type, or "failed" with an error |
| Workflow.Steps | project/app/agents/educational_workflow.py:66-70 | the registered node functions are the five nodes applied to the outside inputs, and they keep the guarantees the scheduler needs |
| Workflow.Execute | project/app/agents/educational_workflow.py:63-148 | for any node functions that keep retry_count and whose media generator settles, a run visits at most rank-many nodes; a completed run ends at media_generator in a settled state with retry_count untouched |
| Workflow.ExecuteGenerator | project/app/agents/educational_workflow.py:87-92 | a run from a generator completes exactly when that generator returns, and then it visits the generator and media_generator |
| Workflow.ExecuteDetector | project/app/agents/educational_workflow.py:73-84 | a run from the detector stops there when it raises, and otherwise continues with the run from the generator its intention routes to |
| Workflow.ExecuteVisits | project/app/agents/educational_workflow.py:73-92 | from any state, a completed run visits the detector, the generator of its intention, and media_generator |
| Workflow.RunCompletesThrough | project/app/agents/educational_workflow.py:73-92 | a run completes whenever the detector and the generator it routes to both return |
| Workflow.InitialState | project/app/agents/educational_workflow.py:129-142 | the run starts with the detection schema's defaults for curriculum, intention, concepts and summary |
| Workflow.ExecuteResult | project/app/agents/educational_workflow.py:73-92 | for any node functions, the final state of a completed run is the media generator's output on the routed generator's state |
| Workflow.GeneratedCodeIsSafe | project/app/agents/educational_workflow.py:67-69 | each of the three generators stores code free of the dangerous patterns and importing manim |
| Workflow.RunFinalState | project/app/agents/educational_workflow.py:147-161 | a completed run returns the result projection of the media generator's output on the state the routed generator returned |
| Workflow.RunReturnsGeneratedCode | project/app/agents/educational_workflow.py:144-161 | a completed run returns the media generator's status, error, path and type, and as manim_code the code the routed generator stored, which is free of the dangerous patterns and imports manim |
| Workflow.RunVisitsThreeNodes | project/app/agents/educational_workflow.py:66-92 | a completed run visits exactly the detector, the generator of the detected intention, and the media generator |
| Workflow.RunEndsSettled | project/app/agents/educational_workflow.py:148-155 | the returned status is never "pending": a success has media and no error, and a failure has an error |
| Workflow.RunNeverRetries | project/app/agents/educational_workflow.py:66-70 | no node of the graph sets retry_count |
| Workflow.UndecodableReplyNeverFaults | project/app/agents/educational_workflow.py:73-92 | an undecodable detector reply leads to a completed run through the static generator |
| Workflow.ExistingCodeReachesImprovementPrompt | project/app/agents/educational_workflow.py:136 | existing code reaches the improvement prompt unchanged |
| OrderedMap.Lookup | project/app/agents/tools/base.py:79 | `dict.get` is None exactly for an absent key, and otherwise returns a stored value |
| OrderedMap.Assign | project/app/agents/tools/base.py:41 | assigning an existing key keeps the key order; a new key is appended |
| OrderedMap.LookupAssign | project/app/agents/tools/base.py:41-79 | after `d[k] = v`, `d.get(k)` is v and every other key reads as before |
| OrderedMap.KeysRemove | project/app/agents/tools/base.py:49-50 | deletion keeps keys unique and removes exactly that key |
| OrderedMap.LookupRemove | project/app/agents/tools/base.py:49-50 | after deletion the key is absent and every other key reads as before |
| OrderedMap.RemoveAbsent | project/app/agents/tools/base.py:49 | removing an absent key changes nothing |
| OrderedMap.CollectAllKeys | project/app/agents/tools/base.py:90-92 | asking for every key in order gives every value in order |
| OrderedMap.CollectAppend | project/app/agents/tools/base.py:92 | the comprehension handles the requested names one at a time and in order |
| OrderedMap.CollectSingle | project/app/agents/tools/base.py:92 | a single requested name gives its value if present, else nothing |
| Tools.ToolRegistry.constructor | project/app/agents/tools/base.py:30-33 | both dicts start empty |
| Tools.ToolRegistry.RegisterTool | project/app/agents/tools/base.py:35-41 | the tool is filed under its name: `get_tool(t.name)` is t, a re-registration overwrites in place, other names and the MCP dict are unchanged |
| Tools.ToolRegistry.UnregisterTool | project/app/agents/tools/base.py:43-50 | the name is gone, other tools and the MCP dict are unchanged, and an absent name is a no-op |
| Tools.ToolRegistry.RegisterMcp | project/app/agents/tools/base.py:52-59 | the client is filed under the name, and the tools dict is untouched |
| Tools.ToolRegistry.UnregisterMcp | project/app/agents/tools/base.py:61-68 | the client is gone, and the tools dict is untouched |
| Tools.ToolRegistry.GetTool | project/app/agents/tools/base.py:70-79 | a tool is returned iff the name is registered, and it carries that name |
| Tools.ToolRegistry.GetTools | project/app/agents/tools/base.py:81-92 | None gives all tools; otherwise the collection over the requested names, each result a registered tool |
| Tools.ToolRegistry.GetToolsInRequestOrder | project/app/agents/tools/base.py:90-92 | the answer for a + b is the answer for a followed by the answer for b, and one name gives its tool if registered and nothing otherwise |
| Tools.ToolRegistry.GetAllTools | project/app/agents/tools/base.py:94-105 | equals `get_tools(None)` and `get_tools(list_tool_names())` |
| Tools.ToolRegistry.ListToolNames | project/app/agents/tools/base.py:118-124 | exactly the registered names, each once |
| Tools.ToolRegistry.GetMcpClient | project/app/agents/tools/base.py:107-116 | a client is returned iff the name is registered |
| Tools.ToolRegistry.ListMcpNames | project/app/agents/tools/base.py:126-132 | exactly the registered client names, each once |
| Tools.ToolRegistry.Clear | project/app/agents/tools/base.py:134-137 | both dicts become empty |
| Tools.AssignFilesByName | project/app/agents/tools/base.py:41 | registration keeps every tool filed under its own name |
| Tools.CollectFiledByName | project/app/agents/tools/base.py:92 | every tool `get_tools(names)` returns is the registered tool of its name |
| Frontmatter.LineEntry | scripts/validate_educational_workflow.py:103-107 | a line is ignored iff its stripped text has no ":"; the key is taken before the first ":", so it contains none |
| Frontmatter.CleanValue | scripts/validate_educational_workflow.py:107 | the cleaned value neither starts nor ends with "'" |
| Frontmatter.LineEntryRule | scripts/validate_educational_workflow.py:103-107 | when the stripped line is k + ":" + v with no ":" in k, the entry is (k stripped, v cleaned) |
| Frontmatter.CleanValueDoubleQuoted | scripts/validate_educational_workflow.py:107 | surrounding whitespace and then one layer of double quotes are removed; the text inside is kept |
| Frontmatter.CleanValueSingleQuoted | scripts/validate_educational_workflow.py:107 | surrounding whitespace and single quotes are removed, and double quotes inside single quotes survive, since the '"' strip comes first |
| Frontmatter.CleanValueBare | scripts/validate_educational_workflow.py:107 | an unquoted value loses only its surrounding whitespace |
| Frontmatter.Build | scripts/validate_educational_workflow.py:102-108 | the dict never holds a key twice |
| Frontmatter.ParseFrontmatter | scripts/validate_educational_workflow.py:80-110 | the loop over the front-matter lines computes exactly `Parsed(content)` |
| Frontmatter.CollectEntries | scripts/validate_educational_workflow.py:102-108 | the loop over the lines builds the same dict as the line-by-line assignment `EntriesOf(lines)` |
| Frontmatter.ParsedWithoutDelimiters | scripts/validate_educational_workflow.py:91-97 | content with no opening "---", or with no closing one, gives ({}, content unchanged) |
| Frontmatter.ParsedSplitsAtSecondDelimiter | scripts/validate_educational_workflow.py:96-99 | the body is the stripped text after the second "---", later "---" included |
| Frontmatter.LineWithoutColonIgnored | scripts/validate_educational_workflow.py:104 | a line without ":" leaves the dict unchanged |
| Frontmatter.LaterLineOverrides | scripts/validate_educational_workflow.py:105-108 | a later line sets its key to its value and leaves other keys alone |
| Frontmatter.EntriesLookup | scripts/validate_educational_workflow.py:102-108 | a key is present iff some line carries it, and its value is the one from the last such line |
| Frontmatter.MediaSource | scripts/validate_educational_workflow.py:148-158 | a missing or empty path gives nothing; a path outside /static/ is used as given |
| Frontmatter.StaticPathResolved | scripts/validate_educational_workflow.py:154-156 | any `/static/` + rel loses those 8 characters: a relative rel is found at `<root>/project/app/static/<rel>`, an empty rel names that directory, and an absolute rel replaces the root |
| Frontmatter.PublishedMediaFound | scripts/validate_educational_workflow.py:154-156 | `/static/generated/<name>` is looked for at `<root>/project/app/static/generated/<name>`, with root the script's grandparent; that is where the media generator copied it exactly when the generator's working directory is that root |
| PdfService.Rejected | project/app/services/pdf_service.py:53-76 | checks run in order (content type, filename present, `.pdf` ignoring case, size ≤ 10 MiB, non-empty); each rejection holds iff the earlier checks pass and its own fails |
| PdfService.RejectionMessage | project/app/services/pdf_service.py:53-74 | each rejection's message: the type message followed by the content type shown, "Filename is missing", "File must have .pdf extension", the size message around the formatted size, and "File is empty" |
| PdfService.ValidatePdf | project/app/services/pdf_service.py:43-76 | (True, None) iff no check fails; otherwise (False, the message of the first failing check) |
| PdfService.ContentTypeCheckedFirst | project/app/services/pdf_service.py:54-55 | a wrong content type is reported whatever the filename and size |
| PdfService.ExtensionCaseInsensitive | project/app/services/pdf_service.py:61 | ".PDF" and ".pdf" both pass |
| PdfService.SizeBoundary | project/app/services/pdf_service.py:29-76 | exactly 10 MiB passes, one byte more is too large, and 0 bytes gives "File is empty" |
| PdfService.UploadPdf | project/app/services/pdf_service.py:78-104 | a failure gives ("", "", error) with the validation message when validation fails; a failed save gives ("", "", "Failed to save file: " + the error); a success gives (file_id, dir/file_id_filename, None) |
| PdfService.StoredNameKeepsFilename | project/app/services/pdf_service.py:95-96 | the stored path starts with the upload directory and id, and ends with "_" + the uploaded filename |
| PdfService.PageTexts | project/app/services/pdf_service.py:204-207 | every kept page text is non-empty |
| PdfService.CombinePagesMarkdown | project/app/services/pdf_service.py:191-209 | the loop computes exactly `CombinedMarkdown(response)`: "" without a reply or pages, else the non-empty texts joined by "\n\n" |
| PdfService.PageTextsConcat | project/app/services/pdf_service.py:204-209 | texts are kept page by page in page order: the texts of a + b are those of a followed by those of b |
| PdfService.PageTextsMembership | project/app/services/pdf_service.py:205-207 | a text is kept iff it is non-empty and some page carries it |
| PdfService.BlankPagesCombineToNothing | project/app/services/pdf_service.py:201-209 | pages without text combine to "" |
| PdfService.TwoPagesJoined | project/app/services/pdf_service.py:205-209 | text pages are joined in order by one blank line, and pages without text are skipped |

## Left out

- LLM calls, prompt rendering and templates: the reply is a function of the
  prompt's template name and keyword arguments. Temperatures and model
  settings are floats and configuration.
- `json.loads` is an abstract decoder. Only the shape of the decoded value is
  modelled, not JSON syntax.
- Regular expressions outside the three fixed patterns. `\w` is restricted to
  ASCII letters, digits and `_`, whereas Python's `\w` on `str` is Unicode.
- `validate_manim_code`, `format_error_for_retry` and `create_reasoning_llm`
  are not part of this model. They are uninterpreted parameters of
  `Nodes.CodeFixer`.
- The subprocess itself, `tempfile.mkdtemp`, writing `scene.py`, `rmtree`
  clean-up, environment variables and UUID generation. Their outcomes are
  inputs.
- `ensure_output_dir` and `mkdtemp` failures: they raise outside the `try`
  of the media generator and are not modelled.
- LangGraph's `StateGraph`, checkpointing, async execution and `thread_id`:
  the graph is an explicit transition function.
- The module-level singletons (`educational_graph`, `tool_registry`): there is
  one registry object per `ToolRegistry` constructor call.
- MCP-to-LangChain tool conversion, which the source notes as future work.
- `Media.Suffix`: follows pathlib's rule for a plain file name (the last "."
  that is neither first nor last). Directory components are not modelled,
  since the listing holds file names.
- `Frontmatter.PublishedMediaFound`: the media generator copies into the
  relative directory `project/app/static/generated`, so from its working
  directory, while the script looks under its own grandparent directory. The
  model keeps the two as separate parameters, and the published file is found
  only when they agree, that is, when the workflow runs from the repository
  root.
- `Tools.ToolRegistry.Valid`: "every tool is filed under its own name" holds
  because a tool is an immutable value here. In Python a tool is a mutable
  object filed under the name it had at registration, so renaming it later
  breaks the fact.
- `Frontmatter.MediaSource`: `PathJoin` models pathlib's `/` for one segment
  (an absolute segment replaces the base, an empty one adds nothing). It does
  not collapse repeated slashes or "." segments. The existence check and the
  copy to the output directory are I/O and are left out.
- `PdfService.RejectionMessage`: the megabyte figure of the too-large message
  comes from the parameter `formatMb`, because it is float formatting.
- `PdfService.Rejected`: `.lower()` is modelled by ASCII lower-casing. No
  non-ASCII character lower-cases to ".", "p", "d" or "f", so the extension
  check is the same.
- `PdfService.UploadPdf`: the stored path is the upload directory, "/" and
  the stored name, without pathlib normalisation. The file copy is an input
  (`saveError`). Closing the stream is left out.
- Mistral OCR, PyPDF2 extraction, base64 encoding, file clean-up and ageing
  in `pdf_service.py`: I/O.
- Logging, argument parsing, JSON dumping and printing in the validation
  script.
- Chat persistence, HTTP routers, Celery, the database, configuration and the
  frontend: outside the modelled core.
- `CodeUtils.ExtractSceneName`: there is no lemma for a concrete
  `ThreeDScene` input. `SceneNameMissingIffNoParse` states the general rule
  that only a sole literal `Scene` base matches.
