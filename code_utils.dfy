/**
 * The text utilities of the educational agents: pulling a fenced code block
 * out of a model reply, parsing a JSON reply with a fixed fallback record,
 * removing dangerous lines from generated Manim code, and finding the name of
 * the `Scene` subclass to render.
 *
 * The regular expressions are modelled position by position: for each one a
 * function computes the match the backtracking engine reports at a given start,
 * and a ghost predicate states declaratively what a match of the pattern is.
 */
module CodeUtils {
  import opened Wrappers
  import opened Strings
  import Json

  const Fence: string := "```"

  /** Where a fenced-block pattern matched: the match start and the span of group 1. */
  datatype FenceMatch = FenceMatch(start: nat, bodyStart: nat, bodyEnd: nat)

  /** End of the maximal whitespace run starting at j (what a greedy `\s*` consumes). */
  function SpaceRunEnd(s: string, j: nat): (k: nat)
    requires j <= |s|
    ensures j <= k <= |s|
    ensures forall t :: j <= t < k ==> IsSpace(s[t])
    ensures k < |s| ==> !IsSpace(s[k])
    decreases |s| - j
  {
    if j < |s| && IsSpace(s[j]) then SpaceRunEnd(s, j + 1) else j
  }

  /** End of the maximal run of word characters starting at j (a greedy `\w+`). */
  function WordRunEnd(s: string, j: nat): (k: nat)
    requires j <= |s|
    ensures j <= k <= |s|
    ensures forall t :: j <= t < k ==> IsWordChar(s[t])
    ensures k < |s| ==> !IsWordChar(s[k])
    decreases |s| - j
  {
    if j < |s| && IsWordChar(s[j]) then WordRunEnd(s, j + 1) else j
  }

  /** The last newline in s[j..k]. */
  function LastNewline(s: string, j: nat, k: nat): (r: Option<nat>)
    requires j <= k <= |s|
    ensures r.Some? ==> j <= r.value < k && s[r.value] == '\n'
    ensures r.Some? ==> forall t :: r.value < t < k ==> s[t] != '\n'
    ensures r.None? ==> forall t :: j <= t < k ==> s[t] != '\n'
    decreases k - j
  {
    if k == j then None
    else if s[k - 1] == '\n' then Some(k - 1)
    else LastNewline(s, j, k - 1)
  }

  /**
   * One parse of the pattern "```" + tag + `\s*\n(.*?)```` (with re.DOTALL)
   * starting at i: whitespace up to a newline at m, group 1 is s[m+1..q], and
   * the closing fence starts at q.
   */
  ghost predicate FenceParse(s: string, tag: string, i: int, m: int, q: int) {
    && OccursAt(s, Fence + tag, i)
    && i + |Fence + tag| <= m < q
    && OccursAt(s, Fence, q)
    && (forall t :: i + |Fence + tag| <= t < m ==> IsSpace(s[t]))
    && s[m] == '\n'
  }

  /**
   * The match the regex engine reports at start i: the greedy `\s*` keeps the
   * last newline of the whitespace run, the lazy `(.*?)` stops at the first
   * closing fence after it.
   */
  function FenceMatchAt(s: string, tag: string, i: nat): (r: Option<FenceMatch>)
    ensures r.Some? ==> r.value.start == i && r.value.bodyStart <= r.value.bodyEnd
    ensures r.Some? ==> FenceParse(s, tag, i, r.value.bodyStart - 1, r.value.bodyEnd)
    ensures r.Some? ==> forall t :: r.value.bodyStart <= t < r.value.bodyEnd ==> !OccursAt(s, Fence, t)
  {
    if !OccursAt(s, Fence + tag, i) then None
    else
      var j := i + |Fence + tag|;
      var k := SpaceRunEnd(s, j);
      match LastNewline(s, j, k)
      case None => None
      case Some(m) =>
        match Find(s, Fence, m + 1)
        case None => None
        case Some(q) => Some(FenceMatch(i, m + 1, q))
  }

  /** A whitespace run that covers s[j..m] inclusive ends after m. */
  lemma {:induction false} SpaceRunPasses(s: string, j: nat, m: nat)
    requires j <= m < |s|
    requires forall t :: j <= t <= m ==> IsSpace(s[t])
    ensures SpaceRunEnd(s, j) > m
    decreases m - j
  {
    if j < m {
      SpaceRunPasses(s, j + 1, m);
    }
  }

  lemma FenceStartsWithBacktick(s: string, q: int)
    requires OccursAt(s, Fence, q)
    ensures s[q] == '`'
  {
    assert s[q..q + 3][0] == s[q];
  }

  /**
   * FenceMatchAt is exactly the regex engine's choice: no match at i exactly when
   * the pattern has no parse at i, and otherwise the parse with the latest
   * newline (greedy `\s*`) and, for it, the earliest closing fence (lazy `.*?`).
   */
  lemma FenceMatchAtIsPreferredParse(s: string, tag: string, i: nat, m: int, q: int)
    requires FenceParse(s, tag, i, m, q)
    ensures FenceMatchAt(s, tag, i).Some?
    ensures var r := FenceMatchAt(s, tag, i).value;
            m <= r.bodyStart - 1 && (m == r.bodyStart - 1 ==> r.bodyEnd <= q)
  {
    var j := i + |Fence + tag|;
    var k := SpaceRunEnd(s, j);
    SpaceRunPasses(s, j, m);
    var last := LastNewline(s, j, k);
    assert last.Some?;
    var mm := last.value;
    assert m <= mm;
    FenceStartsWithBacktick(s, q);
    assert q >= k;
    assert Find(s, Fence, mm + 1).Some?;
  }

  /** `re.search`: the match with the leftmost start at or after `from`. */
  function FenceSearch(s: string, tag: string, from: nat): (r: Option<FenceMatch>)
    ensures r.Some? ==> from <= r.value.start && FenceMatchAt(s, tag, r.value.start) == r
    ensures r.Some? ==> forall i: nat :: from <= i < r.value.start ==> FenceMatchAt(s, tag, i).None?
    ensures r.None? ==> forall i: nat :: from <= i ==> FenceMatchAt(s, tag, i).None?
    decreases |s| - from
  {
    if from > |s| then None
    else
      match FenceMatchAt(s, tag, from)
      case Some(fm) => Some(fm)
      case None => FenceSearch(s, tag, from + 1)
  }

  /** Group 1 of a fenced-block match, unstripped. */
  function Body(s: string, fm: FenceMatch): string
    requires fm.bodyStart <= fm.bodyEnd <= |s|
  {
    s[fm.bodyStart..fm.bodyEnd]
  }

  /**
   * `extract_code_block`: the stripped body of the first ```python block, else
   * of the first generic ``` block, else the whole reply stripped.
   */
  function ExtractCodeBlock(content: string): (r: string)
    ensures |r| > 0 ==> !IsSpace(r[0]) && !IsSpace(r[|r| - 1])
  {
    match FenceSearch(content, "python", 0)
    case Some(fm) => Strip(Body(content, fm))
    case None =>
      match FenceSearch(content, "", 0)
      case Some(fm) => Strip(Body(content, fm))
      case None => Strip(content)
  }

  /** A reply without any fence is taken whole, stripped. */
  lemma ExtractWithoutFence(content: string)
    requires !Contains(content, Fence)
    ensures ExtractCodeBlock(content) == Strip(content)
  {
    FenceSearchNoneWithoutFence(content, "python");
    FenceSearchNoneWithoutFence(content, "");
  }

  lemma FenceSearchNoneWithoutFence(content: string, tag: string)
    requires !Contains(content, Fence)
    ensures FenceSearch(content, tag, 0).None?
  {
    var r := FenceSearch(content, tag, 0);
    assert r.Some? ==> OccursAt(content, Fence, r.value.bodyEnd);
  }

  /**
   * When the reply has a parse of a ```python block anywhere, the result is
   * the stripped body of the leftmost one: the generic pattern is not consulted.
   */
  lemma {:induction false} ExtractPrefersPythonBlock(content: string, i: nat, m: int, q: int)
    requires FenceParse(content, "python", i, m, q)
    ensures FenceSearch(content, "python", 0).Some?
    ensures var fm := FenceSearch(content, "python", 0).value;
            fm.start <= i && ExtractCodeBlock(content) == Strip(Body(content, fm))
  {
    FenceMatchAtIsPreferredParse(content, "python", i, m, q);
  }

  /**
   * The generic block is used exactly when no ```python block matches, and its
   * body is taken from the leftmost generic match.
   */
  lemma ExtractFallsBackToGenericBlock(content: string, i: nat, m: int, q: int)
    requires forall i': nat, m': int, q': int :: !FenceParse(content, "python", i', m', q')
    requires FenceParse(content, "", i, m, q)
    ensures FenceSearch(content, "python", 0).None? && FenceSearch(content, "", 0).Some?
    ensures var fm := FenceSearch(content, "", 0).value;
            fm.start <= i && ExtractCodeBlock(content) == Strip(Body(content, fm))
  {
    FenceMatchAtIsPreferredParse(content, "", i, m, q);
  }

  /** The body of a fenced match stops at the first closing fence: it holds no fence. */
  lemma BodyHasNoFence(s: string, tag: string, i: nat)
    requires FenceMatchAt(s, tag, i).Some?
    ensures var fm := FenceMatchAt(s, tag, i).value;
            fm.bodyEnd <= |s| && !Contains(Body(s, fm), Fence)
  {
    var fm := FenceMatchAt(s, tag, i).value;
    var b := Body(s, fm);
    forall t | 0 <= t <= |b| - 3 ensures !OccursAt(b, Fence, t) {
      SliceOccurrence(s, fm.bodyStart, fm.bodyEnd, Fence, t);
    }
  }

  // ---------------------------------------------------------------------------
  // parse_json_response

  /** The text `parse_json_response` hands to the decoder before stripping. */
  function JsonCandidate(content: string): string {
    match FenceSearch(content, "json", 0)
    case Some(fm) => Body(content, fm)
    case None =>
      match FenceSearch(content, "", 0)
      case Some(fm) => Body(content, fm)
      case None => content
  }

  const ParseFailureSummary: string := "Unable to parse response"

  /** The record returned when decoding fails. */
  function FallbackRecord(candidate: string): Json.Value {
    Json.Object(map[
      "curriculum" := Json.Str("unknown"),
      "intention" := Json.Str("static"),
      "concepts" := Json.Array([]),
      "summary" := Json.Str(if |candidate| > 0 then Take(candidate, 200) else ParseFailureSummary)
    ])
  }

  /**
   * `parse_json_response`, with `json.loads` as the abstract decoder `decode`
   * (`None` where it raises `JSONDecodeError`).
   */
  function ParseJsonResponse(content: string, decode: string -> Option<Json.Value>): (r: Json.Value)
    ensures decode(Strip(JsonCandidate(content))).Some? ==> r == decode(Strip(JsonCandidate(content))).value
    ensures decode(Strip(JsonCandidate(content))).None? ==> r.Object? && r.fields.Keys == {"curriculum", "intention", "concepts", "summary"}
  {
    var candidate := JsonCandidate(content);
    match decode(Strip(candidate))
    case Some(v) => v
    case None => FallbackRecord(candidate)
  }

  /**
   * On a decode failure the result is the fixed record: curriculum "unknown",
   * intention "static", no concepts, and as summary the first 200 characters of
   * the (unstripped) candidate text, or the fixed message when it is empty.
   */
  lemma ParseFailureGivesFallback(content: string, decode: string -> Option<Json.Value>)
    requires decode(Strip(JsonCandidate(content))).None?
    ensures var r := ParseJsonResponse(content, decode);
            && r.Object?
            && r.fields["curriculum"] == Json.Str("unknown")
            && r.fields["intention"] == Json.Str("static")
            && r.fields["concepts"] == Json.Array([])
            && r.fields["summary"].Str?
            && var summary := r.fields["summary"].s;
               var candidate := JsonCandidate(content);
               if |candidate| == 0 then summary == ParseFailureSummary
               else |summary| == (if |candidate| < 200 then |candidate| else 200)
                    && summary == candidate[..|summary|]
  {
  }

  /** A reply with no fence is decoded whole, stripped. */
  lemma JsonCandidateWithoutFence(content: string)
    requires !Contains(content, Fence)
    ensures JsonCandidate(content) == content
  {
    FenceSearchNoneWithoutFence(content, "json");
    FenceSearchNoneWithoutFence(content, "");
  }

  // ---------------------------------------------------------------------------
  // sanitize_manim_code

  /** The substrings whose lines `sanitize_manim_code` removes, in the order it checks them. */
  const DangerousPatterns: seq<string> :=
    ["subprocess", "os.system", "eval(", "exec(", "__import__", "importlib", "shutil.rmtree"]

  const ImportLine: string := "from manim import *"
  const ManimImportPrefix: string := ImportLine + "\n\n"

  /** The import check of `sanitize_manim_code`. */
  predicate HasManimImport(code: string) {
    Contains(code, "from manim import") || Contains(code, "import manim")
  }

  /** The line contains none of the patterns `ps`. */
  predicate FreeOf(line: string, ps: seq<string>) {
    forall p :: p in ps ==> !Contains(line, p)
  }

  /** The lines that contain none of `ps`, in their original order. */
  function LinesFreeOf(lines: seq<string>, ps: seq<string>): (r: seq<string>)
    ensures |r| <= |lines|
  {
    if |lines| == 0 then []
    else (if FreeOf(lines[0], ps) then [lines[0]] else []) + LinesFreeOf(lines[1..], ps)
  }

  /** Every kept line is one of the input lines and free of the patterns. */
  lemma {:induction false} LinesFreeOfSound(lines: seq<string>, ps: seq<string>)
    ensures forall l :: l in LinesFreeOf(lines, ps) ==> l in lines && FreeOf(l, ps)
  {
    if |lines| > 0 {
      LinesFreeOfSound(lines[1..], ps);
    }
  }

  /** Every input line free of the patterns is kept. */
  lemma {:induction false} LinesFreeOfComplete(lines: seq<string>, ps: seq<string>)
    ensures forall l :: l in lines && FreeOf(l, ps) ==> l in LinesFreeOf(lines, ps)
  {
    if |lines| > 0 {
      LinesFreeOfComplete(lines[1..], ps);
      assert lines == [lines[0]] + lines[1..];
    }
  }

  /** The lines of `code` after every dangerous line is dropped, rejoined. */
  function SanitizedBody(code: string): string {
    Join(LinesFreeOf(Split(code, '\n'), DangerousPatterns), "\n")
  }

  lemma DangerousPatternsShape()
    ensures forall p :: p in DangerousPatterns ==> |p| > 0 && '\n' !in p
  {
  }

  /** The import line the sanitiser prepends holds no dangerous pattern. */
  lemma EmptyLineIsFree()
    ensures FreeOf("", DangerousPatterns)
  {
    DangerousPatternsShape();
  }

  lemma ImportLineIsFree()
    ensures FreeOf(ImportLine, DangerousPatterns)
  {
    ImportLineLacks('b', 2, "subprocess");
    ImportLineLacks('.', 2, "os.system");
    ImportLineLacks('(', 4, "eval(");
    ImportLineLacks('(', 4, "exec(");
    ImportLineLacks('_', 0, "__import__");
    ImportLineLacks('l', 6, "importlib");
    ImportLineLacks('.', 6, "shutil.rmtree");
  }

  lemma ImportLineLacks(ch: char, k: nat, p: string)
    requires ch in "b.(_l" && k < |p| && p[k] == ch
    ensures !Contains(ImportLine, p)
  {
    assert ch !in ImportLine;
    MissingCharNotContained(ImportLine, p, ch);
  }

  /** A join of lines each free of the patterns contains none of them. */
  lemma FreeLinesJoinFree(lines: seq<string>)
    requires forall l :: l in lines ==> FreeOf(l, DangerousPatterns)
    ensures forall p :: p in DangerousPatterns ==> !Contains(Join(lines, "\n"), p)
  {
    DangerousPatternsShape();
    forall p | p in DangerousPatterns ensures !Contains(Join(lines, "\n"), p) {
      forall k | 0 <= k < |lines| ensures !Contains(lines[k], p) {
        assert lines[k] in lines;
      }
      JoinAddsNoOccurrence(lines, '\n', p);
    }
  }

  lemma PrefixAsLines(body: string)
    ensures ManimImportPrefix + body == Join([ImportLine, ""] + Split(body, '\n'), "\n")
  {
    var rest := Split(body, '\n');
    JoinSplit(body, '\n');
    var lines := [ImportLine, ""] + rest;
    assert lines[1..] == [""] + rest;
    assert lines[1..][1..] == rest;
  }

  /** The lines of the kept body are the kept lines, each free of the patterns. */
  lemma BodyLinesAreFree(code: string)
    ensures forall l :: l in Split(SanitizedBody(code), '\n') ==> FreeOf(l, DangerousPatterns)
  {
    var kept := LinesFreeOf(Split(code, '\n'), DangerousPatterns);
    LinesFreeOfSound(Split(code, '\n'), DangerousPatterns);
    var bodyLines := Split(SanitizedBody(code), '\n');
    if |kept| == 0 {
      EmptyLineIsFree();
      assert bodyLines == [""];
    } else {
      SplitJoin(kept, '\n');
      assert bodyLines == kept;
    }
  }

  /** Prepending the import lines keeps every line free of the patterns. */
  lemma PrefixedLinesAreFree(body: string)
    requires forall l :: l in Split(body, '\n') ==> FreeOf(l, DangerousPatterns)
    ensures forall l :: l in Split(ManimImportPrefix + body, '\n') ==> FreeOf(l, DangerousPatterns)
  {
    ImportLineIsFree();
    EmptyLineIsFree();
    PrefixAsLines(body);
    var lines := [ImportLine, ""] + Split(body, '\n');
    assert forall l :: l in lines ==> FreeOf(l, DangerousPatterns);
    SplitJoin(lines, '\n');
  }

  /** The lines of the sanitised output: the kept lines, after the import lines when prepended. */
  lemma SanitizedLinesAreFree(code: string)
    ensures var body := SanitizedBody(code);
            var out := if HasManimImport(body) then body else ManimImportPrefix + body;
            && out == Join(Split(out, '\n'), "\n")
            && forall l :: l in Split(out, '\n') ==> FreeOf(l, DangerousPatterns)
  {
    var body := SanitizedBody(code);
    var out := if HasManimImport(body) then body else ManimImportPrefix + body;
    JoinSplit(out, '\n');
    BodyLinesAreFree(code);
    if !HasManimImport(body) {
      PrefixedLinesAreFree(body);
    }
  }

  /**
   * The specification of `sanitize_manim_code`: dangerous lines removed, then
   * `from manim import *` prepended when neither import form is left. The result
   * contains no dangerous pattern anywhere, and always has a Manim import.
   */
  function Sanitized(code: string): (r: string)
    ensures forall p :: p in DangerousPatterns ==> !Contains(r, p)
    ensures HasManimImport(r)
  {
    var body := SanitizedBody(code);
    SanitizedOutputSafe(code, body);
    if HasManimImport(body) then body else ManimImportPrefix + body
  }

  /** The two promises of `Sanitized`, for the body it computes. */
  lemma SanitizedOutputSafe(code: string, body: string)
    requires body == SanitizedBody(code)
    ensures var out := if HasManimImport(body) then body else ManimImportPrefix + body;
            (forall p :: p in DangerousPatterns ==> !Contains(out, p)) && HasManimImport(out)
  {
    SanitizedLinesAreFree(code);
    var out := if HasManimImport(body) then body else ManimImportPrefix + body;
    FreeLinesJoinFree(Split(out, '\n'));
    if !HasManimImport(body) {
      StartsWithContains(ManimImportPrefix + body, "from manim import");
    }
  }

  lemma {:induction false} LinesFreeOfAll(lines: seq<string>, ps: seq<string>)
    requires forall l :: l in lines ==> FreeOf(l, ps)
    ensures LinesFreeOf(lines, ps) == lines
  {
    if |lines| > 0 {
      LinesFreeOfAll(lines[1..], ps);
    }
  }

  lemma {:induction false} LinesFreeOfConcat(a: seq<string>, b: seq<string>, ps: seq<string>)
    ensures LinesFreeOf(a + b, ps) == LinesFreeOf(a, ps) + LinesFreeOf(b, ps)
  {
    if |a| == 0 {
      assert a + b == b;
    } else {
      var h := if FreeOf(a[0], ps) then [a[0]] else [];
      assert (a + b)[0] == a[0];
      assert (a + b)[1..] == a[1..] + b;
      assert LinesFreeOf(a + b, ps) == h + LinesFreeOf(a[1..] + b, ps);
      assert LinesFreeOf(a, ps) == h + LinesFreeOf(a[1..], ps);
      LinesFreeOfConcat(a[1..], b, ps);
      assert h + (LinesFreeOf(a[1..], ps) + LinesFreeOf(b, ps)) == (h + LinesFreeOf(a[1..], ps)) + LinesFreeOf(b, ps);
    }
  }

  /** Sanitising sanitised code changes nothing. */
  lemma SanitizeIdempotent(code: string)
    ensures Sanitized(Sanitized(code)) == Sanitized(code)
  {
    var out := Sanitized(code);
    SanitizedLinesAreFree(code);
    LinesFreeOfAll(Split(out, '\n'), DangerousPatterns);
    assert SanitizedBody(out) == out;
  }

  /** Code with no dangerous pattern and a Manim import passes through unchanged. */
  lemma SanitizeKeepsCleanCode(code: string)
    requires forall p :: p in DangerousPatterns ==> !Contains(code, p)
    requires HasManimImport(code)
    ensures Sanitized(code) == code
  {
    var lines := Split(code, '\n');
    JoinSplit(code, '\n');
    forall l | l in lines ensures FreeOf(l, DangerousPatterns) {
      var k :| 0 <= k < |lines| && lines[k] == l;
      forall p | p in DangerousPatterns ensures !Contains(l, p) {
        PartContainedInJoin(lines, "\n", k, p);
      }
    }
    LinesFreeOfAll(lines, DangerousPatterns);
  }

  /** Bare, stripped, clean Manim code survives extraction and sanitising unchanged. */
  lemma CleanCodeSurvives(code: string)
    requires !Contains(code, Fence)
    requires NoOuterSpace(code)
    requires forall p :: p in DangerousPatterns ==> !Contains(code, p)
    requires HasManimImport(code)
    ensures Sanitized(ExtractCodeBlock(code)) == code
  {
    assert ExtractCodeBlock(code) == code by {
      ExtractWithoutFence(code);
      StripNoOuterSpace(code);
    }
    SanitizeKeepsCleanCode(code);
  }

  /**
   * Removing is by whole lines: a dangerous line between clean lines disappears
   * and the lines around it survive unchanged and in order.
   */
  lemma SanitizeDropsOnlyDangerousLine(before: seq<string>, bad: string, after: seq<string>)
    requires forall l :: l in before + [bad] + after ==> '\n' !in l
    requires forall l :: l in before + after ==> FreeOf(l, DangerousPatterns)
    requires !FreeOf(bad, DangerousPatterns)
    ensures SanitizedBody(Join(before + [bad] + after, "\n")) == Join(before + after, "\n")
  {
    SplitJoin(before + [bad] + after, '\n');
    LinesFreeOfDropsLine(before, bad, after, DangerousPatterns);
  }

  lemma LinesFreeOfDropsLine(before: seq<string>, bad: string, after: seq<string>, ps: seq<string>)
    requires forall l :: l in before + after ==> FreeOf(l, ps)
    requires !FreeOf(bad, ps)
    ensures LinesFreeOf(before + [bad] + after, ps) == before + after
  {
    forall l | l in before ensures FreeOf(l, ps) {
      assert l in before + after;
    }
    forall l | l in after ensures FreeOf(l, ps) {
      assert l in before + after;
    }
    LinesFreeOfAll(before, ps);
    LinesFreeOfAll(after, ps);
    assert LinesFreeOf([bad], ps) == [] by {
      assert [bad][0] == bad;
      assert [bad][1..] == [];
    }
    LinesFreeOfConcat(before, [bad], ps);
    assert LinesFreeOf(before + [bad], ps) == before;
    LinesFreeOfConcat(before + [bad], after, ps);
  }

  lemma {:induction false} LinesFreeOfEmpty(lines: seq<string>)
    ensures LinesFreeOf(lines, []) == lines
  {
    if |lines| > 0 {
      LinesFreeOfEmpty(lines[1..]);
    }
  }

  lemma {:induction false} LinesFreeOfStep(lines: seq<string>, ps: seq<string>, p: string)
    ensures LinesFreeOf(LinesFreeOf(lines, ps), [p]) == LinesFreeOf(lines, ps + [p])
  {
    if |lines| > 0 {
      LinesFreeOfStep(lines[1..], ps, p);
      assert FreeOf(lines[0], ps + [p]) <==> FreeOf(lines[0], ps) && FreeOf(lines[0], [p]);
      LinesFreeOfConcat(if FreeOf(lines[0], ps) then [lines[0]] else [], LinesFreeOf(lines[1..], ps), [p]);
    }
  }

  /** One pass of the sanitiser's loop: drop the lines containing `pattern`, if any do. */
  function DropLinesWith(code: string, pattern: string): string {
    if Contains(code, pattern) then Join(LinesFreeOf(Split(code, '\n'), [pattern]), "\n") else code
  }

  /** A pass over the kept lines of the earlier passes keeps exactly the lines free of one more pattern. */
  lemma DropLinesWithStep(original: seq<string>, ps: seq<string>, pattern: string)
    requires forall l :: l in original ==> '\n' !in l
    requires |pattern| > 0
    ensures DropLinesWith(Join(LinesFreeOf(original, ps), "\n"), pattern)
            == Join(LinesFreeOf(original, ps + [pattern]), "\n")
  {
    var lines := LinesFreeOf(original, ps);
    LinesFreeOfSound(original, ps);
    LinesFreeOfStep(original, ps, pattern);
    DropLinesWithJoin(lines, pattern);
  }

  lemma DropLinesWithJoin(lines: seq<string>, pattern: string)
    requires forall l :: l in lines ==> '\n' !in l
    requires |pattern| > 0
    ensures DropLinesWith(Join(lines, "\n"), pattern) == Join(LinesFreeOf(lines, [pattern]), "\n")
  {
    var current := Join(lines, "\n");
    assert |lines| == 0 ==> !Contains(current, pattern);
    if Contains(current, pattern) {
      SplitJoin(lines, '\n');
    } else {
      forall k | 0 <= k < |lines| ensures !Contains(lines[k], pattern) {
        PartContainedInJoin(lines, "\n", k, pattern);
      }
      LinesFreeOfAll(lines, [pattern]);
    }
  }

  /**
   * `sanitize_manim_code` as written: one pass per pattern, each re-splitting
   * the current code and dropping the lines that contain that pattern, then the
   * import check.
   */
  method SanitizeManimCode(code: string) returns (r: string)
    ensures r == Sanitized(code)
  {
    ghost var original := Split(code, '\n');
    LinesFreeOfEmpty(original);
    JoinSplit(code, '\n');
    var current := code;
    var i := 0;
    while i < |DangerousPatterns|
      invariant 0 <= i <= |DangerousPatterns|
      invariant current == Join(LinesFreeOf(original, DangerousPatterns[..i]), "\n")
    {
      var pattern := DangerousPatterns[i];
      assert |pattern| > 0;
      DropLinesWithStep(original, DangerousPatterns[..i], pattern);
      if Contains(current, pattern) {
        current := Join(LinesFreeOf(Split(current, '\n'), [pattern]), "\n");
      }
      assert DangerousPatterns[..i + 1] == DangerousPatterns[..i] + [pattern];
      i := i + 1;
    }
    assert DangerousPatterns[..i] == DangerousPatterns;
    if !HasManimImport(current) {
      current := ManimImportPrefix + current;
    }
    r := current;
  }

  // ---------------------------------------------------------------------------
  // extract_scene_name

  /** Where the scene pattern matched: the match start and the span of group 1. */
  datatype SceneMatch = SceneMatch(start: nat, nameStart: nat, nameEnd: nat)

  /**
   * One parse of `class\s+(\w+)\s*\(\s*Scene\s*\)` starting at i: group 1 is
   * s[b..c], the opening parenthesis is at d, "Scene" starts at e and the
   * closing parenthesis is at f.
   */
  ghost predicate SceneParse(s: string, i: int, b: int, c: int, d: int, e: int, f: int) {
    && OccursAt(s, "class", i)
    && i + 5 < b < c <= d < e && e + 5 <= f < |s|
    && (forall t :: i + 5 <= t < b ==> IsSpace(s[t]))
    && (forall t :: b <= t < c ==> IsWordChar(s[t]))
    && (forall t :: c <= t < d ==> IsSpace(s[t]))
    && s[d] == '('
    && (forall t :: d + 1 <= t < e ==> IsSpace(s[t]))
    && OccursAt(s, "Scene", e)
    && (forall t :: e + 5 <= t < f ==> IsSpace(s[t]))
    && s[f] == ')'
  }

  /**
   * The match at start i, if any. Each run the pattern repeats is followed by a
   * character outside its class, so the greedy runs never give characters back
   * and the match is the unique parse.
   */
  function SceneMatchAt(s: string, i: nat): (r: Option<SceneMatch>)
    ensures r.Some? ==> r.value.start == i && i + 5 < r.value.nameStart < r.value.nameEnd <= |s|
  {
    if !OccursAt(s, "class", i) then None
    else
      var b := SpaceRunEnd(s, i + 5);
      if b == i + 5 then None
      else
        var c := WordRunEnd(s, b);
        if c == b then None
        else
          var d := SpaceRunEnd(s, c);
          if d == |s| || s[d] != '(' then None
          else
            var e := SpaceRunEnd(s, d + 1);
            if !OccursAt(s, "Scene", e) then None
            else
              var f := SpaceRunEnd(s, e + 5);
              if f < |s| && s[f] == ')' then Some(SceneMatch(i, b, c)) else None
  }

  lemma SceneStartsWithS(s: string, e: int)
    requires OccursAt(s, "Scene", e)
    ensures s[e] == 'S'
  {
    assert s[e..e + 5][0] == s[e];
  }

  /** A match at i is a parse of the pattern at i, with the same group 1. */
  lemma SceneMatchAtIsParse(s: string, i: nat)
    requires SceneMatchAt(s, i).Some?
    ensures var m := SceneMatchAt(s, i).value;
            var d := SpaceRunEnd(s, m.nameEnd);
            var e := SpaceRunEnd(s, d + 1);
            SceneParse(s, i, m.nameStart, m.nameEnd, d, e, SpaceRunEnd(s, e + 5))
  {
  }

  /** Every parse at i is the match SceneMatchAt reports. */
  lemma SceneParseIsMatch(s: string, i: nat, b: int, c: int, d: int, e: int, f: int)
    requires SceneParse(s, i, b, c, d, e, f)
    ensures SceneMatchAt(s, i) == Some(SceneMatch(i, b as nat, c as nat))
  {
    SceneParseRuns(s, i, b, c, d, e, f);
  }

  /** The runs of a parse are the maximal runs SceneMatchAt measures. */
  lemma SceneParseRuns(s: string, i: nat, b: int, c: int, d: int, e: int, f: int)
    requires SceneParse(s, i, b, c, d, e, f)
    ensures 0 <= b && 0 <= c && 0 <= d && 0 <= e
    ensures SpaceRunEnd(s, i + 5) == b && WordRunEnd(s, b) == c && SpaceRunEnd(s, c) == d
    ensures SpaceRunEnd(s, d + 1) == e && SpaceRunEnd(s, e + 5) == f
  {
    WordIsNotSpace(s[b]);
    SpaceRunStops(s, i + 5, b);
    if c < d {
      SpaceIsNotWord(s[c]);
    }
    WordRunStops(s, b, c);
    SpaceRunStops(s, c, d);
    SceneStartsWithS(s, e);
    SpaceRunStops(s, d + 1, e);
    SpaceRunStops(s, e + 5, f);
  }

  lemma WordIsNotSpace(ch: char)
    requires IsWordChar(ch)
    ensures !IsSpace(ch)
  {
  }

  lemma SpaceIsNotWord(ch: char)
    requires IsSpace(ch)
    ensures !IsWordChar(ch)
  {
  }

  /** A whitespace run over s[j..k] followed by a non-space character ends at k. */
  lemma {:induction false} SpaceRunStops(s: string, j: nat, k: nat)
    requires j <= k < |s|
    requires forall t :: j <= t < k ==> IsSpace(s[t])
    requires !IsSpace(s[k])
    ensures SpaceRunEnd(s, j) == k
    decreases k - j
  {
    if j < k {
      SpaceRunStops(s, j + 1, k);
    }
  }

  /** A word run over s[j..k] followed by a non-word character (or the end) ends at k. */
  lemma {:induction false} WordRunStops(s: string, j: nat, k: nat)
    requires j <= k <= |s|
    requires forall t :: j <= t < k ==> IsWordChar(s[t])
    requires k < |s| ==> !IsWordChar(s[k])
    ensures WordRunEnd(s, j) == k
    decreases k - j
  {
    if j < k {
      WordRunStops(s, j + 1, k);
    }
  }

  /** `re.search` for the scene pattern: the leftmost start at or after `from`. */
  function SceneSearch(s: string, from: nat): (r: Option<SceneMatch>)
    ensures r.Some? ==> from <= r.value.start && SceneMatchAt(s, r.value.start) == r
    ensures r.Some? ==> forall i: nat :: from <= i < r.value.start ==> SceneMatchAt(s, i).None?
    ensures r.None? ==> forall i: nat :: from <= i ==> SceneMatchAt(s, i).None?
    decreases |s| - from
  {
    if from > |s| then None
    else
      match SceneMatchAt(s, from)
      case Some(m) => Some(m)
      case None => SceneSearch(s, from + 1)
  }

  /** `extract_scene_name`: group 1 of the first scene-pattern match, or `None`. */
  function ExtractSceneName(code: string): (r: Option<string>)
    ensures r.Some? ==> |r.value| > 0 && forall k :: 0 <= k < |r.value| ==> IsWordChar(r.value[k])
  {
    match SceneSearch(code, 0)
    case Some(m) =>
      SceneMatchAtIsParse(code, m.start);
      Some(code[m.nameStart..m.nameEnd])
    case None => None
  }

  /** No name is found exactly when the code has no parse of the scene pattern anywhere. */
  lemma SceneNameMissingIffNoParse(code: string)
    ensures ExtractSceneName(code).None? <==> forall i: nat, b, c, d, e, f :: !SceneParse(code, i, b, c, d, e, f)
  {
    var r := SceneSearch(code, 0);
    if r.Some? {
      SceneMatchAtIsParse(code, r.value.start);
    } else {
      forall i: nat, b, c, d, e, f ensures !SceneParse(code, i, b, c, d, e, f) {
        if SceneParse(code, i, b, c, d, e, f) {
          SceneParseIsMatch(code, i, b, c, d, e, f);
        }
      }
    }
  }

  /**
   * The found name is group 1 of the leftmost parse: every parse starts no
   * earlier than the one the name comes from.
   */
  lemma SceneNameIsLeftmostParse(code: string, i: nat, b: int, c: int, d: int, e: int, f: int)
    requires SceneParse(code, i, b, c, d, e, f)
    ensures ExtractSceneName(code).Some?
    ensures var m := SceneSearch(code, 0).value;
            m.start <= i && ExtractSceneName(code) == Some(code[m.nameStart..m.nameEnd])
            && (m.start == i ==> ExtractSceneName(code) == Some(code[b..c]))
  {
    SceneParseIsMatch(code, i, b, c, d, e, f);
  }
}
