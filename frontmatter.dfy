/**
 * The validation script's input handling: the `key: value` front matter of
 * a markdown input file, and where a published media path is found on disk.
 */
module Frontmatter {
  import opened Wrappers
  import opened Strings
  import opened OrderedMap
  import Media

  /** The front matter delimiter line. */
  const Delimiter := "---"

  /** `value.strip().strip('"').strip("'")`. */
  function CleanValue(v: string): (r: string)
    ensures |r| > 0 ==> r[0] != '\'' && r[|r| - 1] != '\''
  {
    StripChar(StripChar(Strip(v), '"'), '\'')
  }

  /** A stripped slice has none of the characters its source lacks. */
  lemma StripKeepsAbsentChar(s: string, c: char)
    requires c !in s
    ensures c !in Strip(s)
  {
    var i := |s| - |TrimLeft(s, Whitespace)|;
    SliceKeepsAbsentChar(s, Strip(s), i, c);
  }

  /** A slice of `s` has none of the characters `s` lacks. */
  lemma SliceKeepsAbsentChar(s: string, r: string, i: nat, c: char)
    requires c !in s
    requires i + |r| <= |s| && r == s[i..i + |r|]
    ensures c !in r
  {
    assert forall m :: 0 <= m < |r| ==> r[m] == s[i + m];
  }

  /** `Find` of a one-character pattern finds the first occurrence of that character. */
  lemma FindChar(l: string, c: char)
    ensures Find(l, [c], 0).None? <==> c !in l
    ensures Find(l, [c], 0).Some? ==> Find(l, [c], 0).value < |l| && l[Find(l, [c], 0).value] == c
    ensures Find(l, [c], 0).Some? ==> c !in l[..Find(l, [c], 0).value]
  {
    var r := Find(l, [c], 0);
    assert forall i :: 0 <= i < |l| && l[i] == c ==> OccursAt(l, [c], i) by {
      forall i | 0 <= i < |l| && l[i] == c ensures OccursAt(l, [c], i) {
        assert l[i..i + 1] == [c];
      }
    }
    if r.Some? {
      assert l[r.value..r.value + 1] == [c];
      assert l[r.value] == l[r.value..r.value + 1][0];
    }
  }

  /**
   * One front matter line: ignored unless its stripped text holds a `:`;
   * otherwise split at the first `:`, the key stripped and the value cleaned.
   */
  function LineEntry(line: string): (r: Option<(string, string)>)
    ensures r.None? <==> ':' !in Strip(line)
    ensures r.Some? ==> ':' !in r.value.0
  {
    var l := Strip(line);
    FindChar(l, ':');
    match Find(l, ":", 0)
    case None => None
    case Some(i) =>
      StripKeepsAbsentChar(l[..i], ':');
      Some((Strip(l[..i]), CleanValue(l[i + 1..])))
  }

  /**
   * The rule for one line: after the line is stripped, the key is the stripped
   * text before its first `:` and the value is the cleaned text after it.
   */
  lemma LineEntryRule(line: string, k: string, v: string)
    requires Strip(line) == k + ":" + v
    requires ':' !in k
    ensures LineEntry(line) == Some((Strip(k), CleanValue(v)))
  {
    var l := Strip(line);
    assert l[|k|..|k| + 1] == ":";
    forall i | 0 <= i < |k|
      ensures !OccursAt(l, ":", i)
    {
      assert l[i..i + 1][0] == k[i];
    }
    FindFirst(l, ":", 0, |k|);
    assert l[..|k|] == k;
    assert l[|k| + 1..] == v;
  }

  /** A value between two copies of a character that `t` keeps has kept ends once wrapped. */
  lemma WrappedEnds(q: char, v: string, t: TrimSet)
    requires !Drops(t, q)
    ensures KeepsEnds([q] + v + [q], t)
    ensures AllDrop([q], Only(q))
  {
    var w := [q] + v + [q];
    assert w[0] == q && w[|w| - 1] == q;
  }

  /** The whitespace and the double quotes around a value go; inner characters stay. */
  lemma CleanValueDoubleQuoted(left: string, v: string, right: string)
    requires AllDrop(left, Whitespace) && AllDrop(right, Whitespace)
    requires KeepsEnds(v, Only('"')) && KeepsEnds(v, Only('\''))
    ensures CleanValue(left + ['"'] + v + ['"'] + right) == v
  {
    var quoted := ['"'] + v + ['"'];
    assert left + ['"'] + v + ['"'] + right == left + quoted + right;
    WrappedEnds('"', v, Whitespace);
    StripSurrounded(left, quoted, right, Whitespace);
    StripSurrounded(['"'], v, ['"'], Only('"'));
    NothingToStrip(v, Only('\''));
  }

  /** The whitespace and the single quotes around a value go; double quotes inside them stay. */
  lemma CleanValueSingleQuoted(left: string, v: string, right: string)
    requires AllDrop(left, Whitespace) && AllDrop(right, Whitespace)
    requires KeepsEnds(v, Only('\''))
    ensures CleanValue(left + ['\''] + v + ['\''] + right) == v
  {
    var quoted := ['\''] + v + ['\''];
    assert left + ['\''] + v + ['\''] + right == left + quoted + right;
    WrappedEnds('\'', v, Whitespace);
    WrappedEnds('\'', v, Only('"'));
    StripSurrounded(left, quoted, right, Whitespace);
    NothingToStrip(quoted, Only('"'));
    StripSurrounded(['\''], v, ['\''], Only('\''));
  }

  /** An unquoted value only loses its surrounding whitespace. */
  lemma CleanValueBare(left: string, v: string, right: string)
    requires AllDrop(left, Whitespace) && AllDrop(right, Whitespace)
    requires KeepsEnds(v, Whitespace) && KeepsEnds(v, Only('"')) && KeepsEnds(v, Only('\''))
    ensures CleanValue(left + v + right) == v
  {
    StripSurrounded(left, v, right, Whitespace);
    NothingToStrip(v, Only('"'));
    NothingToStrip(v, Only('\''));
  }

  /** A string whose ends `t` keeps is left as it is. */
  lemma NothingToStrip(v: string, t: TrimSet)
    requires KeepsEnds(v, t)
    ensures StripBy(v, t) == v
  {
    assert "" + v + "" == v;
    StripSurrounded("", v, "", t);
  }

  /** What each line contributes, in order. */
  function LineEntries(lines: seq<string>): seq<Option<(string, string)>> {
    seq(|lines|, i requires 0 <= i < |lines| => LineEntry(lines[i]))
  }

  /** The dict after assigning each present entry in turn: a later key overwrites an earlier one. */
  function Build(es: seq<Option<(string, string)>>): (r: Entries<string>)
    ensures UniqueKeys(r)
  {
    if |es| == 0 then []
    else
      var prev := Build(es[..|es| - 1]);
      match es[|es| - 1]
      case None => prev
      case Some(kv) => AssignKeepsUnique(prev, kv.0, kv.1); Assign(prev, kv.0, kv.1)
  }

  /** The front matter dict built from `lines`. */
  function EntriesOf(lines: seq<string>): Entries<string> {
    Build(LineEntries(lines))
  }

  /** `parse_frontmatter`: the dict and the remaining content. */
  function Parsed(content: string): (Entries<string>, string) {
    if StartsWith(content, Delimiter) then
      match Find(content, Delimiter, |Delimiter|)
      case Some(j) => (EntriesOf(Split(Strip(content[|Delimiter|..j]), '\n')), Strip(content[j + |Delimiter|..]))
      case None => ([], content)
    else ([], content)
  }

  /** `parse_frontmatter`, as the script runs it: one pass over the front matter lines. */
  method ParseFrontmatter(content: string) returns (frontmatter: Entries<string>, remaining: string)
    ensures (frontmatter, remaining) == Parsed(content)
    ensures UniqueKeys(frontmatter)
  {
    frontmatter := [];
    remaining := content;
    if StartsWith(content, Delimiter) {
      var close := Find(content, Delimiter, |Delimiter|);
      if close.Some? {
        var j := close.value;
        remaining := Strip(content[j + |Delimiter|..]);
        frontmatter := CollectEntries(Split(Strip(content[|Delimiter|..j]), '\n'));
      }
    }
  }

  /** The loop of `parse_frontmatter`: each line with a colon assigns its key. */
  method CollectEntries(lines: seq<string>) returns (frontmatter: Entries<string>)
    ensures frontmatter == EntriesOf(lines)
  {
    frontmatter := [];
    ghost var es := LineEntries(lines);
    var i := 0;
    while i < |lines|
      invariant 0 <= i <= |lines|
      invariant frontmatter == Build(es[..i])
    {
      BuildStep(es, i);
      var entry := LineEntry(lines[i]);
      if entry.Some? {
        frontmatter := Assign(frontmatter, entry.value.0, entry.value.1);
      }
      i := i + 1;
    }
    assert es[..|lines|] == es;
  }

  /** One more entry, as the loop body handles it. */
  lemma BuildStep(es: seq<Option<(string, string)>>, i: nat)
    requires i < |es|
    ensures Build(es[..i + 1]) == match es[i]
                                  case None => Build(es[..i])
                                  case Some(kv) => Assign(Build(es[..i]), kv.0, kv.1)
  {
    assert es[..i + 1][..i] == es[..i];
  }

  /** Content without an opening delimiter, or without a closing one, comes back whole with no keys. */
  lemma ParsedWithoutDelimiters(content: string)
    requires !StartsWith(content, Delimiter) || forall i :: |Delimiter| <= i ==> !OccursAt(content, Delimiter, i)
    ensures Parsed(content) == ([], content)
  {
  }

  /**
   * With front matter `fm` holding no delimiter, the remaining content is the
   * stripped text after the closing delimiter, whatever later delimiters it holds.
   */
  lemma ParsedSplitsAtSecondDelimiter(fm: string, body: string)
    requires forall i :: 3 <= i < 3 + |fm| ==> !OccursAt(Delimiter + fm + Delimiter + body, Delimiter, i)
    ensures Parsed(Delimiter + fm + Delimiter + body) == (EntriesOf(Split(Strip(fm), '\n')), Strip(body))
  {
    var content := Delimiter + fm + Delimiter + body;
    assert content[..3] == Delimiter;
    assert content[3 + |fm|..3 + |fm| + 3] == Delimiter;
    FindFirst(content, Delimiter, 3, 3 + |fm|);
    assert content[3..3 + |fm|] == fm;
    assert content[3 + |fm| + 3..] == body;
  }

  /** A key is present exactly when some entry carries it. */
  lemma {:induction false} BuildKeys(es: seq<Option<(string, string)>>, k: string)
    ensures Lookup(Build(es), k).Some? <==> exists i :: 0 <= i < |es| && es[i].Some? && es[i].value.0 == k
  {
    if |es| > 0 {
      var n := |es| - 1;
      var init := es[..n];
      BuildKeys(init, k);
      BuildLookupLast(es, k);
      if Lookup(Build(es), k).Some? && !(es[n].Some? && es[n].value.0 == k) {
        var i :| 0 <= i < |init| && init[i].Some? && init[i].value.0 == k;
        assert es[i] == init[i];
      }
      if exists i :: 0 <= i < |es| && es[i].Some? && es[i].value.0 == k {
        var i :| 0 <= i < |es| && es[i].Some? && es[i].value.0 == k;
        if i < n {
          assert init[i] == es[i];
        }
      }
    }
  }

  /** Entry `i` sets `k` to `v` and no later entry sets `k`. */
  predicate LastCarries(es: seq<Option<(string, string)>>, i: int, k: string, v: string) {
    && 0 <= i < |es|
    && es[i] == Some((k, v))
    && forall j :: i < j < |es| ==> es[j].None? || es[j].value.0 != k
  }

  /** The last entry decides `k` when it carries `k`, and leaves it to the earlier ones otherwise. */
  lemma BuildLookupLast(es: seq<Option<(string, string)>>, k: string)
    requires |es| > 0
    ensures var last := es[|es| - 1];
            Lookup(Build(es), k) == if last.Some? && last.value.0 == k then Some(last.value.1)
                                   else Lookup(Build(es[..|es| - 1]), k)
  {
    var n := |es| - 1;
    if es[n].Some? {
      LookupAssign(Build(es[..n]), es[n].value.0, es[n].value.1, k);
    }
  }

  /** A present key holds the value of the last entry that carries it. */
  lemma {:induction false} BuildLast(es: seq<Option<(string, string)>>, k: string, v: string) returns (i: nat)
    requires Lookup(Build(es), k) == Some(v)
    ensures LastCarries(es, i, k, v)
  {
    if |es| == 0 {
      assert false;
    }
    var n := |es| - 1;
    BuildLookupLast(es, k);
    if es[n].Some? && es[n].value.0 == k {
      i := n;
    } else {
      i := BuildLast(es[..n], k, v);
      LastCarriesExtend(es, i, k, v);
    }
  }

  /** An entry that does not carry `k` keeps the last carrier of `k` the last one. */
  lemma LastCarriesExtend(es: seq<Option<(string, string)>>, i: nat, k: string, v: string)
    requires |es| > 0
    requires LastCarries(es[..|es| - 1], i, k, v)
    requires es[|es| - 1].None? || es[|es| - 1].value.0 != k
    ensures LastCarries(es, i, k, v)
  {
    var init := es[..|es| - 1];
    assert es[i] == init[i];
    forall j | i < j < |es|
      ensures es[j].None? || es[j].value.0 != k
    {
      if j < |es| - 1 {
        assert es[j] == init[j];
      }
    }
  }

  /** The entries of one more line are those of the earlier lines, then its own. */
  lemma LineEntriesSnoc(lines: seq<string>, line: string)
    ensures LineEntries(lines + [line]) == LineEntries(lines) + [LineEntry(line)]
  {
    var es := LineEntries(lines + [line]);
    assert es[..|lines|] == LineEntries(lines);
    assert es == es[..|lines|] + [es[|lines|]];
  }

  /** Building with one more entry: nothing for an absent entry, an assignment otherwise. */
  lemma BuildSnoc(es: seq<Option<(string, string)>>, e: Option<(string, string)>)
    ensures Build(es + [e]) == match e
                               case None => Build(es)
                               case Some(kv) => Assign(Build(es), kv.0, kv.1)
  {
    assert (es + [e])[..|es|] == es;
  }

  /** A line without `:` leaves the dict as it was. */
  lemma LineWithoutColonIgnored(lines: seq<string>, line: string)
    requires ':' !in Strip(line)
    ensures EntriesOf(lines + [line]) == EntriesOf(lines)
  {
    LineEntriesSnoc(lines, line);
    BuildSnoc(LineEntries(lines), LineEntry(line));
  }

  /** A line with a key sets that key to its value, and leaves every other key as it was. */
  lemma LaterLineOverrides(lines: seq<string>, line: string, k: string, v: string, other: string)
    requires LineEntry(line) == Some((k, v))
    ensures Lookup(EntriesOf(lines + [line]), k) == Some(v)
    ensures other != k ==> Lookup(EntriesOf(lines + [line]), other) == Lookup(EntriesOf(lines), other)
  {
    LineEntriesSnoc(lines, line);
    BuildSnoc(LineEntries(lines), LineEntry(line));
    LookupAssign(EntriesOf(lines), k, v, other);
  }

  /**
   * The whole dict: a key is present exactly when some line carries it, and
   * then its value is the one the last such line gives.
   */
  lemma EntriesLookup(lines: seq<string>, k: string)
    ensures Lookup(EntriesOf(lines), k).Some? <==>
              exists i :: 0 <= i < |lines| && LineEntry(lines[i]).Some? && LineEntry(lines[i]).value.0 == k
    ensures Lookup(EntriesOf(lines), k).Some? ==>
              exists i :: && 0 <= i < |lines|
                          && LineEntry(lines[i]) == Some((k, Lookup(EntriesOf(lines), k).value))
                          && forall j :: i < j < |lines| ==> LineEntry(lines[j]).None? || LineEntry(lines[j]).value.0 != k
  {
    var es := LineEntries(lines);
    assert |es| == |lines| && forall i :: 0 <= i < |lines| ==> es[i] == LineEntry(lines[i]);
    BuildKeys(es, k);
    if Lookup(Build(es), k).Some? {
      var i := BuildLast(es, k, Lookup(Build(es), k).value);
      assert LineEntry(lines[i]) == es[i];
    }
  }

  /** Path `base / seg` for one segment: an absolute segment replaces the base, an empty one adds nothing. */
  function PathJoin(base: string, seg: string): (r: string)
    ensures |seg| > 0 && seg[0] != '/' ==> r == base + "/" + seg
  {
    if |seg| == 0 then base
    else if seg[0] == '/' then seg
    else base + "/" + seg
  }

  const StaticPrefix := "/static/"

  /**
   * The file `copy_generated_media` looks for: nothing for a missing or empty
   * path; a `/static/` path minus those eight characters under the project's
   * static directory; any other path as given.
   */
  function MediaSource(mediaPath: Option<string>, projectRoot: string): (r: Option<string>)
    ensures r.None? <==> mediaPath.None? || mediaPath.value == ""
    ensures r.Some? && !StartsWith(mediaPath.value, StaticPrefix) ==> r.value == mediaPath.value
  {
    match mediaPath
    case None => None
    case Some(p) =>
      if p == "" then None
      else if StartsWith(p, StaticPrefix) then
        Some(PathJoin(PathJoin(PathJoin(PathJoin(projectRoot, "project"), "app"), "static"), p[|StaticPrefix|..]))
      else Some(p)
  }

  /** A published path is a `/static/` path whose rest is `generated/<name>`. */
  lemma PublishedPathIsStatic(name: string)
    ensures StartsWith(Media.PublicPrefix + name, StaticPrefix)
    ensures (Media.PublicPrefix + name)[|StaticPrefix|..] == "generated/" + name
  {
    var p := Media.PublicPrefix + name;
    assert Media.PublicPrefix == StaticPrefix + "generated/";
    assert p == StaticPrefix + ("generated/" + name);
    assert p[..|StaticPrefix|] == StaticPrefix;
  }

  /** The static directory the script looks under, with a relative path appended. */
  lemma StaticDirJoin(projectRoot: string, rel: string)
    requires |rel| > 0 && rel[0] != '/'
    ensures PathJoin(PathJoin(PathJoin(PathJoin(projectRoot, "project"), "app"), "static"), rel)
            == projectRoot + "/" + "project" + "/" + "app" + "/" + "static" + "/" + rel
  {
  }

  /**
   * Every `/static/` path resolves under `<root>/project/app/static`: a
   * relative rest is appended, an empty rest names the directory itself, and
   * an absolute rest replaces the root, as pathlib's `/` does.
   */
  lemma StaticPathResolved(rel: string, projectRoot: string)
    ensures |rel| > 0 && rel[0] != '/' ==>
              MediaSource(Some(StaticPrefix + rel), projectRoot) == Some(projectRoot + "/" + "project" + "/" + "app" + "/" + "static" + "/" + rel)
    ensures |rel| == 0 ==>
              MediaSource(Some(StaticPrefix + rel), projectRoot) == Some(projectRoot + "/" + "project" + "/" + "app" + "/" + "static")
    ensures |rel| > 0 && rel[0] == '/' ==> MediaSource(Some(StaticPrefix + rel), projectRoot) == Some(rel)
  {
    var p := StaticPrefix + rel;
    assert p[..|StaticPrefix|] == StaticPrefix;
    assert p[|StaticPrefix|..] == rel;
    if |rel| > 0 && rel[0] != '/' {
      StaticDirJoin(projectRoot, rel);
    }
  }

  /** The directory the media generator copies into, spelled out segment by segment. */
  lemma OutputDirSegments(projectRoot: string, name: string)
    ensures projectRoot + "/" + "project" + "/" + "app" + "/" + "static" + "/" + ("generated/" + name)
            == projectRoot + "/" + Media.MediaOutputDir + "/" + name
  {
    assert Media.MediaOutputDir == "project" + "/" + "app" + "/" + "static" + "/" + "generated";
  }

  /**
   * Where the media generator's copy lands: `MEDIA_OUTPUT_DIR` is a relative
   * path, so it is taken from the process's working directory `cwd`.
   */
  function CopyTarget(cwd: string, name: string): (r: string)
    ensures EndsWith(r, "/" + Media.MediaOutputDir + "/" + name)
  {
    assert |Media.MediaOutputDir| > 0 && Media.MediaOutputDir[0] == 'p';
    PathJoin(cwd, Media.MediaOutputDir + "/" + name)
  }

  lemma SuffixCancels(a: string, b: string, x: string)
    requires a + x == b + x
    ensures a == b
  {
    assert |a| == |b|;
    assert (a + x)[..|a|] == a;
    assert (b + x)[..|b|] == b;
  }

  /** The script's lookup path is the copy's path exactly when the two directories agree. */
  lemma CopyTargetFromRoot(name: string, projectRoot: string, cwd: string)
    ensures projectRoot + "/" + Media.MediaOutputDir + "/" + name == CopyTarget(cwd, name) <==> cwd == projectRoot
  {
    var tail := "/" + Media.MediaOutputDir + "/" + name;
    assert CopyTarget(cwd, name) == cwd + tail;
    assert projectRoot + "/" + Media.MediaOutputDir + "/" + name == projectRoot + tail;
    if projectRoot + tail == cwd + tail {
      SuffixCancels(projectRoot, cwd, tail);
    }
  }

  /** `/static/generated/<name>` is looked for at `<root>/project/app/static/generated/<name>`. */
  lemma PublishedMediaPath(name: string, projectRoot: string)
    requires |name| > 0
    ensures MediaSource(Some(Media.PublicPrefix + name), projectRoot)
            == Some(projectRoot + "/" + Media.MediaOutputDir + "/" + name)
  {
    PublishedPathIsStatic(name);
    var rel := "generated/" + name;
    assert rel[0] == 'g';
    assert Media.PublicPrefix + name == StaticPrefix + rel;
    StaticPathResolved(rel, projectRoot);
    OutputDirSegments(projectRoot, name);
  }

  /**
   * The path the media generator publishes, `/static/generated/<name>`, is
   * looked for at `<root>/project/app/static/generated/<name>`, with `root` the
   * script's grandparent directory. That is the file the generator copied
   * exactly when the generator's working directory is that root.
   */
  lemma PublishedMediaFound(name: string, projectRoot: string, cwd: string)
    requires |name| > 0
    ensures MediaSource(Some(Media.PublicPrefix + name), projectRoot)
            == Some(projectRoot + "/" + Media.MediaOutputDir + "/" + name)
    ensures MediaSource(Some(Media.PublicPrefix + name), projectRoot) == Some(CopyTarget(cwd, name))
            <==> cwd == projectRoot
  {
    PublishedMediaPath(name, projectRoot);
    CopyTargetFromRoot(name, projectRoot, cwd);
  }
}
