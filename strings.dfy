/**
 * The Python `str` operations the workflow relies on, over Dafny strings
 * (sequences of Unicode scalar values, which is what Python indexes).
 */
module Strings {
  import opened Wrappers

  /** `c.isspace()` in Python; also the set that `\s` matches in a `str` regex. */
  predicate IsSpace(c: char) {
    || ('\t' <= c <= '\r')
    || ('\U{1C}' <= c <= ' ')
    || c == '\U{85}' || c == '\U{A0}' || c == '\U{1680}'
    || ('\U{2000}' <= c <= '\U{200A}')
    || c == '\U{2028}' || c == '\U{2029}' || c == '\U{202F}' || c == '\U{205F}' || c == '\U{3000}'
  }

  /** The characters `\w` matches, restricted to ASCII: letters, digits and `_`. */
  predicate IsWordChar(c: char) {
    ('a' <= c <= 'z') || ('A' <= c <= 'Z') || ('0' <= c <= '9') || c == '_'
  }

  /** The characters a strip removes: whitespace, or one given character. */
  datatype TrimSet = Whitespace | Only(ch: char)

  predicate Drops(t: TrimSet, c: char) {
    match t
    case Whitespace => IsSpace(c)
    case Only(ch) => c == ch
  }

  /** Drops the longest prefix whose characters are in `t`. */
  function TrimLeft(s: string, t: TrimSet): (r: string)
    ensures |r| <= |s| && r == s[|s| - |r|..]
    ensures |r| > 0 ==> !Drops(t, r[0])
  {
    if |s| > 0 && Drops(t, s[0]) then TrimLeft(s[1..], t) else s
  }

  /** Drops the longest suffix whose characters are in `t`. */
  function TrimRight(s: string, t: TrimSet): (r: string)
    ensures |r| <= |s| && r == s[..|r|]
    ensures |r| > 0 ==> !Drops(t, r[|r| - 1])
  {
    if |s| > 0 && Drops(t, s[|s| - 1]) then TrimRight(s[..|s| - 1], t) else s
  }

  /**
   * `s.strip(chars)`: both ends trimmed of the characters in `t`. The result
   * is the slice of `s` that starts where `TrimLeft` stopped.
   */
  function StripBy(s: string, t: TrimSet): (r: string)
    ensures |r| > 0 ==> !Drops(t, r[0]) && !Drops(t, r[|r| - 1])
    ensures var i := |s| - |TrimLeft(s, t)|; i + |r| <= |s| && r == s[i..i + |r|]
  {
    var left := TrimLeft(s, t);
    var r := TrimRight(left, t);
    TrimBothSlice(s, left, r);
    r
  }

  /** A prefix of a suffix of `s` is a slice of `s`. */
  lemma TrimBothSlice(s: string, left: string, r: string)
    requires |left| <= |s| && left == s[|s| - |left|..]
    requires |r| <= |left| && r == left[..|r|]
    ensures var i := |s| - |left|; r == s[i..i + |r|]
  {
  }

  /** `s.strip()`: leading and trailing whitespace removed. */
  function Strip(s: string): (r: string)
    ensures |r| > 0 ==> !IsSpace(r[0]) && !IsSpace(r[|r| - 1])
  {
    StripBy(s, Whitespace)
  }

  /** Neither the first nor the last character is whitespace. */
  predicate NoOuterSpace(s: string) {
    |s| == 0 || (!IsSpace(s[0]) && !IsSpace(s[|s| - 1]))
  }

  /** `s.strip()` leaves a string without outer whitespace as it is. */
  lemma StripNoOuterSpace(s: string)
    requires NoOuterSpace(s)
    ensures Strip(s) == s
  {
    assert TrimLeft(s, Whitespace) == s;
    assert TrimRight(s, Whitespace) == s;
  }

  /** Every character of `p` is one that `t` removes. */
  predicate AllDrop(p: string, t: TrimSet) {
    forall i :: 0 <= i < |p| ==> Drops(t, p[i])
  }

  /** Neither end of `x` is one that `t` removes. */
  predicate KeepsEnds(x: string, t: TrimSet) {
    |x| == 0 || (!Drops(t, x[0]) && !Drops(t, x[|x| - 1]))
  }

  /** Trimming the left removes exactly a removable prefix in front of a kept character. */
  lemma {:induction false} TrimLeftPast(p: string, rest: string, t: TrimSet)
    requires AllDrop(p, t)
    requires |rest| == 0 || !Drops(t, rest[0])
    ensures TrimLeft(p + rest, t) == rest
  {
    if |p| > 0 {
      assert (p + rest)[0] == p[0];
      assert (p + rest)[1..] == p[1..] + rest;
      TrimLeftPast(p[1..], rest, t);
    } else {
      assert p + rest == rest;
    }
  }

  /** Trimming the right removes exactly a removable suffix after a kept character. */
  lemma {:induction false} TrimRightPast(rest: string, q: string, t: TrimSet)
    requires AllDrop(q, t)
    requires |rest| == 0 || !Drops(t, rest[|rest| - 1])
    ensures TrimRight(rest + q, t) == rest
  {
    if |q| > 0 {
      var s := rest + q;
      assert s[|s| - 1] == q[|q| - 1];
      assert s[..|s| - 1] == rest + q[..|q| - 1];
      TrimRightPast(rest, q[..|q| - 1], t);
    } else {
      assert rest + q == rest;
    }
  }

  /** Stripping `p + x + q` gives `x` when `p` and `q` are all removable and `x` keeps its ends. */
  lemma StripSurrounded(p: string, x: string, q: string, t: TrimSet)
    requires AllDrop(p, t) && AllDrop(q, t) && KeepsEnds(x, t)
    ensures StripBy(p + x + q, t) == x
  {
    if |x| > 0 {
      assert p + x + q == p + (x + q);
      assert (x + q)[0] == x[0];
      TrimLeftPast(p, x + q, t);
      TrimRightPast(x, q, t);
    } else {
      assert p + x + q == (p + q) + "";
      assert AllDrop(p + q, t) by {
        assert forall i :: 0 <= i < |p + q| ==> (p + q)[i] == (if i < |p| then p[i] else q[i - |p|]);
      }
      TrimLeftPast(p + q, "", t);
    }
  }

  /** `s.strip(ch)` for a one-character argument. */
  function StripChar(s: string, ch: char): (r: string)
    ensures |r| > 0 ==> r[0] != ch && r[|r| - 1] != ch
  {
    StripBy(s, Only(ch))
  }

  /** `s[:n]`. */
  function Take(s: string, n: nat): (r: string)
    ensures |r| == if |s| < n then |s| else n
    ensures r == s[..|r|]
  {
    if |s| <= n then s else s[..n]
  }

  predicate OccursAt(s: string, p: string, i: int) {
    0 <= i && i + |p| <= |s| && s[i..i + |p|] == p
  }

  /** `p in s`. */
  predicate Contains(s: string, p: string) {
    exists i :: 0 <= i <= |s| - |p| && OccursAt(s, p, i)
  }

  /** `s.startswith(p)`. */
  predicate StartsWith(s: string, p: string) {
    |p| <= |s| && s[..|p|] == p
  }

  /** `s.endswith(p)`. */
  predicate EndsWith(s: string, p: string) {
    |p| <= |s| && s[|s| - |p|..] == p
  }

  /** `s.find(p, from)`, with `None` for -1. */
  function Find(s: string, p: string, from: nat): (r: Option<nat>)
    ensures r.Some? ==> from <= r.value && OccursAt(s, p, r.value)
    ensures r.Some? ==> forall i :: from <= i < r.value ==> !OccursAt(s, p, i)
    ensures r.None? ==> forall i :: from <= i ==> !OccursAt(s, p, i)
    decreases |s| - from
  {
    if from + |p| > |s| then None
    else if OccursAt(s, p, from) then Some(from)
    else Find(s, p, from + 1)
  }

  /** `Find` returns the first occurrence at or after `from`. */
  lemma {:induction false} FindFirst(s: string, p: string, from: nat, j: nat)
    requires from <= j && OccursAt(s, p, j)
    requires forall i :: from <= i < j ==> !OccursAt(s, p, i)
    ensures Find(s, p, from) == Some(j)
    decreases j - from
  {
    if from < j {
      FindFirst(s, p, from + 1, j);
    }
  }

  /** `s.split(c)` for a one-character separator; never empty (`"".split(c) == [""]`). */
  function Split(s: string, c: char): (r: seq<string>)
    ensures |r| >= 1
    ensures forall part :: part in r ==> c !in part
  {
    if |s| == 0 then [""]
    else
      var rest := Split(s[1..], c);
      if s[0] == c then [""] + rest
      else [[s[0]] + rest[0]] + rest[1..]
  }

  /** `sep.join(parts)`. */
  function Join(parts: seq<string>, sep: string): string {
    if |parts| == 0 then ""
    else if |parts| == 1 then parts[0]
    else parts[0] + sep + Join(parts[1..], sep)
  }

  /** Joining the pieces of a split gives back the original string. */
  lemma {:induction false} JoinSplit(s: string, c: char)
    ensures Join(Split(s, c), [c]) == s
  {
    if |s| > 0 {
      var rest := Split(s[1..], c);
      JoinSplit(s[1..], c);
      if s[0] == c {
        assert Split(s, c) == [""] + rest;
      } else {
        var r := Split(s, c);
        assert r == [[s[0]] + rest[0]] + rest[1..];
        if |rest| == 1 {
          assert Join(r, [c]) == [s[0]] + rest[0];
        } else {
          assert Join(rest, [c]) == rest[0] + [c] + Join(rest[1..], [c]);
          assert r[1..] == rest[1..];
          assert Join(r, [c]) == [s[0]] + rest[0] + [c] + Join(rest[1..], [c]);
        }
      }
      assert s == [s[0]] + s[1..];
    }
  }

  lemma {:induction false} SplitWithoutSeparator(x: string, c: char)
    requires c !in x
    ensures Split(x, c) == [x]
  {
    if |x| > 0 {
      SplitWithoutSeparator(x[1..], c);
      assert [x[0]] + x[1..] == x;
    }
  }

  lemma {:induction false} SplitAtSeparator(x: string, c: char, y: string)
    requires c !in x
    ensures Split(x + [c] + y, c) == [x] + Split(y, c)
  {
    var s := x + [c] + y;
    if |x| == 0 {
      assert s[1..] == y;
    } else {
      assert s[1..] == x[1..] + [c] + y;
      SplitAtSeparator(x[1..], c, y);
      assert [x[0]] + x[1..] == x;
    }
  }

  /** Splitting a join of separator-free parts gives back the parts. */
  lemma {:induction false} SplitJoin(parts: seq<string>, c: char)
    requires |parts| >= 1
    requires forall part :: part in parts ==> c !in part
    ensures Split(Join(parts, [c]), c) == parts
  {
    if |parts| == 1 {
      SplitWithoutSeparator(parts[0], c);
    } else {
      SplitJoin(parts[1..], c);
      SplitAtSeparator(parts[0], c, Join(parts[1..], [c]));
      assert [parts[0]] + parts[1..] == parts;
    }
  }

  lemma ContainsLeft(a: string, b: string, p: string)
    requires Contains(a, p)
    ensures Contains(a + b, p)
  {
    var i :| 0 <= i <= |a| - |p| && OccursAt(a, p, i);
    assert (a + b)[i..i + |p|] == a[i..i + |p|];
    assert OccursAt(a + b, p, i);
  }

  lemma ContainsRight(a: string, b: string, p: string)
    requires Contains(b, p)
    ensures Contains(a + b, p)
  {
    var i :| 0 <= i <= |b| - |p| && OccursAt(b, p, i);
    assert (a + b)[|a| + i..|a| + i + |p|] == b[i..i + |p|];
    assert OccursAt(a + b, p, |a| + i);
  }

  lemma StartsWithContains(s: string, p: string)
    requires StartsWith(s, p)
    ensures Contains(s, p)
  {
    assert OccursAt(s, p, 0);
  }

  /** A part that contains `p` makes the whole join contain `p`. */
  lemma {:induction false} PartContainedInJoin(parts: seq<string>, sep: string, k: nat, p: string)
    requires k < |parts|
    ensures Contains(parts[k], p) ==> Contains(Join(parts, sep), p)
  {
    if |parts| > 1 && Contains(parts[k], p) {
      if k == 0 {
        ContainsLeft(parts[0], sep + Join(parts[1..], sep), p);
        assert parts[0] + sep + Join(parts[1..], sep) == parts[0] + (sep + Join(parts[1..], sep));
      } else {
        PartContainedInJoin(parts[1..], sep, k - 1, p);
        ContainsRight(parts[0] + sep, Join(parts[1..], sep), p);
      }
    }
  }

  /**
   * A non-empty pattern free of the separator occurs in a join only inside one
   * of the parts: joining never creates an occurrence across a boundary.
   */
  lemma {:induction false} JoinAddsNoOccurrence(parts: seq<string>, c: char, p: string)
    requires |p| > 0 && c !in p
    requires forall k :: 0 <= k < |parts| ==> !Contains(parts[k], p)
    ensures !Contains(Join(parts, [c]), p)
  {
    if |parts| == 0 {
      assert forall i :: !OccursAt("", p, i);
    } else if |parts| > 1 {
      var a := parts[0];
      var rest := Join(parts[1..], [c]);
      JoinAddsNoOccurrence(parts[1..], c, p);
      var j := a + [c] + rest;
      assert Join(parts, [c]) == j;
      forall i | 0 <= i <= |j| - |p| ensures !OccursAt(j, p, i) {
        if i + |p| <= |a| {
          assert j[i..i + |p|] == a[i..i + |p|];
          assert !OccursAt(a, p, i);
        } else if i > |a| {
          assert j[i..i + |p|] == rest[i - |a| - 1..i - |a| - 1 + |p|];
          assert !OccursAt(rest, p, i - |a| - 1);
        } else {
          // the window straddles the separator at |a|, and c !in p
          assert j[i..i + |p|][|a| - i] == c;
        }
      }
    }
  }

  /** A pattern with a character the string lacks cannot occur in it. */
  lemma MissingCharNotContained(s: string, p: string, ch: char)
    requires ch in p && ch !in s
    ensures !Contains(s, p)
  {
    forall i | 0 <= i <= |s| - |p| ensures !OccursAt(s, p, i) {
      var k :| 0 <= k < |p| && p[k] == ch;
      assert s[i..i + |p|][k] == s[i + k];
    }
  }

  /** An occurrence inside a slice is an occurrence in the whole string. */
  lemma ContainsSlice(s: string, lo: nat, hi: nat, p: string)
    requires lo <= hi <= |s| && Contains(s[lo..hi], p)
    ensures Contains(s, p)
  {
    var i :| 0 <= i <= hi - lo - |p| && OccursAt(s[lo..hi], p, i);
    var t := s[lo..hi];
    assert forall k :: 0 <= k < |p| ==> s[lo + i + k] == t[i + k] == p[k];
    assert s[lo + i..lo + i + |p|] == p;
    assert OccursAt(s, p, lo + i);
  }

  /** An occurrence in a slice is the occurrence at the shifted index of the whole string. */
  lemma SliceOccurrence(s: string, lo: nat, hi: nat, p: string, t: nat)
    requires lo <= hi <= |s| && t + |p| <= hi - lo
    ensures OccursAt(s[lo..hi], p, t) <==> OccursAt(s, p, lo + t)
  {
    var w := s[lo..hi][t..t + |p|];
    assert forall k :: 0 <= k < |p| ==> w[k] == s[lo + t + k];
    assert w == s[lo + t..lo + t + |p|];
  }

  /** Python's `str.lower()` on ASCII letters; other characters are left as they are. */
  function LowerAscii(s: string): (r: string)
    ensures |r| == |s|
    ensures forall i :: 0 <= i < |s| ==> r[i] == if 'A' <= s[i] <= 'Z' then (s[i] as int + 32) as char else s[i]
  {
    if |s| == 0 then ""
    else [if 'A' <= s[0] <= 'Z' then (s[0] as int + 32) as char else s[0]] + LowerAscii(s[1..])
  }
}
