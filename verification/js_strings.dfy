/** The JavaScript string built-ins the application relies on, over strings of
    Unicode scalar values (`seq<char>`), which agree with JavaScript's UTF-16
    code units only inside the Basic Multilingual Plane: white space as `trim` and the
    regex class `\s` see it, `trim`, `split`/`join` on a single separator,
    `startsWith`/`endsWith` and `replace` with a string pattern (first
    occurrence only). */
module JsStrings {
  import opened Options

  /** The WhiteSpace and LineTerminator code points of ECMA-262: exactly the
      characters `String.prototype.trim` strips and `\s` matches (tab,
      line feed, vertical tab, form feed, carriage return, space, no-break
      space, the Zs space separators, line and paragraph separator, and the
      byte order mark). */
  const Whitespace: set<char> := {
    '\t', '\n', '\U{000B}', '\U{000C}', '\r', ' ', '\U{00A0}', '\U{1680}',
    '\U{2000}', '\U{2001}', '\U{2002}', '\U{2003}', '\U{2004}', '\U{2005}',
    '\U{2006}', '\U{2007}', '\U{2008}', '\U{2009}', '\U{200A}',
    '\U{2028}', '\U{2029}', '\U{202F}', '\U{205F}', '\U{3000}', '\U{FEFF}'
  }

  predicate IsWhitespace(ch: char) {
    ch in Whitespace
  }

  /** The characters a regex `.` refuses to match (ECMA-262 LineTerminator). */
  predicate IsLineTerminator(ch: char) {
    ch == '\n' || ch == '\r' || ch == '\U{2028}' || ch == '\U{2029}'
  }

  predicate AllWhitespace(s: string) {
    forall i :: 0 <= i < |s| ==> IsWhitespace(s[i])
  }

  /** `s.startsWith(p)` */
  predicate StartsWith(s: string, p: string) {
    |p| <= |s| && s[..|p|] == p
  }

  /** `s.endsWith(p)` */
  predicate EndsWith(s: string, p: string) {
    |p| <= |s| && s[|s| - |p|..] == p
  }

  /** `pat` occurs in `s` starting at index `i`. */
  predicate OccursAt(s: string, pat: string, i: nat) {
    i + |pat| <= |s| && s[i..i + |pat|] == pat
  }

  /** `s.includes(pat)` */
  ghost predicate Contains(s: string, pat: string) {
    exists i: nat :: OccursAt(s, pat, i)
  }

  // ---------------------------------------------------------------------------
  // trim

  /** Every character of `s` in `[lo, hi)` is white space. */
  predicate WhitespaceBetween(s: string, lo: int, hi: int) {
    forall k :: lo <= k < hi && 0 <= k < |s| ==> IsWhitespace(s[k])
  }

  /** The first index at or after `from` that does not hold white space, or
      `|s|` when there is none. */
  function SkipWhitespace(s: string, from: nat): (i: nat)
    requires from <= |s|
    ensures from <= i <= |s|
    ensures WhitespaceBetween(s, from, i)
    ensures i == |s| || !IsWhitespace(s[i])
    decreases |s| - from
  {
    if from < |s| && IsWhitespace(s[from]) then SkipWhitespace(s, from + 1) else from
  }

  /** The end of `s[lo..hi]` once its trailing white space is dropped. */
  function TrimmedEnd(s: string, lo: nat, hi: nat): (e: nat)
    requires lo <= hi <= |s|
    ensures lo <= e <= hi
    ensures WhitespaceBetween(s, e, hi)
    ensures e == lo || !IsWhitespace(s[e - 1])
    decreases hi
  {
    if lo < hi && IsWhitespace(s[hi - 1]) then TrimmedEnd(s, lo, hi - 1) else hi
  }

  /** `r` is what is left of `s` once its leading and trailing white space is
      cut off: the slice `s[i..i + |r|]` with only white space around it, and
      itself neither starting nor ending in white space. */
  ghost predicate IsTrimmed(s: string, r: string) {
    && (r == [] || (!IsWhitespace(r[0]) && !IsWhitespace(r[|r| - 1])))
    && exists i: nat ::
         && i + |r| <= |s|
         && s[i..i + |r|] == r
         && WhitespaceBetween(s, 0, i)
         && WhitespaceBetween(s, i + |r|, |s|)
  }

  /** `s.trim()` */
  function Trim(s: string): (r: string)
    ensures IsTrimmed(s, r)
    ensures r == [] <==> AllWhitespace(s)
  {
    var i := SkipWhitespace(s, 0);
    var e := TrimmedEnd(s, i, |s|);
    assert e > i ==> s[i..e][0] == s[i] && s[i..e][e - i - 1] == s[e - 1];
    assert e == i ==> AllWhitespace(s) by {
      if e == i {
        forall k | 0 <= k < |s| ensures IsWhitespace(s[k]) {
        }
      }
    }
    assert IsTrimmed(s, s[i..e]) by {
      assert s[i..i + (e - i)] == s[i..e];
    }
    s[i..e]
  }

  /** Trimming is idempotent. */
  lemma TrimIdempotent(s: string)
    ensures Trim(Trim(s)) == Trim(s)
  {
    var t := Trim(s);
    if t != [] {
      assert SkipWhitespace(t, 0) == 0;
      assert TrimmedEnd(t, 0, |t|) == |t|;
      assert t[0..|t|] == t;
    }
  }

  // ---------------------------------------------------------------------------
  // split / join

  /** `s.split(sep)` for a one-character separator: the maximal runs of
      non-separator characters, one more than there are separators. */
  function Split(s: string, sep: char): (parts: seq<string>)
    ensures |parts| >= 1
    ensures forall k :: 0 <= k < |parts| ==> sep !in parts[k]
  {
    if s == [] then [""]
    else
      var rest := Split(s[1..], sep);
      if s[0] == sep then [""] + rest
      else [[s[0]] + rest[0]] + rest[1..]
  }

  /** `parts.join(sep)` */
  function Join(parts: seq<string>, sep: string): string {
    if |parts| == 0 then ""
    else if |parts| == 1 then parts[0]
    else parts[0] + sep + Join(parts[1..], sep)
  }

  /** Joining the pieces of a split with the separator gives back the input. */
  lemma {:induction false} JoinSplit(s: string, sep: char)
    ensures Join(Split(s, sep), [sep]) == s
  {
    if s != [] {
      var rest := Split(s[1..], sep);
      JoinSplit(s[1..], sep);
      if s[0] == sep {
        assert Join([""] + rest, [sep]) == "" + [sep] + Join(rest, [sep]);
      } else {
        var parts := [[s[0]] + rest[0]] + rest[1..];
        if |rest| == 1 {
          assert Join(parts, [sep]) == [s[0]] + rest[0];
        } else {
          assert parts[1..] == rest[1..];
          assert Join(rest, [sep]) == rest[0] + [sep] + Join(rest[1..], [sep]);
          assert Join(parts, [sep]) == [s[0]] + rest[0] + [sep] + Join(rest[1..], [sep]);
        }
      }
    }
  }

  /** A separator-free prefix glues onto the first piece of the split. */
  lemma {:induction false} SplitPrefix(a: string, t: string, sep: char)
    requires sep !in a
    ensures Split(a + t, sep) == [a + Split(t, sep)[0]] + Split(t, sep)[1..]
  {
    if a != [] {
      assert (a + t)[1..] == a[1..] + t;
      SplitPrefix(a[1..], t, sep);
      assert [a[0]] + (a[1..] + Split(t, sep)[0]) == a + Split(t, sep)[0];
    } else {
      assert a + t == t;
      assert a + Split(t, sep)[0] == Split(t, sep)[0];
      assert Split(t, sep) == [Split(t, sep)[0]] + Split(t, sep)[1..];
    }
  }

  /** Splitting a join of separator-free pieces gives back the pieces. */
  lemma {:induction false} SplitJoin(parts: seq<string>, sep: char)
    requires |parts| >= 1
    requires forall k :: 0 <= k < |parts| ==> sep !in parts[k]
    ensures Split(Join(parts, [sep]), sep) == parts
  {
    if |parts| == 1 {
      SplitPrefix(parts[0], "", sep);
      assert parts[0] + "" == parts[0];
    } else {
      var tail := Join(parts[1..], [sep]);
      SplitJoin(parts[1..], sep);
      assert Split([sep] + tail, sep) == [""] + parts[1..] by {
        assert ([sep] + tail)[1..] == tail;
      }
      assert Join(parts, [sep]) == parts[0] + ([sep] + tail);
      SplitPrefix(parts[0], [sep] + tail, sep);
      assert parts[0] + "" == parts[0];
      assert ([""] + parts[1..])[1..] == parts[1..];
    }
  }

  /** The last piece of a split is the longest separator-free suffix: it is
      the whole string, exactly when there is no separator, or it is preceded
      by a separator. */
  lemma {:induction false} SplitLast(s: string, sep: char)
    ensures var last := Split(s, sep)[|Split(s, sep)| - 1];
      && |last| <= |s|
      && s[|s| - |last|..] == last
      && (|last| == |s| || s[|s| - |last| - 1] == sep)
      && (|last| == |s| <==> |Split(s, sep)| == 1)
  {
    if s != [] {
      var t := s[1..];
      var rest := Split(t, sep);
      var last' := rest[|rest| - 1];
      SplitLast(t, sep);
      assert t[|t| - |last'|..] == s[|s| - |last'|..];
      if |last'| < |t| {
        assert t[|t| - |last'| - 1] == s[|s| - |last'| - 1];
      }
      if s[0] == sep {
        assert Split(s, sep)[|Split(s, sep)| - 1] == last';
      } else if |rest| > 1 {
        assert Split(s, sep)[|Split(s, sep)| - 1] == last';
      } else {
        JoinSplit(t, sep);
        assert rest[0] == t;
        assert [s[0]] + t == s;
      }
    }
  }

  // ---------------------------------------------------------------------------
  // replace (string pattern)

  /** The least index at or after `from` where `pat` occurs in `s`. */
  function IndexOfFrom(s: string, pat: string, from: nat): (r: Option<nat>)
    requires from <= |s|
    ensures r.Some? ==> from <= r.value && OccursAt(s, pat, r.value)
    ensures r.Some? ==> forall i: nat :: from <= i < r.value ==> !OccursAt(s, pat, i)
    ensures r.None? ==> forall i: nat :: from <= i ==> !OccursAt(s, pat, i)
    decreases |s| - from
  {
    if OccursAt(s, pat, from) then Some(from)
    else if from == |s| then None
    else IndexOfFrom(s, pat, from + 1)
  }

  /** `s.replace(pat, rep)` with a string pattern: the first occurrence of
      `pat` is replaced by `rep` (taken literally); without one, `s` comes back
      unchanged. */
  function ReplaceFirst(s: string, pat: string, rep: string): (r: string)
    ensures !Contains(s, pat) ==> r == s
    ensures forall i: nat ::
      OccursAt(s, pat, i) && (forall j: nat :: j < i ==> !OccursAt(s, pat, j)) ==>
        r == s[..i] + rep + s[i + |pat|..]
  {
    match IndexOfFrom(s, pat, 0)
    case None => s
    case Some(i) => s[..i] + rep + s[i + |pat|..]
  }

  /** The replacement happens at the first occurrence. */
  lemma ReplaceFirstAt(s: string, pat: string, rep: string, i: nat)
    requires OccursAt(s, pat, i)
    requires forall j: nat :: j < i ==> !OccursAt(s, pat, j)
    ensures ReplaceFirst(s, pat, rep) == s[..i] + rep + s[i + |pat|..]
  {
  }
}
