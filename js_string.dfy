/** The JavaScript string operations the room finder relies on: `trim`, `toLowerCase`,
    `split` and `replace` with a string or a regular-expression separator, `Array.join`,
    and the decimal rendering of a number inside a template literal. */
module JsString {

  /** ECMAScript WhiteSpace and LineTerminator code points: the set `trim` removes and the
      regular-expression class `\s` matches. */
  predicate IsSpace(c: char)
  {
    c in SpaceChars || '\U{2000}' <= c <= '\U{200A}'
  }

  const SpaceChars: set<char> := {
    '\t', '\n', '\U{B}', '\U{C}', '\r', ' ', '\U{A0}', '\U{1680}',
    '\U{2028}', '\U{2029}', '\U{202F}', '\U{205F}', '\U{3000}', '\U{FEFF}'
  }

  predicate AllSpace(s: string)
  {
    forall k :: 0 <= k < |s| ==> IsSpace(s[k])
  }

  /** Neither end of `s` is white space. */
  predicate IsTrimmed(s: string)
  {
    s == [] || (!IsSpace(s[0]) && !IsSpace(s[|s| - 1]))
  }

  /** The index of the first character at or after `k` that is not white space, or `|s|`
      when there is none. */
  function SkipSpaces(s: string, k: nat): (e: nat)
    requires k <= |s|
    ensures k <= e <= |s|
    ensures forall m :: k <= m < e ==> IsSpace(s[m])
    ensures e == |s| || !IsSpace(s[e])
    decreases |s| - k
  {
    if k < |s| && IsSpace(s[k]) then SkipSpaces(s, k + 1) else k
  }

  /** The start of the white-space run that ends at `k`, not going below `lo`. */
  function SkipSpacesBack(s: string, lo: nat, k: nat): (b: nat)
    requires lo <= k <= |s|
    ensures lo <= b <= k
    ensures forall m :: b <= m < k ==> IsSpace(s[m])
    ensures b == lo || !IsSpace(s[b - 1])
    decreases k
  {
    if lo < k && IsSpace(s[k - 1]) then SkipSpacesBack(s, lo, k - 1) else k
  }

  /** The bounds `Trim` cuts at: every character outside `s[i..j]` is white space and
      `s[i..j]` does not start or end with white space. */
  ghost predicate TrimBounds(s: string, i: nat, j: nat)
  {
    && i <= j <= |s|
    && (forall k :: 0 <= k < i ==> IsSpace(s[k]))
    && (forall k :: j <= k < |s| ==> IsSpace(s[k]))
    && IsTrimmed(s[i..j])
  }

  lemma TrimBoundsOfSkips(s: string, i: nat, j: nat)
    requires i == SkipSpaces(s, 0) && j == SkipSpacesBack(s, i, |s|)
    ensures TrimBounds(s, i, j) && (i == j <==> AllSpace(s))
  {
    if i < j {
      assert s[i..j][0] == s[i];
      assert s[i..j][j - i - 1] == s[j - 1];
    }
    assert AllSpace(s) ==> i == |s|;
  }

  /** `String.prototype.trim`: the middle of `s` once the white space at both ends is cut. */
  function Trim(s: string): (r: string)
    ensures IsTrimmed(r)
    ensures exists i: nat, j: nat :: TrimBounds(s, i, j) && r == s[i..j]
    ensures r == [] <==> AllSpace(s)
  {
    var i := SkipSpaces(s, 0);
    var j := SkipSpacesBack(s, i, |s|);
    TrimBoundsOfSkips(s, i, j);
    s[i..j]
  }

  /** Trimming a string that has no white space at its ends changes nothing. */
  lemma TrimOfTrimmed(s: string)
    requires IsTrimmed(s)
    ensures Trim(s) == s
  {
    if s != [] {
      assert SkipSpaces(s, 0) == 0;
      assert SkipSpacesBack(s, 0, |s|) == |s|;
      assert s[0..|s|] == s;
    }
  }

  /** Trimming cuts exactly the white space put around a non-blank trimmed text. */
  lemma TrimPadded(w1: string, x: string, w2: string)
    requires AllSpace(w1) && AllSpace(w2) && x != [] && IsTrimmed(x)
    ensures Trim(w1 + x + w2) == x
  {
    var s := w1 + x + w2;
    var i, j := |w1|, |w1| + |x|;
    assert forall m :: 0 <= m < i ==> s[m] == w1[m];
    assert s[i] == x[0];
    assert SkipSpaces(s, 0) == i;
    assert forall m :: j <= m < |s| ==> s[m] == w2[m - j];
    assert s[j - 1] == x[|x| - 1];
    assert SkipSpacesBack(s, i, |s|) == j;
    assert s[i..j] == x;
  }

  /** `toLowerCase` on one character, restricted to the ASCII letters. */
  function LowerChar(c: char): (d: char)
    ensures 'A' <= c <= 'Z' ==> d as int == c as int + 32
    ensures !('A' <= c <= 'Z') ==> d == c
  {
    if 'A' <= c <= 'Z' then (c as int + 32) as char else c
  }

  /** `String.prototype.toLowerCase`, with ASCII case mapping. */
  function Lower(s: string): (r: string)
    ensures |r| == |s|
    ensures forall k :: 0 <= k < |s| ==> r[k] == LowerChar(s[k])
  {
    seq(|s|, k requires 0 <= k < |s| => LowerChar(s[k]))
  }

  /** `s` has `t` at position `i`. */
  predicate OccursAt(s: string, t: string, i: nat)
  {
    i + |t| <= |s| && s[i..i + |t|] == t
  }

  /** `String.prototype.includes`. */
  predicate Contains(s: string, t: string)
  {
    exists i: nat | i <= |s| :: OccursAt(s, t, i)
  }

  /** A text that lacks the first character of `t` does not contain `t`. */
  lemma FirstCharAbsent(s: string, t: NonEmptyString)
    requires t[0] !in s
    ensures !Contains(s, t)
  {
    forall i: nat | i <= |s| ensures !OccursAt(s, t, i) {
      if i + |t| <= |s| {
        assert s[i..i + |t|][0] == s[i];
      }
    }
  }

  /** An occurrence inside a slice is an occurrence in the whole text. */
  lemma SliceOccurrence(s: string, i: nat, j: nat, t: string, k: nat)
    requires i <= j <= |s| && k <= j - i
    ensures OccursAt(s[i..j], t, k) ==> OccursAt(s, t, i + k)
  {
    if OccursAt(s[i..j], t, k) {
      forall m | 0 <= m < |t| ensures s[i + k + m] == t[m] {
        assert s[i..j][k..k + |t|][m] == t[m];
      }
      assert s[i + k..i + k + |t|] == t;
    }
  }

  /** Trimming cannot create an occurrence of a text. */
  lemma TrimKeepsOut(s: string, t: string)
    requires !Contains(s, t)
    ensures !Contains(Trim(s), t)
  {
    var r := Trim(s);
    var i: nat, j: nat :| TrimBounds(s, i, j) && r == s[i..j];
    forall k: nat | k <= |r| ensures OccursAt(r, t, k) ==> OccursAt(s, t, i + k) {
      SliceOccurrence(s, i, j, t, k);
    }
  }

  type Pos = n: nat | 1 <= n witness 1
  type NonEmptyString = s: string | s != [] witness "|"

  /** The separators the source splits and replaces on: a plain string (`'|'`, the placeholder),
      or a regular expression made of white space, a run of `n` pipes and white space
      (`\s*` both sides). Neither ever matches the empty string. */
  datatype Pattern = Literal(text: NonEmptyString) | PipeRun(pipes: Pos)

  function Pipes(n: nat): (r: string)
    ensures |r| == n && forall k :: 0 <= k < n ==> r[k] == '|'
  {
    seq(n, _ => '|')
  }

  /** `s` holds a run of `n` pipes from position `w` on. */
  predicate PipesAt(s: string, w: nat, n: nat)
    requires w + n <= |s|
  {
    forall m :: w <= m < w + n ==> s[m] == '|'
  }

  /** Length of the match of `p` anchored at the start of `s` (0 when there is none). The
      regular expression's leading `\s*` can only be followed by a pipe after the whole
      white-space run, and its trailing `\s*` is greedy. */
  function MatchLen(p: Pattern, s: string): (k: nat)
    ensures k <= |s|
    ensures p.Literal? ==> (k > 0 <==> OccursAt(s, p.text, 0)) && (k > 0 ==> k == |p.text|)
  {
    match p
    case Literal(t) => if OccursAt(s, t, 0) then |t| else 0
    case PipeRun(n) =>
      var w := SkipSpaces(s, 0);
      if w + n <= |s| && PipesAt(s, w, n) then SkipSpaces(s, w + n) else 0
  }

  /** No match of `p` starts in the first `n` positions of `s`. */
  predicate NoMatchBefore(p: Pattern, s: string, n: nat)
    requires n <= |s|
  {
    forall i {:trigger MatchLen(p, s[i..])} :: 0 <= i < n ==> MatchLen(p, s[i..]) == 0
  }

  /** `String.prototype.split(p)`: scan left to right; every match closes the current piece
      and scanning resumes after it. There is always at least one piece. */
  function Split(s: string, p: Pattern): (r: seq<string>)
    ensures |r| >= 1
    decreases |s|
  {
    if s == [] then [""]
    else
      var k := MatchLen(p, s);
      if k > 0 then [""] + Split(s[k..], p)
      else
        var rest := Split(s[1..], p);
        [[s[0]] + rest[0]] + rest[1..]
  }

  /** `String.prototype.replace(p, rep)` with the global flag: every match found by the same
      left-to-right scan is replaced by `rep`. */
  function ReplaceAll(s: string, p: Pattern, rep: string): (r: string)
    decreases |s|
  {
    if s == [] then ""
    else
      var k := MatchLen(p, s);
      if k > 0 then rep + ReplaceAll(s[k..], p, rep)
      else [s[0]] + ReplaceAll(s[1..], p, rep)
  }

  /** `Array.prototype.join(sep)`. */
  function Join(parts: seq<string>, sep: string): (r: string)
    ensures parts == [] ==> r == ""
    ensures |parts| == 1 ==> r == parts[0]
  {
    if parts == [] then ""
    else if |parts| == 1 then parts[0]
    else parts[0] + sep + Join(parts[1..], sep)
  }

  /** A join starts with its first part. */
  lemma {:induction false} JoinStartsWith(parts: seq<string>, sep: string)
    requires parts != []
    ensures |Join(parts, sep)| >= |parts[0]| && Join(parts, sep)[..|parts[0]|] == parts[0]
  {
    if |parts| > 1 {
      assert Join(parts, sep) == parts[0] + (sep + Join(parts[1..], sep));
    }
  }

  lemma JoinPrependEmpty(parts: seq<string>, t: string)
    requires parts != []
    ensures Join([""] + parts, t) == t + Join(parts, t)
  {
    assert ([""] + parts)[1..] == parts;
  }

  lemma JoinExtendFirst(c: char, parts: seq<string>, t: string)
    requires parts != []
    ensures Join([[c] + parts[0]] + parts[1..], t) == [c] + Join(parts, t)
  {
    var r := [[c] + parts[0]] + parts[1..];
    if |parts| > 1 {
      assert r[1..] == parts[1..];
    }
  }

  /** Joining the pieces of a split on a string separator with that same separator gives back
      the original string: the pieces are exactly what lies between the occurrences. */
  lemma {:induction false} JoinSplitLiteral(s: string, t: NonEmptyString)
    ensures Join(Split(s, Literal(t)), t) == s
    decreases |s|
  {
    if s != [] {
      var k := MatchLen(Literal(t), s);
      if k > 0 {
        JoinSplitLiteral(s[k..], t);
        JoinPrependEmpty(Split(s[k..], Literal(t)), t);
        assert s == t + s[k..];
      } else {
        JoinSplitLiteral(s[1..], t);
        JoinExtendFirst(s[0], Split(s[1..], Literal(t)), t);
        assert s == [s[0]] + s[1..];
      }
    }
  }

  /** Replacing every occurrence of a string by itself changes nothing. */
  lemma {:induction false} ReplaceLiteralBySelf(s: string, t: NonEmptyString)
    ensures ReplaceAll(s, Literal(t), t) == s
    decreases |s|
  {
    if s != [] {
      var k := MatchLen(Literal(t), s);
      if k > 0 {
        ReplaceLiteralBySelf(s[k..], t);
        assert s == t + s[k..];
      } else {
        ReplaceLiteralBySelf(s[1..], t);
        assert s == [s[0]] + s[1..];
      }
    }
  }

  /** No match in the first `n` positions of `s` means none in the first `n - 1` of its tail. */
  lemma NoMatchBeforeTail(p: Pattern, s: string, n: nat)
    requires 1 <= n <= |s| && NoMatchBefore(p, s, n)
    ensures NoMatchBefore(p, s[1..], n - 1)
  {
    forall i | 0 <= i < n - 1 ensures MatchLen(p, s[1..][i..]) == 0 {
      assert s[1..][i..] == s[i + 1..];
    }
  }

  /** Without a match at its start, the first character of `s` opens its first piece. */
  lemma SplitUnmatchedFirst(s: string, p: Pattern)
    requires s != [] && MatchLen(p, s) == 0
    ensures Split(s, p) == [[s[0]] + Split(s[1..], p)[0]] + Split(s[1..], p)[1..]
  {
  }

  /** No match in the first `n > 0` positions includes none at the start. */
  lemma NoMatchAtStart(p: Pattern, s: string, n: nat)
    requires 1 <= n <= |s| && NoMatchBefore(p, s, n)
    ensures MatchLen(p, s) == 0
  {
    assert s[0..] == s;
  }

  /** Putting `a[0]` in front of a first piece that starts with `a[1..]`. */
  lemma PrependToFirstPiece(a: string, x: string, sb: seq<string>, rest: seq<string>)
    requires a != [] && sb != [] && rest == [a[1..] + x] + sb[1..]
    ensures [[a[0]] + rest[0]] + rest[1..] == [a + x] + sb[1..]
  {
    assert [a[0]] + (a[1..] + x) == a + x;
  }

  lemma PrependFirstChar(a: string, x: string)
    requires a != []
    ensures [a[0]] + (a[1..] + x) == a + x
  {
    assert a == [a[0]] + a[1..];
  }

  /** Without a match at its start, the first character of `s` is copied unchanged. */
  lemma ReplaceUnmatchedFirst(s: string, p: Pattern, rep: string)
    requires s != [] && MatchLen(p, s) == 0
    ensures ReplaceAll(s, p, rep) == [s[0]] + ReplaceAll(s[1..], p, rep)
  {
  }

  /** With no match before position `|a|`, the first piece of `a + b` starts with all of `a`. */
  lemma {:induction false} SplitNoMatchPrefix(a: string, b: string, p: Pattern)
    requires NoMatchBefore(p, a + b, |a|)
    ensures Split(a + b, p) == [a + Split(b, p)[0]] + Split(b, p)[1..]
    decreases |a|
  {
    var sb := Split(b, p);
    if a != [] {
      var s := a + b;
      assert s[1..] == a[1..] + b;
      NoMatchAtStart(p, s, |a|);
      NoMatchBeforeTail(p, s, |a|);
      SplitNoMatchPrefix(a[1..], b, p);
      SplitUnmatchedFirst(s, p);
      PrependToFirstPiece(a, sb[0], sb, Split(a[1..] + b, p));
    } else {
      assert a + b == b;
      assert a + sb[0] == sb[0];
      assert sb == [sb[0]] + sb[1..];
    }
  }

  /** A match of `p` spanning exactly `m` closes the first piece of `m + b`. */
  lemma SplitAtMatch(m: string, b: string, p: Pattern)
    requires m != [] && MatchLen(p, m + b) == |m|
    ensures Split(m + b, p) == [""] + Split(b, p)
  {
    assert (m + b)[|m|..] == b;
  }

  /** No match anywhere: `split` returns the whole string as its only piece. */
  lemma SplitNoMatch(s: string, p: Pattern)
    requires NoMatchBefore(p, s, |s|)
    ensures Split(s, p) == [s]
  {
    assert s + "" == s;
    SplitNoMatchPrefix(s, "", p);
  }

  /** The replace counterpart of SplitNoMatchPrefix: an unmatched prefix is copied unchanged. */
  lemma {:induction false} ReplaceNoMatchPrefix(a: string, b: string, p: Pattern, rep: string)
    requires NoMatchBefore(p, a + b, |a|)
    ensures ReplaceAll(a + b, p, rep) == a + ReplaceAll(b, p, rep)
    decreases |a|
  {
    if a != [] {
      var s := a + b;
      assert s[1..] == a[1..] + b;
      NoMatchAtStart(p, s, |a|);
      NoMatchBeforeTail(p, s, |a|);
      ReplaceNoMatchPrefix(a[1..], b, p, rep);
      ReplaceUnmatchedFirst(s, p, rep);
      PrependFirstChar(a, ReplaceAll(b, p, rep));
    } else {
      assert a + b == b;
    }
  }

  /** A match spanning exactly `m` is replaced as a whole. */
  lemma ReplaceAtMatch(m: string, b: string, p: Pattern, rep: string)
    requires m != [] && MatchLen(p, m + b) == |m|
    ensures ReplaceAll(m + b, p, rep) == rep + ReplaceAll(b, p, rep)
  {
    assert (m + b)[|m|..] == b;
  }

  /** A regular-expression pipe run cannot start inside a text that holds no pipe and does
      not end in white space, whatever follows it. */
  lemma NoPipeRunInside(a: string, b: string, n: Pos)
    requires a != [] && '|' !in a && !IsSpace(a[|a| - 1])
    ensures NoMatchBefore(PipeRun(n), a + b, |a|)
  {
    forall i | 0 <= i < |a| ensures MatchLen(PipeRun(n), (a + b)[i..]) == 0 {
      var s := (a + b)[i..];
      forall k | 0 <= k <= |a| - i - 1 ensures s[k] != '|' {
        assert s[k] == a[i + k];
      }
      assert s[|a| - i - 1] == a[|a| - 1];
      NoPipeRunBefore(s, |a| - i - 1, n);
    }
  }

  /** A pipe-run pattern cannot match at the start of a text whose first non-space character
      comes before any pipe. */
  lemma NoPipeRunBefore(s: string, m: nat, n: Pos)
    requires m < |s| && !IsSpace(s[m]) && forall k :: 0 <= k <= m ==> s[k] != '|'
    ensures MatchLen(PipeRun(n), s) == 0
  {
    var w := SkipSpaces(s, 0);
    assert w <= m;
    assert s[w] != '|';
  }

  /** A run of two pipes cannot match where the first character after the leading white space
      is not followed by a pipe. */
  lemma NoDoubleAfterSpaces(t: string, w: nat)
    requires w + 1 < |t| && !IsSpace(t[w]) && t[w + 1] != '|'
    requires forall k :: 0 <= k < w ==> IsSpace(t[k])
    ensures MatchLen(PipeRun(2), t) == 0
  {
    assert SkipSpaces(t, 0) == w;
  }

  /** A pipe-run pattern matches nowhere in a text without a pipe. */
  lemma NoPipeNoMatch(s: string, n: Pos)
    requires '|' !in s
    ensures NoMatchBefore(PipeRun(n), s, |s|)
  {
    forall i | 0 <= i < |s| ensures MatchLen(PipeRun(n), s[i..]) == 0 {
      var t := s[i..];
      var w := SkipSpaces(t, 0);
      if w < |t| {
        assert t[w] == s[i + w];
        assert s[i + w] in s;
      }
    }
  }

  /** Replacing a pipe-run pattern in a text without a pipe changes nothing. */
  lemma NoPipeUnchanged(s: string, n: Pos, rep: string)
    requires '|' !in s
    ensures ReplaceAll(s, PipeRun(n), rep) == s
  {
    NoPipeNoMatch(s, n);
    assert s + "" == s;
    ReplaceNoMatchPrefix(s, "", PipeRun(n), rep);
  }

  /** A string separator matches nowhere in a text that does not contain it. */
  lemma NotContainedNoMatch(s: string, t: NonEmptyString)
    requires !Contains(s, t)
    ensures NoMatchBefore(Literal(t), s, |s|)
  {
    forall i | 0 <= i < |s| ensures MatchLen(Literal(t), s[i..]) == 0 {
      assert !OccursAt(s, t, i);
      if |t| <= |s| - i {
        assert s[i..][0..|t|] == s[i..i + |t|];
      }
    }
  }

  /** A string separator cannot start inside a text that lacks its first character. */
  lemma NoLiteralInside(a: string, b: string, t: NonEmptyString)
    requires t[0] !in a
    ensures NoMatchBefore(Literal(t), a + b, |a|)
  {
    forall i | 0 <= i < |a| ensures MatchLen(Literal(t), (a + b)[i..]) == 0 {
      assert (a + b)[i..][0] == a[i];
    }
  }

  /** A join ends with its last part. */
  lemma {:induction false} JoinEndsWith(parts: seq<string>, sep: string)
    requires parts != []
    ensures var j := Join(parts, sep); var last := parts[|parts| - 1];
            |j| >= |last| && j[|j| - |last|..] == last
    decreases |parts|
  {
    if |parts| > 1 {
      JoinEndsWith(parts[1..], sep);
      assert Join(parts, sep) == (parts[0] + sep) + Join(parts[1..], sep);
    }
  }

  /** A character found in neither the parts nor the separator is not in their join. */
  lemma {:induction false} JoinAvoids(parts: seq<string>, sep: string, c: char)
    requires c !in sep && forall p :: p in parts ==> c !in p
    ensures c !in Join(parts, sep)
    decreases |parts|
  {
    if |parts| > 1 {
      JoinAvoids(parts[1..], sep, c);
      assert parts[0] in parts;
    } else if |parts| == 1 {
      assert parts[0] in parts;
    }
  }

  /** A pipe-run separator as it is written in a text: `pipes` pipes with some text before and
      some after them. */
  datatype Separator = Separator(before: string, pipes: Pos, after: string)
  {
    /** The text around the pipes is white space. */
    predicate Padded()
    {
      AllSpace(before) && AllSpace(after)
    }

    function Text(): string
    {
      before + Pipes(pipes) + after
    }
  }

  lemma PipeIsNotSpace()
    ensures !IsSpace('|')
  {
  }

  /** White space holds no pipe. */
  lemma SpaceHasNoPipe(w: string)
    requires AllSpace(w)
    ensures '|' !in w
  {
    PipeIsNotSpace();
    assert forall k :: 0 <= k < |w| ==> w[k] != '|';
  }

  /** A padded separator is matched as a whole, white space included, when a non-space
      character follows it. */
  lemma SeparatorMatch(sep: Separator, x: string)
    requires sep.Padded() && x != [] && !IsSpace(x[0])
    ensures MatchLen(PipeRun(sep.pipes), sep.Text() + x) == |sep.Text()|
  {
    var s := sep.Text() + x;
    var b, n, a := |sep.before|, sep.pipes, |sep.after|;
    assert forall m :: 0 <= m < b ==> s[m] == sep.before[m];
    assert forall m :: b <= m < b + n ==> s[m] == Pipes(n)[m - b];
    assert forall m :: b + n <= m < b + n + a ==> s[m] == sep.after[m - b - n];
    assert s[b + n + a] == x[0];
    PipeIsNotSpace();
    assert forall m :: 0 <= m < b ==> IsSpace(s[m]);
    assert s[b] == '|';
    assert SkipSpaces(s, 0) == b;
    assert PipesAt(s, b, n);
    assert SkipSpaces(s, b + n) == b + n + a;
  }

  /** No pipe-run pattern matches inside leading white space that is followed by a character
      that is neither white space nor a pipe. */
  lemma NoPipeRunInSpace(w: string, y: string, n: Pos)
    requires AllSpace(w) && y != [] && !IsSpace(y[0]) && y[0] != '|'
    ensures NoMatchBefore(PipeRun(n), w + y, |w|)
  {
    SpaceHasNoPipe(w);
    forall i | 0 <= i < |w| ensures MatchLen(PipeRun(n), (w + y)[i..]) == 0 {
      var t := (w + y)[i..];
      var m := |w| - i;
      forall k | 0 <= k < m ensures t[k] != '|' {
        assert t[k] == w[i + k];
      }
      assert t[m] == y[0];
      NoPipeRunBefore(t, m, n);
    }
  }

  /** A padded single pipe followed by a character that is neither white space nor a pipe
      holds no run of two pipes, at any of its positions. */
  lemma LonePipeNoDouble(sep: Separator, y: string)
    requires sep.Padded() && sep.pipes == 1 && y != [] && !IsSpace(y[0]) && y[0] != '|'
    ensures NoMatchBefore(PipeRun(2), sep.Text() + y, |sep.Text()|)
  {
    var s := sep.Text() + y;
    var b, a := |sep.before|, |sep.after|;
    var z := sep.after + y;
    assert s == sep.before + (Pipes(1) + z);
    PipeIsNotSpace();
    SpaceHasNoPipe(sep.after);
    assert z[0] != '|';
    forall i | 0 <= i <= b ensures MatchLen(PipeRun(2), s[i..]) == 0 {
      var t := s[i..];
      forall k | 0 <= k < b - i ensures IsSpace(t[k]) {
        assert t[k] == sep.before[i + k];
      }
      assert t[b - i] == '|';
      assert t[b - i + 1] == z[0];
      NoDoubleAfterSpaces(t, b - i);
    }
    NoPipeRunInSpace(sep.after, y, 2);
    forall i | b < i < b + 1 + a ensures MatchLen(PipeRun(2), s[i..]) == 0 {
      assert s[i..] == (sep.after + y)[i - b - 1..];
    }
  }

  /** Parts that hold no `t[0]`, joined with `t`, split on `t` back into the same parts. */
  lemma {:induction false} SplitJoinLiteral(parts: seq<string>, t: NonEmptyString)
    requires parts != [] && forall p :: p in parts ==> t[0] !in p
    ensures Split(Join(parts, t), Literal(t)) == parts
    decreases |parts|
  {
    var x := parts[0];
    assert x in parts;
    if |parts| == 1 {
      NoLiteralInside(x, "", t);
      assert x + "" == x;
      SplitNoMatch(x, Literal(t));
    } else {
      var rest := Join(parts[1..], t);
      assert Join(parts, t) == x + (t + rest);
      NoLiteralInside(x, t + rest, t);
      SplitNoMatchPrefix(x, t + rest, Literal(t));
      assert (t + rest)[0..|t|] == t;
      SplitAtMatch(t, rest, Literal(t));
      SplitJoinLiteral(parts[1..], t);
      assert x + "" == x;
      assert parts == [x] + parts[1..];
    }
  }

  /** A part without a pipe whose last character is not white space, a padded separator, then a
      non-space: the split closes the part at the separator. */
  lemma SplitSeparatedStep(x: string, rest: string, sep: Separator)
    requires x != [] && '|' !in x && !IsSpace(x[|x| - 1])
    requires sep.Padded() && rest != [] && !IsSpace(rest[0])
    ensures Split(x + (sep.Text() + rest), PipeRun(sep.pipes)) == [x] + Split(rest, PipeRun(sep.pipes))
  {
    var p := PipeRun(sep.pipes);
    NoPipeRunInside(x, sep.Text() + rest, sep.pipes);
    SplitNoMatchPrefix(x, sep.Text() + rest, p);
    SeparatorMatch(sep, rest);
    SplitAtMatch(sep.Text(), rest, p);
    assert x + "" == x;
  }

  /** The replace counterpart of SplitSeparatedStep. */
  lemma ReplaceSeparatedStep(x: string, rest: string, sep: Separator, rep: string)
    requires x != [] && '|' !in x && !IsSpace(x[|x| - 1])
    requires sep.Padded() && rest != [] && !IsSpace(rest[0])
    ensures ReplaceAll(x + (sep.Text() + rest), PipeRun(sep.pipes), rep)
            == x + (rep + ReplaceAll(rest, PipeRun(sep.pipes), rep))
  {
    var p := PipeRun(sep.pipes);
    NoPipeRunInside(x, sep.Text() + rest, sep.pipes);
    ReplaceNoMatchPrefix(x, sep.Text() + rest, p, rep);
    SeparatorMatch(sep, rest);
    ReplaceAtMatch(sep.Text(), rest, p, rep);
  }

  /** A join starts with the first character of its first part. */
  lemma JoinFirstChar(parts: seq<string>, sep: string)
    requires parts != [] && parts[0] != []
    ensures Join(parts, sep) != [] && Join(parts, sep)[0] == parts[0][0]
  {
    JoinStartsWith(parts, sep);
    assert Join(parts, sep)[..|parts[0]|][0] == parts[0][0];
  }

  lemma TailMembers<T>(s: seq<T>)
    requires s != []
    ensures forall p :: p in s[1..] ==> p in s
  {
  }

  /** A part fit to stand between pipe-run separators: non-empty, trimmed, without a pipe. */
  predicate PipeFree(p: string)
  {
    p != [] && IsTrimmed(p) && '|' !in p
  }

  /** `parts` with `trail` appended to the last part. */
  function WithTrail(parts: seq<string>, trail: string): (r: seq<string>)
    requires parts != []
    ensures |r| == |parts|
    decreases |parts|
  {
    if |parts| == 1 then [parts[0] + trail] else [parts[0]] + WithTrail(parts[1..], trail)
  }

  /** Only the last part gets the trail. */
  lemma {:induction false} WithTrailAt(parts: seq<string>, trail: string, k: nat)
    requires k < |parts|
    ensures WithTrail(parts, trail)[k] == parts[k] + if k == |parts| - 1 then trail else ""
    decreases k
  {
    if k > 0 {
      WithTrailAt(parts[1..], trail, k - 1);
    } else if |parts| > 1 {
      assert parts[0] + "" == parts[0];
    }
  }

  lemma JoinUnfold(parts: seq<string>, sep: string, trail: string)
    requires |parts| > 1
    ensures Join(parts, sep) + trail == parts[0] + (sep + (Join(parts[1..], sep) + trail))
  {
  }

  /** Parts fit to stand between separators, joined with a padded separator and followed by a
      text without a pipe, split on the separator's pattern back into the same parts; the
      following text stays with the last part. */
  lemma {:induction false} SplitJoinSeparated(parts: seq<string>, sep: Separator, trail: string)
    requires parts != [] && forall p :: p in parts ==> PipeFree(p)
    requires sep.Padded() && '|' !in trail
    ensures Split(Join(parts, sep.Text()) + trail, PipeRun(sep.pipes)) == WithTrail(parts, trail)
    decreases |parts|
  {
    var x := parts[0];
    assert x in parts;
    if |parts| == 1 {
      assert '|' !in x + trail;
      NoPipeNoMatch(x + trail, sep.pipes);
      SplitNoMatch(x + trail, PipeRun(sep.pipes));
    } else {
      var tail := parts[1..];
      TailMembers(parts);
      assert tail[0] in tail;
      JoinFirstChar(tail, sep.Text());
      var j := Join(tail, sep.Text());
      JoinUnfold(parts, sep.Text(), trail);
      SplitSeparatedStep(x, j + trail, sep);
      SplitJoinSeparated(tail, sep, trail);
    }
  }

  lemma Regroup(a: string, b: string, c: string, d: string)
    ensures a + (b + (c + d)) == (a + (b + c)) + d
  {
  }

  lemma JoinCons(x: string, tail: seq<string>, sep: string)
    requires tail != []
    ensures Join([x] + tail, sep) == x + (sep + Join(tail, sep))
  {
    assert ([x] + tail)[1..] == tail;
  }

  /** The step of ReplaceJoinSeparated that puts one more part in front. */
  lemma ReplaceJoinSeparatedCons(x: string, tail: seq<string>, sep: Separator, rep: string, b: string)
    requires PipeFree(x) && tail != [] && tail[0] != [] && !IsSpace(tail[0][0]) && sep.Padded()
    requires ReplaceAll(Join(tail, sep.Text()) + b, PipeRun(sep.pipes), rep)
             == Join(tail, rep) + ReplaceAll(b, PipeRun(sep.pipes), rep)
    ensures ReplaceAll(Join([x] + tail, sep.Text()) + b, PipeRun(sep.pipes), rep)
            == Join([x] + tail, rep) + ReplaceAll(b, PipeRun(sep.pipes), rep)
  {
    var rest := Join(tail, sep.Text());
    JoinFirstChar(tail, sep.Text());
    JoinCons(x, tail, sep.Text());
    JoinCons(x, tail, rep);
    Regroup(x, sep.Text(), rest, b);
    ReplaceSeparatedStep(x, rest + b, sep, rep);
    Regroup(x, rep, Join(tail, rep), ReplaceAll(b, PipeRun(sep.pipes), rep));
  }

  /** Replacing the pattern of a padded separator in a join of parts fit to stand between
      separators swaps every separator for `rep` and leaves the parts alone, whatever follows. */
  lemma {:induction false} ReplaceJoinSeparated(parts: seq<string>, sep: Separator, rep: string, b: string)
    requires parts != [] && forall p :: p in parts ==> PipeFree(p)
    requires sep.Padded()
    ensures ReplaceAll(Join(parts, sep.Text()) + b, PipeRun(sep.pipes), rep)
            == Join(parts, rep) + ReplaceAll(b, PipeRun(sep.pipes), rep)
    decreases |parts|
  {
    var x := parts[0];
    assert x in parts;
    if |parts| == 1 {
      NoPipeRunInside(x, b, sep.pipes);
      ReplaceNoMatchPrefix(x, b, PipeRun(sep.pipes), rep);
    } else {
      var tail := parts[1..];
      TailMembers(parts);
      assert tail[0] in tail;
      ReplaceJoinSeparated(tail, sep, rep, b);
      ReplaceJoinSeparatedCons(x, tail, sep, rep, b);
      assert parts == [x] + tail;
    }
  }

  /** The white space between a `||` and a `|` that follows it belongs to the match of the
      `||`: its trailing white space is greedy. */
  lemma AbsorbSpaceBetween(double: Separator, single: Separator, b: string)
    requires double.Padded() && single.Padded()
    ensures var greedy := Separator(double.before, double.pipes, double.after + single.before);
            && greedy.Padded()
            && double.Text() + (single.Text() + b) == greedy.Text() + (Separator("", single.pipes, single.after).Text() + b)
  {
    var w := double.after + single.before;
    assert forall k :: 0 <= k < |w| ==> IsSpace(w[k]);
    var d, p := double.before + Pipes(double.pipes), Pipes(single.pipes);
    assert "" + p + single.after == p + single.after;
    calc {
      double.Text() + (single.Text() + b);
      (d + double.after) + ((single.before + p + single.after) + b);
      (d + w) + ((p + single.after) + b);
    }
  }

  /** A single pipe, white space and a text without a pipe hold no run of two pipes. */
  lemma LonePipeUnchanged(lone: Separator, b: string, rep: string)
    requires lone.Padded() && lone.pipes == 1 && b != [] && '|' !in b && !IsSpace(b[0])
    ensures ReplaceAll(lone.Text() + b, PipeRun(2), rep) == lone.Text() + b
  {
    assert b[0] in b;
    LonePipeNoDouble(lone, b);
    ReplaceNoMatchPrefix(lone.Text(), b, PipeRun(2), rep);
    NoPipeUnchanged(b, 2, rep);
  }

  /** A run of two pipes directly followed by a single pipe, all padded: the leftmost `||` is
      rewritten together with all the white space after it, up to the single pipe, which stays,
      with the white space after it and what follows. */
  lemma ReplaceDoubleThenSingle(a: string, double: Separator, single: Separator, b: string, rep: string)
    requires a != [] && '|' !in a && !IsSpace(a[|a| - 1])
    requires double.Padded() && double.pipes == 2 && single.Padded() && single.pipes == 1
    requires b != [] && '|' !in b && !IsSpace(b[0])
    ensures ReplaceAll(a + (double.Text() + (single.Text() + b)), PipeRun(2), rep)
            == a + (rep + (Separator("", 1, single.after).Text() + b))
  {
    var greedy := Separator(double.before, 2, double.after + single.before);
    var lone := Separator("", 1, single.after);
    AbsorbSpaceBetween(double, single, b);
    PipeIsNotSpace();
    assert (lone.Text() + b)[0] == '|';
    ReplaceSeparatedStep(a, lone.Text() + b, greedy, rep);
    LonePipeUnchanged(lone, b, rep);
  }

  /** The decimal digit of `d`. */
  function Digit(d: nat): (c: char)
    requires d < 10
    ensures '0' <= c <= '9' && c as int - '0' as int == d
  {
    ('0' as int + d) as char
  }

  /** How a template literal renders a natural number: its decimal digits, most significant
      first, without leading zeros. */
  function Decimal(n: nat): (r: string)
    ensures r != [] && (forall k :: 0 <= k < |r| ==> '0' <= r[k] <= '9')
    ensures n > 0 ==> r[0] != '0'
  {
    if n < 10 then [Digit(n)] else Decimal(n / 10) + [Digit(n % 10)]
  }

  /** The number a string of decimal digits denotes. */
  function DecimalValue(s: string): nat
    requires forall k :: 0 <= k < |s| ==> '0' <= s[k] <= '9'
  {
    if s == [] then 0 else 10 * DecimalValue(s[..|s| - 1]) + (s[|s| - 1] as int - '0' as int)
  }

  /** Reading the rendered digits back gives the number. */
  lemma {:induction false} DecimalRoundTrip(n: nat)
    ensures DecimalValue(Decimal(n)) == n
  {
    if n >= 10 {
      DecimalRoundTrip(n / 10);
      var r := Decimal(n);
      assert r[..|r| - 1] == Decimal(n / 10);
    }
  }
}
