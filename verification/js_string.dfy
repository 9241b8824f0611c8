/**
  The JavaScript string built-ins the dashboard's logic is written with:
  `trim`, `split` on a one-character separator, `join`, `slice`,
  `startsWith`, `endsWith` and `includes`. Strings are sequences of code points.
*/
module JsString {

  /**
    ECMAScript WhiteSpace and LineTerminator code points, the set
    `String.prototype.trim` strips: tab, vertical tab, form feed, the BOM,
    the Space_Separator category, and LF, CR, LS, PS.
  */
  predicate IsWhitespace(c: char) {
    || c == '\t' || c == '\n' || c == '\U{B}' || c == '\U{C}' || c == '\r'
    || c == ' ' || c == '\U{A0}' || c == '\U{1680}'
    || ('\U{2000}' <= c <= '\U{200A}')
    || c == '\U{2028}' || c == '\U{2029}' || c == '\U{202F}' || c == '\U{205F}'
    || c == '\U{3000}' || c == '\U{FEFF}'
  }

  predicate AllWhitespace(s: string) {
    forall i :: 0 <= i < |s| ==> IsWhitespace(s[i])
  }

  /** No whitespace at either end: what `trim()` leaves. */
  predicate Trimmed(s: string) {
    s == [] || (!IsWhitespace(s[0]) && !IsWhitespace(s[|s| - 1]))
  }

  /** `s.startsWith(p)` */
  predicate StartsWith(s: string, p: string) {
    |p| <= |s| && s[..|p|] == p
  }

  /** `s.endsWith(p)` */
  predicate EndsWith(s: string, p: string) {
    |p| <= |s| && s[|s| - |p|..] == p
  }

  predicate OccursAt(s: string, sub: string, i: int) {
    0 <= i && i + |sub| <= |s| && s[i..i + |sub|] == sub
  }

  /** `s.includes(sub)` */
  predicate Includes(s: string, sub: string) {
    exists i :: 0 <= i <= |s| - |sub| && OccursAt(s, sub, i)
  }

  /** `s.trimStart()`: a suffix of `s` preceded only by whitespace and not starting with any. */
  function TrimStart(s: string): (r: string)
    ensures |r| <= |s| && r == s[|s| - |r|..]
    ensures AllWhitespace(s[..|s| - |r|])
    ensures r == [] || !IsWhitespace(r[0])
  {
    if |s| > 0 && IsWhitespace(s[0]) then
      var r := TrimStart(s[1..]);
      TrimStartStep(s, r);
      r
    else s
  }

  /** A whitespace character in front of what `trimStart` cut from the rest is still all whitespace. */
  lemma TrimStartStep(s: string, r: string)
    requires |s| > 0 && IsWhitespace(s[0])
    requires |r| <= |s| - 1 && r == s[1..][|s| - 1 - |r|..]
    requires AllWhitespace(s[1..][..|s| - 1 - |r|])
    ensures r == s[|s| - |r|..] && AllWhitespace(s[..|s| - |r|])
  {
    assert s[..|s| - |r|] == [s[0]] + s[1..][..|s| - 1 - |r|];
    WhitespaceConcat([s[0]], s[1..][..|s| - 1 - |r|]);
  }

  /** `s.trimEnd()`: a prefix of `s` followed only by whitespace and not ending with any. */
  function TrimEnd(s: string): (r: string)
    ensures |r| <= |s| && r == s[..|r|]
    ensures AllWhitespace(s[|r|..])
    ensures r == [] || !IsWhitespace(r[|r| - 1])
  {
    if |s| > 0 && IsWhitespace(s[|s| - 1]) then
      var r := TrimEnd(s[..|s| - 1]);
      TrimEndStep(s, r);
      r
    else s
  }

  /** What `trimEnd` cut from the front part, followed by a last whitespace character, is still all whitespace. */
  lemma TrimEndStep(s: string, r: string)
    requires |s| > 0 && IsWhitespace(s[|s| - 1])
    requires |r| <= |s| - 1 && r == s[..|s| - 1][..|r|]
    requires AllWhitespace(s[..|s| - 1][|r|..])
    ensures r == s[..|r|] && AllWhitespace(s[|r|..])
  {
    assert s[|r|..] == s[..|s| - 1][|r|..] + [s[|s| - 1]];
    WhitespaceConcat(s[..|s| - 1][|r|..], [s[|s| - 1]]);
  }

  /**
    `s.trim()`: empty exactly for all-whitespace strings, otherwise a factor
    of `s` with non-blank ends. The second ensures is `Trimmed(r)` written out.
  */
  function Trim(s: string): (r: string)
    ensures r == [] <==> AllWhitespace(s)
    ensures r == [] || (!IsWhitespace(r[0]) && !IsWhitespace(r[|r| - 1]))
    ensures Includes(s, r)
  {
    var t := TrimStart(s);
    var r := TrimEnd(t);
    TrimParts(s, t, r);
    r
  }

  /**
    What is left after cutting leading whitespace off `s` (giving `t`) and
    trailing whitespace off `t` (giving `r`) has the three properties of a trim.
  */
  lemma TrimParts(s: string, t: string, r: string)
    requires |t| <= |s| && t == s[|s| - |t|..] && AllWhitespace(s[..|s| - |t|])
    requires t == [] || !IsWhitespace(t[0])
    requires |r| <= |t| && r == t[..|r|] && AllWhitespace(t[|r|..])
    requires r == [] || !IsWhitespace(r[|r| - 1])
    ensures r == [] <==> AllWhitespace(s)
    ensures r == [] || (!IsWhitespace(r[0]) && !IsWhitespace(r[|r| - 1]))
    ensures Includes(s, r)
  {
    TrimBlank(s, t, r);
    PrefixOfSuffix(s, t, r);
  }

  /** A prefix of a suffix of `s` occurs in `s` where the suffix starts. */
  lemma PrefixOfSuffix(s: string, t: string, r: string)
    requires |t| <= |s| && t == s[|s| - |t|..]
    requires |r| <= |t| && r == t[..|r|]
    ensures OccursAt(s, r, |s| - |t|)
    ensures r != [] ==> r[0] == t[0]
  {
    assert s[|s| - |t|..][..|r|] == r;
  }

  /**
    Cutting whitespace off the front of `s` (leaving `t`) and then off the
    back of `t` (leaving `r`, which does not end with whitespace) leaves
    nothing exactly when `s` was all whitespace.
  */
  lemma TrimBlank(s: string, t: string, r: string)
    requires |t| <= |s| && t == s[|s| - |t|..] && AllWhitespace(s[..|s| - |t|])
    requires |r| <= |t| && r == t[..|r|] && AllWhitespace(t[|r|..])
    requires r == [] || !IsWhitespace(r[|r| - 1])
    ensures r == [] <==> AllWhitespace(s)
  {
    var pre := s[..|s| - |t|];
    assert s == pre + t;
    WhitespaceConcat(pre, t);
    if r == [] {
      assert t[|r|..] == t;
    } else {
      assert t[|r| - 1] == r[|r| - 1];
    }
  }

  lemma WhitespaceConcat(a: string, b: string)
    ensures AllWhitespace(a + b) <==> AllWhitespace(a) && AllWhitespace(b)
  {
    if AllWhitespace(a) && AllWhitespace(b) {
      forall i | 0 <= i < |a + b|
        ensures IsWhitespace((a + b)[i])
      {
        if i >= |a| {
          assert (a + b)[i] == b[i - |a|];
        }
      }
    }
    if AllWhitespace(a + b) {
      forall i | 0 <= i < |a|
        ensures IsWhitespace(a[i])
      {
        assert (a + b)[i] == a[i];
      }
      forall i | 0 <= i < |b|
        ensures IsWhitespace(b[i])
      {
        assert (a + b)[|a| + i] == b[i];
      }
    }
  }

  /** Whitespace in front of a string whose first character is not whitespace is exactly what trimStart removes. */
  lemma {:induction false} TrimStartOf(pre: string, x: string)
    requires AllWhitespace(pre)
    requires x == [] || !IsWhitespace(x[0])
    ensures TrimStart(pre + x) == x
  {
    if |pre| > 0 {
      assert (pre + x)[1..] == pre[1..] + x;
      TrimStartOf(pre[1..], x);
    } else {
      assert pre + x == x;
    }
  }

  /** Whitespace after a string whose last character is not whitespace is exactly what trimEnd removes. */
  lemma {:induction false} TrimEndOf(x: string, post: string)
    requires AllWhitespace(post)
    requires x == [] || !IsWhitespace(x[|x| - 1])
    ensures TrimEnd(x + post) == x
  {
    if |post| > 0 {
      assert (x + post)[..|x + post| - 1] == x + post[..|post| - 1];
      TrimEndOf(x, post[..|post| - 1]);
    } else {
      assert x + post == x;
    }
  }

  /** `trim` is characterised by the decomposition whitespace + core + whitespace. */
  lemma TrimUnique(pre: string, core: string, post: string)
    requires AllWhitespace(pre) && AllWhitespace(post)
    requires Trimmed(core)
    ensures Trim(pre + core + post) == core
  {
    if core == [] {
      assert AllWhitespace(pre + core + post);
    } else {
      assert pre + core + post == pre + (core + post);
      TrimStartOf(pre, core + post);
      TrimEndOf(core, post);
    }
  }

  /** A character the string lacks is not in its trim either. */
  lemma TrimKeepsOut(s: string, c: char)
    requires c !in s
    ensures c !in Trim(s)
  {
    var t := TrimStart(s);
    var r := TrimEnd(t);
    PrefixOfSuffix(s, t, r);
    OccursKeepsOut(s, r, |s| - |t|, c);
  }

  /** A character the string lacks is in none of its factors. */
  lemma OccursKeepsOut(s: string, sub: string, k: int, c: char)
    requires OccursAt(s, sub, k) && c !in s
    ensures c !in sub
  {
    assert forall i :: 0 <= i < |sub| ==> sub[i] == s[k + i];
  }

  /** A string with no leading or trailing whitespace is its own trim. */
  lemma TrimNoop(s: string)
    requires Trimmed(s)
    ensures Trim(s) == s
  {
    var e: string := [];
    assert e + s + e == s;
    TrimUnique(e, s, e);
  }

  /** `xs.join(sep)` */
  function Join(xs: seq<string>, sep: string): string {
    if |xs| == 0 then ""
    else if |xs| == 1 then xs[0]
    else xs[0] + sep + Join(xs[1..], sep)
  }

  /**
    `s.split(sep)` for a one-character separator: the pieces between
    separators, never an empty list (`"".split(sep)` is `[""]`).
  */
  function Split(s: string, sep: char): (r: seq<string>)
    ensures |r| >= 1
    ensures forall i :: 0 <= i < |r| ==> sep !in r[i]
  {
    if |s| == 0 then [""]
    else
      var rest := Split(s[1..], sep);
      if s[0] == sep then
        assert ([""] + rest)[1..] == rest;
        [""] + rest
      else
        var r := [[s[0]] + rest[0]] + rest[1..];
        assert r[1..] == rest[1..];
        r
  }

  /** Joining the pieces back with the separator gives the string that was split. */
  lemma {:induction false} JoinSplit(s: string, sep: char)
    ensures Join(Split(s, sep), [sep]) == s
  {
    if |s| > 0 {
      var c, t := s[0], s[1..];
      assert s == [c] + t;
      JoinSplit(t, sep);
      var rest := Split(t, sep);
      if c == sep {
        SplitStepSeparator(t, sep);
        assert ([""] + rest)[1..] == rest;
      } else {
        SplitStepOther(c, t, sep);
        var r := [[c] + rest[0]] + rest[1..];
        assert r[1..] == rest[1..];
        if |rest| > 1 {
          assert rest == [rest[0]] + rest[1..];
        }
      }
    }
  }

  /** Splitting a string with no separator gives back the string alone. */
  lemma {:induction false} SplitNoSeparator(s: string, sep: char)
    requires sep !in s
    ensures Split(s, sep) == [s]
  {
    if |s| > 0 {
      var c, t := s[0], s[1..];
      assert s == [c] + t;
      SplitNoSeparator(t, sep);
      SplitStepOther(c, t, sep);
    }
  }

  /** One step of splitting: a separator in front opens a new, empty first piece. */
  lemma SplitStepSeparator(t: string, sep: char)
    ensures Split([sep] + t, sep) == [""] + Split(t, sep)
  {
    assert ([sep] + t)[1..] == t;
  }

  /** One step of splitting: any other character in front joins the first piece. */
  lemma SplitStepOther(c: char, t: string, sep: char)
    requires c != sep
    ensures Split([c] + t, sep) == [[c] + Split(t, sep)[0]] + Split(t, sep)[1..]
  {
    assert ([c] + t)[0] == c;
    assert ([c] + t)[1..] == t;
  }

  /** Extending the first piece commutes with appending more pieces. */
  lemma JoinFirstPiece(pre: string, xs: seq<string>, ys: seq<string>)
    requires |xs| >= 1
    ensures [pre + xs[0]] + xs[1..] + ys == [pre + (xs + ys)[0]] + (xs + ys)[1..]
  {
    assert (xs + ys)[1..] == xs[1..] + ys;
  }

  /** Splitting distributes over a separator: the pieces of the two sides, side by side. */
  lemma {:induction false} SplitAround(a: string, b: string, sep: char)
    ensures Split(a + [sep] + b, sep) == Split(a, sep) + Split(b, sep)
  {
    if |a| == 0 {
      assert a + [sep] + b == [sep] + b;
      SplitStepSeparator(b, sep);
    } else {
      var c, t := a[0], a[1..];
      assert a == [c] + t;
      assert a + [sep] + b == [c] + (t + [sep] + b);
      SplitAround(t, b, sep);
      SplitAroundStep(c, t, b, sep);
    }
  }

  /** The inductive step of `SplitAround`: one more character in front of the left side. */
  lemma SplitAroundStep(c: char, t: string, b: string, sep: char)
    requires Split(t + [sep] + b, sep) == Split(t, sep) + Split(b, sep)
    ensures Split([c] + (t + [sep] + b), sep) == Split([c] + t, sep) + Split(b, sep)
  {
    var rest := t + [sep] + b;
    var rt, rb := Split(t, sep), Split(b, sep);
    if c == sep {
      SplitStepSeparator(rest, sep);
      SplitStepSeparator(t, sep);
      assert [""] + (rt + rb) == [""] + rt + rb;
    } else {
      SplitStepOther(c, rest, sep);
      SplitStepOther(c, t, sep);
      JoinFirstPiece([c], rt, rb);
    }
  }

  /** Pieces free of the separator come back unchanged from splitting their join. */
  lemma {:induction false} SplitJoin(xs: seq<string>, sep: char)
    requires |xs| >= 1
    requires forall i :: 0 <= i < |xs| ==> sep !in xs[i]
    ensures Split(Join(xs, [sep]), sep) == xs
  {
    if |xs| == 1 {
      SplitNoSeparator(xs[0], sep);
    } else {
      SplitJoin(xs[1..], sep);
      SplitAround(xs[0], Join(xs[1..], [sep]), sep);
      SplitNoSeparator(xs[0], sep);
      assert xs == [xs[0]] + xs[1..];
    }
  }

  /** The index an argument of `slice` denotes: negative counts from the end, clamped to `[0, len]`. */
  function RelativeIndex(rel: int, len: nat): (k: nat)
    ensures k <= len
    ensures 0 <= rel <= len ==> k == rel
    ensures -(len as int) <= rel < 0 ==> k as int == len as int + rel
  {
    if rel < 0 then (if len + rel < 0 then 0 else len + rel)
    else if rel < len then rel
    else len
  }

  /** `s.slice(start, end)`: empty when the resolved end is not after the resolved start. */
  function Slice(s: string, start: int, end: int): (r: string)
    ensures |r| <= |s|
    ensures Includes(s, r)
    ensures 0 <= start <= end <= |s| ==> r == s[start..end]
    ensures 0 <= start && end < 0 && start <= |s| + end ==> r == s[start..|s| + end]
  {
    var from := RelativeIndex(start, |s|);
    var to := RelativeIndex(end, |s|);
    if from < to then
      assert OccursAt(s, s[from..to], from);
      s[from..to]
    else
      assert OccursAt(s, "", 0);
      ""
  }

  /** `s.slice(start)` */
  function SliceFrom(s: string, start: int): (r: string)
    ensures |r| <= |s|
    ensures 0 <= start <= |s| ==> s == s[..start] + r
  {
    Slice(s, start, |s|)
  }
}
