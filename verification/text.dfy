/**
 * The handful of PHP string primitives the plugin relies on, stated over
 * `seq<char>`: `empty()`, `trim()`, `explode()`/`implode()`, the
 * `str_replace("\r\n", "\n", ...)` line-ending normalisation, `strpos` for a
 * single character, and the case-insensitive comparison of the database layer.
 */
module Text {

  /** PHP `empty()` on a string: the empty string and "0" are both empty. */
  predicate Empty(s: string)
  {
    s == "" || s == "0"
  }

  /** The characters PHP `trim()` strips by default: space, tab, LF, CR, NUL and vertical tab. */
  predicate IsTrimmable(c: char)
  {
    c == ' ' || c == '\t' || c == '\n' || c == '\r' || c == '\0' || c == '\U{000B}'
  }

  /** Number of leading trimmable characters of `s`. */
  function LeadingTrim(s: string): (n: nat)
    ensures n <= |s|
    ensures forall k :: 0 <= k < n ==> IsTrimmable(s[k])
    ensures n < |s| ==> !IsTrimmable(s[n])
  {
    if |s| > 0 && IsTrimmable(s[0]) then 1 + LeadingTrim(s[1..]) else 0
  }

  /** Length of `s` once its trailing trimmable characters are removed. */
  function TrailingTrim(s: string): (n: nat)
    ensures n <= |s|
    ensures forall k :: n <= k < |s| ==> IsTrimmable(s[k])
    ensures n > 0 ==> !IsTrimmable(s[n - 1])
  {
    if |s| > 0 && IsTrimmable(s[|s| - 1]) then TrailingTrim(s[..|s| - 1]) else |s|
  }

  /**
   * PHP `trim()`: the longest slice of `s` that neither starts nor ends with a
   * trimmable character, everything cut away on either side being trimmable.
   */
  function Trim(s: string): (r: string)
    ensures |r| <= |s|
    ensures |r| > 0 ==> !IsTrimmable(r[0]) && !IsTrimmable(r[|r| - 1])
    ensures exists a, b :: 0 <= a <= b <= |s| && r == s[a..b]
                           && (forall k :: 0 <= k < a ==> IsTrimmable(s[k]))
                           && (forall k :: b <= k < |s| ==> IsTrimmable(s[k]))
  {
    var a := LeadingTrim(s);
    var t := s[a..];
    var b := TrailingTrim(t);
    assert t[..b] == s[a..a + b];
    t[..b]
  }

  /** Number of occurrences of `c` in `s`. */
  function Count(s: string, c: char): nat
  {
    if |s| == 0 then 0 else (if s[0] == c then 1 else 0) + Count(s[1..], c)
  }

  lemma {:induction false} CountZero(s: string, c: char)
    ensures Count(s, c) == 0 <==> c !in s
  {
    if |s| > 0 {
      CountZero(s[1..], c);
      assert s == [s[0]] + s[1..];
    }
  }

  /** PHP `implode(sep, parts)`: the parts joined by `sep`. */
  function Join(parts: seq<string>, sep: string): string
    requires |parts| > 0
  {
    if |parts| == 1 then parts[0] else parts[0] + sep + Join(parts[1..], sep)
  }

  /**
   * PHP `explode(c, s)`: the maximal pieces of `s` between occurrences of `c`.
   * There is always one more piece than there are separators, no piece holds
   * the separator, and joining the pieces back gives `s`.
   */
  function Split(s: string, c: char): (r: seq<string>)
    ensures |r| == Count(s, c) + 1
    ensures forall i :: 0 <= i < |r| ==> c !in r[i]
    ensures Join(r, [c]) == s
  {
    if |s| == 0 then
      [""]
    else
      var rest := Split(s[1..], c);
      if s[0] == c then
        assert [c] + Join(rest, [c]) == s;
        [""] + rest
      else
        var r := [[s[0]] + rest[0]] + rest[1..];
        assert |rest| == 1 ==> Join(r, [c]) == [s[0]] + rest[0];
        assert |rest| > 1 ==> Join(r, [c]) == [s[0]] + rest[0] + [c] + Join(rest[1..], [c]);
        assert s == [s[0]] + s[1..];
        r
  }

  /** Splitting a joined list of separator-free pieces gives the pieces back. */
  lemma {:induction false} SplitJoin(parts: seq<string>, c: char)
    requires |parts| > 0
    requires forall i :: 0 <= i < |parts| ==> c !in parts[i]
    ensures Split(Join(parts, [c]), c) == parts
  {
    if |parts| == 1 {
      SplitNoSeparator(parts[0], c);
    } else {
      SplitJoin(parts[1..], c);
      SplitAround(parts[0], Join(parts[1..], [c]), c);
      assert Join(parts, [c]) == parts[0] + [c] + Join(parts[1..], [c]);
      assert parts == [parts[0]] + parts[1..];
    }
  }

  /** A string without the separator explodes into itself. */
  lemma {:induction false} SplitNoSeparator(s: string, c: char)
    requires c !in s
    ensures Split(s, c) == [s]
  {
    CountZero(s, c);
    var r := Split(s, c);
    assert |r| == 1;
    assert Join(r, [c]) == r[0];
  }

  /** Exploding `a + c + b` with `c` not in `a` gives `a` then the pieces of `b`. */
  lemma {:induction false} SplitAround(a: string, b: string, c: char)
    requires c !in a
    ensures Split(a + [c] + b, c) == [a] + Split(b, c)
    decreases |a|
  {
    if |a| == 0 {
      assert a + [c] + b == [c] + b;
      assert ([c] + b)[1..] == b;
    } else {
      SplitAround(a[1..], b, c);
      assert (a + [c] + b)[1..] == a[1..] + [c] + b;
      assert a == [a[0]] + a[1..];
    }
  }

  /** PHP `str_replace("\r\n", "\n", s)`: a left-to-right, non-overlapping replacement. */
  function NormalizeNewlines(s: string): (r: string)
    ensures Count(r, '\n') == Count(s, '\n')
    ensures |s| - |r| == Count(s, '\r') - Count(r, '\r') >= 0
    ensures (forall i :: 0 <= i < |s| - 1 ==> s[i] != '\r' || s[i + 1] != '\n') ==> r == s
  {
    if |s| < 2 then s
    else if s[0] == '\r' && s[1] == '\n' then
      var rest := NormalizeNewlines(s[2..]);
      assert s[1..][1..] == s[2..];
      assert ("\n" + rest)[1..] == rest;
      "\n" + rest
    else
      var rest := NormalizeNewlines(s[1..]);
      assert ([s[0]] + rest)[1..] == rest;
      [s[0]] + rest
  }

  /** A prefix without LF is copied unchanged, provided the rest does not start with LF. */
  lemma {:induction false} NormalizePrefix(a: string, b: string)
    requires '\n' !in a
    requires |b| > 0 ==> b[0] != '\n'
    ensures NormalizeNewlines(a + b) == a + NormalizeNewlines(b)
    decreases |a|
  {
    if |a| > 0 {
      var s := a + b;
      NormalizePrefix(a[1..], b);
      assert s[1..] == a[1..] + b;
      assert |s| >= 2 ==> s[1] != '\n' by {
        if |a| > 1 { assert s[1] == a[1]; } else if |b| > 0 { assert s[1] == b[0]; }
      }
      assert a == [a[0]] + a[1..];
      if |s| < 2 {
        assert b == [] && s == a;
      } else {
        assert NormalizeNewlines(s) == [s[0]] + NormalizeNewlines(s[1..]);
      }
    } else {
      assert a + b == b;
    }
  }

  /**
   * Text whose lines are separated by CRLF normalises to the same lines
   * separated by LF.
   */
  lemma {:induction false} NormalizeCrlfJoin(lines: seq<string>)
    requires |lines| > 0
    requires forall i :: 0 <= i < |lines| ==> '\n' !in lines[i]
    ensures NormalizeNewlines(Join(lines, "\r\n")) == Join(lines, "\n")
  {
    if |lines| == 1 {
      NormalizePrefix(lines[0], "");
      assert lines[0] + "" == lines[0];
    } else {
      var rest := Join(lines[1..], "\r\n");
      NormalizeCrlfJoin(lines[1..]);
      assert Join(lines, "\r\n") == lines[0] + ("\r\n" + rest);
      NormalizePrefix(lines[0], "\r\n" + rest);
      assert ("\r\n" + rest)[2..] == rest;
      assert NormalizeNewlines("\r\n" + rest) == "\n" + NormalizeNewlines(rest);
    }
  }

  /** PHP `strpos(s, c)` read as a boolean: false when `c` is absent AND when it sits at index 0. */
  predicate StrposTruthy(s: string, c: char)
  {
    c in s && s[0] != c
  }

  /** On a string that does not start with `c`, a falsy `strpos` means `c` does not occur. */
  lemma StrposFalsyMeansAbsent(s: string, c: char)
    requires |s| > 0 ==> s[0] != c
    ensures !StrposTruthy(s, c) <==> c !in s
  {
  }

  /** ASCII case folding, standing in for the database's case-insensitive collation. */
  function FoldChar(c: char): (r: char)
    ensures 'A' <= c <= 'Z' ==> 'a' <= r <= 'z'
    ensures !('A' <= c <= 'Z') ==> r == c
  {
    if 'A' <= c <= 'Z' then (c as int + 32) as char else c
  }

  /** Case-insensitive string equality. */
  predicate EqualIgnoringCase(a: string, b: string)
  {
    |a| == |b| && forall i :: 0 <= i < |a| ==> FoldChar(a[i]) == FoldChar(b[i])
  }

  /** Comparing without regard to case is an equivalence: reflexive, symmetric and transitive. */
  lemma CaseEquivalence(a: string, b: string, c: string)
    ensures EqualIgnoringCase(a, a)
    ensures EqualIgnoringCase(a, b) ==> EqualIgnoringCase(b, a)
    ensures EqualIgnoringCase(a, b) && EqualIgnoringCase(b, c) ==> EqualIgnoringCase(a, c)
  {
  }
}
