/**
 * The Python string operations the pipeline relies on, with Python's semantics:
 * `str.find`, `in`, `str.startswith`, `str.split(sep)`, `sep.join`, `str.upper`,
 * `str.strip()` and a single-occurrence `re.sub` on a literal pattern.
 */
module PyStrings {

  /** `sub` occurs in `s` starting at index `j`. */
  predicate OccursAt(s: string, sub: string, j: int)
  {
    0 <= j && j + |sub| <= |s| && s[j..j + |sub|] == sub
  }

  /** `s.startswith(prefix)`. */
  predicate StartsWith(s: string, prefix: string)
  {
    OccursAt(s, prefix, 0)
  }

  /** `s.find(sub, start)` for a non-empty `sub`: the first index at or after `start` where `sub` occurs, else -1. */
  function FindFrom(s: string, sub: string, start: nat): (i: int)
    requires |sub| > 0
    ensures i == -1 || (start <= i && OccursAt(s, sub, i))
    ensures forall j :: start <= j && (i == -1 || j < i) ==> !OccursAt(s, sub, j)
    decreases |s| - start
  {
    if start + |sub| > |s| then -1
    else if s[start..start + |sub|] == sub then start
    else FindFrom(s, sub, start + 1)
  }

  /** `s.find(sub)`. */
  function Find(s: string, sub: string): int
    requires |sub| > 0
  {
    FindFrom(s, sub, 0)
  }

  /** `sub in s`. */
  predicate Contains(s: string, sub: string)
    requires |sub| > 0
  {
    Find(s, sub) >= 0
  }

  /** The first occurrence of `sub` in `s` is the one at `i`. */
  lemma FindFirstOccurrence(s: string, sub: string, i: int)
    requires |sub| > 0 && OccursAt(s, sub, i)
    requires forall j :: 0 <= j < i ==> !OccursAt(s, sub, j)
    ensures Find(s, sub) == i
  {
  }

  /** An occurrence inside a prefix of `s` is an occurrence in `s`. */
  lemma OccursInPrefix(s: string, n: nat, sub: string, j: int)
    requires n <= |s| && OccursAt(s[..n], sub, j)
    ensures OccursAt(s, sub, j)
  {
    assert s[..n][j..j + |sub|] == s[j..j + |sub|];
  }

  /** `sep.join(xs)`. */
  function Join(sep: string, xs: seq<string>): string
  {
    if |xs| == 0 then ""
    else if |xs| == 1 then xs[0]
    else xs[0] + sep + Join(sep, xs[1..])
  }

  /**
   * `s.split(sep)` for a non-empty separator: the pieces between successive
   * non-overlapping occurrences of `sep`, found from left to right. Joining the
   * pieces again gives back `s`, and no piece contains the separator.
   */
  function SplitOn(s: string, sep: string): (pieces: seq<string>)
    requires |sep| > 0
    ensures |pieces| >= 1
    ensures Join(sep, pieces) == s
    ensures forall k :: 0 <= k < |pieces| ==> !Contains(pieces[k], sep)
    ensures forall k :: 0 <= k < |pieces| - 1 ==> Find(pieces[k] + sep, sep) == |pieces[k]|
    decreases |s|
  {
    var i := Find(s, sep);
    if i < 0 then
      [s]
    else
      var head, rest := s[..i], SplitOn(s[i + |sep|..], sep);
      assert !Contains(head, sep) by {
        var f := Find(head, sep);
        if f >= 0 {
          OccursInPrefix(s, i, sep, f);
        }
      }
      LeftmostSeparator(s, sep);
      assert s == head + sep + s[i + |sep|..];
      [head] + rest
  }

  /**
   * The separator that `split` cuts at is the leftmost one: in the first piece
   * followed by the separator, the separator is first found right after the piece.
   */
  lemma LeftmostSeparator(s: string, sep: string)
    requires |sep| > 0 && Contains(s, sep)
    ensures Find(s[..Find(s, sep)] + sep, sep) == Find(s, sep)
  {
    var i := Find(s, sep);
    var t := s[..i] + sep;
    assert t == s[..i + |sep|];
    assert t[i..i + |sep|] == sep;
    forall j | 0 <= j < i
      ensures !OccursAt(t, sep, j)
    {
      if OccursAt(t, sep, j) {
        OccursInPrefix(s, i + |sep|, sep, j);
      }
    }
    FindFirstOccurrence(t, sep, i);
  }

  /** With more than one piece, the first piece is what precedes the first separator. */
  lemma SplitFirstPiece(s: string, sep: string)
    requires |sep| > 0 && |SplitOn(s, sep)| >= 2
    ensures 0 <= Find(s, sep) && SplitOn(s, sep)[0] == s[..Find(s, sep)]
  {
  }

  /** A string with no occurrence of the separator splits into itself alone. */
  lemma SplitWithoutSeparator(s: string, sep: string)
    requires |sep| > 0 && !Contains(s, sep)
    ensures SplitOn(s, sep) == [s]
  {
  }

  /**
   * `(a + sep + b).split(sep) == [a, b]` when the first occurrence of `sep` is the
   * one between `a` and `b` and `b` holds no further occurrence.
   */
  lemma {:induction false} SplitTwoPieces(a: string, sep: string, b: string)
    requires |sep| > 0
    requires forall j :: 0 <= j < |a| ==> !OccursAt(a + sep + b, sep, j)
    requires !Contains(b, sep)
    ensures SplitOn(a + sep + b, sep) == [a, b]
  {
    var s := a + sep + b;
    assert s[|a|..|a| + |sep|] == sep;
    FindFirstOccurrence(s, sep, |a|);
    assert s[..|a|] == a && s[|a| + |sep|..] == b;
    SplitWithoutSeparator(b, sep);
  }

  /**
   * Splitting on a one-character separator undoes joining with it, provided no
   * joined item holds that character: the comma-joined file lists built for the
   * command lines can be read back exactly.
   */
  lemma {:induction false} SplitJoin(sep: string, xs: seq<string>)
    requires |sep| == 1 && |xs| >= 1
    requires forall k :: 0 <= k < |xs| ==> sep[0] !in xs[k]
    ensures SplitOn(Join(sep, xs), sep) == xs
  {
    var x := xs[0];
    if |xs| == 1 {
      SplitWithoutSeparator(x, sep);
    } else {
      var rest := Join(sep, xs[1..]);
      var s := x + sep + rest;
      assert s[|x|..|x| + 1] == sep;
      forall j | 0 <= j < |x|
        ensures !OccursAt(s, sep, j)
      {
        assert s[j] == x[j];
        assert s[j..j + 1][0] == s[j];
      }
      FindFirstOccurrence(s, sep, |x|);
      assert s[..|x|] == x && s[|x| + 1..] == rest;
      SplitJoin(sep, xs[1..]);
    }
  }

  /** The ASCII letters `a`-`z`, the only characters whose upper-case form is modelled. */
  predicate IsLowerAscii(c: char)
  {
    'a' <= c <= 'z'
  }

  /** No character of `s` is a lower-case letter. */
  predicate IsUpperCase(s: string)
  {
    forall k :: 0 <= k < |s| ==> !IsLowerAscii(s[k])
  }

  /** `c.upper()` on an ASCII character. */
  function UpperChar(c: char): char
  {
    if IsLowerAscii(c) then (c as int - 32) as char else c
  }

  /**
   * `s.upper()`: every lower-case letter is replaced by its capital, everything
   * else is kept; a string already in upper case is left as it is.
   */
  function Upper(s: string): (r: string)
    ensures |r| == |s| && IsUpperCase(r)
    ensures forall k :: 0 <= k < |s| && IsLowerAscii(s[k]) ==>
      'A' <= r[k] <= 'Z' && r[k] as int - 'A' as int == s[k] as int - 'a' as int
    ensures forall k :: 0 <= k < |s| && !IsLowerAscii(s[k]) ==> r[k] == s[k]
    ensures IsUpperCase(s) ==> r == s
  {
    seq(|s|, k requires 0 <= k < |s| => UpperChar(s[k]))
  }

  /** Two characters are the same letter in either case, or simply equal. */
  predicate SameIgnoringCase(c: char, d: char)
  {
    || c == d
    || ('a' <= c <= 'z' && 'A' <= d <= 'Z' && c as int - 'a' as int == d as int - 'A' as int)
    || ('A' <= c <= 'Z' && 'a' <= d <= 'z' && c as int - 'A' as int == d as int - 'a' as int)
  }

  /**
   * Upper-casing identifies exactly the strings that differ only in the case of
   * their ASCII letters: `"acgt"` and `"ACGT"` become the same sequence.
   */
  lemma UpperIgnoresCase(s: string, t: string)
    ensures Upper(s) == Upper(t) <==> |s| == |t| && forall k :: 0 <= k < |s| ==> SameIgnoringCase(s[k], t[k])
  {
    if |s| == |t| {
      forall k | 0 <= k < |s|
        ensures Upper(s)[k] == Upper(t)[k] <==> SameIgnoringCase(s[k], t[k])
      {
        assert Upper(s)[k] == UpperChar(s[k]) && Upper(t)[k] == UpperChar(t[k]);
      }
      if forall k :: 0 <= k < |s| ==> SameIgnoringCase(s[k], t[k]) {
        assert forall k :: 0 <= k < |s| ==> Upper(s)[k] == Upper(t)[k];
      }
    }
  }

  /** Python's `str.isspace` on one character. */
  predicate IsSpace(c: char)
  {
    var n := c as int;
    n == 0x20 || 0x09 <= n <= 0x0D || 0x1C <= n <= 0x1F || n == 0x85 || n == 0xA0 || n == 0x1680
    || 0x2000 <= n <= 0x200A || n == 0x2028 || n == 0x2029 || n == 0x202F || n == 0x205F || n == 0x3000
  }

  /** The first index at or after `i` that holds no whitespace, or `|s|`: what `lstrip` skips. */
  function SkipSpaces(s: string, i: nat): (j: nat)
    requires i <= |s|
    ensures i <= j <= |s| && (j < |s| ==> !IsSpace(s[j]))
    ensures forall k :: i <= k < j ==> IsSpace(s[k])
    decreases |s| - i
  {
    if i < |s| && IsSpace(s[i]) then SkipSpaces(s, i + 1) else i
  }

  /** The index just after the last non-whitespace character in `s[i..j]`, or `i`: what `rstrip` keeps. */
  function SkipSpacesBack(s: string, i: nat, j: nat): (e: nat)
    requires i <= j <= |s|
    ensures i <= e <= j && (e > i ==> !IsSpace(s[e - 1]))
    ensures forall k :: e <= k < j ==> IsSpace(s[k])
    decreases j - i
  {
    if j > i && IsSpace(s[j - 1]) then SkipSpacesBack(s, i, j - 1) else j
  }

  /**
   * `s.strip()`: the slice of `s` left after dropping its leading and trailing
   * whitespace. Neither end of the result is whitespace, and a string whose ends
   * are not whitespace is left as it is.
   */
  function Strip(s: string): (r: string)
    ensures |r| <= |s|
    ensures exists a, b ::
              && 0 <= a <= b <= |s| && r == s[a..b]
              && (forall k :: 0 <= k < a ==> IsSpace(s[k]))
              && (forall k :: b <= k < |s| ==> IsSpace(s[k]))
    ensures r == [] || (!IsSpace(r[0]) && !IsSpace(r[|r| - 1]))
    ensures (s == [] || (!IsSpace(s[0]) && !IsSpace(s[|s| - 1]))) ==> r == s
  {
    var a := SkipSpaces(s, 0);
    var b := SkipSpacesBack(s, a, |s|);
    s[a..b]
  }

  /**
   * `re.sub(pattern, replacement, s, 1)` for a pattern with no regular-expression
   * metacharacters: only the first occurrence of `pattern` is replaced.
   */
  function ReplaceFirst(s: string, pattern: string, replacement: string): (r: string)
    requires |pattern| > 0
    ensures !Contains(s, pattern) ==> r == s
    ensures Contains(s, pattern) ==>
      var i := Find(s, pattern);
      |r| == |s| - |pattern| + |replacement| && r[..i] == s[..i] && r[i..i + |replacement|] == replacement
      && r[i + |replacement|..] == s[i + |pattern|..]
  {
    var i := Find(s, pattern);
    if i < 0 then s else s[..i] + replacement + s[i + |pattern|..]
  }

  /** Removing the first occurrence of `pattern` and putting it back where it was found gives `s` again. */
  lemma RemoveFirstRestores(s: string, pattern: string)
    requires |pattern| > 0 && Contains(s, pattern)
    ensures var r, i := ReplaceFirst(s, pattern, ""), Find(s, pattern);
      |r| == |s| - |pattern| && r[..i] + pattern + r[i..] == s
  {
    var i := Find(s, pattern);
    var r := ReplaceFirst(s, pattern, "");
    assert r == s[..i] + s[i + |pattern|..];
    assert r[..i] == s[..i] && r[i..] == s[i + |pattern|..];
    assert s == s[..i] + s[i..i + |pattern|] + s[i + |pattern|..];
  }
}
