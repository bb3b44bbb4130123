/**
 * The few JavaScript string primitives the converter relies on, each stated
 * with the meaning the ECMAScript library gives it: `split` on a one-character
 * separator, `trim`, `replace` of the first occurrence of a literal,
 * removal of a `$`-anchored suffix, and the ASCII case folding that a
 * non-unicode `/i` regular expression performs.
 */
module JsStrings {
  import opened Options

  /** The characters `String.prototype.trim` removes: WhiteSpace and LineTerminator. */
  predicate IsWhitespace(c: char) {
    || c == '\t' || c == '\n' || c == '\U{000B}' || c == '\U{000C}' || c == '\r'
    || c == ' ' || c == '\U{00A0}' || c == '\U{1680}'
    || ('\U{2000}' <= c <= '\U{200A}')
    || c == '\U{2028}' || c == '\U{2029}' || c == '\U{202F}' || c == '\U{205F}'
    || c == '\U{3000}' || c == '\U{FEFF}'
  }

  /** The characters the regular-expression atom `.` refuses to match. */
  predicate IsLineTerminator(c: char) {
    c == '\n' || c == '\r' || c == '\U{2028}' || c == '\U{2029}'
  }

  predicate NoLineTerminator(s: string) {
    forall i :: 0 <= i < |s| ==> !IsLineTerminator(s[i])
  }

  predicate AllWhitespace(s: string) {
    forall i :: 0 <= i < |s| ==> IsWhitespace(s[i])
  }

  /** `s` with its leading whitespace removed. */
  function TrimStart(s: string): (r: string)
    ensures |r| <= |s| && r == s[|s| - |r|..]
    ensures AllWhitespace(s[..|s| - |r|])
    ensures |r| > 0 ==> !IsWhitespace(r[0])
  {
    if |s| > 0 && IsWhitespace(s[0]) then TrimStart(s[1..]) else s
  }

  /** `s` with its trailing whitespace removed. */
  function TrimEnd(s: string): (r: string)
    ensures |r| <= |s| && r == s[..|r|]
    ensures AllWhitespace(s[|r|..])
    ensures |r| > 0 ==> !IsWhitespace(r[|r| - 1])
  {
    if |s| > 0 && IsWhitespace(s[|s| - 1]) then TrimEnd(s[..|s| - 1]) else s
  }

  /** `r` is an infix of `s` with only whitespace before and after it. */
  predicate WhitespaceAround(s: string, r: string) {
    exists a :: 0 <= a <= |s| - |r| && r == s[a..a + |r|]
                && AllWhitespace(s[..a]) && AllWhitespace(s[a + |r|..])
  }

  /**
   * `String.prototype.trim`: the longest infix of `s` that neither starts nor
   * ends with whitespace, everything cut away being whitespace.
   */
  function Trim(s: string): (r: string)
    ensures WhitespaceAround(s, r)
    ensures |r| > 0 ==> !IsWhitespace(r[0]) && !IsWhitespace(r[|r| - 1])
  {
    var t := TrimStart(s);
    var r := TrimEnd(t);
    TrimmedInfix(s, t, r);
    r
  }

  lemma NoLineTerminatorAfterSpace(p: string)
    requires NoLineTerminator(p)
    ensures NoLineTerminator(" " + p)
  {
    forall i | 0 <= i < |" " + p| ensures !IsLineTerminator((" " + p)[i]) {
      if i > 0 { assert (" " + p)[i] == p[i - 1]; }
    }
  }

  /**
   * A prefix `r` of a suffix `t` of `s`, with whitespace cut away on both
   * sides, is an infix of `s` between whitespace.
   */
  lemma TrimmedInfix(s: string, t: string, r: string)
    requires |t| <= |s| && t == s[|s| - |t|..] && AllWhitespace(s[..|s| - |t|])
    requires |r| <= |t| && r == t[..|r|] && AllWhitespace(t[|r|..])
    requires |t| > 0 ==> !IsWhitespace(t[0])
    ensures |r| > 0 ==> !IsWhitespace(r[0])
    ensures WhitespaceAround(s, r)
  {
    var a := |s| - |t|;
    if |r| > 0 { assert r[0] == t[0]; }
    assert s[a..][..|r|] == s[a..a + |r|];
    assert s[a..][|r|..] == s[a + |r|..];
  }

  /** A string is trimmed to nothing exactly when it is all whitespace. */
  lemma TrimEmptyIffBlank(s: string)
    ensures Trim(s) == "" <==> AllWhitespace(s)
  {
    if Trim(s) == "" {
      var a :| 0 <= a <= |s| && AllWhitespace(s[..a]) && AllWhitespace(s[a..]);
      forall i | 0 <= i < |s| ensures IsWhitespace(s[i]) {
        if i < a { assert s[i] == s[..a][i]; } else { assert s[i] == s[a..][i - a]; }
      }
    }
  }

  /** A string without surrounding whitespace is left alone by `trim`, even after one leading space. */
  lemma TrimAfterSpace(p: string)
    requires |p| == 0 || (!IsWhitespace(p[0]) && !IsWhitespace(p[|p| - 1]))
    ensures Trim(p) == p
    ensures Trim(" " + p) == p
  {
    assert TrimStart(" " + p) == TrimStart(p) by { assert (" " + p)[1..] == p; }
  }

  /** Index of the first `c` in `s`. */
  function IndexOf(s: string, c: char): (i: nat)
    requires c in s
    ensures i < |s| && s[i] == c && c !in s[..i]
  {
    if s[0] == c then 0 else 1 + IndexOf(s[1..], c)
  }

  /** The parts joined back together with `sep` between neighbours. */
  function Join(parts: seq<string>, sep: char): string {
    if |parts| == 0 then ""
    else if |parts| == 1 then parts[0]
    else parts[0] + [sep] + Join(parts[1..], sep)
  }

  lemma {:induction false} JoinAppend(a: seq<string>, b: seq<string>, sep: char)
    requires |a| > 0 && |b| > 0
    ensures Join(a + b, sep) == Join(a, sep) + [sep] + Join(b, sep)
  {
    if |a| == 1 {
      assert (a + b)[1..] == b;
    } else {
      assert (a + b)[1..] == a[1..] + b;
      JoinAppend(a[1..], b, sep);
    }
  }

  /**
   * `s.split(sep)` for a one-character separator: the maximal runs between
   * separators, including the empty ones; never an empty list.
   */
  function Split(s: string, sep: char): (parts: seq<string>)
    ensures |parts| >= 1
    ensures forall i :: 0 <= i < |parts| ==> sep !in parts[i]
    ensures Join(parts, sep) == s
    decreases |s|
  {
    if sep in s then
      var i := IndexOf(s, sep);
      var rest := Split(s[i + 1..], sep);
      assert s == s[..i] + [sep] + s[i + 1..];
      [s[..i]] + rest
    else
      [s]
  }

  /** Splitting a join of separator-free parts gives the parts back. */
  lemma {:induction false} SplitJoin(parts: seq<string>, sep: char)
    requires |parts| >= 1
    requires forall i :: 0 <= i < |parts| ==> sep !in parts[i]
    ensures Split(Join(parts, sep), sep) == parts
  {
    var s := Join(parts, sep);
    if |parts| > 1 {
      var p, rest := parts[0], parts[1..];
      var t := Join(rest, sep);
      assert s == p + [sep] + t;
      assert s[|p|] == sep;
      var i := IndexOf(s, sep);
      assert s[..|p|] == p;
      assert i == |p|;
      assert s[i + 1..] == t;
      SplitJoin(rest, sep);
    }
  }

  /** Does `pat` occur in `s` at position `i`? */
  predicate OccursAt(s: string, pat: string, i: nat) {
    i + |pat| <= |s| && s[i..i + |pat|] == pat
  }

  /** The position of the first occurrence of `pat` in `s`, if any. */
  function FirstOccurrence(s: string, pat: string, from: nat := 0): (r: Option<nat>)
    requires from <= |s|
    ensures r.Some? ==> from <= r.value && OccursAt(s, pat, r.value)
    ensures r.Some? ==> forall j :: from <= j < r.value ==> !OccursAt(s, pat, j)
    ensures r.None? ==> forall j :: from <= j <= |s| ==> !OccursAt(s, pat, j)
    decreases |s| - from
  {
    if OccursAt(s, pat, from) then Some(from)
    else if from == |s| then None
    else FirstOccurrence(s, pat, from + 1)
  }

  /**
   * `s.replace(pat, "")` with a string pattern: the first occurrence of `pat`
   * is removed, the rest is untouched. Putting `pat` back where it was cut
   * gives the input again.
   */
  function RemoveFirst(s: string, pat: string): (r: string)
    ensures FirstOccurrence(s, pat).None? ==> r == s
    ensures FirstOccurrence(s, pat).Some? ==>
              var i := FirstOccurrence(s, pat).value;
              && |r| == |s| - |pat| && i <= |r|
              && r[..i] + pat + r[i..] == s
  {
    match FirstOccurrence(s, pat)
    case None => s
    case Some(i) =>
      var r := s[..i] + s[i + |pat|..];
      assert r[..i] == s[..i] && r[i..] == s[i + |pat|..];
      assert s == s[..i] + s[i..i + |pat|] + s[i + |pat|..];
      r
  }

  /**
   * Stated without the search: when `pat` occurs at `i` and nowhere before,
   * the result is `s` with those `|pat|` characters cut out at `i`.
   */
  lemma RemoveFirstAt(s: string, pat: string, i: nat)
    requires OccursAt(s, pat, i)
    requires forall j :: 0 <= j < i ==> !OccursAt(s, pat, j)
    ensures var r := RemoveFirst(s, pat);
            |r| == |s| - |pat| && r[..i] + pat + r[i..] == s
  {
    var o := FirstOccurrence(s, pat);
    assert o.Some? && o.value == i;
  }

  /** When `pat` occurs nowhere in `s`, nothing is removed. */
  lemma RemoveFirstAbsent(s: string, pat: string)
    requires forall j :: 0 <= j <= |s| ==> !OccursAt(s, pat, j)
    ensures RemoveFirst(s, pat) == s
  {
    var o := FirstOccurrence(s, pat);
    assert o.None?;
  }

  predicate EndsWith(s: string, suffix: string) {
    |suffix| <= |s| && s[|s| - |suffix|..] == suffix
  }

  /** `s.replace(/suffix$/, "")`: the suffix is cut off only at the very end. */
  function RemoveSuffix(s: string, suffix: string): (r: string)
    ensures EndsWith(s, suffix) ==> r + suffix == s
    ensures !EndsWith(s, suffix) ==> r == s
  {
    if EndsWith(s, suffix) then s[..|s| - |suffix|] else s
  }

  /** Upper-case form of an ASCII letter; every other character is its own canonical form. */
  function AsciiUpper(c: char): char {
    if 'a' <= c <= 'z' then (c as int - 32) as char else c
  }

  /** Lower-case form of an ASCII letter. */
  function AsciiLowerChar(c: char): char {
    if 'A' <= c <= 'Z' then (c as int + 32) as char else c
  }

  /**
   * The string with its ASCII letters lowered: the same string to a
   * case-insensitive comparison, with no upper-case ASCII letter left, and
   * every character that is not one unchanged.
   */
  function AsciiLower(s: string): (r: string)
    ensures |r| == |s| && CiEquals(r, s)
    ensures forall i :: 0 <= i < |r| ==> !('A' <= r[i] <= 'Z')
    ensures forall i :: 0 <= i < |r| ==> !('A' <= s[i] <= 'Z') ==> r[i] == s[i]
  {
    seq(|s|, i requires 0 <= i < |s| => AsciiLowerChar(s[i]))
  }

  /** Two characters fold to the same upper case exactly when they fold to the same lower case. */
  lemma FoldsAgree(x: char, y: char)
    ensures AsciiUpper(x) == AsciiUpper(y) <==> AsciiLowerChar(x) == AsciiLowerChar(y)
  {
  }

  /**
   * Lowering is a canonical form of case-insensitive equality: two strings
   * are equal ignoring ASCII case exactly when their lowered forms are equal.
   */
  lemma AsciiLowerCanonical(a: string, b: string)
    ensures CiEquals(a, b) <==> AsciiLower(a) == AsciiLower(b)
  {
    if |a| == |b| {
      forall i | 0 <= i < |a|
        ensures AsciiUpper(a[i]) == AsciiUpper(b[i]) <==> AsciiLower(a)[i] == AsciiLower(b)[i]
      {
        FoldsAgree(a[i], b[i]);
      }
      if AsciiLower(a) != AsciiLower(b) {
        var i :| 0 <= i < |a| && AsciiLower(a)[i] != AsciiLower(b)[i];
      }
    }
  }

  /**
   * Equality as a case-insensitive, non-unicode regular expression sees it:
   * characters are compared after upper-casing, and no character outside ASCII
   * is ever canonicalised onto an ASCII letter.
   */
  predicate CiEquals(a: string, b: string) {
    |a| == |b| && forall i :: 0 <= i < |a| ==> AsciiUpper(a[i]) == AsciiUpper(b[i])
  }
}
