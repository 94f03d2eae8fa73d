/** Character-level helpers shared by the pipeline: Python's notion of
    whitespace, `str.strip()`, and concatenation of a list of strings. */
module Strings {

  function Min(a: int, b: int): int {
    if a <= b then a else b
  }

  /** Python's `str.isspace()` for a single character: the characters that
      `str.strip()` with no argument removes. Below U+0080 these are the
      control ranges 9-13 and 28-31 and the space itself. */
  predicate IsSpace(c: char)
    ensures c < '\U{0080}' ==>
      (IsSpace(c) <==> ('\t' <= c <= '\r' || '\U{001C}' <= c <= ' '))
  {
    c == ' ' || c == '\t' || c == '\n' || c == '\r'
    || c == '\U{000B}' || c == '\U{000C}'
    || ('\U{001C}' <= c <= '\U{001F}')
    || c == '\U{0085}' || c == '\U{00A0}' || c == '\U{1680}'
    || ('\U{2000}' <= c <= '\U{200A}')
    || c == '\U{2028}' || c == '\U{2029}' || c == '\U{202F}'
    || c == '\U{205F}' || c == '\U{3000}'
  }

  predicate AllSpace(s: string) {
    forall k :: 0 <= k < |s| ==> IsSpace(s[k])
  }

  /** Leading whitespace removed: the longest suffix that does not start
      with whitespace, everything before it being whitespace. */
  function TrimStart(s: string): (r: string)
    ensures |r| <= |s| && r == s[|s| - |r|..]
    ensures forall k :: 0 <= k < |s| - |r| ==> IsSpace(s[k])
    ensures r == [] || !IsSpace(r[0])
  {
    if s != [] && IsSpace(s[0]) then TrimStart(s[1..]) else s
  }

  /** Trailing whitespace removed: the longest prefix that does not end
      with whitespace, everything after it being whitespace. */
  function TrimEnd(s: string): (r: string)
    ensures |r| <= |s| && r == s[..|r|]
    ensures forall k :: |r| <= k < |s| ==> IsSpace(s[k])
    ensures r == [] || !IsSpace(r[|r| - 1])
  {
    if s != [] && IsSpace(s[|s| - 1]) then TrimEnd(s[..|s| - 1]) else s
  }

  /** Python's `s.strip()`: a piece of `s` that neither starts nor ends
      with whitespace (StripIsInfix: with only whitespace around it in `s`);
      it is empty exactly when `s` is all whitespace. */
  function Strip(s: string): (r: string)
    ensures |r| <= |s|
    ensures r == [] || (!IsSpace(r[0]) && !IsSpace(r[|r| - 1]))
    ensures r == [] <==> AllSpace(s)
  {
    TrimEnd(TrimStart(s))
  }

  /** The stripped string is the contiguous piece of `s` that starts after
      the leading whitespace, with only whitespace before it in `s`
      (StripTrailer: and after it). */
  lemma StripIsInfix(s: string)
    ensures var i, r := |s| - |TrimStart(s)|, Strip(s);
      && 0 <= i <= |s| - |r| && r == s[i..i + |r|]
      && AllSpace(s[..i])
  {
    var t := TrimStart(s);
    LeadingSpace(s);
    PieceOfSuffix(s, |s| - |t|, t, TrimEnd(t));
  }

  /** What follows the stripped piece in `s` is whitespace. */
  lemma StripTrailer(s: string)
    ensures |s| - |TrimStart(s)| + |Strip(s)| <= |s|
    ensures AllSpace(s[|s| - |TrimStart(s)| + |Strip(s)|..])
  {
    var t := TrimStart(s);
    TrailingSpace(t);
    PieceOfSuffix(s, |s| - |t|, t, TrimEnd(t));
  }

  /** A prefix r of the suffix t = s[i..] sits at offset i in s. */
  lemma PieceOfSuffix(s: string, i: nat, t: string, r: string)
    requires i <= |s| && t == s[i..] && |r| <= |t| && r == t[..|r|]
    ensures i + |r| <= |s| && r == s[i..i + |r|] && t[|r|..] == s[i + |r|..]
  {
  }

  lemma LeadingSpace(s: string)
    ensures AllSpace(s[..|s| - |TrimStart(s)|])
  {
    var p := s[..|s| - |TrimStart(s)|];
    forall k | 0 <= k < |p| ensures IsSpace(p[k]) { assert p[k] == s[k]; }
  }

  lemma TrailingSpace(t: string)
    ensures AllSpace(t[|TrimEnd(t)|..])
  {
    var q := t[|TrimEnd(t)|..];
    forall k | 0 <= k < |q| ensures IsSpace(q[k]) { assert q[k] == t[|TrimEnd(t)| + k]; }
  }

  /** Stripping removes exactly the surrounding whitespace: a core that
      neither starts nor ends with whitespace comes back unchanged from
      between any whitespace padding. */
  lemma StripPadded(lead: string, core: string, trail: string)
    requires AllSpace(lead) && AllSpace(trail)
    requires core == [] || (!IsSpace(core[0]) && !IsSpace(core[|core| - 1]))
    ensures Strip(lead + core + trail) == core
  {
    var s := lead + core + trail;
    var t := TrimStart(s);
    if core == [] {
      assert AllSpace(s) by {
        forall k | 0 <= k < |s| ensures IsSpace(s[k]) {
          if k < |lead| { assert s[k] == lead[k]; }
          else { assert s[k] == trail[k - |lead|]; }
        }
      }
    } else {
      var p := |s| - |t|;
      assert s[|lead|] == core[0];
      assert p == |lead|;
      assert t == core + trail;
      var r := TrimEnd(t);
      assert t[|core| - 1] == core[|core| - 1];
      assert r == core;
    }
  }

  /** The strings of `ss` joined end to end, in order (Python's `"".join`). */
  function Concat(ss: seq<string>): string {
    if ss == [] then [] else Concat(ss[..|ss| - 1]) + ss[|ss| - 1]
  }
}
