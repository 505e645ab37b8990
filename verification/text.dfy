/** String.prototype.trim as JavaScript defines it, and the "blank" test the
    client builds from it (a trimmed string is falsy exactly when empty). */
module Text {

  /** The code points ECMAScript's trim strips: the WhiteSpace production
      (tab, vertical tab, form feed, space, no-break space, byte order mark and
      every other Unicode space separator) and the LineTerminator production
      (line feed, carriage return, line and paragraph separators). */
  const Whitespace: set<char> := {
    '\t', '\n', '\U{000B}', '\U{000C}', '\r', ' ', '\U{00A0}', '\U{1680}',
    '\U{2000}', '\U{2001}', '\U{2002}', '\U{2003}', '\U{2004}', '\U{2005}',
    '\U{2006}', '\U{2007}', '\U{2008}', '\U{2009}', '\U{200A}',
    '\U{2028}', '\U{2029}', '\U{202F}', '\U{205F}', '\U{3000}', '\U{FEFF}'
  }

  predicate IsWhitespace(c: char)
  {
    c in Whitespace
  }

  /** Number of whitespace characters at the front of `s`. */
  function LeadingSpace(s: string): (n: nat)
    ensures n <= |s|
    ensures forall k :: 0 <= k < n ==> IsWhitespace(s[k])
    ensures n < |s| ==> !IsWhitespace(s[n])
  {
    if |s| > 0 && IsWhitespace(s[0]) then 1 + LeadingSpace(s[1..]) else 0
  }

  /** Number of whitespace characters at the back of `s`. */
  function TrailingSpace(s: string): (n: nat)
    ensures n <= |s|
    ensures forall k :: |s| - n <= k < |s| ==> IsWhitespace(s[k])
    ensures n < |s| ==> !IsWhitespace(s[|s| - n - 1])
  {
    if |s| > 0 && IsWhitespace(s[|s| - 1]) then 1 + TrailingSpace(s[..|s| - 1]) else 0
  }

  /** `s` without its leading and trailing whitespace. */
  function Trim(s: string): (r: string)
    ensures |r| <= |s|
    ensures r == [] <==> forall k :: 0 <= k < |s| ==> IsWhitespace(s[k])
    ensures r != [] ==> !IsWhitespace(r[0]) && !IsWhitespace(r[|r| - 1])
    ensures LeadingSpace(s) + |r| <= |s|
    ensures r == s[LeadingSpace(s)..LeadingSpace(s) + |r|]
    ensures forall k :: LeadingSpace(s) + |r| <= k < |s| ==> IsWhitespace(s[k])
  {
    var a := LeadingSpace(s);
    var b := TrailingSpace(s[a..]);
    TrailingOfSuffix(s, a);
    TrimSlice(s, a, b);
    s[a..|s| - b]
  }

  /** The trailing whitespace run of a suffix, read in the whole string. */
  lemma TrailingOfSuffix(s: string, a: nat)
    requires a <= |s|
    ensures TrailingSpace(s[a..]) <= |s| - a
    ensures forall k :: |s| - TrailingSpace(s[a..]) <= k < |s| ==> IsWhitespace(s[k])
    ensures TrailingSpace(s[a..]) < |s| - a ==> !IsWhitespace(s[|s| - TrailingSpace(s[a..]) - 1])
  {
    var t := s[a..];
    var b := TrailingSpace(t);
    forall k | |s| - b <= k < |s|
      ensures IsWhitespace(s[k])
    {
      assert s[k] == t[k - a];
    }
    if b < |t| {
      assert s[|s| - b - 1] == t[|t| - b - 1];
    }
  }

  /** Cutting a maximal leading run of `a` and a maximal trailing run of `b`
      whitespace characters leaves nothing exactly when `s` is all
      whitespace. */
  lemma TrimSlice(s: string, a: nat, b: nat)
    requires a <= |s| && forall k :: 0 <= k < a ==> IsWhitespace(s[k])
    requires a < |s| ==> !IsWhitespace(s[a])
    requires b <= |s| - a && forall k :: |s| - b <= k < |s| ==> IsWhitespace(s[k])
    requires b < |s| - a ==> !IsWhitespace(s[|s| - b - 1])
    ensures a == |s| - b <==> forall k :: 0 <= k < |s| ==> IsWhitespace(s[k])
  {
    if a < |s| {
      assert !IsWhitespace(s[a]);
    }
  }

  /** Trimming an already trimmed string changes nothing. */
  lemma TrimIdempotent(s: string)
    ensures Trim(Trim(s)) == Trim(s)
  {
    var r := Trim(s);
    if r != [] {
      assert LeadingSpace(r) == 0;
      assert TrailingSpace(r) == 0;
    }
  }

  /** A string is blank when trimming leaves nothing, i.e. `!s.trim()`. */
  predicate Blank(s: string)
  {
    Trim(s) == []
  }
}
