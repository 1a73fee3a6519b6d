/**
 * The string primitives the href and attribute helpers rely on: JavaScript's
 * String.prototype.trim and a case-insensitive prefix test as a regular expression
 * with the `i` flag performs it on ASCII letters.
 */
module Text {

  /** The characters trim removes: JavaScript's WhiteSpace and LineTerminator sets. */
  predicate IsJsSpace(c: char) {
    c == '\t' || c == '\n' || c == '\U{000B}' || c == '\U{000C}' || c == '\r' || c == ' ' ||
    c == '\U{00A0}' || c == '\U{1680}' || ('\U{2000}' <= c <= '\U{200A}') ||
    c == '\U{2028}' || c == '\U{2029}' || c == '\U{202F}' || c == '\U{205F}' || c == '\U{3000}' || c == '\U{FEFF}'
  }

  /** Neither end of s is a space character. */
  predicate Trimmed(s: string) {
    |s| == 0 || (!IsJsSpace(s[0]) && !IsJsSpace(s[|s| - 1]))
  }

  function TrimStart(s: string): (t: string)
    ensures |t| <= |s| && t == s[|s| - |t|..]
    ensures |t| == 0 || !IsJsSpace(t[0])
    ensures forall k :: 0 <= k < |s| - |t| ==> IsJsSpace(s[k])
  {
    if |s| > 0 && IsJsSpace(s[0]) then TrimStart(s[1..]) else s
  }

  function TrimEnd(s: string): (t: string)
    ensures |t| <= |s| && t == s[..|t|]
    ensures |t| == 0 || !IsJsSpace(t[|t| - 1])
    ensures forall k :: |t| <= k < |s| ==> IsJsSpace(s[k])
  {
    if |s| > 0 && IsJsSpace(s[|s| - 1]) then TrimEnd(s[..|s| - 1]) else s
  }

  /** The number of leading space characters of s. */
  function LeadingSpaces(s: string): (n: nat)
    ensures n <= |s| && TrimStart(s) == s[n..]
  {
    |s| - |TrimStart(s)|
  }

  /** t is the part of s that starts at index a. */
  predicate SliceAt(t: string, s: string, a: nat) {
    a + |t| <= |s| && t == s[a..a + |t|]
  }

  /** Every character of s from index n on is a space. */
  predicate SpacesFrom(s: string, n: nat) {
    forall k :: n <= k < |s| ==> IsJsSpace(s[k])
  }

  /** trim: s without its leading and trailing space characters. */
  function Trim(s: string): (t: string)
    ensures Trimmed(t)
    ensures SliceAt(t, s, LeadingSpaces(s))
    ensures SpacesFrom(s, LeadingSpaces(s) + |t|)
  {
    var u := TrimStart(s);
    var t := TrimEnd(u);
    TrimParts(s, LeadingSpaces(s), u, t);
    t
  }

  /** If u is s from a on and starts with a non-space, and t is u with only spaces cut from its end,
      then t is a trimmed slice of s from a with only spaces after it. */
  lemma TrimParts(s: string, a: nat, u: string, t: string)
    requires a <= |s| && u == s[a..] && |t| <= |u| && t == u[..|t|]
    requires |u| == 0 || !IsJsSpace(u[0])
    requires |t| == 0 || !IsJsSpace(t[|t| - 1])
    requires forall j :: |t| <= j < |u| ==> IsJsSpace(u[j])
    ensures Trimmed(t)
    ensures SliceAt(t, s, a)
    ensures SpacesFrom(s, a + |t|)
  {
    SliceOfSuffix(s, a, u, t);
    SpaceTail(s, a, u, |t|);
  }

  /** A prefix t of the suffix u of s from a on is the slice of s from a of t's length. */
  lemma SliceOfSuffix(s: string, a: nat, u: string, t: string)
    requires a <= |s| && u == s[a..] && |t| <= |u| && t == u[..|t|]
    ensures a + |t| <= |s| && t == s[a..a + |t|]
    ensures |t| > 0 ==> t[0] == u[0]
  {
    assert forall k :: 0 <= k < |t| ==> t[k] == s[a + k];
  }

  /** If u is s from a on and u is all space from n on, then s is all space from a + n on. */
  lemma SpaceTail(s: string, a: nat, u: string, n: nat)
    requires a <= |s| && u == s[a..] && n <= |u|
    requires forall j :: n <= j < |u| ==> IsJsSpace(u[j])
    ensures forall k :: a + n <= k < |s| ==> IsJsSpace(s[k])
  {
    forall k | a + n <= k < |s|
      ensures IsJsSpace(s[k])
    {
      assert s[k] == u[k - a];
    }
  }

  lemma {:induction false} TrimStartFixed(s: string)
    requires |s| == 0 || !IsJsSpace(s[0])
    ensures TrimStart(s) == s
  {
  }

  lemma {:induction false} TrimEndFixed(s: string)
    requires |s| == 0 || !IsJsSpace(s[|s| - 1])
    ensures TrimEnd(s) == s
  {
  }

  /** A string with no space at either end is its own trim, so trim is idempotent. */
  lemma TrimFixed(s: string)
    requires Trimmed(s)
    ensures Trim(s) == s
    ensures Trim(Trim(s)) == Trim(s)
  {
    TrimStartFixed(s);
    TrimEndFixed(s);
    TrimStartFixed(Trim(s));
    TrimEndFixed(Trim(s));
  }

  /** The ASCII lower-case form of c; every other character is unchanged. */
  function LowerAscii(c: char): char {
    if 'A' <= c <= 'Z' then (c as int + 32) as char else c
  }

  /**
   * s starts with p, comparing case-insensitively on ASCII letters, as a regular
   * expression with the `i` flag and no `u` flag matches the lower-case literal p.
   */
  predicate StartsWithCI(s: string, p: string) {
    |p| <= |s| && forall k :: 0 <= k < |p| ==> LowerAscii(s[k]) == p[k]
  }
}
