/** The few JavaScript string operations the client relies on:
    `startsWith`, `endsWith` and `trim`. Characters are Unicode scalar values. */
module Text {

  predicate StartsWith(s: string, prefix: string) {
    |prefix| <= |s| && s[..|prefix|] == prefix
  }

  predicate EndsWith(s: string, suffix: string) {
    |suffix| <= |s| && s[|s| - |suffix|..] == suffix
  }

  /** ECMAScript LineTerminator: LF, CR, LINE SEPARATOR, PARAGRAPH SEPARATOR. */
  predicate IsLineTerminator(c: char) {
    c == '\n' || c == '\r' || c == '\U{2028}' || c == '\U{2029}'
  }

  /** ECMAScript WhiteSpace (TAB, VT, FF, ZWNBSP and the space separators)
      together with LineTerminator: exactly what `String.prototype.trim` removes. */
  predicate IsTrimmable(c: char) {
    || c == '\t' || c == '\U{000B}' || c == '\U{000C}' || c == ' '
    || c == '\U{00A0}' || c == '\U{1680}' || ('\U{2000}' <= c <= '\U{200A}')
    || c == '\U{202F}' || c == '\U{205F}' || c == '\U{3000}' || c == '\U{FEFF}'
    || IsLineTerminator(c)
  }

  /** The number of leading trimmable characters of `s`. */
  function LeadingCount(s: string): (n: nat)
    ensures n <= |s|
    ensures forall i :: 0 <= i < n ==> IsTrimmable(s[i])
    ensures n < |s| ==> !IsTrimmable(s[n])
  {
    if |s| > 0 && IsTrimmable(s[0]) then 1 + LeadingCount(s[1..]) else 0
  }

  /** Drops the trailing trimmable characters: the result is the longest prefix
      of `s` that does not end with one. */
  function TrimEnd(s: string): (r: string)
    ensures |r| <= |s| && r == s[..|r|]
    ensures forall i :: |r| <= i < |s| ==> IsTrimmable(s[i])
    ensures r != [] ==> !IsTrimmable(r[|r| - 1])
  {
    if |s| > 0 && IsTrimmable(s[|s| - 1]) then TrimEnd(s[..|s| - 1]) else s
  }

  /** `String.prototype.trim`: the slice of `s` that starts after its leading
      trimmable characters and stops before its trailing ones. */
  function Trim(s: string): (r: string)
    ensures |r| <= |s| - LeadingCount(s)
    ensures r == s[LeadingCount(s)..LeadingCount(s) + |r|]
    ensures forall i :: LeadingCount(s) + |r| <= i < |s| ==> IsTrimmable(s[i])
    ensures r != [] ==> !IsTrimmable(r[0]) && !IsTrimmable(r[|r| - 1])
  {
    TrimEnd(s[LeadingCount(s)..])
  }

  /** Trimming yields the empty string exactly when every character is trimmable. */
  lemma TrimEmptyIff(s: string)
    ensures Trim(s) == "" <==> forall i :: 0 <= i < |s| ==> IsTrimmable(s[i])
  {
  }

  /** A string with no trimmable character at either end is left as it is. */
  lemma TrimUntrimmedIsIdentity(s: string)
    requires s != [] ==> !IsTrimmable(s[0]) && !IsTrimmable(s[|s| - 1])
    ensures Trim(s) == s
  {
  }

  /** Trimming twice is trimming once. */
  lemma TrimIdempotent(s: string)
    ensures Trim(Trim(s)) == Trim(s)
  {
    TrimUntrimmedIsIdentity(Trim(s));
  }
}
