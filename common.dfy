/** Shared vocabulary: optional values, results, and the few java.lang.String
    operations the services rely on, restricted to ASCII case rules. */
module Common {

  /** Java's nullable reference: None stands for null. */
  datatype Option<+T> = None | Some(value: T)

  /** The outcome of a service call: a value or the exception it throws. */
  datatype Result<+T, +E> = Success(value: T) | Failure(error: E)

  /** String.isEmpty */
  predicate IsEmpty(s: string) { |s| == 0 }

  /** Character.isWhitespace: the Unicode space separators except the
      non-breaking ones, plus the ASCII control characters it names. */
  predicate IsWhitespace(c: char)
  {
    c == ' ' || c == '\t' || c == '\n' || c == '\U{000B}' || c == '\U{000C}' || c == '\r'
    || ('\U{001C}' <= c <= '\U{001F}')
    || c == '\U{1680}' || ('\U{2000}' <= c <= '\U{2006}') || ('\U{2008}' <= c <= '\U{200A}')
    || c == '\U{2028}' || c == '\U{2029}' || c == '\U{205F}' || c == '\U{3000}'
  }

  /** String.isBlank: empty or only whitespace. */
  function IsBlank(s: string): (r: bool)
    ensures IsEmpty(s) ==> r
    ensures r <==> forall c :: c in s ==> IsWhitespace(c)
  {
    forall i :: 0 <= i < |s| ==> IsWhitespace(s[i])
  }

  /** Character.toLowerCase on the ASCII range. */
  function ToLowerChar(c: char): (r: char)
    ensures 'A' <= c <= 'Z' ==> 'a' <= r <= 'z'
    ensures !('A' <= c <= 'Z') ==> r == c
  {
    if 'A' <= c <= 'Z' then (c as int + 32) as char else c
  }

  /** String.toLowerCase on the ASCII range. */
  function ToLower(s: string): (r: string)
    ensures |r| == |s|
    ensures forall i :: 0 <= i < |s| ==> r[i] == ToLowerChar(s[i])
  {
    if s == [] then [] else [ToLowerChar(s[0])] + ToLower(s[1..])
  }

  /** String.equalsIgnoreCase on the ASCII range. */
  function EqualsIgnoreCase(a: string, b: string): (r: bool)
    ensures a == b ==> r
    ensures r ==> |a| == |b|
  {
    |a| == |b| && forall i :: 0 <= i < |a| ==> ToLowerChar(a[i]) == ToLowerChar(b[i])
  }

  /** Two strings are equal ignoring case iff their lower-case forms are equal. */
  lemma LowerCaseEquality(a: string, b: string)
    ensures EqualsIgnoreCase(a, b) <==> ToLower(a) == ToLower(b)
  {
    if EqualsIgnoreCase(a, b) {
      assert forall i :: 0 <= i < |a| ==> ToLower(a)[i] == ToLower(b)[i];
    }
  }

  /** String.startsWith */
  function StartsWith(s: string, prefix: string): (r: bool)
    ensures r <==> |prefix| <= |s| && forall i :: 0 <= i < |prefix| ==> s[i] == prefix[i]
    ensures r ==> Contains(s, prefix)
  {
    |prefix| <= |s| && s[..|prefix|] == prefix
  }

  /** sub occurs in s at index i */
  predicate OccursAt(s: string, sub: string, i: nat)
  {
    i + |sub| <= |s| && s[i..i + |sub|] == sub
  }

  /** String.contains, by scanning the start positions from i on. */
  function ContainsFrom(s: string, sub: string, i: nat): (r: bool)
    requires i <= |s|
    ensures r <==> exists k :: i <= k <= |s| && OccursAt(s, sub, k)
    decreases |s| - i
  {
    if OccursAt(s, sub, i) then true
    else if i == |s| then false
    else ContainsFrom(s, sub, i + 1)
  }

  /** String.contains */
  function Contains(s: string, sub: string): (r: bool)
    ensures r <==> exists k :: 0 <= k <= |s| && OccursAt(s, sub, k)
  {
    ContainsFrom(s, sub, 0)
  }
}
