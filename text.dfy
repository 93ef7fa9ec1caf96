/** String helpers shared by both scripts: the handful of Python `str`
    methods the core relies on, over `string` (a sequence of code points). */
module Text {

  /** Python's `str.lower()`, restricted to ASCII letters: one character in,
      one character out. */
  function LowerChar(c: char): (d: char)
    ensures 'A' <= c <= 'Z' ==> 'a' <= d <= 'z' && d as int == c as int + 32
    ensures !('A' <= c <= 'Z') ==> d == c
  {
    if 'A' <= c <= 'Z' then (c as int + 32) as char else c
  }

  function Lower(s: string): (r: string)
    ensures |r| == |s|
    ensures forall i :: 0 <= i < |s| ==> r[i] == LowerChar(s[i])
  {
    seq(|s|, i requires 0 <= i < |s| => LowerChar(s[i]))
  }

  lemma LowerIdempotent(s: string)
    ensures Lower(Lower(s)) == Lower(s)
  {
  }

  lemma LowerConcat(a: string, b: string)
    ensures Lower(a + b) == Lower(a) + Lower(b)
  {
    assert forall i :: 0 <= i < |a + b| ==> Lower(a + b)[i] == (Lower(a) + Lower(b))[i];
  }

  lemma LowerSlice(s: string, i: nat, j: nat)
    requires i <= j <= |s|
    ensures Lower(s[i..j]) == Lower(s)[i..j]
  {
  }

  predicate StartsWith(s: string, p: string) {
    |p| <= |s| && s[..|p|] == p
  }

  predicate EndsWith(s: string, p: string) {
    |p| <= |s| && s[|s| - |p|..] == p
  }

  /** `pat` occurs in `s` at position `j`. */
  predicate OccursAt(s: string, pat: string, j: int) {
    0 <= j && j + |pat| <= |s| && s[j..j + |pat|] == pat
  }

  /** `s.find(pat, k)`: the first position at or after `k` where `pat`
      occurs, or -1. */
  function FindFrom(s: string, pat: string, k: nat): (i: int)
    requires k <= |s|
    ensures i == -1 || (k <= i && OccursAt(s, pat, i))
    ensures i == -1 ==> forall j :: k <= j ==> !OccursAt(s, pat, j)
    ensures i != -1 ==> forall j :: k <= j < i ==> !OccursAt(s, pat, j)
    decreases |s| - k
  {
    if k + |pat| > |s| then -1
    else if s[k..k + |pat|] == pat then k
    else FindFrom(s, pat, k + 1)
  }

  /** `s.find(pat)`. */
  function Find(s: string, pat: string): (i: int)
    ensures i == -1 <==> forall j :: !OccursAt(s, pat, j)
    ensures i != -1 ==> OccursAt(s, pat, i) && forall j :: 0 <= j < i ==> !OccursAt(s, pat, j)
  {
    FindFrom(s, pat, 0)
  }

  /** `s.rfind(c)` for a single character: the last position of `c`, or -1. */
  function RFindChar(s: string, c: char): (i: int)
    ensures -1 <= i < |s|
    ensures i >= 0 ==> s[i] == c
    ensures forall j :: i < j < |s| ==> s[j] != c
  {
    if |s| == 0 then -1
    else if s[|s| - 1] == c then |s| - 1
    else RFindChar(s[..|s| - 1], c)
  }

  /** `s.lstrip(chars)` where `drop` tells which characters are in `chars`. */
  function StripLeft(s: string, drop: char -> bool): (r: string)
    ensures |r| <= |s| && r == s[|s| - |r|..]
    ensures r == [] || !drop(r[0])
    ensures forall i :: 0 <= i < |s| - |r| ==> drop(s[i])
  {
    if s == [] || !drop(s[0]) then s
    else StripLeft(s[1..], drop)
  }

  /** `s.rstrip(chars)`. */
  function StripRight(s: string, drop: char -> bool): (r: string)
    ensures |r| <= |s| && r == s[..|r|]
    ensures r == [] || !drop(r[|r| - 1])
    ensures forall i :: |r| <= i < |s| ==> drop(s[i])
  {
    if s == [] || !drop(s[|s| - 1]) then s
    else StripRight(s[..|s| - 1], drop)
  }

  /** `s.strip(chars)`. */
  function Strip(s: string, drop: char -> bool): (r: string)
  {
    StripRight(StripLeft(s, drop), drop)
  }

  /** A string that neither starts nor ends with a dropped character is
      its own strip. */
  lemma StripUnchanged(s: string, drop: char -> bool)
    requires s == [] || (!drop(s[0]) && !drop(s[|s| - 1]))
    ensures Strip(s, drop) == s
  {
    assert StripLeft(s, drop) == s;
  }

  /** `r` sits at position `k` of `s`, and everything before and after it
      is dropped. */
  predicate StrippedAt(s: string, r: string, k: int, drop: char -> bool) {
    && OccursAt(s, r, k)
    && (forall i :: 0 <= i < k ==> drop(s[i]))
    && (forall i :: k + |r| <= i < |s| ==> drop(s[i]))
  }

  /** The result of `Strip` is an infix of its input that neither starts nor
      ends with a dropped character, and all it removed was dropped. */
  lemma StripSpec(s: string, drop: char -> bool)
    ensures var r := Strip(s, drop);
      r == [] || (!drop(r[0]) && !drop(r[|r| - 1]))
    ensures exists k :: StrippedAt(s, Strip(s, drop), k, drop)
  {
    StripEnds(s, drop);
    StripWitness(s, drop);
  }

  lemma StripEnds(s: string, drop: char -> bool)
    ensures var r := Strip(s, drop);
      r == [] || (!drop(r[0]) && !drop(r[|r| - 1]))
  {
    var l := StripLeft(s, drop);
    var r := StripRight(l, drop);
    if r != [] {
      assert r[0] == l[0];
    }
  }

  lemma StripWitness(s: string, drop: char -> bool)
    ensures StrippedAt(s, Strip(s, drop), |s| - |StripLeft(s, drop)|, drop)
  {
    var l := StripLeft(s, drop);
    StrippedFromParts(s, |s| - |l|, StripRight(l, drop), drop);
  }

  /** A prefix `r` of the suffix `s[k..]`, with only dropped characters
      before `k` and after `r` in that suffix, is stripped out of `s` at `k`. */
  lemma StrippedFromParts(s: string, k: nat, r: string, drop: char -> bool)
    requires k <= |s| && |r| <= |s| - k && r == s[k..][..|r|]
    requires forall i :: 0 <= i < k ==> drop(s[i])
    requires forall i :: |r| <= i < |s| - k ==> drop(s[k..][i])
    ensures StrippedAt(s, r, k, drop)
  {
    assert s[k..][..|r|] == s[k..k + |r|];
    forall i | k + |r| <= i < |s|
      ensures drop(s[i])
    {
      assert s[i] == s[k..][i - k];
    }
  }

  lemma ConcatTail(a: string, b: string)
    requires a != []
    ensures (a + b)[0] == a[0] && (a + b)[1..] == a[1..] + b
  {
  }

  lemma StartsWithTrans(s: string, t: string, u: string)
    requires StartsWith(s, t) && StartsWith(t, u)
    ensures StartsWith(s, u)
  {
    assert s[..|u|] == t[..|u|];
  }

  /** Characters for which Python's `str.isspace()` holds, i.e. what
      `str.strip()` without arguments removes. */
  predicate IsSpace(c: char) {
    ('\U{9}' <= c <= '\U{D}') || ('\U{1C}' <= c <= ' ') ||
    c == '\U{85}' || c == '\U{A0}' || c == '\U{1680}' ||
    ('\U{2000}' <= c <= '\U{200A}') || c == '\U{2028}' || c == '\U{2029}' ||
    c == '\U{202F}' || c == '\U{205F}' || c == '\U{3000}'
  }

  /** `s.replace(a, b)` for single characters. */
  function ReplaceChar(s: string, a: char, b: char): (r: string)
    ensures |r| == |s|
    ensures forall i :: 0 <= i < |s| ==> r[i] == (if s[i] == a then b else s[i])
  {
    seq(|s|, i requires 0 <= i < |s| => if s[i] == a then b else s[i])
  }
}
