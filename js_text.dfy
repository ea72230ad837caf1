/** The JavaScript string primitives the extractor relies on: the characters
    `\s`, `.` and `String.prototype.trim` treat as white space or line ends,
    ASCII case mapping and `String.prototype.includes`. */
module JsText {

  /** A LineTerminator: LF, CR, LINE SEPARATOR, PARAGRAPH SEPARATOR.
      The regular-expression atom `.` matches every other character. */
  predicate IsLineTerminator(c: char) {
    c == '\n' || c == '\r' || c == '\U{2028}' || c == '\U{2029}'
  }

  /** WhiteSpace or LineTerminator: the characters `\s` matches and `trim` removes. */
  predicate IsSpace(c: char) {
    IsLineTerminator(c)
    || c == '\t' || c == '\U{000B}' || c == '\U{000C}' || c == ' ' || c == '\U{00A0}'
    || c == '\U{1680}' || ('\U{2000}' <= c <= '\U{200A}') || c == '\U{202F}'
    || c == '\U{205F}' || c == '\U{3000}' || c == '\U{FEFF}'
  }

  /** Every character of s[i..j] is white space. */
  predicate Spaces(s: string, i: nat, j: nat)
    requires i <= j <= |s|
  {
    forall k :: i <= k < j ==> IsSpace(s[k])
  }

  /** Number of white-space characters at the start of s. */
  function LeadingSpaces(s: string): (n: nat)
    ensures n <= |s| && Spaces(s, 0, n)
    ensures n < |s| ==> !IsSpace(s[n])
  {
    if s == [] || !IsSpace(s[0]) then 0
    else
      var n := LeadingSpaces(s[1..]);
      assert forall k :: 1 <= k < n + 1 ==> s[k] == s[1..][k - 1];
      n + 1
  }

  /** Length of s once its trailing white space is dropped. */
  function TrailingStart(s: string): (n: nat)
    ensures n <= |s| && Spaces(s, n, |s|)
    ensures 0 < n ==> !IsSpace(s[n - 1])
  {
    if s == [] || !IsSpace(s[|s| - 1]) then |s|
    else
      var n := TrailingStart(s[..|s| - 1]);
      assert forall k :: n <= k < |s| - 1 ==> s[k] == s[..|s| - 1][k];
      n
  }

  /** `String.prototype.trim`: s without its leading and trailing white space. */
  function Trim(s: string): (r: string)
    ensures |r| <= |s|
    ensures r != [] ==> !IsSpace(r[0]) && !IsSpace(r[|r| - 1])
    ensures s == [] || (!IsSpace(s[0]) && !IsSpace(s[|s| - 1])) ==> r == s
  {
    var t := s[LeadingSpaces(s)..];
    t[..TrailingStart(t)]
  }

  /** Trim keeps a middle slice of s: what it drops on either side is white
      space, and what it keeps neither starts nor ends with white space. */
  lemma TrimSlice(s: string) returns (i: nat, j: nat)
    ensures i <= j <= |s| && Trim(s) == s[i..j]
    ensures Spaces(s, 0, i) && Spaces(s, j, |s|)
    ensures i < j ==> !IsSpace(s[i]) && !IsSpace(s[j - 1])
  {
    var a := LeadingSpaces(s);
    var t := s[a..];
    var b := TrailingStart(t);
    i, j := a, a + b;
    assert Trim(s) == t[..b] == s[i..j];
    forall k | j <= k < |s|
      ensures IsSpace(s[k])
    {
      assert s[k] == t[k - a];
    }
    if i < j {
      assert s[i] == t[0] && s[j - 1] == t[b - 1];
    }
  }

  /** Trim is determined by its input: for any split of s into white space,
      a core that neither starts nor ends with white space, and white space,
      Trim returns exactly that core. */
  lemma TrimUnique(pre: string, core: string, post: string)
    requires Spaces(pre, 0, |pre|) && Spaces(post, 0, |post|)
    requires core != [] ==> !IsSpace(core[0]) && !IsSpace(core[|core| - 1])
    ensures Trim(pre + core + post) == core
  {
    var s := pre + core + post;
    assert forall k :: 0 <= k < |pre| ==> s[k] == pre[k];
    assert forall k :: 0 <= k < |core| ==> s[|pre| + k] == core[k];
    assert forall k :: |pre| + |core| <= k < |s| ==> s[k] == post[k - |pre| - |core|];
    var i, j := TrimSlice(s);
    assert s[|pre|..|pre| + |core|] == core;
  }

  /** Trimming twice is trimming once. */
  lemma TrimIdempotent(s: string)
    ensures Trim(Trim(s)) == Trim(s)
  {
    var i, j := TrimSlice(s);
    assert Trim(s) == [] + s[i..j] + [];
    TrimUnique([], s[i..j], []);
  }

  /** ASCII upper case of one character; every other character is unchanged. */
  function UpperChar(c: char): char {
    if 'a' <= c <= 'z' then (c as int - 32) as char else c
  }

  /** ASCII lower case of one character; every other character is unchanged. */
  function LowerChar(c: char): char {
    if 'A' <= c <= 'Z' then (c as int + 32) as char else c
  }

  /** `String.prototype.toLowerCase`, restricted to ASCII letters. */
  function Lower(s: string): (r: string)
    ensures |r| == |s|
    ensures forall k :: 0 <= k < |s| ==> r[k] == LowerChar(s[k])
  {
    if s == [] then [] else [LowerChar(s[0])] + Lower(s[1..])
  }

  /** needle occurs in hay starting at index i. */
  predicate OccursAt(hay: string, needle: string, i: nat) {
    i + |needle| <= |hay| && hay[i..i + |needle|] == needle
  }

  /** An occurrence of needle in hay that does not start at index 0 is an
      occurrence in hay[1..], shifted by one. */
  lemma OccursLater(hay: string, needle: string)
    requires |needle| <= |hay| && hay[..|needle|] != needle
    ensures (exists i: nat :: OccursAt(hay, needle, i)) <==> (exists i: nat :: OccursAt(hay[1..], needle, i))
  {
    forall i: nat | OccursAt(hay[1..], needle, i) ensures OccursAt(hay, needle, i + 1) {
      assert hay[i + 1..i + 1 + |needle|] == hay[1..][i..i + |needle|];
    }
    forall i: nat | OccursAt(hay, needle, i) ensures i > 0 && OccursAt(hay[1..], needle, i - 1) {
      assert hay[1..][i - 1..i - 1 + |needle|] == hay[i..i + |needle|];
    }
  }

  /** Lower-casing both sides keeps an occurrence. */
  lemma LowerKeepsOccurrence(hay: string, needle: string, i: nat)
    requires OccursAt(hay, needle, i)
    ensures OccursAt(Lower(hay), Lower(needle), i)
  {
    assert forall k :: 0 <= k < |needle| ==> hay[i + k] == needle[k];
    assert Lower(hay)[i..i + |needle|] == Lower(needle);
  }

  /** `String.prototype.includes`: needle occurs somewhere in hay (the empty
      string occurs everywhere). */
  function Includes(hay: string, needle: string): (b: bool)
    ensures b <==> exists i: nat :: OccursAt(hay, needle, i)
  {
    if |hay| < |needle| then false
    else if hay[..|needle|] == needle then
      assert OccursAt(hay, needle, 0);
      true
    else
      OccursLater(hay, needle);
      Includes(hay[1..], needle)
  }
}
