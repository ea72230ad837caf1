/** The four field patterns of the extractor all have the shape
    `/Label:\s*(.+)/i`, applied with `String.prototype.match` (no `g` flag).
    This module gives that shape's meaning declaratively (IsMatch), and
    computes the match ECMAScript's backtracking matcher returns: the
    leftmost start position, then the longest `\s*`, then the longest `.+`. */
module LabelPattern {
  import opened Wrappers
  import opened JsText

  /** The `i` flag without `u` compares characters after `toUpperCase`, and
      never maps a non-ASCII character onto an ASCII one; against an ASCII
      key character this is ASCII case folding. */
  predicate SameIgnoringCase(c: char, d: char) {
    UpperChar(c) == UpperChar(d)
  }

  /** The key occurs at position p of text, ignoring case. */
  predicate LabelAt(text: string, key: string, p: nat) {
    p + |key| <= |text| &&
    forall k :: 0 <= k < |key| ==> SameIgnoringCase(text[p + k], key[k])
  }

  /** No character of s[i..j] is a line terminator: `.` accepts all of them. */
  predicate LineChars(s: string, i: nat, j: nat)
    requires i <= j <= |s|
  {
    forall k :: i <= k < j ==> !IsLineTerminator(s[k])
  }

  /** One way for the pattern to match at p: the key fills [p, p+|key|),
      `\s*` fills [p+|key|, q) and the capture group `(.+)` fills [q, e). */
  predicate IsMatch(text: string, key: string, p: nat, q: nat, e: nat) {
    p + |key| <= q < e <= |text| &&
    LabelAt(text, key, p) && Spaces(text, p + |key|, q) && LineChars(text, q, e)
  }

  /** The pattern matches at position p in at least one way. */
  ghost predicate MatchesAt(text: string, key: string, p: nat) {
    exists q: nat, e: nat :: IsMatch(text, key, p, q, e)
  }

  /** A match found at position `at` whose capture group is text[start..end]. */
  datatype Match = Match(at: nat, start: nat, end: nat)

  /** The greedy `\s*` starting at i: the end of the white-space run. */
  function SkipSpaces(text: string, i: nat): (j: nat)
    requires i <= |text|
    ensures i <= j <= |text| && Spaces(text, i, j)
    ensures j < |text| ==> !IsSpace(text[j])
    decreases |text| - i
  {
    if i < |text| && IsSpace(text[i]) then SkipSpaces(text, i + 1) else i
  }

  /** The greedy `.+` starting at q: the first line terminator at or after q,
      or the end of the text. */
  function LineEnd(text: string, q: nat): (e: nat)
    requires q <= |text|
    ensures q <= e <= |text| && LineChars(text, q, e)
    ensures e < |text| ==> IsLineTerminator(text[e])
    decreases |text| - q
  {
    if q < |text| && !IsLineTerminator(text[q]) then LineEnd(text, q + 1) else q
  }

  /** Backtracking of `\s*` once it ran to the end of the text: the last
      position in [i, j) at which `.` can match. */
  function LastLineChar(text: string, i: nat, j: nat): (r: Option<nat>)
    requires i <= j <= |text|
    ensures r.Some? ==> i <= r.value < j && !IsLineTerminator(text[r.value])
    ensures r.Some? ==> forall k :: r.value < k < j ==> IsLineTerminator(text[k])
    ensures r.None? ==> forall k :: i <= k < j ==> IsLineTerminator(text[k])
    decreases j - i
  {
    if j == i then None
    else if !IsLineTerminator(text[j - 1]) then Some(j - 1)
    else LastLineChar(text, i, j - 1)
  }

  /** The match the backtracking matcher finds at position p, if any. */
  function MatchAt(text: string, key: string, p: nat): (r: Option<Match>)
    ensures !LabelAt(text, key, p) ==> r.None?
    ensures r.Some? ==> var m := r.value;
      m.at == p && LabelAt(text, key, p) && p + |key| <= m.start < m.end <= |text| &&
      LineChars(text, m.start, m.end)
  {
    if !LabelAt(text, key, p) then None
    else
      var i := p + |key|;
      var j := SkipSpaces(text, i);
      if j < |text| then Some(Match(p, j, LineEnd(text, j)))
      else match LastLineChar(text, i, j)
        case Some(k) => Some(Match(p, k, LineEnd(text, k)))
        case None => None
  }

  /** MatchAt is right: what it returns is a match at p, it is the greedy
      one (no match at p has a longer `\s*`, nor, with the same `\s*`, a
      longer capture), and when it returns nothing there is no match at p. */
  lemma MatchAtGreedy(text: string, key: string, p: nat)
    ensures MatchAt(text, key, p).Some? ==>
      var m := MatchAt(text, key, p).value;
      m.at == p && IsMatch(text, key, p, m.start, m.end) &&
      forall q: nat, e: nat :: IsMatch(text, key, p, q, e) ==>
        q < m.start || (q == m.start && e <= m.end)
    ensures MatchAt(text, key, p).None? <==> !MatchesAt(text, key, p)
  {
    if LabelAt(text, key, p) {
      var i := p + |key|;
      var j := SkipSpaces(text, i);
      forall q: nat, e: nat | IsMatch(text, key, p, q, e)
        ensures q <= j && LineEnd(text, q) >= e
      {
      }
      if j < |text| {
        assert IsMatch(text, key, p, j, LineEnd(text, j));
      } else if LastLineChar(text, i, j).Some? {
        var k := LastLineChar(text, i, j).value;
        assert IsMatch(text, key, p, k, LineEnd(text, k));
      }
    }
  }

  /** `String.prototype.match` with a non-global pattern: try the start
      positions from `from` upward and return the match at the first one
      where the pattern matches. */
  function FirstMatch(text: string, key: string, from: nat): (r: Option<Match>)
    ensures r.Some? ==> var m := r.value;
      from <= m.at && IsMatch(text, key, m.at, m.start, m.end) &&
      forall q: nat, e: nat :: IsMatch(text, key, m.at, q, e) ==> q < m.start || (q == m.start && e <= m.end)
    ensures r.Some? ==> forall p: nat :: from <= p < r.value.at ==> !MatchesAt(text, key, p)
    ensures r.None? ==> forall p: nat :: from <= p ==> !MatchesAt(text, key, p)
    decreases |text| + 1 - from
  {
    if from > |text| then None
    else
      MatchAtGreedy(text, key, from);
      match MatchAt(text, key, from)
      case Some(m) => Some(m)
      case None => FirstMatch(text, key, from + 1)
  }

  /** `text.match(/key\s*(.+)/i)?.[1]`: the capture group of the first match. */
  function Capture(text: string, key: string): (r: Option<string>)
    ensures r.Some? <==> exists p: nat :: MatchesAt(text, key, p)
  {
    match FirstMatch(text, key, 0)
    case Some(m) =>
      assert MatchesAt(text, key, m.at);
      Some(text[m.start..m.end])
    case None => None
  }
}
