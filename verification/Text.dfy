/** The string operations of the Go library that the models need. */
module Text {

  /** unicode.IsSpace */
  predicate IsSpace(c: char) {
    || c == ' ' || c == '\t' || c == '\n' || c == '\r' || c == '\U{B}' || c == '\U{C}'
    || c == '\U{85}' || c == '\U{A0}' || c == '\U{1680}' || '\U{2000}' <= c <= '\U{200A}'
    || c == '\U{2028}' || c == '\U{2029}' || c == '\U{202F}' || c == '\U{205F}' || c == '\U{3000}'
  }

  /** Neither end of s is a space. */
  predicate Trimmed(s: string) {
    s != "" ==> !IsSpace(s[0]) && !IsSpace(s[|s| - 1])
  }

  function TrimLeft(s: string): (r: string)
    ensures r != "" ==> !IsSpace(r[0])
    ensures |r| <= |s| && s[|s| - |r|..] == r
    ensures forall i | 0 <= i < |s| - |r| :: IsSpace(s[i])
  {
    if s != "" && IsSpace(s[0]) then TrimLeft(s[1..]) else s
  }

  function TrimRight(s: string): (r: string)
    ensures r != "" ==> !IsSpace(r[|r| - 1])
    ensures r <= s
    ensures forall i | |r| <= i < |s| :: IsSpace(s[i])
  {
    if s != "" && IsSpace(s[|s| - 1]) then TrimRight(s[..|s| - 1]) else s
  }

  /** strings.TrimSpace */
  function Trim(s: string): (r: string)
    ensures Trimmed(r)
    ensures Trimmed(s) ==> r == s
    ensures |r| <= |s|
    ensures r == "" <==> forall i | 0 <= i < |s| :: IsSpace(s[i])
  {
    var left := TrimLeft(s);
    assert left != "" ==> s[|s| - |left|] == left[0];
    TrimRight(left)
  }

  ghost predicate AllSpaces(s: string) {
    forall i | 0 <= i < |s| :: IsSpace(s[i])
  }

  /** Nothing but spaces is trimmed away, and only at the ends. */
  lemma TrimDropsSpaces(s: string) returns (a: string, b: string)
    ensures AllSpaces(a) && AllSpaces(b) && s == a + (Trim(s) + b)
  {
    var left := TrimLeft(s);
    a := s[..|s| - |left|];
    b := DropsRight(left);
    SplitAt(s, |s| - |left|);
  }

  lemma DropsRight(s: string) returns (b: string)
    ensures AllSpaces(b) && s == TrimRight(s) + b
  {
    var n := |TrimRight(s)|;
    b := s[n..];
    SplitAt(s, n);
    assert s[..n] == TrimRight(s);
  }

  lemma SplitAt(s: string, n: nat)
    requires n <= |s|
    ensures s == s[..n] + s[n..]
  {
  }

  function Lower(lower: char -> char, s: string): (r: string)
    ensures |r| == |s|
    ensures forall i | 0 <= i < |s| :: r[i] == lower(s[i])
  {
    seq(|s|, i requires 0 <= i < |s| => lower(s[i]))
  }

  /** strings.EqualFold, where `fold` maps every character to the representative of its case-folding class. */
  predicate EqualFold(fold: char -> char, a: string, b: string) {
    Lower(fold, a) == Lower(fold, b)
  }

  predicate OccursAt(text: string, needle: string, p: int) {
    0 <= p && p + |needle| <= |text| && text[p..p + |needle|] == needle
  }

  /** strings.Index on text[from..], as a position in text. -1 when there is none. */
  function IndexFrom(text: string, needle: string, from: nat): (r: int)
    requires from <= |text|
    ensures r < 0 ==> forall p | from <= p :: !OccursAt(text, needle, p)
    ensures r >= 0 ==> from <= r && OccursAt(text, needle, r) && forall p | from <= p < r :: !OccursAt(text, needle, p)
    decreases |text| - from
  {
    if OccursAt(text, needle, from) then from
    else if from == |text| then -1
    else IndexFrom(text, needle, from + 1)
  }
}
