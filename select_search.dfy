/** `re.search(r"(SELECT[\s\S]+?;)", text, re.IGNORECASE)`: the leftmost place where
    "SELECT" (in any ASCII case) is followed by at least one character of any kind and then
    a ';', taking the nearest such ';' because `+?` is lazy. */
module SelectSearch {
  import opened Wrappers
  import opened Text

  const Keyword := "select"

  /** "SELECT", ignoring ASCII case, starts at index `p`. */
  predicate SelectAt(t: string, p: nat) {
    p + 6 <= |t| && forall k :: 0 <= k < 6 ==> AsciiLower(t[p + k]) == Keyword[k]
  }

  /** The keyword is made of ASCII letters only. */
  lemma SelectAtLetters(t: string, p: nat)
    requires SelectAt(t, p)
    ensures forall k :: p <= k < p + 6 ==> 'A' <= t[k] <= 'Z' || 'a' <= t[k] <= 'z'
  {
    forall k | p <= k < p + 6 ensures 'A' <= t[k] <= 'Z' || 'a' <= t[k] <= 'z' {
      assert AsciiLower(t[p + (k - p)]) == Keyword[k - p];
    }
  }

  /** The pattern can match exactly `t[p..e]`: the keyword, one or more characters, ';'. */
  predicate MatchAt(t: string, p: nat, e: nat) {
    SelectAt(t, p) && p + 8 <= e <= |t| && t[e - 1] == ';'
  }

  /** A match: `text[start..end]`. */
  datatype Span = Span(start: nat, end: nat)

  /** The first index at or after `from` where the keyword starts. */
  function FirstSelect(t: string, from: nat): (r: Option<nat>)
    ensures r.Some? ==> from <= r.value && SelectAt(t, r.value)
    ensures forall k: nat :: from <= k && (r.None? || k < r.value) ==> !SelectAt(t, k)
    decreases |t| - from
  {
    if from + 6 > |t| then None
    else if SelectAt(t, from) then Some(from)
    else FirstSelect(t, from + 1)
  }

  /** The first index at or after `from` that holds ';'. */
  function FirstSemicolon(t: string, from: nat): (r: Option<nat>)
    ensures r.Some? ==> from <= r.value < |t| && t[r.value] == ';'
    ensures forall k :: from <= k < |t| && (r.None? || k < r.value) ==> t[k] != ';'
    decreases |t| - from
  {
    if from >= |t| then None
    else if t[from] == ';' then Some(from)
    else FirstSemicolon(t, from + 1)
  }

  /** Only the first keyword needs trying: a later one would need a ';' further right still,
      which would already complete a match at the first. The result is the leftmost match,
      and of the matches starting there the shortest; there is none exactly when no
      substring of `t` matches the pattern. */
  function Search(t: string): (m: Option<Span>)
    ensures m.Some? ==> MatchAt(t, m.value.start, m.value.end)
    ensures m.Some? ==> forall p: nat, e: nat :: MatchAt(t, p, e) ==>
      m.value.start < p || (m.value.start == p && m.value.end <= e)
    ensures m.None? ==> forall p: nat, e: nat :: !MatchAt(t, p, e)
  {
    match FirstSelect(t, 0)
    case None => None
    case Some(p) =>
      match FirstSemicolon(t, p + 7)
      case None => None
      case Some(q) => Some(Span(p, q + 1))
  }
}
