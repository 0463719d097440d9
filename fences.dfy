/** `re.sub(r"^```sql|^```|```$", "", s, flags=re.MULTILINE)`: the first step of
    `extract_sql`, which deletes markdown code-fence markers. With MULTILINE, `^` holds at
    the start of the text and after every '\n', and `$` at the end of the text and before
    every '\n'; both are judged on the original text, not on what is left after earlier
    deletions. The markers are case-sensitive. */
module Fences {

  const Fence := "```"
  const SqlFence := "```sql"

  /** "```" starts at index `i` of `s`. */
  predicate TicksAt(s: string, i: nat) {
    i + 3 <= |s| && s[i] == '`' && s[i + 1] == '`' && s[i + 2] == '`'
  }

  /** "```sql" starts at index `i` of `s`. */
  predicate SqlTicksAt(s: string, i: nat) {
    TicksAt(s, i) && i + 6 <= |s| && s[i + 3] == 's' && s[i + 4] == 'q' && s[i + 5] == 'l'
  }

  /** The two tests are occurrences of the two markers. */
  lemma TicksAtMeans(s: string, i: nat)
    ensures TicksAt(s, i) <==> i + 3 <= |s| && s[i..i + 3] == Fence
    ensures SqlTicksAt(s, i) <==> i + 6 <= |s| && s[i..i + 6] == SqlFence
  {
    if i + 3 <= |s| && s[i..i + 3] == Fence {
      assert s[i..i + 3][1] == s[i + 1] && s[i..i + 3][2] == s[i + 2];
    }
    if i + 6 <= |s| && s[i..i + 6] == SqlFence {
      assert s[i..i + 6][1] == s[i + 1] && s[i..i + 6][2] == s[i + 2];
      assert s[i..i + 6][3] == s[i + 3] && s[i..i + 6][4] == s[i + 4] && s[i..i + 6][5] == s[i + 5];
    }
  }

  /** `^` in MULTILINE mode. */
  predicate LineStart(s: string, i: nat) {
    i == 0 || (i <= |s| && s[i - 1] == '\n')
  }

  /** `$` in MULTILINE mode. */
  predicate LineEnd(s: string, j: nat) {
    j == |s| || (j < |s| && s[j] == '\n')
  }

  /** How many characters the pattern deletes when tried at index `i`: the alternatives in
      the order they are written, so "```sql" wins over "```" at a line start; 0 is no match. */
  function FenceAt(s: string, i: nat): (n: nat)
    ensures n == 0 || n == 3 || n == 6
    ensures n > 0 ==> TicksAt(s, i)
    ensures n == 6 <==> LineStart(s, i) && SqlTicksAt(s, i)
    ensures n == 0 <==> !TicksAt(s, i) || (!LineStart(s, i) && !LineEnd(s, i + 3))
  {
    if LineStart(s, i) && SqlTicksAt(s, i) then 6
    else if LineStart(s, i) && TicksAt(s, i) then 3
    else if TicksAt(s, i) && LineEnd(s, i + 3) then 3
    else 0
  }

  /** The substitution applied to `s[i..]`: a match is dropped and the scan resumes after
      it; at a position where nothing matches one character is kept. */
  function StripFrom(s: string, i: nat): (r: string)
    requires i <= |s|
    ensures |r| <= |s| - i
    decreases |s| - i
  {
    if i == |s| then []
    else
      var n := FenceAt(s, i);
      if n > 0 then StripFrom(s, i + n) else [s[i]] + StripFrom(s, i + 1)
  }

  function StripFences(s: string): (r: string)
    ensures |r| <= |s|
  {
    StripFrom(s, 0)
  }

  /** "```" does not occur anywhere in `s`. */
  predicate NoFence(s: string) {
    forall i: nat :: i < |s| ==> !TicksAt(s, i)
  }

  /** A stretch where no alternative matches comes out unchanged. */
  lemma {:induction false} StripKeepsRun(s: string, i: nat, j: nat)
    requires i <= j <= |s|
    requires forall k :: i <= k < j ==> FenceAt(s, k) == 0
    ensures StripFrom(s, i) == s[i..j] + StripFrom(s, j)
    decreases j - i
  {
    if i < j {
      var rest := StripFrom(s, j);
      StripKeepsRun(s, i + 1, j);
      calc {
        StripFrom(s, i);
        { assert FenceAt(s, i) == 0; }
        [s[i]] + StripFrom(s, i + 1);
        [s[i]] + (s[i + 1..j] + rest);
        ([s[i]] + s[i + 1..j]) + rest;
        { assert s[i..j] == [s[i]] + s[i + 1..j]; }
        s[i..j] + rest;
      }
    } else {
      assert s[i..j] == [];
    }
  }

  /** Text with no "```" in it passes through unchanged. */
  lemma NoFenceUnchanged(s: string)
    requires NoFence(s)
    ensures StripFences(s) == s
  {
    StripKeepsRun(s, 0, |s|);
    assert s[0..|s|] == s;
  }

  /** On one line of text that neither starts nor ends with a backtick no alternative can
      match: `^` holds only at index 0, `$` only at the end. */
  lemma OneLineUnchanged(s: string)
    requires forall k :: 0 <= k < |s| ==> s[k] != '\n'
    requires s == [] || (s[0] != '`' && s[|s| - 1] != '`')
    ensures StripFences(s) == s
  {
    StripKeepsRun(s, 0, |s|);
    assert s[0..|s|] == s;
  }

  /** The opening fence line is matched whole at index 0. */
  lemma OpeningFence(open: string, rest: string)
    requires open == SqlFence || open == Fence
    ensures FenceAt(open + "\n" + rest, 0) == |open|
  {
    var s := open + "\n" + rest;
    assert s[..|open|] == open;
    assert s[|open|] == '\n';
  }

  /** Between the two fence lines, no "```" can be found: the body has none and any window
      reaching past it contains a line break. */
  lemma NothingInside(open: string, body: string, k: nat)
    requires NoFence(body)
    requires |open| <= k < |open| + |body| + 2
    ensures !TicksAt(open + "\n" + body + "\n" + Fence, k)
  {
    var s := open + "\n" + body + "\n" + Fence;
    var o := |open|;
    if o < k && k + 3 <= o + |body| + 1 {
      assert !TicksAt(body, k - o - 1);
      assert s[k] == body[k - o - 1] && s[k + 1] == body[k - o] && s[k + 2] == body[k - o + 1];
    } else {
      assert s[o] == '\n' && s[o + |body| + 1] == '\n';
    }
  }

  /** A body wrapped in an opening fence line ("```sql" or "```") and a closing "```" line
      loses exactly the two fences and keeps both line breaks. */
  lemma StripFenced(open: string, body: string)
    requires open == SqlFence || open == Fence
    requires NoFence(body)
    ensures StripFences(open + "\n" + body + "\n" + Fence) == "\n" + body + "\n"
  {
    var s := open + "\n" + body + "\n" + Fence;
    var o := |open|;
    var e := o + |body| + 2;
    assert s == open + "\n" + (body + "\n" + Fence);
    OpeningFence(open, body + "\n" + Fence);
    assert StripFences(s) == StripFrom(s, o);
    forall k | o <= k < e ensures FenceAt(s, k) == 0 {
      NothingInside(open, body, k);
    }
    assert s[e - 1] == '\n' && s[e] == '`' && s[e + 1] == '`' && s[e + 2] == '`';
    assert FenceAt(s, e) == 3;
    assert StripFrom(s, e) == [] by {
      assert StripFrom(s, e) == StripFrom(s, e + 3);
    }
    StripKeepsRun(s, o, e);
    assert s[o..e] == "\n" + body + "\n";
  }
}
