/** `extract_sql`: turns a language-model completion into one line of SQL. Fences are
    deleted and the text stripped; the first `SELECT ... ;` is cut out if there is one
    (and stripped), otherwise the whole cleaned text is kept; whitespace runs become one
    space. */
module Extraction {
  import opened Wrappers
  import opened Text
  import opened Fences
  import opened Whitespace
  import opened SelectSearch

  /** The completion with its fences deleted and surrounding whitespace stripped. */
  function Cleaned(raw: string): (c: string)
    ensures Trimmed(c)
  {
    Trim(StripFences(raw))
  }

  /** The statement before whitespace is collapsed: the first match, or everything. */
  function Candidate(raw: string): (sql: string)
    ensures Trimmed(sql)
  {
    var c := Cleaned(raw);
    match Search(c)
    case Some(m) => Trim(c[m.start..m.end])
    case None => c
  }

  function ExtractSql(raw: string): (r: string)
    ensures Trimmed(r) && SingleSpaced(r)
  {
    var sql := Candidate(raw);
    CollapseTrimmed(sql);
    CollapseSingleSpaced(sql);
    Collapse(sql)
  }

  /** A single statement as the pattern cuts it out: the keyword at the start, the first
      ';' that lies at least one character past the keyword at the end. */
  predicate Statement(t: string) {
    SelectAt(t, 0) && |t| >= 8 && t[|t| - 1] == ';'
    && (forall k :: 7 <= k < |t| - 1 ==> t[k] != ';')
  }

  /** One statement on one line: exactly the strings that `ExtractSql` gives back
      unchanged on its match branch. */
  ghost predicate Canonical(r: string) {
    Statement(r) && Trimmed(r) && SingleSpaced(r)
  }

  /** Characters after the first one of a collapsed string come from after the first one
      of the input, or are spaces. */
  lemma CollapseTailAvoids(s: string, c: char)
    requires s != [] && !IsSpace(c)
    requires forall k :: 1 <= k < |s| ==> s[k] != c
    ensures forall k :: 1 <= k < |Collapse(s)| ==> Collapse(s)[k] != c
  {
    var tail := if IsSpace(s[0]) then TrimLeft(s) else s[1..];
    assert Collapse(s)[1..] == Collapse(tail);
    TrimLeftSuffix(s);
    assert tail == s[|s| - |tail|..] && |tail| < |s|;
    assert c !in tail by {
      forall j | 0 <= j < |tail| ensures tail[j] != c {
        assert tail[j] == s[|s| - |tail| + j];
      }
    }
    CollapseChars(tail, c);
    forall k | 1 <= k < |Collapse(s)| ensures Collapse(s)[k] != c {
      assert Collapse(s)[k] == Collapse(tail)[k - 1];
    }
  }

  /** What `Search` finds is a statement. */
  lemma MatchIsStatement(c: string)
    requires Search(c).Some?
    ensures Statement(c[Search(c).value.start..Search(c).value.end])
  {
    var m := Search(c).value;
    var text := c[m.start..m.end];
    assert SelectAt(text, 0) by {
      forall k | 0 <= k < 6 ensures text[k] == c[m.start + k] {}
    }
    forall k | 7 <= k < |text| - 1 ensures text[k] != ';' {
      assert text[k] == c[m.start + k];
      assert !MatchAt(c, m.start, m.start + k + 1);
    }
  }

  /** A statement is its keyword, the text between, and the final ';'. */
  lemma StatementParts(text: string)
    requires Statement(text)
    ensures text == text[..6] + (text[6..|text| - 1] + [';'])
    ensures forall k :: 0 <= k < 6 ==> !IsSpace(text[..6][k])
  {
    var n := |text|;
    SelectAtLetters(text, 0);
    assert text[6..] == text[6..n - 1] + [text[n - 1]];
    assert text == text[..6] + text[6..];
  }

  /** Collapsing a statement leaves the keyword and the final ';' in place and collapses
      what lies between them. */
  lemma CollapseAroundStatement(text: string)
    requires Statement(text)
    ensures Collapse(text) == text[..6] + Collapse(text[6..|text| - 1]) + [';']
  {
    var word := text[..6];
    var mid := text[6..|text| - 1];
    StatementParts(text);
    CollapseNoSpace(word);
    calc {
      Collapse(text);
      Collapse(word + (mid + [';']));
      { CollapseAppend(word, mid + [';']); }
      word + Collapse(mid + [';']);
      { CollapseSnoc(mid, ';'); }
      word + (Collapse(mid) + [';']);
    }
  }

  /** Collapsing whitespace keeps a statement a statement. */
  lemma CollapseStatement(text: string)
    requires Statement(text)
    ensures Statement(Collapse(text))
  {
    var mid := text[6..|text| - 1];
    var cm := Collapse(mid);
    var r := Collapse(text);
    CollapseAroundStatement(text);
    assert forall k :: 1 <= k < |mid| ==> mid[k] != ';' by {
      forall k | 1 <= k < |mid| ensures mid[k] != ';' {
        assert mid[k] == text[6 + k];
      }
    }
    CollapseTailAvoids(mid, ';');
    forall k | 7 <= k < |r| - 1 ensures r[k] != ';' {
      assert r[k] == cm[k - 6];
    }
    assert SelectAt(r, 0) by {
      forall k | 0 <= k < 6 ensures r[k] == text[k] {}
    }
  }

  /** On the match branch the result is one canonical statement, made of the non-whitespace
      characters of the matched text. */
  lemma MatchBranch(raw: string)
    requires Search(Cleaned(raw)).Some?
    ensures Canonical(ExtractSql(raw))
    ensures Visible(ExtractSql(raw)) ==
      Visible(Cleaned(raw)[Search(Cleaned(raw)).value.start..Search(Cleaned(raw)).value.end])
  {
    var c := Cleaned(raw);
    var m := Search(c).value;
    var text := c[m.start..m.end];
    MatchIsStatement(c);
    SelectAtLetters(text, 0);
    assert Trimmed(text);
    assert Candidate(raw) == text;
    CollapseStatement(text);
    CollapseVisible(text);
  }

  /** On the no-match branch nothing is discarded: the result holds every non-whitespace
      character of the cleaned text, and text already in normal form comes back unchanged. */
  lemma NoMatchBranch(raw: string)
    requires Search(Cleaned(raw)).None?
    ensures Visible(ExtractSql(raw)) == Visible(Cleaned(raw))
    ensures SingleSpaced(Cleaned(raw)) ==> ExtractSql(raw) == Cleaned(raw)
  {
    CollapseVisible(Cleaned(raw));
    CollapseFixedPoint(Cleaned(raw));
  }

  /** A canonical statement is its own extraction. */
  lemma CanonicalFixed(r: string)
    requires Canonical(r)
    ensures ExtractSql(r) == r
  {
    assert forall k :: 0 <= k < |r| ==> r[k] != '\n' by {
      forall k | 0 <= k < |r| ensures r[k] != '\n' {
        if IsSpace(r[k]) {
          assert r[k] == ' ';
        }
      }
    }
    SelectAtLetters(r, 0);
    OneLineUnchanged(r);
    assert Cleaned(r) == r;
    assert MatchAt(r, 0, |r|);
    var m := Search(r).value;
    assert m.start == 0;
    assert m.end == |r| by {
      assert r[m.end - 1] == ';';
    }
    assert r[0..|r|] == r;
    assert Candidate(r) == r;
    CollapseFixedPoint(r);
  }

  /** Extracting again changes nothing when the first extraction found a statement. */
  lemma IdempotentOnMatch(raw: string)
    requires Search(Cleaned(raw)).Some?
    ensures ExtractSql(ExtractSql(raw)) == ExtractSql(raw)
  {
    MatchBranch(raw);
    CanonicalFixed(ExtractSql(raw));
  }

  /** "``````x": the first fence is at the start of the text and goes; the second is neither
      at a line start nor before a line end, so it stays. */
  lemma DoubleFence(s: string)
    requires s == "``````x"
    ensures ExtractSql(s) == "```x"
  {
    assert s[3] == '`' && s[6] == 'x';
    assert FenceAt(s, 0) == 3;
    assert FenceAt(s, 3) == 0 by {
      assert s[2] == '`';
    }
    forall k | 4 <= k < 7 ensures FenceAt(s, k) == 0 {
      assert !TicksAt(s, k);
    }
    StripKeepsRun(s, 3, 7);
    assert s[3..7] == "```x";
    assert StripFences(s) == "```x";
    NoSelectIn("```x");
    Unchanged("```x");
  }

  /** "```x": the fence at the start of the text goes. */
  lemma SingleFence(t: string)
    requires t == "```x"
    ensures ExtractSql(t) == "x"
  {
    assert t[3] == 'x';
    assert FenceAt(t, 0) == 3;
    assert FenceAt(t, 3) == 0;
    assert StripFrom(t, 3) == "x" + StripFrom(t, 4);
    assert StripFences(t) == "x";
    NoSelectIn("x");
    Unchanged("x");
  }

  /** Idempotence fails off the match branch: the fence that survives the first round is at
      the start of the text in the second round, and is deleted then. */
  lemma NotIdempotentInGeneral(s: string)
    requires s == "``````x"
    ensures ExtractSql(s) == "```x" && ExtractSql(ExtractSql(s)) == "x"
    ensures ExtractSql(ExtractSql(s)) != ExtractSql(s)
  {
    DoubleFence(s);
    SingleFence(ExtractSql(s));
  }

  /** Text too short to hold a match has none. */
  lemma NoSelectIn(t: string)
    requires |t| < 8
    ensures Search(t).None?
  {
  }

  /** Trimming and collapsing leave a string alone that has no whitespace at all. */
  lemma Unchanged(t: string)
    requires forall k :: 0 <= k < |t| ==> !IsSpace(t[k])
    ensures Trim(t) == t && Collapse(t) == t
  {
    CollapseNoSpace(t);
  }

  /** Wrapping a fence-free completion in a fenced code block ("```sql" or "```" opening
      line, "```" closing line) does not change what is extracted. */
  lemma FencedSameAsBare(open: string, body: string)
    requires open == SqlFence || open == Fence
    requires NoFence(body)
    ensures ExtractSql(open + "\n" + body + "\n" + Fence) == ExtractSql(body)
  {
    StripFenced(open, body);
    NoFenceUnchanged(body);
    assert AllSpace("\n");
    TrimPadded("\n", body, "\n");
  }
}
