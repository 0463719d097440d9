/** Worked inputs for `extract_sql` and the whole request, each derived from the general
    lemmas about the model. */
module Scenarios {
  import opened Wrappers
  import opened Text
  import opened Fences
  import opened Whitespace
  import opened SelectSearch
  import opened Extraction
  import opened Execution
  import opened LlmClient
  import opened Pipeline

  /** A string without backticks has no fence in it. */
  lemma NoBackticks(s: string)
    requires forall i :: 0 <= i < |s| ==> s[i] != '`'
    ensures NoFence(s)
  {
    forall i: nat | i < |s| ensures !TicksAt(s, i) {
      assert s[i] != '`';
    }
  }

  /** A fence-free string already free of whitespace at both ends is its own cleaned text. */
  lemma CleanedUnchanged(s: string)
    requires forall i :: 0 <= i < |s| ==> s[i] != '`'
    requires Trimmed(s)
    ensures Cleaned(s) == s
  {
    NoBackticks(s);
    NoFenceUnchanged(s);
  }

  /** The statement used in the examples below is canonical and has no fence in it. */
  lemma StoresStatement(body: string)
    requires body == "SELECT * FROM stores;"
    ensures Canonical(body) && NoFence(body)
  {
    StoresSpaced(body);
    assert Statement(body);
    assert Trimmed(body);
    NoBackticks(body);
  }

  lemma StoresSpaced(body: string)
    requires body == "SELECT * FROM stores;"
    ensures SingleSpaced(body)
  {
  }

  /** A fenced code block tagged `sql` gives back the statement inside it. */
  lemma FencedBlock(raw: string, body: string)
    requires body == "SELECT * FROM stores;"
    requires raw == "```sql\n" + body + "\n```"
    ensures ExtractSql(raw) == body
  {
    StoresStatement(body);
    assert raw == SqlFence + "\n" + body + "\n" + Fence;
    CanonicalFixed(body);
    FencedSameAsBare(SqlFence, body);
  }

  /** The first of the two statements below is canonical. */
  lemma FirstStatement(first: string)
    requires first == "SELECT a FROM t;"
    ensures Canonical(first)
  {
    assert Statement(first);
    assert Trimmed(first);
    assert SingleSpaced(first);
  }

  /** What is known of the completion with two statements, read off its characters. */
  lemma TwoStatements(t: string)
    requires t == "SELECT a FROM t; SELECT b FROM t;"
    ensures Cleaned(t) == t
    ensures MatchAt(t, 0, 16) && forall k :: 7 <= k < 15 ==> t[k] != ';'
    ensures t[..16] == "SELECT a FROM t;"
  {
    assert t[..16] == "SELECT a FROM t;";
    assert MatchAt(t, 0, 16) && forall k :: 7 <= k < 15 ==> t[k] != ';';
    assert Trimmed(t) && forall i :: 0 <= i < |t| ==> t[i] != '`';
    CleanedUnchanged(t);
  }

  /** Of two statements only the first is kept. */
  lemma OnlyFirstStatement(t: string)
    requires t == "SELECT a FROM t; SELECT b FROM t;"
    ensures ExtractSql(t) == "SELECT a FROM t;"
  {
    TwoStatements(t);
    FirstStatement(t[..16]);
    var m := Search(t).value;
    assert m.start == 0;
    assert m.end == 16 by {
      assert t[m.end - 1] == ';';
    }
    assert Candidate(t) == t[..16];
    CollapseFixedPoint(t[..16]);
  }

  lemma RefusalSpaced(t: string)
    requires t == "I cannot help with that."
    ensures SingleSpaced(t)
  {
  }

  /** A refusal holds no statement and comes back as it is. */
  lemma NoStatementKept(t: string)
    requires t == "I cannot help with that."
    ensures ExtractSql(t) == t
  {
    RefusalSpaced(t);
    assert forall p: nat :: !SelectAt(t, p) by {
      forall p: nat | p < |t| ensures AsciiLower(t[p]) != Keyword[0] {}
    }
    CleanedUnchanged(t);
    NoMatchBranch(t);
  }

  /** The statement spread over several lines is matched whole. */
  lemma MultiLineMatched(t: string)
    requires t == "SELECT  \n  name\nFROM stores;"
    ensures Candidate(t) == t
  {
    assert MatchAt(t, 0, |t|) && forall k :: 7 <= k < |t| - 1 ==> t[k] != ';';
    assert Trimmed(t) && forall i :: 0 <= i < |t| ==> t[i] != '`';
    CleanedUnchanged(t);
    var m := Search(t).value;
    assert m.start == 0 && m.end == |t| by {
      assert t[m.end - 1] == ';';
    }
    assert t[0..|t|] == t;
  }

  /** Two runs of whitespace, each between words, become one space each. */
  lemma CollapseTwoRuns(word: string, gap: string, name: string, nl: string, tail: string)
    requires forall k :: 0 <= k < |word| ==> !IsSpace(word[k])
    requires forall k :: 0 <= k < |name| ==> !IsSpace(name[k])
    requires word != [] && name != [] && gap != [] && nl != []
    requires AllSpace(gap) && AllSpace(nl) && SingleSpaced(tail)
    requires tail != [] && !IsSpace(tail[0])
    ensures Collapse(word + (gap + (name + (nl + tail)))) == word + (" " + (name + (" " + tail)))
  {
    var rest := name + (nl + tail);
    calc {
      Collapse(word + (gap + rest));
      { CollapseNoSpace(word); CollapseAppend(word, gap + rest); }
      word + Collapse(gap + rest);
      { assert (gap + rest)[0] == gap[0]; TrimLeftSpaces(gap, rest); }
      word + (" " + Collapse(rest));
      { CollapseNoSpace(name); CollapseAppend(name, nl + tail); }
      word + (" " + (name + Collapse(nl + tail)));
      { assert (nl + tail)[0] == nl[0]; TrimLeftSpaces(nl, tail); CollapseFixedPoint(tail); }
      word + (" " + (name + (" " + tail)));
    }
  }

  /** The pieces of the statement spread over several lines. */
  lemma MultiLineCollapsed(word: string, gap: string, name: string, nl: string, tail: string)
    requires word == "SELECT" && gap == "  \n  " && name == "name" && nl == "\n"
    requires tail == "FROM stores;"
    ensures Collapse(word + (gap + (name + (nl + tail)))) == "SELECT name FROM stores;"
  {
    assert word + (" " + (name + (" " + tail))) == "SELECT name FROM stores;";
    assert AllSpace(gap) && AllSpace(nl) && SingleSpaced(tail);
    assert forall k :: 0 <= k < |word| ==> !IsSpace(word[k]);
    assert forall k :: 0 <= k < |name| ==> !IsSpace(name[k]);
    CollapseTwoRuns(word, gap, name, nl, tail);
  }

  /** A statement spread over several lines is put on one line. */
  lemma WhitespaceCollapsed(t: string)
    requires t == "SELECT  \n  name\nFROM stores;"
    ensures ExtractSql(t) == "SELECT name FROM stores;"
  {
    assert t == "SELECT" + ("  \n  " + ("name" + ("\n" + "FROM stores;")));
    MultiLineMatched(t);
    MultiLineCollapsed("SELECT", "  \n  ", "name", "\n", "FROM stores;");
  }

  /** A model reply in the documented shape carrying `text`. */
  function Reply(text: string): Json {
    JObject(map["candidates" := JArray([JObject(map["content" :=
      JObject(map["parts" := JArray([JObject(map["text" := JString(text)])])])])])])
  }

  /** The statement the model answers with below is canonical. */
  lemma NamesStatement(sql: string)
    requires sql == "SELECT name FROM stores;"
    ensures Canonical(sql)
  {
    NamesSpaced(sql);
    assert Statement(sql);
    assert Trimmed(sql);
  }

  lemma NamesSpaced(sql: string)
    requires sql == "SELECT name FROM stores;"
    ensures SingleSpaced(sql)
  {
  }

  /** One column, one cell per row: each row becomes a one-entry dictionary. */
  lemma OneColumnRows<V>(column: string, a: V, b: V)
    ensures ShapeRows([column], [[a], [b]]) == [[(column, a)], [(column, b)]]
  {
    assert Zip([column], [a]) == [(column, a)];
    assert Zip([column], [b]) == [(column, b)];
    assert DictOf([(column, a)]) == Put([], column, a);
    assert DictOf([(column, b)]) == Put([], column, b);
  }

  /** Whatever the question, a model that answers with a bare statement, and a database
      that returns two rows in column `name`: both rows come back, in order, under their
      column, with the statement echoed. */
  lemma ListStoreNames(question: string, sql: string, model: string -> Response,
                       database: string -> DbOutcome<string>)
    requires sql == "SELECT name FROM stores;"
    requires model(Prompt(question)) == Response(200, Reply(sql), "")
    requires database(sql) == Fetched(["name"], [["A"], ["B"]])
    ensures Answerable(model(Prompt(question)))
    ensures NlToSqlAndExecute(question, model, database)
      == Success(sql, [[("name", "A")], [("name", "B")]])
  {
    NamesStatement(sql);
    assert DocumentedText(Reply(sql)) == Some(sql);
    assert TextPath(Reply(sql)) == Some(Found(JString(sql)));
    assert AskLlm(model(Prompt(question))) == sql;
    CanonicalFixed(sql);
    OneColumnRows("name", "A", "B");
  }
}
