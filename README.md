# nl_to_sql in Dafny

A model of `tools/nl_to_sql.py`. This is the tool that turns a natural-language question
about the supply-chain tables (`distribution`, `sort`, `stores`) into one SQL statement and
runs it. The parts modelled are pure computations, so the model uses only functions and
lemmas. The HTTP reply and the database outcome come in as values; the console output is
left out.

The model covers four parts of the tool:

- **`extract_sql`**, the core of the tool. It is modelled one regular expression at a time:
  - `fences.dfy` models the fence substitution `^```sql|^```|```$` in MULTILINE mode. The
    scan runs left to right, and the `^` and `$` anchors are judged on the input text.
  - `select_search.dfy` models the lazy search `(SELECT[\s\S]+?;)` with IGNORECASE.
  - `whitespace.dfy` models the `\s+` → `" "` substitution.
  - `text.dfy` models `str.strip()` and the whitespace class that `\s` and `strip()` share.
  - `extraction.dfy` puts the three steps together and proves what the result looks like on
    each branch.
- **`execute_sql`** (`execution.dfy`). It shapes each fetched row into a dictionary, with
  Python dict semantics, and builds the success or error dictionary. What the database did
  comes in as a value.
- **`ask_llm`** (`llm_client.dfy`). It reads the completion text, or a diagnostic, from the
  HTTP status, the decoded JSON and the body, using Python's subscript and exception rules.
- **`nl_to_sql_and_execute`** (`pipeline.dfy`). It is the fixed prompt followed by the three
  steps. The language-model endpoint and the database are function parameters.

`scenarios.dfy` holds worked inputs, most of them derived from the general lemmas.

## Model

| member | source | states |
|---|---|---|
| Text.Trim | tools/nl_to_sql.py:67 | `strip()` leaves no whitespace at either end, and it returns text that already has none unchanged |
| Text.TrimStripped | tools/nl_to_sql.py:67 | `strip()` returns a contiguous piece of its input; everything it cut off on either side is whitespace |
| Text.TrimLeftSuffix | tools/nl_to_sql.py:67 | the left strip keeps a suffix and removes only whitespace |
| Text.TrimRightPrefix | tools/nl_to_sql.py:67 | the right strip keeps a prefix and removes only whitespace |
| Text.TrimLeftEmpty | tools/nl_to_sql.py:67 | the left strip (`lstrip()`) leaves nothing exactly when the text is all whitespace |
| Text.TrimPadded | tools/nl_to_sql.py:67 | whitespace added on either side makes no difference to `strip()` |
| Text.TrimVisible | tools/nl_to_sql.py:67 | `strip()` loses no non-whitespace character |
| Text.IntToDecimal | tools/nl_to_sql.py:34 | `str(n)` for an int: non-empty, '-' first exactly for a negative number, then digits with no leading zero (for a negative number too) whose value is the magnitude of `n` |
| Text.DecimalRoundTrip | tools/nl_to_sql.py:34 | the decimal rendering of a status code reads back as that code |
| Fences.TicksAtMeans | tools/nl_to_sql.py:67 | the two character tests are exactly occurrences of the markers "```" and "```sql" |
| Fences.FenceAt | tools/nl_to_sql.py:67 | the alternatives are tried in order: "```sql" (6 characters) wins exactly at a line start; otherwise "```" is deleted exactly when it is at a line start or directly before a line end |
| Fences.StripFrom | tools/nl_to_sql.py:67 | the scan of the substitution from an index; its contract only bounds the length of what is left (never more than the characters scanned), and its meaning is stated by Fences.StripKeepsRun and Fences.StripFenced |
| Fences.StripFences | tools/nl_to_sql.py:67 | the substitution `re.sub` of line 67 itself: the result is never longer than the input; Fences.NoFenceUnchanged, Fences.OneLineUnchanged and Fences.StripFenced state what it keeps and removes |
| Fences.StripKeepsRun | tools/nl_to_sql.py:67 | a stretch where no alternative matches is copied through unchanged |
| Fences.NoFenceUnchanged | tools/nl_to_sql.py:67 | text with no "```" passes through the substitution unchanged |
| Fences.OneLineUnchanged | tools/nl_to_sql.py:67 | one line that neither starts nor ends with a backtick passes through unchanged, even when it has "```" inside |
| Fences.OpeningFence | tools/nl_to_sql.py:67 | an opening fence line ("```sql" or "```") is removed whole at the start |
| Fences.NothingInside | tools/nl_to_sql.py:67 | inside a fenced block whose body has no "```", no marker can be found |
| Fences.StripFenced | tools/nl_to_sql.py:67 | a fenced block loses exactly its two fences and keeps its line breaks |
| SelectSearch.FirstSelect | tools/nl_to_sql.py:69 | finds the first index from which "SELECT" starts, in any ASCII case, or reports that there is none |
| SelectSearch.FirstSemicolon | tools/nl_to_sql.py:69 | finds the first ';' at or after an index, or reports that there is none |
| SelectSearch.Search | tools/nl_to_sql.py:69-70 | a reported match matches the pattern; it is the leftmost match, and the shortest of those starting there; no match is reported exactly when no substring matches |
| Whitespace.Collapse | tools/nl_to_sql.py:75 | the result is never longer than the input, and it is empty only for empty input |
| Whitespace.CollapseSingleSpaced | tools/nl_to_sql.py:75 | the result's only whitespace character is ' ', and no two spaces are adjacent |
| Whitespace.CollapseVisible | tools/nl_to_sql.py:75 | the non-whitespace characters are kept, in order, with none added |
| Whitespace.CollapseChars | tools/nl_to_sql.py:75 | every character of the result other than ' ' occurs in the input |
| Whitespace.CollapseFixedPoint | tools/nl_to_sql.py:75 | a string comes back unchanged exactly when it is already single-spaced |
| Whitespace.CollapseNoSpace | tools/nl_to_sql.py:75 | text without whitespace is unchanged |
| Whitespace.CollapseAppend | tools/nl_to_sql.py:75 | after a non-whitespace character the two halves collapse independently |
| Whitespace.CollapseSnoc | tools/nl_to_sql.py:75 | a final non-whitespace character stays last |
| Whitespace.CollapseTrimmed | tools/nl_to_sql.py:75 | collapsing keeps text free of whitespace at both ends |
| Extraction.Cleaned | tools/nl_to_sql.py:67 | the fence-stripped text has no whitespace at either end |
| Extraction.Candidate | tools/nl_to_sql.py:69-73 | the statement before collapsing (the stripped match, or all of the cleaned text) has no whitespace at either end |
| Extraction.ExtractSql | tools/nl_to_sql.py:65-76 | the result is in whitespace normal form: no whitespace at the ends, only single spaces inside |
| Extraction.MatchIsStatement | tools/nl_to_sql.py:69-71 | the matched text starts with SELECT, ends with ';', and has no ';' between index 7 and its end |
| Extraction.StatementParts | tools/nl_to_sql.py:69-71 | a matched statement splits into its keyword, the text between, and its ';'; the keyword holds no whitespace |
| Extraction.CollapseAroundStatement | tools/nl_to_sql.py:75 | collapsing leaves the keyword and the ';' of a statement in place |
| Extraction.CollapseStatement | tools/nl_to_sql.py:71-75 | collapsing keeps a matched statement a statement: SELECT first, the first qualifying ';' last |
| Extraction.MatchBranch | tools/nl_to_sql.py:69-71 | on the match branch the result is one statement in normal form, made of the non-whitespace characters of the match |
| Extraction.NoMatchBranch | tools/nl_to_sql.py:72-75 | without a match nothing is discarded: the result has every non-whitespace character of the cleaned text, and single-spaced cleaned text comes back unchanged |
| Extraction.CanonicalFixed | tools/nl_to_sql.py:65-76 | a single-spaced statement is its own extraction |
| Extraction.IdempotentOnMatch | tools/nl_to_sql.py:65-76 | on the match branch, extracting a second time changes nothing |
| Extraction.DoubleFence | tools/nl_to_sql.py:67 | "``````x" gives "```x": the second fence is neither at a line start nor before a line end |
| Extraction.SingleFence | tools/nl_to_sql.py:67 | "```x" gives "x" |
| Extraction.NotIdempotentInGeneral | tools/nl_to_sql.py:65-76 | off the match branch a second extraction can change the result |
| Extraction.NoSelectIn | tools/nl_to_sql.py:69 | text shorter than eight characters has no match |
| Extraction.Unchanged | tools/nl_to_sql.py:67-75 | stripping and collapsing leave text without whitespace alone |
| Extraction.FencedSameAsBare | tools/nl_to_sql.py:67-76 | wrapping a fence-free completion in a fenced block does not change what is extracted |
| Execution.Get | tools/nl_to_sql.py:50 | a dictionary read finds a key exactly when the key is present, and what it finds is an entry of the dictionary |
| Execution.GetEntry | tools/nl_to_sql.py:50 | with no key twice, each entry is what reading its key returns |
| Execution.Put | tools/nl_to_sql.py:50 | storing a key keeps the keys distinct; an existing key keeps its place and a new key goes last |
| Execution.PutGet | tools/nl_to_sql.py:50 | after storing, the key reads back the new value and every other key reads as before |
| Execution.DictOf | tools/nl_to_sql.py:50 | `dict(pairs)` never holds a key twice and has at most one entry per pair |
| Execution.DictOfAbsent | tools/nl_to_sql.py:50 | a key of no pair is absent from `dict(pairs)` |
| Execution.DictOfLast | tools/nl_to_sql.py:50 | in `dict(pairs)` a key holds the value of its last pair |
| Execution.Dedup | tools/nl_to_sql.py:50 | lists each key once, the same keys as the input, in order of first occurrence in the input |
| Execution.DictOfKeys | tools/nl_to_sql.py:50 | the keys of `dict(pairs)` come in order of first insertion |
| Execution.RowDict | tools/nl_to_sql.py:50 | `dict(zip(columns, row))` never holds a name twice and has no more entries than the shorter of columns and row; Execution.RowDictCell and Execution.RowDictKeys state its contents |
| Execution.RowDictCell | tools/nl_to_sql.py:50 | in a row's dictionary a column name holds the cell under its last occurrence among the first min(columns, cells) columns |
| Execution.RowDictAbsent | tools/nl_to_sql.py:50 | a name outside the first min(columns, cells) columns is absent from the row's dictionary |
| Execution.RowDictKeys | tools/nl_to_sql.py:49-50 | a row's keys follow the cursor's column order, each at its first occurrence, cut at the shorter of columns and row |
| Execution.ShapeRows | tools/nl_to_sql.py:48-50 | one dictionary per fetched row, in cursor order |
| Execution.ExecutionResult.Status | tools/nl_to_sql.py:53-55 | the status is "success" or "error", and "success" exactly for the success dictionary |
| Execution.ExecuteSql | tools/nl_to_sql.py:36-55 | never fails; the SQL is echoed back unmodified; the result is a success exactly when nothing in the `try` raised (connect, execute, fetch, reading the column names, and the two closes on lines 51-52); the rows are shaped; otherwise the error message is the exception's text |
| LlmClient.TextPath | tools/nl_to_sql.py:30 | the subscript chain ends in a str exactly when the reply has the Gemini reply shape `candidates[0].content.parts[0].text`, and then in that shape's text |
| LlmClient.TextPathDocumented | tools/nl_to_sql.py:29-32 | when nothing uncaught is raised, the subscript chain finds text exactly when the reply has the Gemini reply shape `candidates[0].content.parts[0].text`, and finds that text |
| LlmClient.AskLlm | tools/nl_to_sql.py:27-34 | on 200 with the Gemini reply shape `candidates[0].content.parts[0].text` it returns the stripped text; on 200 otherwise the fixed unexpected-format message; on any other status the failure message |
| LlmClient.FailureMessage | tools/nl_to_sql.py:34 | the failure message is the fixed prefix, then `str(status)`, which for a non-negative status is a decimal numeral with no leading zero that reads back as the status, then ": " and the body |
| Pipeline.Prompt | tools/nl_to_sql.py:80-88 | the prompt is the fixed preamble, the question, and the fixed closing |
| Pipeline.PromptInjective | tools/nl_to_sql.py:80-88 | different questions give different prompts |
| Pipeline.NlToSqlAndExecute | tools/nl_to_sql.py:78-93 | the statement run is the extraction of the model's answer to the prompt; it is in whitespace normal form; the request succeeds exactly when the database ran that statement; what comes back is `execute_sql`'s result for that statement, shaped rows or error message included |
| Scenarios.FencedBlock | tools/nl_to_sql.py:67 | "```sql\nSELECT * FROM stores;\n```" gives "SELECT * FROM stores;" |
| Scenarios.OnlyFirstStatement | tools/nl_to_sql.py:69-71 | "SELECT a FROM t; SELECT b FROM t;" gives "SELECT a FROM t;" |
| Scenarios.NoStatementKept | tools/nl_to_sql.py:72-73 | "I cannot help with that." comes back unchanged |
| Scenarios.CollapseTwoRuns | tools/nl_to_sql.py:75 | two whitespace runs between words each become one space |
| Scenarios.WhitespaceCollapsed | tools/nl_to_sql.py:75 | "SELECT  \n  name\nFROM stores;" gives "SELECT name FROM stores;" |
| Scenarios.OneColumnRows | tools/nl_to_sql.py:50 | with one column, each row becomes a one-entry dictionary |
| Scenarios.ListStoreNames | tools/nl_to_sql.py:78-93 | for any question, when the model answers with a bare statement and the database returns two rows, the rows come back in order under their column, with the statement echoed |

## Left out

- The HTTP POST, its headers, its parameters and the API key (tools/nl_to_sql.py:19-26). They are network I/O, so the status, the decoded JSON and the body text are inputs.
- LlmClient.AskLlm: `requests.post` (tools/nl_to_sql.py:26) can itself raise, on a connection error or a timeout. That exception propagates uncaught out of `ask_llm` and `nl_to_sql_and_execute`. The model's endpoint `model: string -> Response` always returns a reply, so it cannot express this path.
- LlmClient.AskLlm: requires `Answerable`. The model does not cover two paths that raise an exception `ask_llm` does not catch. When `response.json()` cannot parse the body, it raises a JSON decode error, which is a ValueError. When a subscript meets a value of the wrong type it raises TypeError, and `.strip()` on a non-str raises AttributeError.
- Pipeline.NlToSqlAndExecute: carries the same requirement on the model's reply, for the same reason.
- Execution.ExecuteSql: psycopg2's connect, execute, fetchall, `cursor.description` and close (tools/nl_to_sql.py:39-52) are a foreign call. Their outcome, either the column names and rows or the text of the raised exception, is an input.
- Resource release is not claimed. The error path has no `finally`, so it does not close the cursor or the connection.
- The `.env` loading and environment variables (tools/nl_to_sql.py:8-15) are configuration.
- The two `print` calls (tools/nl_to_sql.py:90,92) are logging.
- `Root/agent.py` is not part of this model. It only registers the tool with the agent framework.
- SelectSearch.SelectAt: IGNORECASE is modelled as ASCII case folding. Python's Unicode folding also matches, for example, U+017F (long s) against 's'. This model does not.
- Text.IsSpace: the whitespace class is the fixed list of code points that Python's `str.isspace()` accepts. `\s` and `strip()` share it. There is no other Unicode database.
- Execution.Get: a Python dict is modelled as its entries in insertion order, with no key twice. Hashing is not modelled.
- SQL quality, validity and safety are not modelled. The code runs whatever it extracts and does no statement-type check, so the model claims no SELECT-only guarantee on the no-match branch.
- Execution.ExecuteSql: the error message is `str(e)`, which can be the empty string, so no non-empty error message is claimed.
- No claim that only fence lines are removed. The third alternative `$` deletes "```" directly before any line end, wherever it is on the line; Fences.FenceAt states exactly when a marker goes.
- No validation of the question. The code does not check it, and the model accepts every question, the empty one included.
