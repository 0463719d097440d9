/** `nl_to_sql_and_execute`: the prompt, then the model, then extraction, then execution.
    The model endpoint and the database are parameters: functions from what is sent to what
    comes back. */
module Pipeline {
  import opened Text
  import opened Whitespace
  import opened Extraction
  import opened Execution
  import opened LlmClient

  const TableSchema :=
    "\nTables and columns:\n"
    + "- distribution(name, display_name, latitude, longitude, variable_cost, daily_max_capacity, schedule_time)\n"
    + "- sort(name, display_name, latitude, longitude, variable_cost, daily_max_capacity, schedule_time)\n"
    + "- stores(name, display_name, latitude, longitude, variable_cost, daily_max_capacity, schedule_time)\n"

  const Instructions :=
    "\nYou are an expert SQL generator. Given a question and the following table schema, "
    + "write a safe SQL SELECT query (PostgreSQL dialect) that answers the question. "
    + "Only use the tables and columns provided. Do not use DROP, DELETE, UPDATE, or INSERT. "
    + "Only generate the SQL query, nothing else.\n\nSchema:\n"

  /** Everything in the prompt before the question. */
  const Preamble := Instructions + TableSchema + "\n\nQuestion: "

  const Closing := "\nSQL:\n"

  /** The prompt sent to the model: fixed text with the question in one place. */
  function Prompt(question: string): (p: string)
    ensures |p| == |Preamble| + |question| + |Closing|
    ensures p[..|Preamble|] == Preamble
    ensures p[|Preamble|..|Preamble| + |question|] == question
    ensures p[|Preamble| + |question|..] == Closing
  {
    Preamble + question + Closing
  }

  /** Different questions give different prompts: the question can be read back. */
  lemma PromptInjective(q1: string, q2: string)
    requires Prompt(q1) == Prompt(q2)
    ensures q1 == q2
  {
    assert |q1| == |q2|;
  }

  /** The whole request: ask the model, extract the statement, run it. */
  function NlToSqlAndExecute<V>(question: string, model: string -> Response,
                                database: string -> DbOutcome<V>): (r: ExecutionResult<V>)
    requires Answerable(model(Prompt(question)))
    ensures r.sql == ExtractSql(AskLlm(model(Prompt(question))))
    ensures Trimmed(r.sql) && SingleSpaced(r.sql)
    ensures r.Status() == "success" <==> database(r.sql).Fetched?
    ensures r == ExecuteSql(r.sql, database(r.sql))
  {
    var raw := AskLlm(model(Prompt(question)));
    var sql := ExtractSql(raw);
    ExecuteSql(sql, database(sql))
  }
}
