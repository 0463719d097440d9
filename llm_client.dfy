/** The part of `ask_llm` that is not network I/O: turning the HTTP status, the decoded
    JSON reply and the raw body into the completion text or a diagnostic string. */
module LlmClient {
  import opened Wrappers
  import opened Text

  /** A decoded JSON value as `response.json()` returns it: dict, list, str, or anything
      else (number, true, false, null). */
  datatype Json =
    | JObject(fields: map<string, Json>)
    | JArray(items: seq<Json>)
    | JString(text: string)
    | JOther

  /** A subscript in `result['candidates'][0]...`. */
  datatype Key = Field(name: string) | Index(i: nat)

  /** The outcome of one subscript that did not raise TypeError: a value, or the KeyError or
      IndexError that `ask_llm` catches. */
  datatype Step = Found(value: Json) | Missing

  /** Python's `v[key]`: None stands for TypeError, which `ask_llm` does not catch. A dict
      indexed by an int raises KeyError (JSON keys are strings); a str indexed by an int
      gives the one-character str. */
  function Subscript(v: Json, key: Key): Option<Step> {
    match (v, key)
    case (JObject(fields), Field(name)) => Some(if name in fields then Found(fields[name]) else Missing)
    case (JObject(_), Index(_)) => Some(Missing)
    case (JArray(items), Index(i)) => Some(if i < |items| then Found(items[i]) else Missing)
    case (JString(t), Index(i)) => Some(if i < |t| then Found(JString([t[i]])) else Missing)
    case _ => None
  }

  /** The next subscript in a chain; an exception stops the chain. */
  function Then(prev: Option<Step>, key: Key): Option<Step> {
    match prev
    case Some(Found(v)) => Subscript(v, key)
    case _ => prev
  }

  /** `result['candidates'][0]['content']['parts'][0]['text']`. The chain ends in a str
      exactly when the reply has the documented shape, and then in that str. */
  function TextPath(result: Json): (r: Option<Step>)
    ensures forall t :: r == Some(Found(JString(t))) ==> DocumentedText(result) == Some(t)
    ensures DocumentedText(result).Some? ==> r == Some(Found(JString(DocumentedText(result).value)))
  {
    var candidates := Subscript(result, Field("candidates"));
    var first := Then(candidates, Index(0));
    var content := Then(first, Field("content"));
    var parts := Then(content, Field("parts"));
    var part := Then(parts, Index(0));
    Then(part, Field("text"))
  }

  /** The reply raises nothing `ask_llm` leaves uncaught: no subscript on a value of the
      wrong type, and `.strip()` is called on a str. */
  predicate Unpackable(result: Json) {
    match TextPath(result)
    case None => false
    case Some(Missing) => true
    case Some(Found(v)) => v.JString?
  }

  /** The reply in the shape the Gemini API documents, read without Python's subscript
      rules: candidates is a non-empty list whose first element's content.parts is a
      non-empty list whose first element has a string "text". */
  function DocumentedText(result: Json): Option<string> {
    if result.JObject? && "candidates" in result.fields then
      var cs := result.fields["candidates"];
      if cs.JArray? && |cs.items| > 0 && cs.items[0].JObject? && "content" in cs.items[0].fields then
        var content := cs.items[0].fields["content"];
        if content.JObject? && "parts" in content.fields then
          var ps := content.fields["parts"];
          if ps.JArray? && |ps.items| > 0 && ps.items[0].JObject? && "text" in ps.items[0].fields then
            var t := ps.items[0].fields["text"];
            if t.JString? then Some(t.text) else None
          else None
        else None
      else None
    else None
  }

  /** On a reply that raises nothing uncaught, Python's subscript chain finds text exactly
      when the reply has the documented shape, and finds the same text. */
  lemma TextPathDocumented(result: Json)
    requires Unpackable(result)
    ensures TextPath(result).value.Found? <==> DocumentedText(result).Some?
    ensures DocumentedText(result).Some? ==> TextPath(result).value == Found(JString(DocumentedText(result).value))
  {
  }

  const UnexpectedFormat := "Received an unexpected response format from Gemini API."

  /** The reply to the POST, as far as `ask_llm` reads it. */
  datatype Response = Response(status: int, json: Json, body: string)

  /** `response.json()` is only called on status 200, so only then must the reply unpack. */
  predicate Answerable(response: Response) {
    response.status == 200 ==> Unpackable(response.json)
  }

  const FailurePrefix := "Request failed with status code "

  /** The diagnostic for a status other than 200: the fixed prefix, `str(status)`, ": " and
      the body; the code between the prefix and ": " is a decimal numeral with no leading
      zero that reads back as the status. */
  function FailureMessage(status: int, body: string): (m: string)
    ensures |m| >= |FailurePrefix| + 3 + |body|
    ensures m[..|FailurePrefix|] == FailurePrefix && m[|m| - |body|..] == body
    ensures m[|m| - |body| - 2..|m| - |body|] == ": "
    ensures status >= 0 ==>
      var code := m[|FailurePrefix|..|m| - |body| - 2];
      |code| >= 1 && (code[0] == '0' ==> code == "0")
      && (forall i :: 0 <= i < |code| ==> IsDigit(code[i])) && DecimalValue(code) == status
  {
    var code := IntToDecimal(status);
    var m := FailurePrefix + code + ": " + body;
    assert m[..|FailurePrefix|] == FailurePrefix;
    assert m[|m| - |body|..] == body;
    assert m[|m| - |body| - 2..|m| - |body|] == ": ";
    assert m[|FailurePrefix|..|m| - |body| - 2] == code;
    m
  }

  /** What `ask_llm` returns for a reply. */
  function AskLlm(response: Response): (r: string)
    requires Answerable(response)
    ensures response.status == 200 && DocumentedText(response.json).Some? ==>
      r == Trim(DocumentedText(response.json).value)
    ensures response.status == 200 && DocumentedText(response.json).None? ==> r == UnexpectedFormat
    ensures response.status != 200 ==> r == FailureMessage(response.status, response.body)
  {
    if response.status == 200 then
      TextPathDocumented(response.json);
      match TextPath(response.json)
      case Some(Found(JString(t))) => Trim(t)
      case _ => UnexpectedFormat
    else
      FailureMessage(response.status, response.body)
  }
}
