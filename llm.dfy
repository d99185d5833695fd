/**
 Turning a question into SQL: the prompt goes to the language model, and the
 model's answer is read back into a result record
 `{status, sql, error_description, raw_response}`.

 The model call and `json.loads` are parameters: `model` maps the combined
 prompt to the model's answer or to the error the call ended with, and
 `decode` maps a candidate JSON text to the decoded object or to the
 decoder's error message.
 */
module Llm {
  import opened Wrappers
  import opened PyStr
  import opened Prompt
  import opened LlmPatterns

  /** A JSON value as `json.loads` hands it back. */
  datatype Json =
    | JNull
    | JBool(b: bool)
    | JInt(n: int)
    | JFloat(x: real)
    | JString(text: string)
    | JArray(items: seq<Json>)
    | JObject(fields: map<string, Json>)

  /** What `json.loads` does with a candidate: a candidate starts with '{', so a successful decode is an object. */
  datatype Decoding = Decoded(fields: map<string, Json>) | DecodeError(message: string)

  /** What the model call returns: its answer text, or the error it failed with. */
  datatype ModelReply = ModelAnswer(answer: string) | ModelError(error: string)

  datatype Status = Success | Failure

  /** The result record. */
  datatype Translation = Translation(status: Status, sql: string, errorDescription: string, rawResponse: string)

  const NoSqlMessage: string := "LLM couldn't generate SQL query"
  const ParseFailedMessage: string := "Failed to parse model response."
  const ParseFailedPrefix: string := "Failed to parse model response: "
  const UnexpectedPrefix: string := "Unexpected error processing LLM response: "
  const ApiErrorPrefix: string := "LLM API error: "

  function Succeeded(sql: string, raw: string): Translation {
    Translation(Success, sql, "", raw)
  }

  function Failed(error: string, raw: string): Translation {
    Translation(Failure, "", error, raw)
  }

  /** The invariant every result record satisfies: a success carries SQL and no error, a failure an error and no SQL. */
  predicate WellFormed(t: Translation) {
    && (t.status == Success ==> t.sql != "" && t.errorDescription == "")
    && (t.status == Failure ==> t.sql == "" && t.errorDescription != "")
  }

  // ---------------------------------------------------------------------------
  // Field normalisation
  // ---------------------------------------------------------------------------

  /** Python truthiness of a decoded value. */
  predicate Truthy(v: Json) {
    match v
    case JNull => false
    case JBool(b) => b
    case JInt(n) => n != 0
    case JFloat(x) => x != 0.0
    case JString(t) => t != ""
    case JArray(items) => items != []
    case JObject(fields) => fields != map[]
  }

  /** Python's name for the type of a decoded value. */
  function TypeName(v: Json): string {
    match v
    case JNull => "NoneType"
    case JBool(_) => "bool"
    case JInt(_) => "int"
    case JFloat(_) => "float"
    case JString(_) => "str"
    case JArray(_) => "list"
    case JObject(_) => "dict"
  }

  /**
   `value.strip() if value else ""`: a falsy value reads as "", a string is
   stripped, and any other truthy value makes `.strip()` raise, whose message
   is the error.
   */
  function FieldText(v: Json): (r: Result<string, string>)
    ensures r.Err? <==> Truthy(v) && !v.JString?
    ensures r.Ok? ==> Strip(r.value) == r.value
    ensures !Truthy(v) ==> r == Ok("")
    ensures r.Ok? && r.value != "" ==> v.JString? && r.value == Strip(v.text)
    ensures v.JString? ==> r == Ok(Strip(v.text))
  {
    if !Truthy(v) then Ok("")
    else match v
      case JString(t) =>
        StripIdempotent(t);
        Ok(Strip(t))
      case _ => Err("'" + TypeName(v) + "' object has no attribute 'strip'")
  }

  predicate Quoted(t: string) {
    t != [] && t[0] == '"' && t[|t| - 1] == '"'
  }

  /** One outer pair of double quotes comes off, if there is one; the rest is not stripped again. */
  function Unquote(t: string): (r: string)
    ensures Quoted(t) && |t| >= 2 ==> t == "\"" + r + "\""
    ensures Quoted(t) && |t| == 1 ==> r == ""
    ensures !Quoted(t) ==> r == t
  {
    if Quoted(t) then (if |t| == 1 then "" else t[1..|t| - 1]) else t
  }

  /** Quoting and unquoting are inverse: exactly one layer comes off. */
  lemma UnquoteQuoted(x: string)
    ensures Unquote("\"" + x + "\"") == x
  {
    var t := "\"" + x + "\"";
    assert Quoted(t);
    assert t[1..|t| - 1] == x;
  }

  /** A doubly quoted value keeps its inner pair of quotes. */
  lemma UnquoteKeepsInnerLayer(x: string)
    ensures Unquote("\"\"" + x + "\"\"") == "\"" + x + "\""
  {
    assert "\"\"" + x + "\"\"" == "\"" + ("\"" + x + "\"") + "\"";
    UnquoteQuoted("\"" + x + "\"");
  }

  /** Whitespace inside the quotes survives: stripping happens before unquoting and is not repeated. */
  lemma QuotedWhitespaceKept(x: string)
    ensures Unquote(Strip("\"" + x + "\"")) == x
  {
    var t := "\"" + x + "\"";
    assert t[0] == '"' && t[|t| - 1] == '"';
    StripUntrimmed(t);
    UnquoteQuoted(x);
  }

  // ---------------------------------------------------------------------------
  // Decision on a decoded object
  // ---------------------------------------------------------------------------

  /**
   The decision on an object holding both keys: the sql field is stripped and
   unquoted, the error field is stripped, and the result is a success exactly
   when there is SQL and no error. A non-string truthy field ends in the
   unexpected-error failure, the sql field being looked at first.
   */
  function Decide(sqlValue: Json, errorValue: Json, raw: string): (r: Translation)
    ensures WellFormed(r) && r.rawResponse == raw
    ensures FieldText(sqlValue).Err? ==> r == Failed(UnexpectedPrefix + FieldText(sqlValue).error, raw)
    ensures FieldText(sqlValue).Ok? && FieldText(errorValue).Err? ==> r == Failed(UnexpectedPrefix + FieldText(errorValue).error, raw)
  {
    match FieldText(sqlValue)
    case Err(e) => Failed(UnexpectedPrefix + e, raw)
    case Ok(s) =>
      var sql := Unquote(s);
      match FieldText(errorValue)
      case Err(e) => Failed(UnexpectedPrefix + e, raw)
      case Ok(err) =>
        if sql != "" && err == "" then Succeeded(sql, raw)
        else Failed(if err != "" then err else NoSqlMessage, raw)
  }

  /**
   The decision rule once both fields have read as text (a string, or any
   falsy value, which reads as ""): success exactly when the unquoted SQL is
   non-empty and the error is empty, the SQL being carried over; an error,
   when present, is reported even if there is SQL; with neither, the fixed
   "couldn't generate" message.
   */
  lemma DecisionRule(sqlValue: Json, errorValue: Json, raw: string)
    requires FieldText(sqlValue).Ok? && FieldText(errorValue).Ok?
    ensures var sql, err, r := Unquote(FieldText(sqlValue).value), FieldText(errorValue).value, Decide(sqlValue, errorValue, raw);
      && (r.status == Success <==> sql != "" && err == "")
      && (r.status == Success ==> r.sql == sql)
      && (err != "" ==> r == Failed(err, raw))
      && (sql == "" && err == "" ==> r == Failed(NoSqlMessage, raw))
  {
  }

  // ---------------------------------------------------------------------------
  // The precedence chain
  // ---------------------------------------------------------------------------

  /** The keyword fallback over the stripped answer, failing with `failMessage` when no statement is found. */
  function Fallback(text: string, failMessage: string): (r: Translation)
    requires failMessage != ""
    ensures WellFormed(r) && r.rawResponse == text
    ensures r.status == Success <==> KeywordStatement(text).Some?
    ensures r.status == Success ==> r.sql == KeywordStatement(text).value
    ensures r.status == Failure ==> r.errorDescription == failMessage
  {
    match KeywordStatement(text)
    case Some(m) =>
      KeywordStatementShape(text);
      Succeeded(Strip(m), text)
    case None => Failed(failMessage, text)
  }

  /** The object candidate of an answer: the first object-shaped text once the stripped answer is de-fenced. */
  function CandidateOf(answer: string): Option<string> {
    ObjectCandidate(Defence(Strip(answer)))
  }

  /** The decoded object holds both keys the decision needs. */
  predicate HasBothKeys(fields: map<string, Json>) {
    "sql" in fields && "error_description" in fields
  }

  /**
   Reading a model answer: strip it, de-fence it, decode the first object
   candidate and decide on it if it holds both keys; otherwise fall back on
   the first statement in the stripped answer.
   */
  function ParseAnswer(answer: string, decode: string -> Decoding): (r: Translation)
    ensures WellFormed(r)
    ensures r.rawResponse == Strip(answer)
  {
    var text := Strip(answer);
    match ObjectCandidate(Defence(text))
    case None => Fallback(text, ParseFailedMessage)
    case Some(c) =>
      match decode(c)
      case DecodeError(message) => Fallback(text, ParseFailedPrefix + message)
      case Decoded(fields) =>
        if HasBothKeys(fields) then Decide(fields["sql"], fields["error_description"], text)
        else Fallback(text, ParseFailedMessage)
  }

  /** A candidate that decodes to an object with both keys decides the result; the keyword fallback is not consulted. */
  lemma DecodedObjectDecides(answer: string, decode: string -> Decoding)
    requires CandidateOf(answer).Some?
    requires decode(CandidateOf(answer).value).Decoded?
    requires HasBothKeys(decode(CandidateOf(answer).value).fields)
    ensures var fields := decode(CandidateOf(answer).value).fields;
      ParseAnswer(answer, decode) == Decide(fields["sql"], fields["error_description"], Strip(answer))
  {
  }

  /**
   Without a usable candidate (none, or an object missing a key) the result is
   the first statement of the stripped answer, or the fixed parse failure.
   */
  lemma NoObjectFallsBack(answer: string, decode: string -> Decoding)
    requires CandidateOf(answer).None?
      || (decode(CandidateOf(answer).value).Decoded? && !HasBothKeys(decode(CandidateOf(answer).value).fields))
    ensures var r, text := ParseAnswer(answer, decode), Strip(answer);
      && (r.status == Success <==> KeywordStatement(text).Some?)
      && (r.status == Success ==> r.sql == KeywordStatement(text).value)
      && (r.status == Failure ==> r.errorDescription == ParseFailedMessage)
  {
  }

  /** A candidate the decoder rejects falls back too, and a failure carries the decoder's message. */
  lemma DecodeErrorFallsBack(answer: string, decode: string -> Decoding)
    requires CandidateOf(answer).Some? && decode(CandidateOf(answer).value).DecodeError?
    ensures var r, text := ParseAnswer(answer, decode), Strip(answer);
      && (r.status == Success <==> KeywordStatement(text).Some?)
      && (r.status == Success ==> r.sql == KeywordStatement(text).value)
      && (r.status == Failure ==> r.errorDescription == ParseFailedPrefix + decode(CandidateOf(answer).value).message)
  {
  }

  /**
   A model answer without any '{' never reaches the decoder: whatever the
   decoder would do, the result is the statement search's.
   */
  lemma BracelessAnswerFallsBack(answer: string, decode: string -> Decoding)
    requires '{' !in answer
    ensures CandidateOf(answer).None?
    ensures ParseAnswer(answer, decode) == Fallback(Strip(answer), ParseFailedMessage)
  {
    var text := Strip(answer);
    StripKeepsOnlyChars(answer);
    DefenceKeepsOnlyChars(text);
    NoBraceNoCandidate(Defence(text));
  }

  // ---------------------------------------------------------------------------
  // The whole translation
  // ---------------------------------------------------------------------------

  /** The model's reply turned into the result record; a failed call becomes an "LLM API error" failure with no raw response. */
  function TranslateReply(reply: ModelReply, decode: string -> Decoding): (r: Translation)
    ensures WellFormed(r)
    ensures reply.ModelError? ==> r == Failed(ApiErrorPrefix + reply.error, "")
    ensures reply.ModelAnswer? ==> r.rawResponse == Strip(reply.answer)
    ensures reply.ModelAnswer? ==> r == ParseAnswer(reply.answer, decode)
  {
    match reply
    case ModelError(e) => Failed(ApiErrorPrefix + e, "")
    case ModelAnswer(answer) => ParseAnswer(answer, decode)
  }

  /**
   `natural_language_to_sql` outside debug mode: prompt the model with the
   combined prompt and read its reply. What each kind of reply gives is
   stated on `TranslateReply`.
   */
  function NaturalLanguageToSql(userQuery: string, schemaData: string, model: string -> ModelReply, decode: string -> Decoding): (r: Translation)
    ensures WellFormed(r)
    ensures r == TranslateReply(model(PromptFor(userQuery, schemaData)), decode)
  {
    TranslateReply(model(PromptFor(userQuery, schemaData)), decode)
  }
}
