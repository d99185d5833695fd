# dwh-assistant: question-to-SQL translation and the DBML schema

This project models the two core services of the dwh-assistant. The assistant
turns a question in natural language into an SQL query for a PostgreSQL
warehouse.

- **Translation** (`assistant/app/services/llm.py`):
  - `generate_prompt` builds a system prompt around the DBML schema and a user prompt around the question. The two are joined by a blank line.
  - The model's answer is stripped and its fences are removed: an opening ```` ```json ```` together with the whitespace after it, and any ```` ``` ```` together with the whitespace before it. A ```` ```json ```` that follows whitespace loses only that whitespace and its backticks, so its "json" stays in the text. Single and double backticks (around a column name, say) are kept.
  - The first object-shaped text (one level of nesting allowed) is decoded as JSON. An object that holds both `sql` and `error_description` decides between success and failure.
  - Otherwise the first SQL statement (`SELECT` … `;`, in any letter case) in the answer is taken.
  - The outcome is the record `{status, sql, error_description, raw_response}`.
- **Schema** (`assistant/app/services/database.py`):
  - The connection settings are checked before any query.
  - Every configured table name is validated.
  - The names are quoted into the `IN` list of a catalog query.
  - The rows that come back are rendered as DBML: one `Table … {` block per run of rows of the same table, with each Postgres type mapped to a short DBML name.

Modules:

| file | module | what it holds |
|---|---|---|
| `wrappers.dfy` | `Wrappers` | `Option` and `Result` |
| `pystr.dfy` | `PyStr` | Python's `str.isspace`, `strip`, ASCII `lower`/`isalnum`, `join` |
| `prompt_templates.dfy` | `PromptTemplates` | the fixed texts of the two prompts |
| `prompt.dfy` | `Prompt` | `generate_prompt` and the combined prompt |
| `llm_patterns.dfy` | `LlmPatterns` | the three regular expressions of the answer reader, as functions |
| `llm.dfy` | `Llm` | field normalisation, the decision, the precedence chain, the whole translation |
| `dbml.dfy` | `Dbml` | `map_type`, the runs of rows per table, the DBML renderer loop |
| `database.dfy` | `Database` | the settings check, the name sanitiser loop, the `IN` list, `build_dbml_schema` |

Things outside the model enter as parameters:

- The language model is a function from the combined prompt to an answer or an error.
- `json.loads` is a function from a candidate text to an object or a decoder error message.
- The database is a function from the query text to its rows or an error message.

Where a natural reading of the behaviour and the code differ, the model follows the code:

- A type name that `map_type` does not know comes back lower-cased, not verbatim.
- `raw_response` is the stripped answer.
- Fences are removed wherever they occur in the answer, and a ```` ```json ```` after whitespace (a newline, say) leaves "json" behind.
- An object missing one of the two keys falls through to the statement search, as a non-object answer does.

## Model

| member | source | states |
|---|---|---|
| `PyStr.Strip` | assistant/app/services/llm.py:219 | the stripped answer is no longer than the answer and neither begins nor ends with whitespace |
| `PyStr.StripUnique` | assistant/app/services/llm.py:219 | any cut into leading whitespace, a middle without whitespace at its ends, and trailing whitespace has `strip()` as its middle |
| `PyStr.StripIdempotent` | assistant/app/services/llm.py:232 | stripping twice is stripping once |
| `Prompt.GeneratePrompt` | assistant/app/services/llm.py:106-179 | the system prompt is its fixed head, the schema, and its fixed tail; the user prompt is its fixed head, the question, and its fixed tail |
| `Prompt.RenderInjective` | assistant/app/services/llm.py:122-177 | a filled template determines the value put into it |
| `Prompt.CombinedPrompt` | assistant/app/services/llm.py:203 | the combined prompt is the system prompt, the blank line and the user prompt, each readable back from its place |
| `Prompt.PromptFor` | assistant/app/services/llm.py:202-203 | the prompt sent for a question over a schema is a system prompt rendered around the schema, the blank line, and a user prompt rendered around the question |
| `Prompt.CombinedPromptDetermined` | assistant/app/services/llm.py:203 | two pairs that give the same combined prompt agree on the system prompt exactly when they agree on the user prompt |
| `Prompt.UserPromptInjective` | assistant/app/services/llm.py:163-177 | different questions give different user prompts |
| `Prompt.SystemPromptInjective` | assistant/app/services/llm.py:122-161 | different schemas give different system prompts |
| `Prompt.SameSchemaSameUserPrompt` | assistant/app/services/llm.py:202-203 | for a fixed schema, equal combined prompts come from equal user prompts |
| `Prompt.SameQuestionSameSystemPrompt` | assistant/app/services/llm.py:202-203 | for a fixed question, equal combined prompts come from equal system prompts |
| `Prompt.PromptDeterminesQuestion` | assistant/app/services/llm.py:202-203 | for a fixed schema, the combined prompt determines the question |
| `Prompt.PromptDeterminesSchema` | assistant/app/services/llm.py:202-203 | for a fixed question, the combined prompt determines the schema |
| `LlmPatterns.Defence` | assistant/app/services/llm.py:222 | removing the fences never lengthens the text |
| `LlmPatterns.DefenceBeforeFence` | assistant/app/services/llm.py:222 | before a closing fence, exactly the trailing whitespace and the fence go: what is kept is a prefix that ends in a non-space, followed in the input only by whitespace |
| `LlmPatterns.DefenceAtFence` | assistant/app/services/llm.py:222 | whitespace followed by a closing fence is removed entirely |
| `LlmPatterns.DefenceOpeningFence` | assistant/app/services/llm.py:222 | an opening ```` ```json ```` fence goes together with the whitespace after it |
| `LlmPatterns.DefenceFencedBody` | assistant/app/services/llm.py:222 | a body in which no run of three backticks starts (single and double backticks allowed), wrapped in a json fence and a closing fence, comes out as the stripped body |
| `LlmPatterns.DefenceBare` | assistant/app/services/llm.py:222 | an answer without a run of three backticks comes out unchanged, single and double backticks included |
| `LlmPatterns.DefenceKeepsPlainPrefix` | assistant/app/services/llm.py:222 | text in which no run of three backticks starts, ending in a character that is neither whitespace nor a backtick, is kept as it is, and de-fencing goes on after it unaffected |
| `LlmPatterns.DefenceClosingFence` | assistant/app/services/llm.py:222 | a closing fence that does not begin "```json" is removed, and de-fencing goes on with the text after it |
| `LlmPatterns.DefenceMidFence` | assistant/app/services/llm.py:222 | a fence in mid-answer goes, while the text before it (starting no run of three backticks, ending in a non-space that is not a backtick) stays and the text after it is de-fenced in turn |
| `LlmPatterns.DefenceSpacedFence` | assistant/app/services/llm.py:222 | a non-empty whitespace run and the fence after it are removed together, whatever follows the fence |
| `LlmPatterns.DefenceSpacedJsonFence` | assistant/app/services/llm.py:222 | a ```` ```json ```` after a whitespace run loses the run and its backticks, and "json" stays before the de-fenced rest |
| `LlmPatterns.DefenceKeepsOnlyChars` | assistant/app/services/llm.py:222 | de-fencing only removes characters; it never introduces one |
| `LlmPatterns.NestedEnd` | assistant/app/services/llm.py:225 | the nested alternative matches at a position exactly when an object with one inner object starts there, and its end is unique |
| `LlmPatterns.FlatEnd` | assistant/app/services/llm.py:225 | the flat alternative matches at a position exactly when a brace-free object starts there, and its end is unique |
| `LlmPatterns.ObjectAtMatches` | assistant/app/services/llm.py:224-226 | at one position the pattern matches a nested or a flat object, prefers the nested one, and fails exactly when neither alternative matches |
| `LlmPatterns.FindObject` | assistant/app/services/llm.py:224-226 | the search returns the leftmost position where the pattern matches, and no match when there is none |
| `LlmPatterns.ObjectCandidate` | assistant/app/services/llm.py:227-228 | there is a candidate exactly when the search finds a match, and it is the text of the leftmost match; it begins with '{' and ends with '}' |
| `LlmPatterns.ObjectCandidateExists` | assistant/app/services/llm.py:224-227 | there is no candidate exactly when no brace-free object occurs anywhere in the text |
| `LlmPatterns.NoBraceNoCandidate` | assistant/app/services/llm.py:224-227 | a text without '{' has no candidate |
| `LlmPatterns.SemicolonFrom` | assistant/app/services/llm.py:266 | the lazy `.*?;` ends at the first ';' after the keyword |
| `LlmPatterns.StatementEnd` | assistant/app/services/llm.py:265-269 | at one position, a keyword matching case-insensitively with a later ';' gives a match, and no keyword without one does |
| `LlmPatterns.AtMostOneKeyword` | assistant/app/services/llm.py:266 | at most one of the seven keywords can start at a given position |
| `LlmPatterns.FindStatement` | assistant/app/services/llm.py:265-269 | the statement search returns the leftmost match, and none when no keyword is followed by a ';' |
| `LlmPatterns.StatementSemicolon` | assistant/app/services/llm.py:266 | a match ends in ';' and holds exactly one ';' |
| `LlmPatterns.KeywordStatement` | assistant/app/services/llm.py:265-273 | there is a fallback statement exactly when the statement search from the start finds a match, and it is the text of that match |
| `LlmPatterns.KeywordStatementShape` | assistant/app/services/llm.py:265-273 | the fallback SQL starts with a keyword in any letter case, holds exactly one ';', which is its last character, and is already stripped |
| `Llm.FieldText` | assistant/app/services/llm.py:232-244 | a falsy field reads as ""; a string reads as its stripped text; any other truthy value raises, and that error is reported |
| `Llm.Unquote` | assistant/app/services/llm.py:233-238 | one outer pair of double quotes comes off, and a lone '"' becomes ""; anything else is kept |
| `Llm.UnquoteQuoted` | assistant/app/services/llm.py:233-238 | unquoting undoes quoting |
| `Llm.UnquoteKeepsInnerLayer` | assistant/app/services/llm.py:233-238 | only one layer of quotes comes off |
| `Llm.QuotedWhitespaceKept` | assistant/app/services/llm.py:232-238 | whitespace inside the quotes survives, because the strip comes before the unquote |
| `Llm.Decide` | assistant/app/services/llm.py:231-311 | the record is well formed and carries the answer; a non-string truthy field gives the unexpected-error failure, the sql field being looked at first |
| `Llm.DecisionRule` | assistant/app/services/llm.py:232-263 | for fields that read as text (a string, or any falsy value, which reads as ""): success exactly when the unquoted SQL is non-empty and the error is empty; an error is reported even alongside SQL; with neither, the fixed "couldn't generate" message |
| `Llm.Fallback` | assistant/app/services/llm.py:265-304 | success exactly when the statement search matches, with that statement as the SQL; otherwise a failure with the given message |
| `Llm.ParseAnswer` | assistant/app/services/llm.py:219-311 | every result record is well formed: a success has SQL and no error, a failure an error and no SQL; `raw_response` is the stripped answer |
| `Llm.DecodedObjectDecides` | assistant/app/services/llm.py:227-263 | a candidate that decodes to an object with both keys decides the result, and the statement search is not consulted |
| `Llm.NoObjectFallsBack` | assistant/app/services/llm.py:227-283 | without a candidate, or with an object missing a key, the result is the statement search or "Failed to parse model response." |
| `Llm.DecodeErrorFallsBack` | assistant/app/services/llm.py:285-304 | a candidate the decoder rejects leads to the statement search, and a failure carries the decoder's message |
| `Llm.BracelessAnswerFallsBack` | assistant/app/services/llm.py:219-227 | an answer without '{' never reaches the decoder: for every decoder the result is the statement search on the stripped answer, or the fixed parse failure |
| `Llm.TranslateReply` | assistant/app/services/llm.py:204-219 | a failed model call gives the "LLM API error" failure with an empty raw response; an answer is read by `ParseAnswer`, with its stripped text as the raw response |
| `Llm.NaturalLanguageToSql` | assistant/app/services/llm.py:202-311 | outside debug mode, every outcome is a well-formed record, and it is the model's reply to the combined prompt for the question and schema, read as `TranslateReply` states |
| `Dbml.MapType` | assistant/app/services/database.py:118-139 | the type name is lower-cased and looked up in the table of ten Postgres names; an unknown name comes back lower-cased |
| `Dbml.TypeTableTargets` | assistant/app/services/database.py:120-137 | every DBML name in the table is lower-case and maps to itself if it is a key |
| `Dbml.MapTypeLower` | assistant/app/services/database.py:118-139 | a mapped type is always lower-case |
| `Dbml.MapTypeIdempotent` | assistant/app/services/database.py:118-139 | mapping a mapped type changes nothing |
| `Dbml.MapTypeIgnoresCase` | assistant/app/services/database.py:119 | the letter case of the input does not matter |
| `Dbml.Blocks` | assistant/app/services/database.py:144-153 | there are blocks exactly when there are rows, and the last block belongs to the last row's table |
| `Dbml.BlocksFlatten` | assistant/app/services/database.py:144-155 | the blocks hold all the rows, in order, each once |
| `Dbml.BlocksAreMaximalRuns` | assistant/app/services/database.py:149-153 | every block is a non-empty run of rows of its own table, and neighbouring blocks name different tables |
| `Dbml.BlocksCount` | assistant/app/services/database.py:149-153 | there is one block for every change of table |
| `Dbml.TableReappears` | assistant/app/services/database.py:149-153 | a table that comes back after another table opens a second block: rows are not grouped by table |
| `Dbml.DbmlLines` | assistant/app/services/database.py:141-158 | the lines are empty exactly when there are no rows, and otherwise end with the closing "}" |
| `Dbml.DbmlLinesSameTable` | assistant/app/services/database.py:149-155 | a row of the current table adds one column line before the final "}" |
| `Dbml.DbmlLinesOpenBlock` | assistant/app/services/database.py:149-155 | a row of a new table adds the header, its column line and a "}" |
| `Dbml.RenderDbml` | assistant/app/services/database.py:141-160 | the loop's text is the block-by-block DBML lines of the rows, joined by newlines |
| `Dbml.DbmlCounts` | assistant/app/services/database.py:149-158 | the lines hold as many `Table` headers, and as many closing braces, as there are changes of table |
| `Database.MissingIn` | assistant/app/services/database.py:37 | a setting is reported exactly when it is unset or empty, and settings listed in the fixed order are reported in that order |
| `Database.Missing` | assistant/app/services/database.py:30-41 | a variable is listed exactly when its setting is unset or empty; the names come in the order HOST, PORT, DBNAME, USER, PASSWORD, each at most once |
| `Database.Names` | assistant/app/services/database.py:30-37 | each reported setting is named by its `PG_STUDENT_…` variable, in declaration order |
| `Database.NothingMissing` | assistant/app/services/database.py:37-38 | nothing is missing exactly when all five settings are non-empty |
| `Database.NoneGiven` | assistant/app/services/database.py:37 | with no setting given, every setting is reported in order |
| `Database.AllMissing` | assistant/app/services/database.py:30-41 | an empty environment reports all five variables |
| `Database.ExecuteSqlQuery` | assistant/app/services/database.py:30-62 | with a setting missing, the error lists the missing names joined by ", " and no query runs; otherwise the query's outcome is returned |
| `Database.RemoveChar` | assistant/app/services/database.py:91 | `str.replace(c, "")` keeps exactly the other characters |
| `Database.IsSafeTableName` | assistant/app/services/database.py:91 | a name is accepted exactly when it holds only ASCII letters, digits, '_' and '-', and at least one letter or digit |
| `Database.RejectedNames` | assistant/app/services/database.py:91 | "", "_" and "-_" are rejected |
| `Database.NameWithSpaceRejected` | assistant/app/services/database.py:91 | a name with a space is rejected |
| `Database.NameWithQuoteRejected` | assistant/app/services/database.py:91 | a name with a quote is rejected |
| `Database.SnakeCaseAccepted` | assistant/app/services/database.py:91 | a snake-case name with a digit is accepted |
| `Database.SanitizeTableNames` | assistant/app/services/database.py:89-93 | the list passes exactly when every name is accepted, unchanged and in order; otherwise the error names the first rejected name |
| `Database.QuoteAll` | assistant/app/services/database.py:95-104 | each name is wrapped in single quotes |
| `Database.InListQuotes` | assistant/app/services/database.py:95-104 | `"', '".join` of the names, put between two quotes, is the quoted names joined by ", " |
| `Database.InList` | assistant/app/services/database.py:95-104 | between its outer quotes, the `IN` list is the names, each quoted, in their order, joined by ", " |
| `Database.SafeNameHasNoQuote` | assistant/app/services/database.py:91-104 | an accepted name holds no single quote, so it cannot end the SQL string |
| `Database.InListQuoteCount` | assistant/app/services/database.py:95-104 | for accepted names, the quoted list holds exactly two quotes per name |
| `Database.CatalogQuery` | assistant/app/services/database.py:95-106 | the catalog query is its fixed text with the names, each quoted and in their order, as the `IN (...)` list |
| `Database.SchemaFrom` | assistant/app/services/database.py:108-116 | a failed query raises "Failed to fetch schema: " with its error; no rows give "" |
| `Database.FetchSchema` | assistant/app/services/database.py:108-160 | running the query and rendering its rows gives the schema outcome of the query's result |
| `Database.BuildDbmlSchema` | assistant/app/services/database.py:86-116 | no tables give "" without a query; a rejected name raises before any query, with "Invalid table name: " plus the first rejected name as its message; otherwise exactly the catalog query for the names is issued, and its outcome is rendered |

## Left out

- The call to the language model (`yandex_gpt_query`, with its configuration check and HTTP request) is a parameter. A success reply without an `answer` key is not modelled.
- `json.loads` is a parameter. A decoded candidate is always an object, because every candidate begins with '{'. The decoder's error message is whatever the parameter returns.
- `Llm.ParseAnswer`: the decoder parameter can only fail with a decode error. In the source, any other exception from `json.loads` (a `RecursionError` on deeply nested arrays, which the candidate pattern lets through) skips the statement search and ends in the "Unexpected error processing LLM response" failure. The model does not express that path.
- Python's `lower`, `isalnum` and `re.IGNORECASE` are modelled for ASCII only. Unicode case folding is not modelled, so a statement starting with, for example, a long s in place of 's' is not recognised.
- Debug mode (`llm_debug_answer`) is not modelled. In the source that branch falls through and returns `None`.
- JSON floats are real numbers: NaN and infinities are not modelled.
- `psycopg2` and `pandas` are the database parameter. Not modelled: the integer conversion of the port, the driver's own errors and the closing of cursor and connection. Their error text reaches the model only as the parameter's error message.
- Reading `TABLES` from the environment and decoding it as JSON is left out. The model takes a list of strings; a `TABLES` value that is not a list of strings is not modelled.
- Reading the five settings from the environment is left out. The model takes them as optional strings.
- `Llm.NaturalLanguageToSql`: does not restate the two paths itself; it is tied to `Llm.TranslateReply`, whose contract gives the API-error failure and `ParseAnswer` of the answer. Stating `ParseAnswer` here directly, with the prompt texts in scope, is over the verifier's resource budget.
