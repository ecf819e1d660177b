# Data-Agent-Lite: the SQL sanitiser and the schema grouping, in Dafny

Data-Agent-Lite answers a natural-language question over HTTP. It reads the
database catalog, asks a hosted language model for a PostgreSQL statement,
cleans the returned text, runs it and asks the model to explain the rows. Most
of this is I/O. This project models the two pieces of the pipeline that hold
logic of their own.

- **The SQL sanitiser** (`clean_sql`, module `Sanitizer` in `sanitizer.dfy`).
  The model's text goes through a regular-expression substitution that deletes
  every `` ```sql `` and every `` ``` ``, and then through `str.strip()`.
  - The substitution is modelled as the scan the regular-expression engine
    performs. It runs left to right with no overlapping matches. At each
    position it tries `` ```sql `` before `` ``` ``, and the match is
    case-sensitive. A match is deleted and the scan resumes after it. Any other
    character is kept.
  - `strip()` removes, from both ends, the characters for which Python's
    `str.isspace` holds. The model lists them in full: ASCII 9 to 13, 28 to 32,
    U+0085, U+00A0, U+1680, U+2000 to U+200A, U+2028, U+2029, U+202F, U+205F
    and U+3000.
- **The schema grouping** (`get_schema_info`, module `SchemaInspector` in
  `schema.dfy`). The loop folds the catalog rows `(table_name, column_name,
  data_type)` into a dictionary from table name to a list of
  `(column_name, data_type)` pairs, using `setdefault(...).append(...)`.
  - The dictionary is a value `Dict` with two parts: the map, and its keys in
    insertion order. Python dictionaries keep that order, and it shows when the
    schema is written into the prompt.
  - `GetSchemaInfo` is a method with a `while` loop. Its invariant says that
    after `i` rows the dictionary equals `Group(rows[..i])`, the pure fold that
    serves as its specification.
  - The properties are proved against independent reference definitions: the
    set of table names in the rows, the columns of one table filtered from the
    rows, and the index where each table first appears.

## Model

| member | source | states |
|---|---|---|
| `Sanitizer.MatchLength` | app/agent.py:17 | The pattern matches at a position exactly when `` ``` `` starts there. The match is 6 long (the tagged alternative, tried first) or 3 long, and never runs past the end |
| `Sanitizer.RemoveFences` | app/agent.py:17 | The substitution never lengthens the text and deletes a multiple of three characters |
| `Sanitizer.TrimStart` | app/agent.py:17 | The result is a suffix of the input. Everything dropped is whitespace, and the result does not start with whitespace |
| `Sanitizer.TrimEnd` | app/agent.py:17 | The result is a prefix of the input. Everything dropped is whitespace, and the result does not end with whitespace |
| `Sanitizer.Strip` | app/agent.py:17 | `strip()` leaves no whitespace at either end and never lengthens the text |
| `Sanitizer.CleanSql` | app/agent.py:15-17 | The sanitised SQL contains no `` ``` ``, has no leading or trailing whitespace, and is no longer than the raw text |
| `Sanitizer.KeptHead` | app/agent.py:17 | A first character where no match starts is kept, and the scan continues after it |
| `Sanitizer.SqlFenceRemovedWhole` | app/agent.py:17 | `` ```sql `` wins over `` ``` ``: a tagged fence is deleted together with its tag |
| `Sanitizer.BareFenceRemoved` | app/agent.py:17 | A `` ``` `` not followed by `sql` is deleted on its own |
| `Sanitizer.NonBacktickHeadKept` | app/agent.py:17 | A leading character other than a backtick always survives the substitution |
| `Sanitizer.NoFenceAtFront` | app/agent.py:17 | When no match starts at the front, the output does not start with `` ``` `` either |
| `Sanitizer.RemoveFencesLeavesNoFence` | app/agent.py:17 | No `` ``` `` is left after the substitution: every surviving run of backticks is shorter than three |
| `Sanitizer.RemoveFencesFixpoint` | app/agent.py:17 | Text without `` ``` `` passes through the substitution unchanged |
| `Sanitizer.RemoveFencesSubsequence` | app/agent.py:17 | The substitution only deletes: the output is a subsequence of the input |
| `Sanitizer.NoBacktickPrefixKept` | app/agent.py:17 | Text without backticks in front of anything is kept as it is, and the scan of the rest is unaffected |
| `Sanitizer.StripBounds` | app/agent.py:17 | `strip()` keeps one contiguous slice, and only whitespace lies outside it |
| `Sanitizer.StripIdempotent` | app/agent.py:17 | Stripping twice is the same as stripping once |
| `Sanitizer.StripKeepsNoFence` | app/agent.py:17 | Stripping text that has no `` ``` `` cannot create one |
| `Sanitizer.StripSubsequence` | app/agent.py:17 | What `strip()` keeps is a subsequence of its input |
| `Sanitizer.CleanSqlSubsequence` | app/agent.py:15-17 | The sanitised SQL is the raw text with characters deleted, never reordered or added |
| `Sanitizer.CleanSqlWithoutFence` | app/agent.py:15-17 | When the raw text contains no `` ``` ``, the result equals `strip()` of the raw text |
| `Sanitizer.CleanSqlIdempotent` | app/agent.py:15-17 | Sanitising twice gives the same result as sanitising once |
| `Sanitizer.TaggedBlockUnwrapped` | app/agent.py:15-17 | A backtick-free statement wrapped in `` ```sql `` … `` ``` `` comes out as the stripped statement |
| `Sanitizer.OtherTagKept` | app/agent.py:15-17 | After a bare `` ``` ``, any tag other than `sql` stays in the output, and only the fence is removed |
| `Sanitizer.ExampleStrip` | app/agent.py:17 | `"\nSELECT 1;\n"` strips to `"SELECT 1;"` |
| `Sanitizer.ExampleTaggedFence` | app/agent.py:15-17 | `"```sql\nSELECT 1;\n```"` sanitises to `"SELECT 1;"` |
| `Sanitizer.ExampleFiveBackticks` | app/agent.py:15-17 | Five backticks sanitise to two backticks |
| `Sanitizer.ExampleUpperCaseTag` | app/agent.py:15-17 | Matching is case-sensitive: `` ```SQL x `` sanitises to `SQL x` |
| `SchemaInspector.SetDefaultAppend` | app/db.py:23-24 | `setdefault(t, []).append(c)` appends `c` to the list of `t`. A new key goes last in the insertion order. Every other table's list is unchanged, and the dictionary stays well formed |
| `SchemaInspector.Group` | app/db.py:21-24 | The dictionary built from any prefix of the rows is well formed and has no empty list |
| `SchemaInspector.GetSchemaInfo` | app/db.py:21-25 | The loop returns `Group(rows)`. Its keys are exactly the table names in the rows, and each table's list is that table's columns in row order |
| `SchemaInspector.GroupKeys` | app/db.py:21-23 | The key set is exactly the set of table names in the rows, so no rows give the empty dictionary |
| `SchemaInspector.GroupColumns` | app/db.py:22-24 | Each table's list holds its rows' `(column_name, data_type)` pairs in input order, duplicates kept. A table without rows has no entry |
| `SchemaInspector.GroupOrder` | app/db.py:22-23 | Keys are in the order in which their tables first appear in the rows |
| `SchemaInspector.GroupTotal` | app/db.py:22-24 | All lists together hold exactly as many pairs as there are rows, so nothing is lost or duplicated |

## Left out

- `generate_sql` and `process_results_with_gemini` (app/agent.py:19-58) are left out. They are asynchronous HTTP calls to the hosted model with a foreign JSON response shape. Their prompts embed Python's `repr` of the schema and the result, which is library-defined formatting.
- `run_query` (app/agent.py:60-63) is left out. It executes SQL through SQLAlchemy and turns the rows into dictionaries, which is database I/O.
- The catalog query and connection handling in `get_schema_info` (app/db.py:15-20) are left out. Only the rows they return are modelled, as the input `rows`.
- The engine, session and metadata setup (app/db.py:8-11) are left out, as is environment loading, including the API-key URL concatenation (app/agent.py:8-12). Both are configuration.
- The FastAPI endpoint and its request model (app/main.py:6-25) are left out. They are HTTP wiring around a linear sequence of awaited calls.
- Concurrency is left out: requests are handled concurrently with `async`/`await`, and the model covers a single call of each function.
- Strings are sequences of Unicode scalar values. Python strings can also hold lone surrogates, which the model cannot express. None of them is whitespace or a backtick, so no result would change.
- The list that `setdefault` returns is the object stored in the dictionary, and `append` mutates it in place. The model updates the dictionary as a value instead. Nothing else holds a reference to these lists, so no aliasing is lost.
