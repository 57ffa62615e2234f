# phpClickHouse: statements and queries, modelled in Dafny

This project models two parts of the PHP ClickHouse client.

**The query text** (`src/Query/Query.php`):
- A `Query` refuses SQL that trims to a falsy string.
- Before the SQL is sent, the query settles on exactly one output format. If the SQL already holds a `FORMAT <name>` clause naming one of the sixteen supported formats, that format is adopted. Otherwise the requested format is appended as ` FORMAT <name>`.
- The SQL then runs through the caller's `Degeneration` rewriters, in order.

**The statement** (`src/Statement.php`): one request and its response.
- The response is decoded lazily. The first accessor to run calls `init()`.
- `init()` first calls `check()`. A missing response raises `QueryException`, and so does a transport error. When the transport reported no error, the body is parsed as a ClickHouse error (`Code: N, e.displayText() = DB::Exception: …, e.what…`); a server error raises `DatabaseException` with the server's code.
- `init()` then keeps the body and copies six keys from a decoded JSON body.
- It then takes one of four parsing branches, selected by six case-insensitive format tests:
  - names header (TSV/CSV with names, optionally with types);
  - JSONEachRow;
  - bare CSV/TSV lines;
  - the `data` entry of a JSON body.
- Finally it insists on `meta` unless the format is CSV or TSV.
- The accessors (`count`, `countAll`, `getMeta`, `rows`, `totals`, `extremes*`, `statistics`, `fetchOne`) read what `init()` left.
- `rowsAsTree` nests each row under the values it holds at a key path (`array_to_tree`). It merges the per-row trees with `array_replace_recursive`, and the rows seen first win.

**PHP semantics**
- PHP values are the datatype `PhpValues.Value`: null, bool, int, string, or an ordered array of string-keyed entries. Integer keys are held as their decimal text.
- The PHP built-ins the code relies on are written out in `PhpText` and `PhpValues`: `trim`, `explode`, `stripos`, `str_ireplace`, `isset` (on array keys and on string offsets), `empty` and `array_replace_recursive`.
- The two regular expressions are written by hand as matchers, over ASCII:
  - the `FORMAT\s+<name>` alternation, in `FormatClauses` and `Queries`;
  - the error pattern, in `StatementErrors`.

**Modules**
- `Outcomes`: `Option` and `Result`.
- `PhpText` and `PhpValues`: the PHP built-ins above.
- `FormatClauses`: the generic leftmost-match search for a `FORMAT` clause over a list of names.
- `Queries`: the format list, `applyFormatQuery` and `toSql` as functions, and the class `Query`.
- `StatementErrors`: `parseErrorClickHouse`, `isError`, `error()` and `check()`.
- `StatementDecode`: what `init()` does after `check()`, as functions of the fields and the body.
- `StatementTree`: `array_to_tree` and `rowsAsTree`.
- `Statements`: the class `Statement`, whose methods update its fields in place, and the accessors.

The accessors that call `init()` first are `Count`, `CountAll`, `GetMeta`, `Rows`, `Totals`, `Extremes`, `ExtremesMin`, `ExtremesMax`, `Statistics`, `FetchOne` and `RowsAsTree`. Each of them promises two things:
- It leaves the statement exactly as the pure `init()` effect (`StatementDecode.InitEffect`) describes.
- It returns the field read after that effect, or the exception the effect raised.

`RawData` and `GetFormat` do not call `init()` and leave the statement unchanged. Once the statement is initialised, `RawData` returns the kept body. Before that, it returns the exception `check()` raises, or else the response's body. `GetFormat` returns the request's format.

The helper methods `Assign`, `CopyKeysIn`, `DecodeBranchIn`, `DecodeNamesIn`, `StoreRows`, `DecodeEachRowIn` and `DecodeLinesIn` are the steps of `Init`. Each one promises the fields its pure counterpart in `StatementDecode` computes.

## Model

| member | source | states |
|---|---|---|
| Queries.Query.New | src/Query/Query.php:30-38 | the constructor throws `Empty Query` exactly when the SQL trims to a falsy string; otherwise the SQL and the rewriters are kept and no format is set |
| Queries.EmptyQueryExactly | src/Query/Query.php:32-35 | SQL is rejected as empty if and only if it is made only of trimmable characters, or is `0` with trimmable characters around it |
| Queries.Query.SetFormat | src/Query/Query.php:43-46 | the format becomes the one given; the SQL is unchanged |
| Queries.Query.GetFormat | src/Query/Query.php:83-87 | returns the format currently set |
| Queries.ApplyFormat | src/Query/Query.php:49-78 | when no supported `FORMAT` clause occurs, the SQL gains ` FORMAT <format>` and keeps the format; when one occurs, the SQL is unchanged and, when its white space holds no form feed, the format becomes the name exactly as the SQL writes it |
| Queries.Query.ApplyFormatQuery | src/Query/Query.php:49-78 | without a format nothing changes; with one, the new SQL and format are those `ApplyFormat` gives |
| Queries.AdoptedFound | src/Query/Query.php:60-70 | when the leftmost clause's white space holds no form feed, the adopted format is the text between that white space and the clause's end |
| Queries.AppendedClauseAdopted | src/Query/Query.php:60-70 | after the clause for a listed format is appended, it is the leftmost clause found, and applying the format again changes nothing |
| Queries.AdoptsTrailingName | src/Query/Query.php:60-66 | SQL whose only clause is a trailing ` FORMAT <rest>` adopts the first listed name `rest` starts with, as written, whatever format was requested |
| Queries.ExampleNoWordBoundary | src/Query/Query.php:56-66 | `FORMAT JSONStrings` adopts the format `JSON`, because the pattern does not require a word boundary after the name |
| Queries.ExampleLongerFirst | src/Query/Query.php:55-66 | `FORMAT TSVWithNamesAndTypes` adopts the whole name, because longer alternatives are listed first |
| Queries.NamesDistinguished | src/Query/Query.php:55-57 | no format name is a case-insensitive prefix of a name listed after it |
| Queries.FormatNamesPrefixFree | src/Query/Query.php:55-57 | the list is prefix-free in alternation order, so the alternation never stops at a shorter name when a longer listed one matches |
| Queries.NameFacts | src/Query/Query.php:56-57 | there are sixteen names, each a word of at least three ASCII letters and none containing an f |
| FormatClauses.FindClause | src/Query/Query.php:60-66 | the match found is at the leftmost position where a clause matches; none is found only when no position matches |
| FormatClauses.ClauseAtFrontMatches | src/Query/Query.php:57 | a clause found at a position is the keyword `FORMAT` in any case, the whole run of white space after it (at least one character), and a listed name |
| FormatClauses.NoClauseAtFront | src/Query/Query.php:57 | when no clause is found at a position, no choice of white-space run and listed name matches there |
| FormatClauses.FirstNameFound | src/Query/Query.php:57 | the name chosen at a position occurs there and no name listed before it does; nothing is chosen only when no listed name occurs |
| FormatClauses.FirstNameIs | src/Query/Query.php:57 | a name that occurs at a position with no earlier-listed name occurring there is the one chosen |
| FormatClauses.AdoptedIsWrittenName | src/Query/Query.php:66 | `trim(str_ireplace('format', '', $match))` is the name exactly as the SQL writes it, equal to the listed name ignoring case, when the white space holds no form feed |
| FormatClauses.AdoptedIsNameTail | src/Query/Query.php:66 | the adopted format is what follows the keyword and the white space in the match |
| FormatClauses.ClauseAcross | src/Query/Query.php:60-70 | appending text that starts with a space and an f does not change whether, or which, clause matches at the front of the SQL |
| Queries.RewriteSequential | src/Query/Query.php:95-103 | rewriting by a list of rewriters followed by another list is rewriting by the first, then by the second |
| Queries.RewriteSkipsOthers | src/Query/Query.php:99-101 | entries that are not a `Degeneration` leave the SQL unchanged |
| Queries.ToSqlEffect | src/Query/Query.php:89-106 | without a format, the SQL is only rewritten and no format is set; with one, a format remains set |
| Queries.ToSqlIdempotent | src/Query/Query.php:89-106 | with only non-rewriting entries and a listed format, a second `toSql` leaves the SQL and the format as the first left them |
| Queries.Query.ToSql | src/Query/Query.php:89-106 | the SQL and format afterwards are those `ToSqlEffect` gives for the old ones, through a loop over the rewriters; the result is the new SQL |
| Queries.Query.ToString | src/Query/Query.php:111-114 | `__toString` has the same effect and result as `toSql` |
| StatementErrors.ParseErrorClickHouse | src/Statement.php:130-144 | a match yields a non-empty run of decimal digits as the code |
| StatementErrors.ParseRendered | src/Statement.php:135-141 | a server error text `Code: N, e.displayText() = DB::Exception: M, e.what() = DB::Exception` parses back to N and the whole message M, even when M itself holds `, e.what`, unless M starts with white space |
| StatementErrors.ParseSkips | src/Statement.php:139 | the pattern has no anchor: positions at which no `code: ` starts, in any letter case, are passed over and the search goes on from the next one |
| StatementErrors.NoCodeNoMatch | src/Statement.php:139 | no match starts at a position where `Code: ` does not, in any letter case |
| StatementErrors.AlikeMatchFront | src/Statement.php:139 | the `/i` flag: two texts equal up to ASCII letter case both match or both do not, with the same code and messages equal up to case |
| StatementErrors.ParseFoundAnywhere | src/Statement.php:130-141 | an error written like the rendered one in any letter case, after text holding no `Code: `, parses to the code and to the text at the message's place, which equals the message up to case |
| StatementErrors.LastWhatFound | src/Statement.php:139 | the greedy `(.*)` stops at the last comma that may end the message; no such comma means no match from that header |
| StatementErrors.ErrorOutcome | src/Statement.php:150-175 | an exception is raised exactly when `isError()` holds; a transport error number or message gives `QueryException` with them; otherwise the result is a `DatabaseException` or a `QueryException` |
| StatementErrors.ServerErrorRaised | src/Statement.php:160-164 | a server error body without a transport error raises `DatabaseException` with the server's code and the message followed by `\nIN:` and the SQL |
| StatementErrors.HttpErrorRaised | src/Statement.php:165-168 | an error body that does not parse raises `QueryException` carrying the HTTP code |
| StatementErrors.CheckOutcome | src/Statement.php:186-197 | no response raises `noResponse`; otherwise the outcome is that of `error()`; nothing is raised if and only if there is a response and it is not an error |
| StatementDecode.CopyAll | src/Statement.php:219-225 | each of the six fields takes the body's entry when `isset` holds and keeps its value otherwise; the rows and the raw body are untouched |
| StatementDecode.CopyNothing | src/Statement.php:219-225 | a body that is not an array sets none of the fields |
| StatementDecode.NullFormatTests | src/Statement.php:229-234 | with no format, the `TSVWithNames`, `TSVWithNamesAndTypes` and `TSV` tests hold, because `null.'|'` is `|` |
| StatementDecode.SuffixBeforeBar | src/Statement.php:229-234 | in a `|`-terminated list, every ending of a listed name, in any letter case, followed by `|` is found, since `stripos` is not anchored at the start of a name |
| StatementDecode.NamesSuffixMatches | src/Statement.php:229 | every ending of `TSVWithNames` or `TabSeparatedWithNames`, in any letter case, passes the `TSVWithNames` test |
| StatementDecode.NamesAndTypesSuffixMatches | src/Statement.php:230 | every ending of `TSVWithNamesAndTypes` or `TabSeparatedWithNamesAndTypes` passes the `TSVWithNamesAndTypes` test |
| StatementDecode.TsvSuffixMatches | src/Statement.php:234 | every ending of `TabSeparated` or `TSV`, such as `separated` or `V`, passes the TSV test |
| StatementDecode.NamesEndingMatches | src/Statement.php:229 | the format `Names`, in any letter case, passes the `TSVWithNames` test, because the test is a substring search |
| StatementDecode.JsonFormatTests | src/Statement.php:229-234 | `JSON` passes none of the six tests |
| StatementDecode.CsvFormatTests | src/Statement.php:229-234 | `CSV` passes only the CSV test |
| StatementDecode.CsvWithNamesFormatTests | src/Statement.php:229-234 | `CSVWithNames` passes the CSVWithNames and CSV tests only |
| StatementDecode.JsonEachRowFormatTests | src/Statement.php:229-234 | `JSONEachRow` passes only the JSONEachRow test |
| StatementDecode.ChooseBranch | src/Statement.php:236-272 | the branches are tried in a fixed order: names when a names test holds; otherwise JSONEachRow exactly when its test holds; otherwise bare lines exactly when the CSV or TSV test holds; otherwise `data` exactly when the body sets it |
| StatementDecode.TextOf | src/Statement.php:237 | `trim()` of an array fails and every scalar converts; a string is its own text |
| StatementDecode.NamesHeaderRoundTrip | src/Statement.php:236-250 | a body made of a header of names, joined by a comma for CSVWithNames and by a tab otherwise, and some lines gives those names as meta, those lines as the rows and their number as the count |
| StatementDecode.NamesAndTypesPaired | src/Statement.php:241-248 | with types, column i pairs the i-th name (quotes stripped) with the i-th type (tabs stripped), and the rows start after the second line |
| StatementDecode.TypedColumns | src/Statement.php:244 | `array_map` over names and types pads the shorter list with null, so there are as many columns as the longer list |
| StatementDecode.EachRowDecoded | src/Statement.php:251-260 | JSONEachRow: meta lists the first row's keys in order, every line is a row, the count is the number of lines, and the raw body is dropped |
| StatementDecode.CsvBodyDecoded | src/Statement.php:261-268 | a bare CSV body: every line is a row, no meta is set and none is demanded |
| StatementDecode.LinesCounted | src/Statement.php:236-268 | in the three line branches, the count equals the number of rows stored and the raw body is dropped |
| StatementDecode.JsonBodyDecoded | src/Statement.php:219-278 | a JSON body with meta and data: the keys are copied, the rows are the `data` entry, and nothing is raised |
| StatementDecode.RawDropped | src/Statement.php:211-272 | the raw body is kept if and only if no branch applied or the body was not text; otherwise it is dropped |
| StatementDecode.CheckComesFirst | src/Statement.php:205-209 | a missing or failed response raises before the body is read, and the statement stays uninitialised with its fields unchanged |
| StatementDecode.EmptyBodyExempt | src/Statement.php:211-217 | a falsy body marks the statement initialised, keeps only the raw body, and demands no meta |
| StatementDecode.MissingMetaRaised | src/Statement.php:274-276 | a JSON body without meta raises ``Can`t find meta``, yet the statement counts as initialised with the keys it copied |
| StatementDecode.MetaDemanded | src/Statement.php:274-276 | for every format, a decode that raises nothing leaves meta set unless the CSV or TSV test holds, and ``Can`t find meta`` is raised only with meta empty outside those formats |
| Statements.RetryRaisesAgain | src/Statement.php:203-213 | a failed `check()` leaves the statement as it was, so the next `init()` raises the same exception |
| Statements.MissingMetaOnce | src/Statement.php:213-276 | after ``Can`t find meta`` the statement is initialised, so later accessors do not raise again |
| Statements.Statement.constructor | src/Statement.php:84-90 | the statement keeps the request's format and SQL and starts undecoded, with the fields' declared defaults |
| Statements.Statement.Init | src/Statement.php:203-279 | a second call does nothing; otherwise the result, the initialised flag and all fields become those `InitEffect` describes |
| Statements.Statement.CopyKeysIn | src/Statement.php:219-225 | the loop over the six keys leaves the fields `CopyKeys` describes |
| Statements.Statement.DecodeBranchIn | src/Statement.php:236-272 | the fields and the exception are those of the pure branch `DecodeBranch` |
| Statements.Statement.DecodeNamesIn | src/Statement.php:236-250 | the fields become those `DecodeNames` describes: header columns as meta, the data lines as rows, the raw body dropped |
| Statements.Statement.DecodeEachRowIn | src/Statement.php:251-260 | the fields and the exception are those `DecodeEachRow` describes |
| Statements.Statement.DecodeLinesIn | src/Statement.php:261-268 | every line becomes a row, the count is the number of lines, and the raw body is dropped |
| Statements.Then | src/Statement.php:285-289 | an accessor raises exactly what `init()` raised, and otherwise returns the field |
| Statements.Statement.Count | src/Statement.php:394-398 | runs `init()` as `InitEffect` describes, then returns `rows` or the exception |
| Statements.Statement.CountAll | src/Statement.php:363-367 | runs `init()`, then returns `rows_before_limit_at_least` or the exception |
| Statements.Statement.GetMeta | src/Statement.php:507-511 | runs `init()`, then returns `meta` or the exception |
| Statements.Statement.Rows | src/Statement.php:517-521 | runs `init()`, then returns `array_data` or the exception |
| Statements.Statement.Totals | src/Statement.php:336-340 | runs `init()`, then returns `totals` or the exception |
| Statements.Statement.Extremes | src/Statement.php:285-289 | runs `init()`, then returns `extremes` or the exception |
| Statements.ExtremesPart | src/Statement.php:306-330 | the `min` or `max` entry of extremes when it is set and not empty, and `[]` otherwise |
| Statements.Statement.ExtremesMin | src/Statement.php:306-315 | runs `init()`, then returns the `min` part of extremes or the exception |
| Statements.Statement.ExtremesMax | src/Statement.php:321-330 | runs `init()`, then returns the `max` part of extremes or the exception |
| Statements.StatisticsOf | src/Statement.php:374-388 | a missing or falsy key gives all statistics; otherwise the entry for the key, or null when statistics is not an array or lacks the key |
| Statements.Statement.Statistics | src/Statement.php:374-388 | runs `init()`, then returns `StatisticsOf` the statistics or the exception |
| Statements.FetchOneOf | src/Statement.php:420-437 | null when there is no first row; the first row for a falsy key; otherwise the row's entry for the key, or null; rows or a row that are a string are read at string offsets |
| Statements.FetchOneOfLines | src/Statement.php:420-437 | on the rows a line branch stores, `fetchOne()` is the first line, or null when there is none |
| Statements.FetchOneOfLineOffset | src/Statement.php:424-427 | on the rows a line branch stores, `fetchOne("i")` for i ≥ 1 is the i-th character of the first line, or null past its end |
| Statements.FetchOneOfString | src/Statement.php:424-433 | when the rows are a non-empty string, `fetchOne()` is its first character |
| Statements.FetchOneOfRows | src/Statement.php:424-427 | on decoded JSON rows, `fetchOne($key)` is the first row's entry for the key |
| Statements.Statement.FetchOne | src/Statement.php:420-437 | runs `init()`, then returns `FetchOneOf` the rows or the exception |
| Statements.Statement.RawData | src/Statement.php:404-413 | once initialised, the kept body; before that, the exception `check()` raises or the body read, without initialising |
| Statements.Statement.GetFormat | src/Statement.php:498-501 | returns the request's format without initialising |
| Statements.Statement.RowsAsTree | src/Statement.php:444-455 | runs `init()`, then returns the merged forest of the rows at the path, or the exception `init()` or an illegal offset raised |
| StatementTree.ArrayToTree | src/Statement.php:528-561 | the loop that pops keys from the right gives the tree `TreeOf` describes: the row nested under its level keys, or `[]` for a non-array result |
| StatementTree.TreeOf | src/Statement.php:528-561 | the tree is always an array, and the only failure is an illegal offset |
| StatementTree.NestAroundLast | src/Statement.php:546-556 | popping the last key wraps it innermost, so popping from the right builds the first key outermost |
| StatementTree.RowAtItsPath | src/Statement.php:546-556 | following the row's level keys from the root of its tree reaches the row itself |
| StatementTree.LevelKeyChoice | src/Statement.php:549-555 | a level's key is the row's value for that key when the row sets it (text or integer), the key itself when it does not, and an array value is an illegal offset |
| StatementTree.DottedKeys | src/Statement.php:536-538 | a dotted path whose keys hold no dot uses exactly those keys |
| StatementTree.RowsAsTree | src/Statement.php:444-455 | the loop merging each row's tree with `array_replace_recursive($d, $out)` succeeds exactly when the forest does, and returns it |
| StatementTree.MergeKeys | src/Statement.php:449-452 | the merged forest holds a top-level key if and only if some row's tree does |
| StatementTree.EarlierRowsWin | src/Statement.php:451 | a scalar an earlier row put at a path stays there whatever later rows hold |
| StatementTree.MergeEarlierWin | src/Statement.php:451 | the same, for the merge of any sequence of trees |
| StatementTree.MergeFailsOnward | src/Statement.php:449-452 | once a row raises, the whole merge raises that exception |
| StatementTree.MergeTreesSucceed | src/Statement.php:449-452 | a merge that succeeds had every row's tree succeed |
| StatementTree.ForestWellFormed | src/Statement.php:444-455 | the forest of well-formed rows is a well-formed array with distinct keys at every level |
| PhpValues.ReplaceKeys | src/Statement.php:451 | `array_replace_recursive` holds exactly the keys of both arrays |
| PhpValues.ReplaceOutside | src/Statement.php:451 | a key the replacement lacks is left as the base has it |
| PhpValues.ReplaceInside | src/Statement.php:451 | a key the replacement has takes its value, or the recursive merge when both sides hold arrays |
| PhpValues.ReplaceKeepsOrder | src/Statement.php:451 | the base's keys keep their order at the front of the merge |
| PhpValues.ReplaceKeepsLeaves | src/Statement.php:451 | every scalar the replacement holds at a path is in the merge at that path |
| PhpValues.ReplaceWellFormed | src/Statement.php:451 | merging well-formed arrays gives a well-formed array |
| PhpValues.PutAssigned | src/Statement.php:451 | assigning a key sets it to the value and leaves every other key as it was |
| PhpValues.IntegerStringOfNat | src/Statement.php:426 | the decimal text of a number within 64 bits is read as that number when used as a string offset |
| PhpValues.IntegerStringOfNegative | src/Statement.php:426 | a minus sign before the decimal text gives the negative number |
| PhpValues.NoDigitNoOffset | src/Statement.php:426 | a key holding no digit is no string offset, so `isset` is false |
| PhpValues.OffsetFromStart | src/Statement.php:426-427 | the offset `i` of a string is its i-th character as a one-character string, and nothing past its end |
| PhpValues.OffsetFromEnd | src/Statement.php:426-427 | the offset `-j` counts j characters back from the end |
| PhpText.JoinSplit | src/Statement.php:237 | joining the pieces `explode` gives, with the same separator, gives back the text |
| PhpText.SplitJoin | src/Statement.php:237 | `explode` of pieces joined by a separator they lack gives back the pieces |

## Left out

- The transport is left out. `CurlerRequest` and `CurlerResponse` are replaced by the input record `StatementErrors.Response`. It holds whether a response exists, the HTTP code, the transport error number and message, the body, and `rawDataOrJson`'s result as a decoded value.
- `json_decode` of a JSONEachRow line followed by `array_keys` is the function-valued field `keysOfRow` of a statement. The JSON decoder itself is not modelled.
- `Degeneration::process` is an uninterpreted text function inside `Queries.Rewriter`; the rewriter classes are not part of this model.
- The two regular expressions are modelled over ASCII only. The `/u` flag's Unicode case folding and UTF-8 validation are left out. So is its PCRE2_UCP mode, under which `\s` also matches Unicode white space such as U+00A0 and `\d` also matches Unicode digits such as the Arabic-Indic ones, in both patterns. Letter case is folded for ASCII letters only, as `stripos` and `str_ireplace` do.
- PCRE's `\s` includes the form feed, and `trim()` does not strip it. For `FORMAT` followed by a form feed, the model keeps the adopted format literally, with the form feed. `FormatClauses.AdoptedIsWrittenName` states its result only for white space without a form feed.
- `info()`, `info_upload()`, `responseInfo()` and `totalTimeRequest()` are left out. They only forward transport timings and sizes, which are floating point.
- `dump()` and `dumpRaw()` are left out: they only print.
- `getRequest()` and `sql()` are left out: they return what the constructor stored. The SQL is the field `sql` of `Statements.Statement`.
- In `array_to_tree`, the variadic `func_get_args()` form with more than two arguments is left out. `rowsAsTree` always passes exactly a row and a path, so the path is either an array of keys or exploded on dots. A null path is the dotted path `""`.
- StatementTree.LevelKey treats a row that is a string (as the line formats store) as having no keys. PHP's string offsets, which let `isset($row[$key])` read a single character, are modelled for `fetchOne` (`PhpValues.IssetDim`) but not for `array_to_tree`.
- PhpValues.IntegerString reads a key as an integer offset when it is white space, a sign, digits and white space within 64 bits, as PHP 8 does. An integer key is modelled as its decimal text, and keys of other types do not occur.
- StatementTree.LevelKey models an array used as a key (PHP 8's "Illegal offset type") as the failure `IllegalOffset`. Floats as keys are not modelled, since `Value` has no floats. A boolean key becomes the key "1" or "0" through `PhpValues.KeyOf`, as PHP turns `true` and `false` into the keys 1 and 0.
- StatementDecode.TextOf models `trim()` of a decoded array body in the line branches as the failure `NotText`, matching PHP 8's TypeError. `array_keys` of a JSONEachRow line that does not decode to an array is the failure `NotArray`.
- StatementErrors.ParseRendered requires that the message not start with white space. The pattern's `\s*` before the message would take that white space, so the round trip cannot hold without this condition.
- Queries.ToSqlEffect states only that a format remains set; what the SQL and the adopted format become is stated by `Queries.ApplyFormat` and the `FormatClauses` lemmas.
- The integer code of a `DatabaseException` is the decimal value of the matched digits. PHP's conversion of numeric strings beyond the integer range is not modelled.
- The asynchronous batch runner that drives many statements together is not part of this model. Nor is any other class of the client.
- Statements.RetryRaisesAgain: the statement's `response` is a `const`, fixed for the statement's lifetime. In PHP, the next `init()` raises the same exception only while the transport keeps giving the same answer.
- The format list holds sixteen names, as `src/Query/Query.php:57` lists them.
