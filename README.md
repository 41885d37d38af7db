# SQL-Query-All filter compiler and pagination, in Dafny

This project models the core of the `SQL-Query-All` action of the Fusio SQL adapter
(`src/Action/Query/SqlQueryAll.php`). The action turns a small filter request into SQL.
The request names a column (`filterBy`), an operator (`filterOp`), a value
(`filterValue`) and, for ranges, a second value (`filterValueB`). The action splices a
predicate at every `{filterBy}` marker of the configured SQL and binds the values as
named parameters. It then runs a count query over the filtered statement and fetches one
clamped page of rows. The result is an envelope of `totalResults`, `itemsPerPage`,
`startIndex` and `entry`.

Modules:

- `Text` (text.dfy): `strtolower` as ASCII lowercasing, `ReplaceAll` and `Expand`.
  `ReplaceAll` is the global, case-sensitive replacement of a literal pattern by a fixed
  text, together with its replacement count. `Split` and `Join` give an independent
  description: cut the text at every marker, then glue the pieces back with the predicate.
  `Expand` reads a `preg_replace` replacement string: `$n`, `${n}` and `\n` are back
  references and a backslash escapes `\` and `$`. The pattern `/\{filterBy\}/` has no
  capture groups, so group 0 is the marker and every other group is empty. `preg_replace`
  with its `$count` argument is `ReplaceAll` by the expanded replacement string.
- `Filter` (filter.dfy): the request, the operator table, the gate, `Compile` (the
  outcome for each operator, stated as a table) and `AddFilter`. `AddFilter` is the
  source's own step-by-step procedure: it reassigns the query in each branch and sets
  parameter keys only when the count is positive. It is proved equal to `Compile`.
- `FilterLemmas` (filter_lemmas.dfy): what each operator yields. Also the gate, the
  unreachable `startsWith` label, and the injection argument: a column reaches the SQL
  text only after an exact membership test in the model (see Left out), and values never
  reach it.
- `Pagination` (pagination.dfy): the clamp of start index and page size.
- `QueryAll` (query_all.dfy): the parameter merge, the count statement and `Handle`.
  `Handle` composes the whole request; the SQL parser and the three connection calls
  (`fetchColumn`, `modifyLimitQuery`, `fetchAll`) are function parameters.

Choices:

- A request field the request lacks is `None`. `strtolower(null)` gives `""`, and
  `empty()` holds for a missing field, `""` and `"0"`.
- Membership in `filteringColumns` is exact string equality.

Quirks of the code that the model keeps:

- The code lowercases the column before the allow-list test. An allow-list entry with an
  upper-case letter therefore never matches.
- The marker is matched case-sensitively, since the regular expression has no `i` flag.
- The operator is lowercased, so the `startsWith` case is never taken. A request
  `startsWith` is an unknown operator.
- An unknown operator leaves the query exactly as it was, marker included, because the
  `switch` has no default branch.
- The `present` branch passes its arguments to `preg_replace` out of place (the subject is
  `-1`, the limit is the query). It does not yield the query with `IS NOT NULL`. The model
  gives it the outcome `Broken` with no parameters, and `Handle` stops with a failure.
- `ne`, `gt`, `gte`, `lt` and `lte` bind the value with a trailing `%`, exactly as written.
- The column is concatenated into the replacement string of `preg_replace`, so an
  allow-listed column holding `$0`, `${0}` or `\0` writes the marker back into the query,
  other back references such as `$2` write nothing, and `\\` and `\$` lose their
  backslash. Columns without `$` and `\` reach the query verbatim.
- A filter value with the same name as a parser value overrides it silently; there is no
  conflict check.
- The count statement is `SELECT COUNT(*) AS cnt FROM (` + query + `) res`.

## Model

| member | source | states |
|---|---|---|
| `Text.Lower` | src/Action/Query/SqlQueryAll.php:105-106 | lowercasing keeps the length, leaves no upper-case letter and changes nothing else |
| `Text.JoinSplit` | src/Action/Query/SqlQueryAll.php:41 | cutting a text at every marker and gluing the pieces with the marker gives the text back |
| `Text.SplitMarkerFree` | src/Action/Query/SqlQueryAll.php:41 | no piece between two cuts contains the marker, so every occurrence is cut |
| `Text.ReplaceAllJoin` | src/Action/Query/SqlQueryAll.php:115 | the global replacement equals the pieces glued with the replacement, and its count is the number of markers |
| `Text.CountZeroIff` | src/Action/Query/SqlQueryAll.php:115-118 | the replacement count is zero exactly when the marker does not occur, and then the text is unchanged |
| `Text.SingletonIff` | src/Action/Query/SqlQueryAll.php:116 | the text is cut nowhere exactly when it has no marker |
| `Text.ExpandLiteral` | src/Action/Query/SqlQueryAll.php:189 | a replacement string without `$` and `\` is written literally |
| `Text.ExpandPlainPrefix` | src/Action/Query/SqlQueryAll.php:115 | a prefix of the replacement string without `$` and `\` is copied whatever follows it |
| `Text.ExpandConcat` | src/Action/Query/SqlQueryAll.php:115 | a replacement string is expanded piece by piece when the second piece is literal and starts with a character that ends any reference |
| `Text.JoinDisjointNoOccurrence` | src/Action/Query/SqlQueryAll.php:189 | gluing marker-free pieces with a text that shares no character with the marker creates no marker |
| `Filter.ParseOp` | src/Action/Query/SqlQueryAll.php:113-187 | an operator is selected exactly when the string equals its case label |
| `Filter.ReplaceMarker` | src/Action/Query/SqlQueryAll.php:115 | the `preg_replace` call replaces every marker by the expanded replacement string, reports their number, and reports zero exactly when there is none |
| `Filter.ComparisonLiteral` | src/Action/Query/SqlQueryAll.php:115-180 | every comparison text starts with a space and holds no `$` or `\` |
| `Filter.PredicateText` | src/Action/Query/SqlQueryAll.php:115 | the column part of the replacement string is expanded on its own, and the comparison follows verbatim |
| `Filter.TautologyLiteral` | src/Action/Query/SqlQueryAll.php:189 | the tautology replacement string is written literally |
| `Filter.AddFilter` | src/Action/Query/SqlQueryAll.php:103-195 | the branch-by-branch procedure returns exactly the query and parameters of the operator table `Compile` |
| `FilterLemmas.SubstituteOnlyTouchesMarkers` | src/Action/Query/SqlQueryAll.php:41 | substitution changes only the markers: putting the marker back gives the template, and the count is zero exactly when there is no marker |
| `FilterLemmas.SubstituteWithoutMarker` | src/Action/Query/SqlQueryAll.php:189 | a template without a marker is unchanged by any substitution |
| `FilterLemmas.GateFailure` | src/Action/Query/SqlQueryAll.php:188-190 | when the gate of line 112 fails, every marker becomes ` (1 = 1) `, no marker is left, and nothing is bound |
| `FilterLemmas.ContainsAndEquals` | src/Action/Query/SqlQueryAll.php:114-126 | `contains`/`equals` put the expansion of `<col> LIKE :filterValue` / `<col> = :filterValue` at every marker and bind `%v%` / `v` exactly when a marker exists |
| `FilterLemmas.Inequalities` | src/Action/Query/SqlQueryAll.php:139-172 | `ne`, `gt`, `gte`, `lt`, `lte` put the expansion of `<col> <symbol> :filterValue` at every marker and bind `v%` exactly when a marker exists |
| `FilterLemmas.BetweenWithSecondValue` | src/Action/Query/SqlQueryAll.php:174-182 | `between` with a second value puts the expansion of `<col> BETWEEN :filterValueA AND :filterValueB` at every marker and binds both values exactly when a marker exists |
| `FilterLemmas.BetweenWithoutSecondValue` | src/Action/Query/SqlQueryAll.php:183-185 | `between` without a second value gives the same result as a failed gate |
| `FilterLemmas.PresentBindsNothing` | src/Action/Query/SqlQueryAll.php:135-137 | `present` binds nothing and yields no replaced template |
| `FilterLemmas.StartsWithUnreachable` | src/Action/Query/SqlQueryAll.php:106 | the lowercased operator never selects the `startsWith` label |
| `FilterLemmas.StartsWithSpellingIsUnknown` | src/Action/Query/SqlQueryAll.php:128 | a request operator `startsWith` leaves the query and binds nothing |
| `FilterLemmas.UnknownOperator` | src/Action/Query/SqlQueryAll.php:113 | an operator without a case label leaves the query byte-identical, markers included, with no parameters |
| `FilterLemmas.ValuesNeverInQueryText` | src/Action/Query/SqlQueryAll.php:114-186 | the query text does not depend on the filter values, only on whether they are empty |
| `FilterLemmas.OnlyAllowedColumnReachesQuery` | src/Action/Query/SqlQueryAll.php:112 | the query is the template, the template with the tautology, or the template with the expanded predicate on the lowercased column, and then that column is an element of the allow-list |
| `FilterLemmas.PlainColumnVerbatim` | src/Action/Query/SqlQueryAll.php:115 | a column without `$` and `\` reaches the query verbatim, followed by the comparison |
| `FilterLemmas.ColumnReferencesExpanded` | src/Action/Query/SqlQueryAll.php:115 | a column ending in `$0` or `${0}` writes the marker back, one ending in `$20` loses it, and an escaped `\$0` stays `$0` |
| `FilterLemmas.BindsExactlyWhenMarkerReplaced` | src/Action/Query/SqlQueryAll.php:116-182 | values are bound exactly when the gate passes, the operator binds, `between` has its second value and the template has a marker; only the three filter names are used |
| `FilterLemmas.SubstringColumnRejected` | src/Action/Query/SqlQueryAll.php:112 | the column `ame` does not pass an allow-list holding `name` |
| `FilterLemmas.CompileOneMarker` | src/Action/Query/SqlQueryAll.php:115-182 | on a template with one marker, a passing request yields the text around the marker with the predicate between |
| `FilterLemmas.ExampleContains` | src/Action/Query/SqlQueryAll.php:114-119 | `c contains ann`, for a lower-case column `c` without `$` and `\`, yields `c LIKE :filterValue` and binds `%ann%` |
| `FilterLemmas.ExampleEquals` | src/Action/Query/SqlQueryAll.php:121-126 | `c equals ann` yields `c = :filterValue` and binds `ann` |
| `FilterLemmas.ExampleBetween` | src/Action/Query/SqlQueryAll.php:174-182 | `c between 1 and 9` yields `c BETWEEN :filterValueA AND :filterValueB` and binds `1` and `9` |
| `FilterLemmas.ExampleBetweenWithoutSecond` | src/Action/Query/SqlQueryAll.php:183-185 | `c between 1` without a second value yields ` (1 = 1) ` and binds nothing |
| `Pagination.EffectiveLimit` | src/Action/Query/SqlQueryAll.php:76 | the limit is the configured one when positive, otherwise 16 |
| `Pagination.Clamp` | src/Action/Query/SqlQueryAll.php:72-77 | the start is non-negative and kept when non-negative; the count lies in `[1, limit]` and equals the request exactly when that lies in `[1, limit]`, otherwise it is the limit |
| `Pagination.ClampIdempotent` | src/Action/Query/SqlQueryAll.php:75-77 | clamping a clamped page changes nothing |
| `Pagination.ClampExamples` | src/Action/Query/SqlQueryAll.php:72-77 | (-5, 0, 0) gives (0, 16); (3, 100, 10) gives (3, 10); (3, 5, 10) gives (3, 5) |
| `QueryAll.Merge` | src/Action/Query/SqlQueryAll.php:65-67 | the merged keys are the union, filter values win, other parser values are kept, and an empty filter map leaves the parser's map unchanged |
| `QueryAll.CountQuery` | src/Action/Query/SqlQueryAll.php:79 | the count statement is the fixed prefix, the query and the fixed suffix |
| `QueryAll.CountQueryInjective` | src/Action/Query/SqlQueryAll.php:79 | different queries give different count statements |
| `QueryAll.Handle` | src/Action/Query/SqlQueryAll.php:48-92 | the envelope counts rows of the whole filtered, parsed query with the merged values, carries exactly the clamped page, and holds the rows of the limited query |
| `QueryAll.FilteringOff` | src/Action/Query/SqlQueryAll.php:56-58 | with built-in filtering off the parser gets the configured SQL and the parser's values are used alone |
| `QueryAll.FilterValuesWin` | src/Action/Query/SqlQueryAll.php:65-66 | a value bound by the filter overrides a parser value of the same name |
| `QueryAll.HandlingStopsExactlyOnPresent` | src/Action/Query/SqlQueryAll.php:136 | handling fails exactly when filtering is on, the gate passes and the operator is `present` |

## Left out

- `src/Action/Query/SqlQueryExecute.php` is not part of this model. It prepares and executes one statement through the driver and raises a bad-request error when execution fails; nothing in it can be stated apart from the foreign call.
- `parseSql` and `getConnection` belong to a parent class that is not part of this model. `parseSql` is a function parameter of `Handle`.
- `fetchColumn`, `modifyLimitQuery` and `fetchAll` are database round-trips and appear only as fields of `Connection`. Store errors propagate in the source; the model has no store.
- The `error_log` diagnostics, the form builder `configure`, `getName` and `response->build(200, ...)` are logging, UI and response glue.
- PHP loose comparison: `in_array` without strict mode would also match numeric strings such as `"10"` and `"1e1"`. The model uses exact string equality.
- `empty()` on non-string values and the `(int)`/`(bool)` casts of request and configuration fields are not modelled. Request and configuration values arrive already typed.
- A `null` `filteringColumns` (which makes `in_array` throw) is not modelled; the allow-list is a sequence.
- `array_merge` also renumbers integer keys and keeps insertion order. Parameters are modelled as maps from string names, so positional parameters and ordering are not captured.
- `strtolower` is modelled as ASCII lowercasing of characters. Locale-dependent lowercasing in older PHP versions is not captured.
- `Filter.AddFilter`: `present` is modelled as the opaque outcome `Broken`. This is weaker than the source's behaviour, which depends on the PHP version: a warning and `null` in PHP 7, a type error in PHP 8.
- `QueryAll.Handle`: when the filter outcome is `Broken` the model stops with `FilterQueryBroken`; what PHP 7 would do with a `null` query in `parseSql` is not modelled.
- Determinism (compiling twice gives the same output) holds by construction: `Compile` is a function and `AddFilter` is specified to equal it.
