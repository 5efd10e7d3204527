# xorm SQL-text layer in Dafny

This project models the part of xorm (a Go ORM) that produces SQL text, and proves properties of that model:

- **Identifier quoting** (`schemas/quote.go`). A `Quoter` is a pair of quote strings, such as `[` `]` for SQL Server or `` ` `` `` ` `` for MySQL.
  - `QuoteTo` scans an identifier left to right. It wraps bare segments in the dialect's quotes, re-quotes segments already wrapped in backticks or in the dialect's own quotes, copies `.` as it is, and passes a space-separated `AS` alias through.
  - `Replace` swaps one quote pair for another.
  - `Trim` strips one layer of quotes.
  - `Join`, `JoinWrite` and `Strings` quote lists of names.
- **SQL filters** (`dialects/filter.go`).
  - `QuoteFilter` turns backticks into the dialect's quotes, alternating prefix and suffix.
  - `SeqFilter` and `convertQuestionMark` number the `?` placeholders outside single-quoted literals (`$1`, `$2`, …).
- **DDL assembly in the base dialect** (`dialects/dialect.go`).
  - `String` and `StringNoPk` render a column definition.
  - `CreateTableSQL` renders a `CREATE TABLE` statement.
  - The index, drop, modify and `FOR UPDATE` builders.
  - The dialect registry, keyed by lower-cased database type.
- **String helpers** (`helpers.go`): `indexNoCase`, `splitNoCase`, `splitNNoCase`, `makeArray` and `indexName`.

## How the model is organised

- `text.dfy`, module `Text`: the parts of Go's `strings` package that the core calls (`ToLower`, `TrimSpace`, `Index`, `Join`, `Split`, `SplitN`), on ASCII text.
- `quote.dfy`, module `Quoting`: `schemas/quote.go`.
- `filter.dfy`, module `Filters`: `dialects/filter.go`.
- `dialect.dfy`, module `Dialects`: `dialects/dialect.go`.
- `helpers.dfy`, module `Helpers`: `helpers.go`.

Strings are `seq<char>`, with one character per byte, so the byte indexing in the Go code becomes sequence indexing. The Go code works by repeated writes to a `strings.Builder`. Each such routine is therefore a Dafny `method` with the same loop, and the builder's text is an in/out string. Each method is proved equal to a recursive specification function:

- `Quoted` for `QuoteTo`;
- `Replaced` for `Replace`;
- `Trimmed` for `Trim`;
- `Joined` for `Join`;
- `FilterQuotes` for `QuoteFilter.Do`;
- `Converted` for `convertQuestionMark`;
- `CreateTable` for `CreateTableSQL`.

The properties are lemmas about these functions. The `QuoteTo` scanner is specified by `Token`, which says what one pass of the loop body consumes and writes, and by `Scan`, which applies `Token` repeatedly. The segment lemmas (`Segment`, `Dotted`, `DottedWrap`) then describe whole inputs: dotted names made of bare, backticked or natively quoted segments, with an optional alias.

The dialect's own callbacks are fields of the `Dialect` datatype: `Quote`, `SQLType`, `AutoIncrStr`, `ShowCreateNull`, `SupportEngine`, `SupportCharset` and `URI().Charset`. `Index.XName` is a function field of `Index`. `Table.ColumnsSeq`/`GetColumn` are a list of names and a map from name to column. The registry is a class whose `map` field `RegisterDialect` updates.

A Go panic is a precondition in the model. This covers:

- indexing `q[0][0]` or `q[1][0]` on an empty quoter side in `Replace` and `QuoteFilter.Do`;
- `quotes[1]` on a short `Quote("")`;
- `s[0]` on an empty name in `JoinWrite`;
- a column name missing from `Table.columns`;
- a negative count in `makeArray` (`make([]string, count)` at helpers.go:162).

The `QuoteTo` preconditions (`Usable`) likewise require both quote strings to be empty or both to be non-empty, because the code reads `q[0][0]` and `q[1][0]` once either is non-empty.

## Model

| member | source | states |
|---|---|---|
| `Quoting.Quoter.IsEmpty` | schemas/quote.go:17-19 | true exactly when both quote strings are empty |
| `Quoting.Reversed` | schemas/quote.go:58-61 | the reversed quoter has prefix and suffix swapped |
| `Quoting.QuoteTo` | schemas/quote.go:154-213 | appends `Quoted(q, value)` to the builder text: the loop over `i`/`lastCh` with its quoted, space/alias and bare branches agrees with the token-by-token specification `Scan` |
| `Quoting.Quote` | schemas/quote.go:21-25 | returns `Quoted(q, s)`, and returns `s` unchanged when the quoter is empty (schemas/quote_test.go:43-46) |
| `Quoting.CopyQuoted` | schemas/quote.go:180-183 | the inner loop copies the segment body up to the closing quote or a space |
| `Quoting.CopyBare` | schemas/quote.go:205-208 | the inner loop copies a bare segment up to `.` or a space |
| `Quoting.CopyAlias` | schemas/quote.go:194-201 | the space loop copies text up to the first non-space after a space that is followed by one more byte and does not start `AS` in any case |
| `Quoting.QuoteQuotedSegment` | schemas/quote.go:169-186 | a segment opened by a backtick or the prefix is written between the dialect's quotes with its body unchanged |
| `Quoting.CopySpaces` | schemas/quote.go:187-201 | the space/alias branch writes exactly what one scanner step specifies |
| `Quoting.QuoteBareSegment` | schemas/quote.go:202-211 | a bare segment is wrapped in the dialect's quotes |
| `Quoting.QuoteBareName` | schemas/quote.go:202-211 | a name with no `.`, space, backtick or prefix character is wrapped exactly once: `prefix + name + suffix` |
| `Quoting.DottedScan` | schemas/quote.go:162-213 | the scanner turns any `.`-separated chain of bare, backticked or natively quoted segments into the chain of wrapped segments, `.` copied verbatim |
| `Quoting.QuoteDotted` | schemas/quote.go:165-186 | each `.`-separated segment of a whole identifier is quoted independently, its content unchanged |
| `Quoting.QuoteDottedText` | schemas/quote.go:165-211 | quoting the text of a segment chain gives the wrapped chain (schemas/quote_test.go:29-35) |
| `Quoting.QuoteAliased` | schemas/quote.go:187-201 | in `name alias` or `name AS alias`, with an alias that does not start with `as` in any case, the gap (including `AS`) is copied unquoted and both names are quoted |
| `Quoting.QuoteAliasedText` | schemas/quote.go:187-201 | the same for a text assembled from a name, a ` ` or ` AS ` gap and an alias not starting with `as` |
| `Quoting.QuoteShortAlias` | schemas/quote.go:187-201 | a one-character tail after a space is copied verbatim, not quoted |
| `Quoting.QuoteToBareVector` | schemas/quote_test.go:23 | `mytable` becomes `[mytable]` |
| `Quoting.QuoteToBacktickVector` | schemas/quote_test.go:24 | `` `mytable` `` becomes `[mytable]` |
| `Quoting.QuoteToNativeVector` | schemas/quote_test.go:25 | `[mytable]` stays `[mytable]` |
| `Quoting.QuoteToDoubleQuotedVector` | schemas/quote_test.go:27 | `"mytable"` becomes `["mytable"]`: double quotes are not the dialect's and are wrapped as part of the name |
| `Quoting.QuoteToDoubleQuotedDottedVector` | schemas/quote_test.go:37 | `"myschema.mytable"` becomes `["myschema].[mytable"]`: the `.` splits the name even inside double quotes |
| `Quoting.QuoteToAliasVector` | schemas/quote_test.go:39 | `` `message_user` AS `sender` `` becomes `[message_user] AS [sender]` |
| `Quoting.Replace` | schemas/quote.go:27-56 | returns `Replaced`: the identity for an empty old quoter, deletion of old quote bytes for an empty new one, the alternating swap otherwise |
| `Quoting.DeleteQuotes` | schemas/quote.go:32-40 | the deleting loop drops every old prefix and suffix byte and keeps the rest in order |
| `Quoting.SwapQuotes` | schemas/quote.go:42-55 | the swapping loop with its `cnt` toggle gives `Requoted` |
| `Quoting.Unquoted` | schemas/quote.go:32-40 | the deleted text is no longer than the input and holds no old quote byte |
| `Quoting.UnquotedFree` | schemas/quote.go:32-40 | text without old quote bytes is left unchanged by deletion |
| `Quoting.RequotedAt` | schemas/quote.go:42-55 | each output byte is the input byte, swapped for prefix or suffix according to the toggle state before it |
| `Quoting.ReplaceShape` | schemas/quote.go:42-55 | with two non-empty quoters the output has the input's length and only old quote bytes change |
| `Quoting.RequotedAlternates` | schemas/quote.go:44-53 | with equal old quotes the k-th one becomes the prefix when an even number precede it and the suffix otherwise |
| `Quoting.InsideCount` | schemas/quote.go:44-53 | the toggle is set exactly when an odd number of quote bytes has been seen |
| `Quoting.ReplaceBacktickVector` | schemas/quote.go:27-56 | `` `a`.`b` `` with backticks replaced by `[` `]` is `[a].[b]` |
| `Quoting.ReverseQuote` | schemas/quote.go:58-61 | quoting with the swapped quoter |
| `Quoting.ReverseQuoteBareName` | schemas/quote.go:58-61 | a bare name is wrapped as `suffix + name + prefix` |
| `Quoting.Trim` | schemas/quote.go:63-81 | returns `Trimmed`: inputs shorter than 2 unchanged, otherwise quote bytes at the ends or next to `.` dropped; never longer than the input |
| `Quoting.KeptShaped` | schemas/quote.go:69-79 | on well-formed quoted text, trimming deletes exactly the quote bytes |
| `Quoting.TrimWrapped` | schemas/quote.go:63-81 | trimming a wrapped dotted name gives the plain dotted name |
| `Quoting.TrimQuoteRoundTrip` | schemas/quote.go:63-81 | `Trim(Quote(a.b…)) == a.b…` for plain dotted identifiers |
| `Quoting.JoinNames` | schemas/quote.go:83-110 | `Join` returns `Joined`: `""` for no names, the single name unchanged, otherwise the trimmed names joined by `sep` |
| `Quoting.JoinItems` | schemas/quote.go:96-108 | one item per name, in order |
| `Quoting.JoinedWraps` | schemas/quote.go:96-108 | with two or more names each is space-trimmed and wrapped, except `*`, which stays bare |
| `Quoting.JoinedAsQuoted` | schemas/quote.go:83-110 | on plain single-byte-quoted names a join item equals `Quote` of the name |
| `Quoting.JoinVector` | schemas/quote_test.go:41 | `Join(["a", " b"], ",")` is `[a],[b]` |
| `Quoting.JoinWrite` | schemas/quote.go:112-144 | appends the written items joined by `sep` to the builder |
| `Quoting.WriteItems` | schemas/quote.go:126-142 | one written item per name, in order |
| `Quoting.JoinWriteAgrees` | schemas/quote.go:83-144 | for names that are non-empty and do not start with a backtick, with two or more names `JoinWrite` writes what `Join` returns; a single name is quoted by `JoinWrite` (`JoinItem`), where `Join` returns it unchanged |
| `Quoting.WriteItemBacktick` | schemas/quote.go:131-141 | a name starting with a backtick is written trimmed but not wrapped |
| `Quoting.Strings` | schemas/quote.go:146-152 | a list of the same length whose i-th element is `Quote(s[i])` |
| `Filters.QuoteFilter.Do` | dialects/filter.go:24-43 | returns `FilterQuotes`: the input for an empty quoter, else the in-place backtick rewrite |
| `Filters.FilterStep` | dialects/filter.go:31-40 | one pass of the in-place loop extends the rewritten prefix by one byte and leaves the rest as it was |
| `Filters.QuoteFilterAlternates` | dialects/filter.go:29-42 | the output has the input's length, non-backtick bytes are unchanged, and the k-th backtick becomes the prefix when k is even and the suffix when odd (dialects/filter_test.go:11-19) |
| `Filters.QuoteFilterIsReplace` | dialects/filter.go:24-43 | the filter is `Replace` from the backtick quoter to the dialect's |
| `Filters.Digits` | dialects/filter.go:56 | the decimal text of a number is non-empty |
| `Filters.DigitsRoundTrip` | dialects/filter.go:56 | the decimal text consists of digits and reads back as the number |
| `Filters.DigitsNoLeadingZero` | dialects/filter.go:56 | no leading zero, and `0` is written `"0"` |
| `Filters.ConvertQuestionMark` | dialects/filter.go:51-67 | the loop with `beginSingleQuote` and `index` returns `Converted(sql, prefix+N, start, outside)` |
| `Filters.ConvertedStep` | dialects/filter.go:53-65 | the conversion of a suffix is one piece followed by the conversion of the rest |
| `Filters.SeqFilter.Do` | dialects/filter.go:69-71 | is `convertQuestionMark(sql, Prefix, Start)` |
| `Filters.ConvertedNoMarks` | dialects/filter.go:51-67 | text with no `?` outside single-quoted literals comes back unchanged; a `?` inside a literal does not count |
| `Filters.OneLiteralUnchanged` | dialects/filter.go:51-67 | text whose only `?` marks sit inside one literal comes back unchanged |
| `Filters.TwoLiteralsUnchanged` | dialects/filter.go:59-64 | the same for two literals that meet (`'…''…'`): the `'` in between closes and reopens the literal |
| `Filters.DoubledQuoteVector` | dialects/filter_test.go:25 | `select '1''?' from issue` comes back unchanged |
| `Filters.BackslashLiteralVector` | dialects/filter_test.go:26 | `select '1\??' from issue` comes back unchanged |
| `Filters.EscapedQuoteVector` | dialects/filter_test.go:28 | `select '1\''?',? from issue` becomes `select '1\''?',$1 from issue`: the backslash escapes nothing |
| `Filters.ConvertedInQuote` | dialects/filter.go:59-64 | inside a literal every character up to the next `'` is copied, `?` included |
| `Filters.ConvertedAppend` | dialects/filter.go:51-67 | converting `a + b` is converting `a`, then `b` from the index and quote state `a` leaves |
| `Filters.ConvertedMark` | dialects/filter.go:54-58 | a `?` outside literals becomes the placeholder for the current index, and numbering resumes at index+1 |
| `Filters.ConvertedLiteral` | dialects/filter.go:60-62 | a `'…'` literal is copied verbatim and leaves the state outside literals |
| `Filters.SeqFilterNumbers` | dialects/filter_test.go:23 | two `?` outside literals are numbered `index` and `index+1` in order |
| `Filters.SeqFilterSkipsLiterals` | dialects/filter_test.go:28 | `?` inside a doubled `'…''…'` literal is untouched, and the next `?` after it is numbered from `index` |
| `Filters.LiteralThenMark` | dialects/filter.go:51-67 | a `?` after one literal becomes the first placeholder; the literal is copied as it is, backslashes included |
| `Filters.BackslashEndVector` | dialects/filter_test.go:27 | `select '1\\',? from issue` becomes `select '1\\',$1 from issue`: a backslash before the closing quote escapes nothing |
| `Filters.DollarNumbers` | dialects/filter_test.go:31 | prefix `$` numbers placeholders `$1`, `$2` |
| `Dialects.String` | dialects/dialect.go:103-128 | returns the column clause with its key part |
| `Dialects.StringNoPk` | dialects/dialect.go:131-149 | returns the column clause without its key part |
| `Dialects.WriteTail` | dialects/dialect.go:115-125 | appends the default clause and the null clause |
| `Dialects.StringNoPkOmitsKey` | dialects/dialect.go:103-149 | `StringNoPk` is `String` with the primary-key segment removed, and the two agree on a non-key column |
| `Dialects.KeyClauseIff` | dialects/dialect.go:108-113 | `PRIMARY KEY ` follows the name and type iff the column is a primary key; never in `StringNoPk` |
| `Dialects.DefaultClauseIff` | dialects/dialect.go:115-117 | `DEFAULT ` follows the key part iff the column has a default |
| `Dialects.NullClauseEnd` | dialects/dialect.go:119-125 | the clause ends with `NULL ` or `NOT NULL ` by nullability when the dialect shows nulls, with nothing more otherwise |
| `Dialects.TableColumns` | dialects/dialect.go:309-310 | the columns in `ColumnsSeq()` order |
| `Dialects.Base.CreateTableSQL` | dialects/dialect.go:294-346 | returns `CreateTable` |
| `Dialects.Base.ColumnLoop` | dialects/dialect.go:309-321 | the column loop appends one entry per column in order |
| `Dialects.Base.WriteColumn` | dialects/dialect.go:310-320 | one pass of the column loop |
| `Dialects.Base.WriteColumns` | dialects/dialect.go:306-330 | the column list, composite key and chopped trailing `, ` |
| `Dialects.Base.WriteOptions` | dialects/dialect.go:333-343 | appends the engine and charset options |
| `Dialects.Base.ColumnsTextLayout` | dialects/dialect.go:309-321 | after the head, the loop writes each column's entry followed by `, `, for tables whose quoted column names start with a non-space character |
| `Dialects.Base.CreateTableLayout` | dialects/dialect.go:294-346 | `CREATE TABLE IF NOT EXISTS ` + quoted name (`table.Name` when the name is empty) + `(` + the entries joined by `, ` + `)` + options; no columns give `()` |
| `Dialects.Base.BodyLayout` | dialects/dialect.go:306-330 | the entries are the column clauses (inline key only with exactly one primary key) followed by `PRIMARY KEY (…)` iff there is more than one, for tables whose quoted column names start with a non-space character |
| `Dialects.Base.EngineIff` | dialects/dialect.go:333-335 | ` ENGINE=` opens the options iff the dialect supports engines and one is given |
| `Dialects.Base.CharsetFallback` | dialects/dialect.go:336-343 | the charset falls back to the connection's, and the clause is omitted when both are empty or unsupported |
| `Dialects.Base.CreateIndexSQL` | dialects/dialect.go:265-277 | the statement starts with `CREATE`, has ` UNIQUE` right after it iff the index is unique, and ends with `)` |
| `Dialects.Base.IndexTarget` | dialects/dialect.go:273-275 | the text after `CREATE [UNIQUE]` starts with ` INDEX ` |
| `Dialects.UniqueAfterCreate` | dialects/dialect.go:270-274 | ` UNIQUE` is found after `CREATE` iff it was written there, since the rest starts with ` INDEX ` |
| `Dialects.WrappedList` | dialects/dialect.go:266-276 | joining the names by `%c,%c` of the closing and opening quote and quoting the whole once quotes every name on its own |
| `Dialects.CreateIndexColumns` | dialects/dialect.go:265-277 | with a dialect that wraps names in quote bytes, the statement ends with `(` + each column quoted on its own, separated by `,` + `)` |
| `Dialects.Base.DropIndexSQL` | dialects/dialect.go:279-288 | a regular index is named by `XName(tableName)`, any other by its name |
| `Dialects.Base.DropTableSQL` | dialects/dialect.go:209-212 | `DROP TABLE IF EXISTS ` followed by the quoted table name |
| `Dialects.Base.ModifyColumnSQL` | dialects/dialect.go:290-292 | `alter table <name> MODIFY COLUMN ` followed by the column clause without its key |
| `Dialects.ModifyColumnHasNoKey` | dialects/dialect.go:290-292 | a modified column is never written with `PRIMARY KEY` |
| `Dialects.Base.ForUpdateSQL` | dialects/dialect.go:348-350 | the query followed by ` FOR UPDATE` |
| `Dialects.Registry.constructor` | dialects/dialect.go:365-367 | the registry starts empty |
| `Dialects.Registry.RegisterDialect` | dialects/dialect.go:370-375 | a nil factory is refused and changes nothing; otherwise it is stored under the lower-cased name |
| `Dialects.Registry.QueryDialect` | dialects/dialect.go:378-383 | the dialect built by the factory under the lower-cased name, or nil |
| `Dialects.QueryIgnoresCase` | dialects/dialect.go:370-383 | names that differ only in ASCII case query the same dialect |
| `Dialects.RegisterThenQuery` | dialects/dialect.go:370-383 | after registering a name, queries for it yield the new factory's dialect (a later registration overrides) and other names are unaffected |
| `Dialects.RefusedAndEmpty` | dialects/dialect.go:365-375 | a nil registration changes nothing, and an empty registry yields nil |
| `Helpers.IndexNoCase` | helpers.go:141-143 | -1 iff `sep` occurs nowhere ignoring ASCII case, otherwise a match position |
| `Helpers.IndexNoCaseNoLater` | helpers.go:141-143 | the case-insensitive position is no later than the exact-case one |
| `Helpers.OccursLower` | helpers.go:141-143 | an exact match is also a case-insensitive one |
| `Helpers.Matched` | helpers.go:150 | the text found at the match has `sep`'s length and equals it ignoring case |
| `Helpers.SplitNoCase` | helpers.go:145-151 | `[s]` when there is no case-insensitive match |
| `Helpers.SplitNoCaseJoin` | helpers.go:150 | the pieces joined by the matched text give `s`, and no piece holds the matched text, so other casings are not split |
| `Helpers.SplitNNoCase` | helpers.go:153-159 | `[s]` when there is no case-insensitive match |
| `Helpers.SplitNNoCaseJoin` | helpers.go:158 | for `n > 0`, at most `n` pieces, which join back to `s` |
| `Helpers.MakeArray` | helpers.go:161-167 | `count` elements, each equal to `elem` |
| `Helpers.IndexName` | helpers.go:186-188 | `IDX_` + table name + `_` + index name |
| `Helpers.IndexNameInjective` | helpers.go:186-188 | different index names of one table give different names |

## Left out

- Unicode: `strings.ToLower`, `strings.TrimSpace` and the case folding in `indexNoCase` are modelled on ASCII only. `convertQuestionMark` ranges over runes; the model reads one character per step, which agrees for valid text because `?` and `'` are single bytes.
- Quoting.JoinWrite: `strings.Builder.WriteString` never fails, so the error returns of `JoinWrite` are not modelled and it always succeeds.
- `b.Grow` capacity hints in `Join`, `JoinWrite` and `QuoteTo` have no effect on the text and are left out.
- Quoting.Replace: the Go code panics when the new quoter has exactly one empty side, and may panic when the old one does (it reads `q[0][0]` for every byte but `q[1][0]` only when a byte needs the comparison); the model requires both sides to be empty or both non-empty instead of modelling the panic.
- Filters.QuoteFilter.Do: panics (dialects/filter.go:29) whenever exactly one side of the quoter is empty, even on empty `sql`; the model requires `Usable` instead of modelling the panic.
- Quoting.QuoteTo: a quoter with one empty side panics in the Go code; the model requires `Usable`. Only the first byte of each quote string is used, as in the code.
- Quoting.QuoteDotted: proved for identifiers built from segments: non-empty bare names without `.`, space, backtick or prefix byte, and backticked or natively quoted bodies without a space or their closing quote. Inputs outside this grammar, such as a quoted body holding a space (`` `a b` ``), an empty segment (`a..b`) or a leading space, are covered only by `Quoted` itself.
- Quoting.QuoteAliased: proved for the segment grammar of `QuoteDotted` on both sides, and only for a gap of exactly one space or ` AS ` with single spaces (`AliasGap`) before an alias that does not start with `as` in any case. Gaps of several spaces (`t  bb`) are covered only by `Quoted` itself. The source's own `AS` test (schemas/quote.go:195) leaves an alias that starts with `as` unquoted, so `t AS ascii` gives `[t] AS ascii`; `Quoted` follows that branch, but no lemma states it.
- Quoting.TrimQuoteRoundTrip: proved for single-byte quoters and plain dotted names only.
- Dialects.Registry.RegisterDialect: a nil factory is an `Option` value here; the Go code panics on it, and the model returns `false` with the map unchanged.
- The `MYSQL` database-type constant is taken to be `"mysql"` (the constant's definition is not part of this model).
- Dialects.Base.CreateTableLayout: proved for tables whose quoted column names start with a non-space character, so that the `TrimSpace` on the running text only trims the final `, `.
- Dialects.Base.ColumnsTextLayout: carries the same restriction on quoted column names (`NamedColumns`), for the same reason.
- Dialects.Base.BodyLayout: carries the same restriction on quoted column names (`NamedColumns`), for the same reason.
- Dialects.Base.CreateIndexSQL: `Dialect.Quote` is abstract, so the statement is stated in terms of it rather than as a concrete quoted text.
- `fmt.Sprintf("%v", index)` in `convertQuestionMark` is modelled as the decimal text of the index (`Decimal`), with a `-` sign for negative values.
- Filters.ConvertQuestionMark: `index` and `SeqFilter.Start` are Go `int`s, which wrap at 2^63; the model's numbers are unbounded, so the two differ only once the numbering passes 2^63 - 1.
- Database access and logging in dialect.go (`HasRecords`, `IsColumnExist`, `LogSQL`, `OpenDialect`, driver registration, `Init`, `SetLogger`) are I/O and are not modelled.
- The reflection and time helpers in helpers.go (`str2PK`, `int64ToInt`, `rValue`, `formatTime` and others) depend on `reflect` and time formatting and are not modelled.
- `SQLType`, `AutoIncrStr`, `ShowCreateNull`, `SupportEngine`, `SupportCharset`, `URI().Charset`, `Quote`, `Index.XName`: their dialect-specific definitions are not part of this model; they are fields.
