# jot: query construction and write-path decisions

jot is a note-taking command-line tool. `jot <text>` appends a labelled note to a
table of a local SQLite database. `jot show` lists notes and `jot clear` deletes them.
This project models the logic between the parsed flags and the database:

- the SQL text that `show` and `clear` build from their flags;
- the precedence of the `--oldest`/`--recent` flags over the configuration;
- how the write path resolves and creates its table;
- how the write path assembles a note from the arguments and piped text;
- the templates that the CREATE and INSERT statements come from.

The database is opaque. Its answers are parameters of the model: the existence
lookup, the fault of each statement, and the rows a query returns.
`Database.sent` records, in order, every statement a command sends. The
configuration is also a set of parameters. The flag variables that the commands
share and update in place are the fields of `Show.ShowCommand` and
`Clear.ClearCommand`.

Modules:

- `Text`: `strings.Join` and its inverse for one-character separators, `Split`, the `%v` rendering of integers and
  its inverse, and `strings.Replace(s, old, new, 1)`.
- `Notes`: the shared types (`Int64`, `Result`, `JotNote`, `Statement`) and the
  `Database` log.
- `Query`: the filter predicates, their order, the sort directions, the view
  preference and the exact SQL text of both builders.
- `Show`, `Clear`: the two commands.
- `Root`: the write path.

Values are put into the SQL raw, with no quoting, as the code does. A label that
contains a quote therefore changes the statement. The model keeps this.

The model follows the code as written; in particular:

- An empty `--label` on write becomes the literal `"default"`. No configured
  default label is consulted (cmd/root.go:198-201).
- Piped text is appended as `"\n\n" + piped`, with no space after the arguments
  (cmd/root.go:211-214).
- `--after` and `--before` give strict comparisons, `>` and `<`.
- The CREATE statement names the key `id`, while `clear` deletes by `row_id`.
- `isTableExist` tests `err != sql.ErrNoRows` where `==` is evidently meant, so it
  never answers `true`. As a result `checkTableStatus` always sends the CREATE
  statement when writing. For `"read"` and `"clear"` it always fails with
  "Table … does not exist". `show` and `clear` themselves call `EnsureTableExists`,
  which is not part of this model, rather than `checkTableStatus`. The model
  reproduces all of this.

## Model

| member | source | states |
|---|---|---|
| `Query.FiltersInRankOrder` | cmd/show.go:61-86 | the conjuncts come in the fixed order label, after, before, high, low, each kind at most once |
| `Query.FiltersPresence` | cmd/show.go:63-86 | each conjunct is present iff its input is set: label iff it is not `no-label`, after/before iff non-empty, high iff `--high`, low iff `--low` (both may be present); no other conjunct appears |
| `Query.Render` | cmd/show.go:68-85 | the text of each conjunct: `Label = '…'`, `CreatedAt > '…'`, `CreatedAt < '…'` with the raw value, `HighSeverity = 1` and `HighSeverity = 0` (read back by `Query.ParseRender`) |
| `Query.Filters` | cmd/show.go:67-86 | the conjuncts the flags select, in append order (order and presence stated by `Query.FiltersInRankOrder` and `Query.FiltersPresence`) |
| `Query.WhereClause` | cmd/show.go:109-111 | ` WHERE ` and the conjuncts joined by ` AND `, or nothing when there are none (stated by `Query.WhereIffFilters`) |
| `Query.Selection` | cmd/clear.go:109-112 | the WHERE clause, then ` ORDER BY CreatedAt `, the direction, ` LIMIT ` and the count (shared by both queries, stated by `Query.SameSelection` and `Query.LimitReadsBack`) |
| `Query.CollectFilters` | cmd/clear.go:73-91 | the list that both builders accumulate one `append` at a time is exactly the rendering of those conjuncts, in that order |
| `Query.ParseRender` | cmd/show.go:67-86 | each conjunct's text (`Label = '…'`, `CreatedAt > '…'`, `CreatedAt < '…'`, `HighSeverity = 1/0`) reads back as that conjunct, whatever the raw value holds |
| `Query.Directions` | cmd/show.go:88-100 | the fetch order is ASC iff the preference is `oldest` (DESC for `recent` and every other value); the display order is always the opposite one |
| `Query.ViewPreference` | cmd/show.go:138-149 | both flags together are an error; otherwise `--oldest` wins over `--recent`, which wins over the configured preference |
| `Query.FlagDecidesDirection` | cmd/clear.go:143-150 | an explicit flag fixes the sort direction whatever the configuration holds |
| `Query.WhereIffFilters` | cmd/show.go:109-111 | the selection begins with ` WHERE ` iff there is at least one conjunct |
| `Query.LimitReadsBack` | cmd/show.go:112 | the count ends the selection after ` LIMIT `, written verbatim with its sign, and reads back as the same integer |
| `Query.ShowQuery` | cmd/show.go:106-116 | the text show sends: the bounded, filtered fetch in the chosen direction, re-sorted in the opposite direction by an outer query (its properties are stated by `Query.SameSelection`, `Query.WhereIffFilters` and `Query.LimitReadsBack`) |
| `Query.ClearQuery` | cmd/clear.go:107-116 | the text clear sends: a delete of the rows whose `row_id` the bounded, filtered fetch selects (its properties are stated by the same three lemmas) |
| `Query.DeleteRowQuery` | cmd/clear.go:64-67 | the `--row-id` delete starts with `DELETE FROM t WHERE row_id = ` and the rest reads back as the row id, sign included |
| `Query.SameSelection` | cmd/clear.go:107-114 | show and clear embed the same filter/order/limit selection: show wraps it in an outer query ordered the opposite way, clear in `DELETE … WHERE row_id IN ( SELECT row_id FROM t  … );` |
| `Show.ShowCommand.BuildQuery` | cmd/show.go:59-117 | an empty label becomes the configured default and a zero count the configured count, both written back to the flags; the query is the two-stage select over the collected conjuncts |
| `Show.ShowCommand.Run` | cmd/show.go:119-158 | the HOME, open and table errors come first; then both `--oldest` and `--recent` give an error with no statement sent; otherwise exactly the built select is sent, and a query fault is returned as the error |
| `Show.ShowCommand.Fetch` | cmd/show.go:151-184 | after the flags pass: the label and count are defaulted and written back, exactly one select (built for the given preference) is sent, a query fault is the error with nothing shown, and otherwise the rows are displayed up to the first scan failure |
| `Show.DisplayRows` | cmd/show.go:159-184 | every row before the first scan failure is displayed, in order; that failure, if any, is the error |
| `Show.Display` | cmd/show.go:164-182 | what is shown for a scanned row: its label, its content and its severity word |
| `Show.SeverityToken` | cmd/show.go:170-175 | a note is shown as `high` iff its severity flag is set, otherwise as `low` |
| `Show.ShowCommand.constructor` | cmd/show.go:42-57 | the flags start at their registered defaults: empty strings, zero, false |
| `Clear.ClearCommand.BuildQuery` | cmd/clear.go:61-117 | a non-zero row id gives exactly `DELETE FROM t WHERE row_id = id` and defaults nothing; otherwise the label and count are defaulted from clearConfig and written back, and the delete targets the bounded selection |
| `Clear.ClearCommand.Run` | cmd/clear.go:119-163 | the HOME, open and table errors come first; then both order flags give an error with nothing deleted; otherwise exactly the built delete is sent, and its fault is the result |
| `Clear.ClearCommand.constructor` | cmd/clear.go:43-59 | the flags start at their registered defaults, the row id at zero |
| `Root.IsTableExist` | cmd/root.go:92-105 | never answers true; an error is returned iff the lookup found no rows, and it is `sql.ErrNoRows` |
| `Root.MissingTable` | cmd/root.go:149 | the read/clear error text, naming the table |
| `Root.CheckTableStatus` | cmd/root.go:112-154 | an unknown config type fails with `Invalid configType` and sends nothing; an empty name becomes that section's default table; writing sends the lookup and then the CREATE, and returns the name or the CREATE's fault; read and clear send the lookup and fail with an error naming the table |
| `Root.CreateStatement` | cmd/root.go:133-142 | the table name replaces the single `{{tableName}}` of the schema statement, verbatim |
| `Root.InsertStatement` | cmd/root.go:158-162 | the table name replaces the single `{{tableName}}` of the insert statement, verbatim |
| `Text.ReplaceFirstAt` | cmd/root.go:142 | `strings.Replace` with n = 1 replaces only the first occurrence and keeps any later one |
| `Text.ReplaceFirst` | cmd/root.go:142 | with n = 1: the leftmost occurrence of the pattern, and only it, is replaced; a text without the pattern is returned unchanged |
| `Text.FindFirst` | cmd/root.go:162 | the match that is replaced is the leftmost occurrence of the placeholder |
| `Root.SetupError` | cmd/root.go:223-240 | HOME missing, then the database-file error, then the open error, in that order of precedence; no error exactly when all three steps succeed |
| `Notes.OpenError` | cmd/show.go:120-130 | HOME missing comes before the open error; no error exactly when HOME is set and the open succeeds |
| `Root.InsertJotNote` | cmd/root.go:157-167 | one INSERT into the named table with the note as its arguments; its fault is the result |
| `Root.WriteLabel` | cmd/root.go:198-201 | a written note's label is never empty: an empty `--label` becomes `default`, any other is kept |
| `Root.NoteContent` | cmd/root.go:209-214 | the content starts with the arguments joined by single spaces, and is longer than that exactly when there is piped text |
| `Root.NoteContentSplitsAtBlankLine` | cmd/root.go:211-214 | with piped text and no line break in any argument, the first `\n\n` of the content sits right after the joined arguments and everything after it is the piped text, whole |
| `Root.NoteContentKeepsArgs` | cmd/root.go:209 | without piped text, arguments free of spaces are recovered from the content by splitting at spaces |
| `Text.Join` | cmd/root.go:209 | `strings.Join`: the parts with the separator between consecutive ones only (inverted by `Text.SplitJoin`) |
| `Text.Decimal` | cmd/show.go:112 | the `%v` rendering of an integer: its digits with no leading zero, `-` before a negative one (read back by `Text.DecimalRoundTrip`) |
| `Text.SplitJoin` | cmd/root.go:209 | joining with a one-character separator is undone by splitting when no part holds it |
| `Text.DecimalRoundTrip` | cmd/show.go:112 | the `%v` rendering of the count (and of the row id) reads back as the same integer, negatives included |
| `Root.RunCommand` | cmd/root.go:176-256 | with no arguments nothing is sent and no error is returned; the HOME, file and open errors stop it before any statement; otherwise it sends the lookup and the CREATE and, unless the CREATE fails, one INSERT of the note (defaulted label, assembled content, severity flag) |

## Left out

- cmd/stat.go: it only enumerates tables and counts rows. It has no logic beyond database calls and printing.
- SQL semantics: which rows a statement selects, deletes or creates. Statements are recorded as text, and the database's answers are parameters. In particular, a negative LIMIT, a missing row id and a contradictory `--high --low` filter are not interpreted.
- Configuration loading and cobra flag parsing (cmd/root.go:51-70, the `init` functions). The configuration sections are parameters. A missing section, on which `viper.Sub` returns nil, is not modelled.
- `EnsureTableExists`, which show and clear call, is not part of this model. Its answer is a parameter of `Show.ShowCommand.Run` and `Clear.ClearCommand.Run`, and any statements it sends are not recorded.
- Filesystem and environment work. `createDBIfNotExist` and `sql.Open` appear only as their error outcomes. The HOME path, `isInputFromPipe` and `io.ReadAll` are reduced to the piped text as a parameter (`""` when stdin is a terminal; a read error is ignored, as in the code).
- `time.Now()`: `JotNote` has no CreatedAt.
- Printing: the banner, the "Jot Erased" confirmation, the printed error messages and the layout of a displayed note. A displayed note is the record `Shown(Label, Content, Severity)`.
- Show.SeverityToken: the code prints `high` wrapped in red terminal colour codes; the model keeps only the word.
- Go strings are byte sequences. The model uses sequences of characters.
- `cRowID` is a Go `int`. It is modelled as a 64-bit integer (`Int64`), like the int64 count flags.
