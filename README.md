# Readlog index-page filter query, in Dafny

Readlog is a small Flask book-log application. Its index page (`index()` in
`src/app.py`) lists the stored books, optionally filtered by five request
arguments: `title`, `author`, `genre`, `year` and `rating`. This project models the
part of that handler that turns the five filter values into the SQL query text and
the list of bound parameters handed to the database, plus the `filters` map echoed
to the template.

The handler strips each value with Python's `str.strip()`. It starts the query text
at `SELECT * FROM library WHERE 1=1` with an empty parameter list. Then, in the fixed
order title, author, genre, year, rating, each value that is non-empty after stripping
appends the constant fragment `AND <column> LIKE ?` to the text and `%<value>%` to the
parameters. Last, it appends `ORDER BY data_read DESC NULLS LAST`.

Files:

- `whitespace.dfy` (module `Whitespace`): `str.strip()` as `Strip`, with its
  characterisation (what is removed, what remains) and idempotence. The whitespace set
  is fixed: the code points for which Python's `str.isspace()` holds (U+0009..U+000D,
  U+001C..U+0020, U+0085, U+00A0, U+1680, U+2000..U+200A, U+2028, U+2029, U+202F,
  U+205F, U+3000). This set is an assumption of the model.
- `index_query.dfy` (module `IndexQuery`): the filters, the constant fragments, the
  specification functions `ExpectedQuery`, `ExpectedParameters` and `EchoedFilters`,
  the imperative `Index` method proved against them, and the lemmas about them.

`Index` follows the handler statement by statement. The query text is a local
string and the parameters a growing sequence. The five `if` blocks are one method,
`AppendFilter`, called once per filter in the handler's order. The method is proved
to produce exactly `ExpectedQuery`, `ExpectedParameters` and `EchoedFilters`. The
lemmas then prove what these say about every request.

The fragments are reproduced as the code writes them, not as one might expect:

- There is no space between `1=1` and the first `AND`, or between fragments, or
  before `ORDER BY`. With no filter, the text is
  `SELECT * FROM library WHERE 1=1ORDER BY data_read DESC NULLS LAST` (`NoFilters`).
- The query names the table `library`, but the schema at `src/app.py:27` creates
  `books`.
- The query orders by `data_read`, but the schema column at `src/app.py:36` is
  `date_read`.

User values reach the database only as bound parameters. They are not escaped for
`LIKE`, so a `%` or `_` in a value widens the match. That cannot change the query
text.

## Model

| member | source | states |
|---|---|---|
| `IndexQuery.Index` | src/app.py:59-90 | The handler's query text, parameter list and echoed map are exactly `ExpectedQuery`, `ExpectedParameters` and `EchoedFilters` of the raw arguments |
| `IndexQuery.AppendFilter` | src/app.py:68-82 | One `if` block takes the text and parameters built from the filters tested so far to those built with one more filter: a fragment and a `%value%` parameter when the value is non-empty, nothing otherwise |
| `IndexQuery.QueryStep` | src/app.py:68-82 | Appending a filter's fragment only when its value is non-empty extends the query text for the filters seen so far to the text for one more filter |
| `IndexQuery.ParameterStep` | src/app.py:68-82 | Appending `%value%` only when the value is non-empty extends the parameters for the filters seen so far to those for one more filter |
| `IndexQuery.EchoedFiltersFrom` | src/app.py:90 | The dict built from the five stripped locals is the echoed map of the raw arguments |
| `IndexQuery.Trimmed` | src/app.py:59-63 | No contract: the five `.strip()` calls; what they do to each filter is stated by `TrimmedSpec` |
| `IndexQuery.TrimmedSpec` | src/app.py:59-63 | Each stripped filter is its raw value with only the whitespace at both ends removed: a contiguous infix, empty exactly when the raw value is empty or all whitespace, otherwise starting and ending with a non-space character |
| `IndexQuery.Fragment` | src/app.py:69-81 | No contract: the five constant `AND <column> LIKE ?` fragments; `FragmentPlaceholder` states that each holds one placeholder |
| `IndexQuery.Conditions` | src/app.py:65-82 | No contract: the initial text followed by the fragments of the given filters; `ConditionsStartWithHead` and `PlaceholdersConditions` state its properties |
| `IndexQuery.ExpectedQuery` | src/app.py:65-84 | No contract: the final query text; `QueryFrame`, `QueryIgnoresValues`, `PlaceholdersMatchParameters`, `BlankFilterIgnored` and `NoFilters` state its properties |
| `IndexQuery.ExpectedParameters` | src/app.py:65-84 | No contract: the final parameter list; `ParametersOfApplied`, `PlaceholdersMatchParameters`, `BlankFilterIgnored` and `NoFilters` state its properties |
| `IndexQuery.EchoedFilters` | src/app.py:90 | No contract: the `filters` map; `EchoedFiltersHoldStripped` states its keys and values |
| `IndexQuery.Wrap` | src/app.py:70 | A parameter is its value with one `%` before and one `%` after, and the value sits unchanged between them |
| `IndexQuery.Active` | src/app.py:68-82 | The filters that add something are those of the tested filters whose value is non-empty, and no others |
| `IndexQuery.Bindings` | src/app.py:68-82 | One parameter per contributing filter, the i-th being `%value%` of the i-th such filter |
| `IndexQuery.AppliedFilters` | src/app.py:59-82 | A filter contributes if and only if its raw value is not empty or all whitespace; contributing filters come in the order title, author, genre, year, rating, each at most once, so at most five |
| `IndexQuery.ParametersOfApplied` | src/app.py:59-82 | There are as many parameters as contributing filters (at most five), in the same order, each being `"%" + stripped value + "%"` |
| `IndexQuery.BlankFilterIgnored` | src/app.py:59-82 | A filter that is empty or all whitespace is not applied, and the query text and parameters are the same as when it is absent |
| `IndexQuery.FragmentPlaceholder` | src/app.py:69-81 | Each filter's fragment holds exactly one `?` placeholder |
| `IndexQuery.PlaceholdersConditions` | src/app.py:65-82 | The text before the ordering holds exactly one placeholder per contributing filter, and the initial text holds none |
| `IndexQuery.PlaceholdersMatchParameters` | src/app.py:65-84 | The number of `?` placeholders in the final query text equals the number of bound parameters |
| `IndexQuery.QueryIgnoresValues` | src/app.py:65-84 | Two requests that leave the same filters blank get the same query text, whatever the filter values hold, so no user character enters the text |
| `IndexQuery.ActiveSamePattern` | src/app.py:68-82 | Which filters contribute depends only on which values are empty |
| `IndexQuery.ConditionsStartWithHead` | src/app.py:65-82 | Appending fragments never changes the initial `SELECT * FROM library WHERE 1=1` prefix |
| `IndexQuery.QueryFrame` | src/app.py:65-84 | The query text always begins with `SELECT * FROM library WHERE 1=1` and ends with `ORDER BY data_read DESC NULLS LAST` |
| `IndexQuery.NoFilters` | src/app.py:65-84 | With all five filters blank, the query is exactly the initial text directly followed by the ordering (`...1=1ORDER BY...`) and the parameter list is empty |
| `IndexQuery.EchoedFiltersHoldStripped` | src/app.py:90 | The echoed map has exactly the five filter names as keys and holds each stripped value under its own name, blank or not |
| `Whitespace.Strip` | src/app.py:59-63 | No contract: `str.strip()`; `StripSpec`, `StripCharacterized` and `StripIdempotent` state its properties |
| `Whitespace.TrimStartSpec` | src/app.py:59-63 | Stripping the left end keeps a suffix that does not start with whitespace, and removes only whitespace |
| `Whitespace.TrimEndSpec` | src/app.py:59-63 | Stripping the right end keeps a prefix that does not end with whitespace, and removes only whitespace |
| `Whitespace.StripSpec` | src/app.py:59-63 | `strip()` keeps a contiguous infix that neither starts nor ends with whitespace, removes only whitespace, and is empty exactly when the value is all whitespace |
| `Whitespace.StripCharacterized` | src/app.py:59-63 | Any cut of whitespace from both ends that leaves no whitespace at either end of the rest is exactly `strip()` |
| `Whitespace.StripIdempotent` | src/app.py:59-63 | Stripping a stripped value changes nothing |

## Left out

- The database connection (`get_database`, `close_database`, Flask's `g`): per-request I/O managed by the framework.
- Schema creation (`init_database`, the `init-database` command) and the `rating BETWEEN 1 AND 5` check: SQL run by SQLite, not code of the handler.
- Running the query and fetching rows (`db.execute(...).fetchall()`): `LIKE` matching and `NULLS LAST` ordering belong to the database engine. The model does not say whether SQLite accepts the text as written.
- Reading `request.args` and `render_template`: Flask plumbing. The five arguments are plain strings (a missing argument is `""`), and the model stops at the values passed to the template.
- The add, edit, delete, lookup-by-ISBN and CSV export operations are not part of this model: they are not among the source files modelled here.
- `Whitespace.Strip`: the whitespace set is fixed as listed above. It matches `str.isspace()` for Python's own whitespace table, not any later Unicode revision.
- Python strings are sequences of code points; `string` here is Dafny's `seq<char>` of Unicode scalar values, so lone surrogates, which Python allows, are not modelled.
