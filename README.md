# arXiv search: query composition and result shaping, in Dafny

This project models the pure core of the paper-search service's routes and of
its bulk loader:

- **Filter building** (`Filters`): year and category selectors become one
  filter predicate. No selectors give the universal filter `"*"`. One
  non-empty list gives its tag filter alone. Two give their conjunction, with
  the year filter on the left. Every selector value goes in as its `str()`
  form. The count query keeps that filter, asks for no content and uses
  dialect 2.
- **Selector parameters** (`Selectors`): the listing route's `years` and
  `categories` query strings are split on `,`. Empty pieces are dropped
  before the pieces reach the filter builder.
- **Result assembly** (`Responses`): `process_paper` flattens a document to
  its attribute dict. When the row has a `vector_distance`, it writes
  `similarity_score = 1 - float(vector_distance)` into that same dict.
  `prepare_response` processes the rows in order and passes `total` through.
- **Loader preprocessing** (`Loader`): `preprocess_paper` rewrites every `,`
  in a paper's `categories` string to `|`, in place.
- **Python built-ins** (`PyData`): the values of a record, the exceptions the
  core can raise, a mutable `dict`, and `str()` of an integer and `float()`.

A Python `dict` that the code updates in place is a `Dict` object whose
`items` map the methods reassign. So `ProcessPaper`, `PrepareResponse` and
`PreprocessPaper` are methods with `modifies` clauses. Each one is stated
against a pure function of the old fields: `Processed` or `Preprocessed`.
The same dict may appear in several rows. `PrepareResponse` then processes it
more than once, and `ProcessedIdempotent` shows this changes nothing. A
failing `float()` aborts the response. The rows before the failing one stay
processed and the others stay untouched, as in the source.

The model follows the code on these points:

- Selectors are lists, not sets. Order and duplicates reach the filter as
  given.
- A row is scored when its fields contain the key `vector_distance`. There is
  no separate "row with distance" shape.
- Rows are updated in place, not copied. The response holds the very dicts
  that were passed in.
- No year is validated. `str()` is applied to whatever the request holds, so
  there is no bad-request error for a non-numeric year. An unparsable distance
  does raise, as `float()` does.

## Model

| member | source | states |
|---|---|---|
| `Filters.ToStrs` | backend/arxivsearch/api/routes.py:60-61 | every selector value becomes its `str()` form; length and order are kept |
| `Filters.YearStringsDistinct` | backend/arxivsearch/api/routes.py:60 | two integer years give the same tag string only when they are the same year |
| `Filters.BuildFilterExpression` | backend/arxivsearch/api/routes.py:45-67 | four cases: both lists empty gives `Universal`; only years gives the single `year` tag filter; only categories gives the single `categories` tag filter; both give `And(year, categories)` with years on the left |
| `Filters.BuildFilterMatches` | backend/arxivsearch/api/routes.py:50-67 | a record passes the built filter iff each non-empty selector list admits it; an empty list is no constraint, values of one list are alternatives (OR), and the two fields are combined with AND |
| `Filters.CreateCountQuery` | backend/arxivsearch/api/routes.py:93-108 | the count query carries the given filter, asks for no content and uses dialect 2 |
| `Filters.CountWithoutSelectors` | backend/arxivsearch/api/routes.py:63-64 | the count query of the filter built from no selectors counts every record |
| `Filters.CountNarrows` | backend/arxivsearch/api/routes.py:65-66 | adding the second selector list never raises the count of either one alone |
| `Selectors.Split` | backend/arxivsearch/api/routes.py:137-138 | `s.split(",")` gives at least one piece, and no piece contains the separator |
| `Selectors.JoinSplit` | backend/arxivsearch/api/routes.py:137-138 | joining the pieces of a split with the separator gives back the string |
| `Selectors.SplitJoin` | backend/arxivsearch/api/routes.py:137-138 | splitting the join of separator-free pieces gives back the pieces |
| `Selectors.DropEmpty` | backend/arxivsearch/api/routes.py:137-138 | the filtered list has no empty string; as a multiset it is the input with every empty string removed, so each non-empty piece keeps its count; a list without empties is kept whole |
| `Selectors.DropEmptyAppend` | backend/arxivsearch/api/routes.py:137-138 | filtering a concatenation is concatenating the filtered parts, so the kept pieces stay in their order |
| `Selectors.SelectorValues` | backend/arxivsearch/api/routes.py:137-138 | `[v for v in s.split(",") if v]`: no value is empty and none holds a comma |
| `Selectors.SelectorValuesWellFormed` | backend/arxivsearch/api/routes.py:137-138 | every selector value is non-empty, has no comma, and is a piece of the parameter |
| `Selectors.SelectorValuesEmpty` | backend/arxivsearch/api/routes.py:137-138 | a parameter yields no value iff it is made of commas only, so `""` yields `[]` |
| `Selectors.SelectorValuesOfJoin` | backend/arxivsearch/api/routes.py:137-138 | non-empty comma-free values joined with commas come back unchanged and in order |
| `Selectors.ListingFilter` | backend/arxivsearch/api/routes.py:136-139 | the listing route's filter: every tag value that reaches it is non-empty and comma-free, in either single-list shape or in both sides of the conjunction |
| `Selectors.ListingFilterUniversal` | backend/arxivsearch/api/routes.py:136-139 | the listing route's filter is universal iff both parameters are empty or commas only |
| `Selectors.ListingFilterTags` | backend/arxivsearch/api/routes.py:136-139 | otherwise the filter holds the selector values themselves as tags, in order, in the four-way shape |
| `PyData.IntToString` | backend/arxivsearch/api/routes.py:60 | `str()` of an integer is non-empty, starts with `-` exactly for negatives and ends in a digit |
| `PyData.IntToStringParses` | backend/arxivsearch/api/routes.py:60 | `float(str(i)) == i`: an integer's decimal rendering reads back as that integer |
| `PyData.IntToStringInjective` | backend/arxivsearch/api/routes.py:60 | `str()` renders distinct integers differently |
| `PyData.Float` | backend/arxivsearch/api/routes.py:41 | `float()`: a number passes through; `None` raises TypeError; a string is accepted exactly when it parses, else ValueError |
| `PyData.FloatOfDigitString` | backend/arxivsearch/api/routes.py:41 | `float()` of a one-digit string is that digit |
| `PyData.FractionLiteralParses` | backend/arxivsearch/api/routes.py:41 | `float()` of a string `w.f` with digits on both sides of the point is `w + f / 10^len(f)`, the form a distance such as `"0.25"` takes |
| `Responses.AsDict` | backend/arxivsearch/api/routes.py:38-39 | a plain dict is processed as itself, a document through its attribute dict `__dict__` |
| `Responses.Rows` | backend/arxivsearch/api/routes.py:85-86 | a list of rows is used as it is, a search result through its `docs` |
| `Responses.Processed` | backend/arxivsearch/api/routes.py:38-42 | a row without `vector_distance` is returned with exactly its keys and values; with it, processing fails iff `float()` fails, with that error; on success exactly `similarity_score` is added or overwritten with `1 - distance` and every other field keeps its value |
| `Responses.ProcessedIdempotent` | backend/arxivsearch/api/routes.py:40-41 | processing an already processed row changes nothing |
| `Responses.ScoreComplementsDistance` | backend/arxivsearch/api/routes.py:41 | after processing, distance plus score is 1 |
| `Responses.ScoreAtUnitDistances` | backend/arxivsearch/api/routes.py:41 | distance 0 gives score 1 and distance 1 gives score 0, as a number or as the string the index returns |
| `Responses.NearestFirstScoresDescend` | backend/arxivsearch/api/routes.py:40-41 | rows ordered by ascending distance get non-increasing scores |
| `Responses.ProcessPaper` | backend/arxivsearch/api/routes.py:28-42 | updates the row's own dict to `Processed` of its old fields and returns that dict; when `float()` raises, returns the error and leaves the dict unchanged |
| `Responses.PrepareResponse` | backend/arxivsearch/api/routes.py:70-90 | succeeds iff every row can be processed; then `total` is passed through and paper `k` is row `k`'s dict holding its processed fields; on failure the error is the first failing row's, the rows before it are processed and all others are unchanged |
| `Loader.ReplaceChar` | backend/arxivsearch/myload.py:41 | `replace` keeps the length; each position holding `from` holds `to`, every other character is unchanged |
| `Loader.ReplaceCharRemoves` | backend/arxivsearch/myload.py:41 | after replacing `,` by `|` no `,` is left |
| `Loader.ReplaceCharIdempotent` | backend/arxivsearch/myload.py:41 | replacing twice is replacing once |
| `Loader.Preprocessed` | backend/arxivsearch/myload.py:35-42 | a missing `categories` raises KeyError and a non-string one AttributeError; otherwise the keys are unchanged, every other field keeps its value, and `categories` is the comma-to-pipe rewrite: same length, no comma |
| `Loader.PreprocessedIdempotent` | backend/arxivsearch/myload.py:41-42 | preprocessing twice gives the same record as preprocessing once |
| `Loader.PreprocessedKeepsCategoryNames` | backend/arxivsearch/myload.py:41 | a record whose categories hold no comma is left exactly as it was |
| `Loader.PreprocessPaper` | backend/arxivsearch/myload.py:35-42 | updates the paper's own dict to `Preprocessed` of its old fields and returns that dict; on an error, returns it and leaves the dict unchanged |

## Left out

- The route handlers' I/O is left out, because it is network access and concurrency. This covers connecting to the index, `index.search`, `index.query`, `index.client.hget` and the `asyncio.gather` pairs in `get_papers`, `find_papers_by_paper` and `find_papers_by_text`. Only their selector splitting and their use of the builders are modelled.
- Decoding the stored vector with `np.frombuffer` is left out. It is floating-point work in a foreign library.
- Building the `VectorQuery` and `FilterQuery` objects (return fields, paging, number of results) is left out. Those are library objects whose internals are not part of this model.
- The `Embeddings` provider, built once at import time, is left out. It is an external model-provider wrapper.
- `Filters.CreateCountQuery`: the source passes `str(filter_expression)`, the filter's query-string rendering. The model keeps the predicate tree, because the rendering belongs to the index library.
- `Filters.BuildFilterMatches`: this gives the intended meaning of a filter over records whose tag fields are sets. The index's own tag tokenisation, such as splitting `|`-joined strings, is not modelled.
- `PyData.Float`: the string grammar covers optional ASCII whitespace, a sign, decimal digits with an optional point, and an optional exponent. The model rejects forms Python also accepts: `inf`, `nan`, `infinity`, `_` digit separators, non-ASCII decimal digits (Python reads `"١٢"` as 12.0) and non-ASCII whitespace. Reals are exact, so IEEE rounding and overflow are not modelled.
- Record values are `None`, booleans, numbers and strings. Lists and nested dicts as field values are not modelled.
- A `Document` is modelled by its attribute dict, its `__dict__`. Its `id` and `payload` attributes are ordinary entries of that dict.
- `read_paper_json`, `index.create`, `index.load` (which calls `preprocess_paper` for each paper) and `load_data` with its blanket `except` are left out. They are file and Redis I/O.
- The FastAPI router and its decorators are left out. They are framework plumbing.
