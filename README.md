# Treasury auction row cleaning, in Dafny

`get_security_auctions` in `main.py` fetches Treasury auction rows from the
Fiscal Data API and cleans them before handing them to polars. This project
models that cleaning pass and proves what it does.

The pass walks the decoded JSON rows in order. For each row it walks a fixed,
ordered schema: `issue_date`, `cusip` and `security_term` are string columns,
and `price_per100` and `bid_to_cover_ratio` are float columns.

- A string column is copied verbatim.
- A float column holding the literal `"null"` throws the row away and ends the
  column walk (`row_copy = []; break`).
- Any other float value goes through Python's `float`. A value it rejects
  raises `ValueError` and ends the whole call.
- Looking up a column the row lacks raises `KeyError` and ends the whole call.
- Rows whose `row_copy` is non-empty are appended to `data_clean`.

Files:

- `wrappers.dfy`: module `Wrappers`, the `Option` type used for the parser's result.
- `auctions.dfy`: module `Auctions`. It holds the schema, rows (`map<string, string>`),
  cleaned records (`seq<Cell>`) and the two exceptions as an `Error` value.
  `Walk`/`CleanRow` specify one row and `CleanRows` specifies the whole pass.
  `CleanAuctionRows` is the nested loop itself, written as the source writes it
  and proved equal to `CleanRows`.
- `auction_properties.dfy`: module `AuctionProperties`. It states the pass's
  behaviour without reference to how `Walk` computes it. `StopsAt` names the
  first column that does not let the walk go on. The lemmas cover which rows
  are kept, dropped or abort the pass, the order of the output, the shape of
  each record, the row count, and the short-circuit order of the column checks.

Python's `float` is a parameter, `parse: string -> Option<real>`. `None`
stands for a `ValueError`. Nothing is assumed about which strings it accepts,
so every result holds for any parser.

## Model

| member | source | states |
|---|---|---|
| `Auctions.Walk` | main.py:31-39 | A walk over a column list that keeps the row yields exactly one cell per column. |
| `Auctions.CleanRows` | main.py:28-42 | When the pass finishes, it never outputs more rows than it was given. |
| `Auctions.ErrPersists` | main.py:29-39 | An exception ends the pass. Once a prefix of the rows has failed, the whole pass fails with that same error. |
| `Auctions.CleanAuctionRows` | main.py:28-42 | The nested loop (copy strings, empty and `break` on `"null"`, append non-empty `row_copy`, stop on `KeyError`/`ValueError`) returns exactly `CleanRows` of its input: the same records in the same order, or the same first exception. |
| `AuctionProperties.WalkKept` | main.py:31-39 | A walk keeps the row if and only if every column passes (present, and text or a non-`"null"` value that parses). Cell `i` is then column `i` copied or parsed. |
| `AuctionProperties.WalkStops` | main.py:31-39 | If column `k` is the first that does not pass, the row is dropped when that column is `"null"`. Otherwise the walk aborts with a `KeyError` (column missing) or a `ValueError` (value does not parse). |
| `AuctionProperties.WalkDropped` | main.py:34-37 | A row is dropped if and only if the first column that does not pass is a float column holding `"null"`. |
| `AuctionProperties.WalkAborts` | main.py:31-39 | A walk aborts with `e` if and only if the first column that does not pass is not `"null"` and `e` is that column's `KeyError` or `ValueError`. |
| `AuctionProperties.CleanRowKept` | main.py:21-39 | Under the auction schema, a row is kept if and only if all five columns are present and both floats are non-`"null"` and parse. The kept record is then `[issue_date, cusip, security_term]` verbatim followed by the two parsed numbers. |
| `AuctionProperties.NullPriceDropsRow` | main.py:31-37 | With the three strings present, a `"null"` price drops the row whatever `bid_to_cover_ratio` holds, an unparseable value included, and also when it is missing. |
| `AuctionProperties.BadPriceAborts` | main.py:31-39 | With the three strings present, a non-`"null"` price that does not parse raises `ValueError` for that price, even when `bid_to_cover_ratio` is `"null"` or missing. |
| `AuctionProperties.MissingRatioAborts` | main.py:31-35 | A missing `bid_to_cover_ratio` raises `KeyError` once the walk reaches it, that is, when the price is present, not `"null"` and parses. |
| `AuctionProperties.CleanRowKeptUnlessNull` | main.py:34-42 | A row that does not abort is kept if and only if neither float column is `"null"`. |
| `AuctionProperties.KeptIndices` | main.py:41-42 | The positions of the kept rows are strictly increasing and contain exactly the rows whose walk keeps them. |
| `AuctionProperties.CleanRowsOk` | main.py:28-42 | The pass finishes if and only if no row aborts. Its output is then the kept rows' records in input order: record `j` comes from the `j`-th kept row. |
| `AuctionProperties.CleanRowsErr` | main.py:29-39 | The pass fails with `e` if and only if some row aborts with `e` and no earlier row aborts. |
| `AuctionProperties.DroppedRowsAreNullRows` | main.py:35-42 | When the pass finishes, a row is dropped if and only if a float column is `"null"`. The output length is the input length minus the number of such rows. |
| `AuctionProperties.RecordsHaveSchemaShape` | main.py:21-42 | Every output record has five entries: three strings, then two numbers, in schema order. |
| `AuctionProperties.MissingCusipAborts` | main.py:31-33 | Every row that has `issue_date` but no `cusip` raises `KeyError("cusip")`. String columns are looked up without a default. |
| `AuctionProperties.MissingCusipEndsPass` | main.py:29-33 | The first such row ends the whole pass with `KeyError("cusip")` when no earlier row has raised. |

## Left out

- The HTTP request, the filter and sort parameters, `raise_for_status` and `json.loads` (main.py:10-20): network I/O and library calls. The model starts from the decoded list of rows.
- The polars `DataFrame` construction, `to_datetime` and `set_sorted` (main.py:44-50): library calls. `set_sorted` only marks the column as sorted. The rows keep the server's descending order, so there is no sort to model.
- Floating-point parsing: `float` is the abstract `parse` parameter. Floats are `real`, and IEEE rounding, `nan` and `inf` are not modelled.
- JSON values that are not strings: a row is `map<string, string>`. The model does not cover three cases. A JSON `null` in a float column makes `float(None)` raise `TypeError`. A JSON number in a float column is accepted by `float`, and the row is kept. A non-string in a string column is copied without a check.
- The missing `data` key of the response (a `KeyError` before the loop) belongs to JSON decoding and is not modelled.
- Exceptions are modelled as an `Err` result rather than as control flow. The pass returns the first one raised.
- Plotting and the script entry point (main.py:53-87): presentation only.

## Behaviour of main.py worth knowing

- `main.py` neither caches nor re-sorts. The rows keep the descending issue-date order the request asks for (main.py:16), and `set_sorted` (main.py:47) only marks the column as sorted.
- String columns are not type-checked. They are appended as found (main.py:33).
- A row with `issue_date` but without `cusip` ends the call with `KeyError("cusip")` unless an earlier row has already raised (`MissingCusipEndsPass`).
