# VIN equipment decoder, modelled in Dafny

The repository is a small Flask service with one endpoint, `GET /decode?vin=...`
(`app.py`). It starts a headless Chrome driver and opens the vindecoderz.com lookup
page for the VIN. It finds the equipment table on that page and answers with the
table's rows as a JSON list of `{code, description}` records. Errors come back as
`{"error": ...}` with status 400, 404 or 500.

This project models the handler `decode_vin`:

- `wrappers.dfy`, module `Wrappers`: the `Option` type that stands for Python's `None`.
- `text.dfy`, module `Text`: Python's `str.strip()`, which `get_text(strip=True)`
  applies to a cell's text. It covers the whole whitespace set of `str.isspace()`.
  It also holds the lemmas that pin the strip down: it only cuts whitespace, it
  recovers any trimmed text from whatever whitespace surrounds it, and it is idempotent.
- `equipment.dfy`, module `Equipment`: the row-to-record loop.
  - `Extract` is the specification: a filter-and-map over the rows.
  - `CollectEquipment` is the loop itself, building the list by appending.
  - The lemmas cover order, length, skipped rows and the empty list.
- `decoder.dfy`, module `Decoder`: the handler.
  - `Decide` picks the status and body.
  - `LookupUrl` builds the lookup URL.
  - `DecodeVin` is the method with the `try`/`finally` shape. It returns, as ghost
    output, the driver events (start, page request, quit). Its contract says every
    driver that `setup_driver` returns is quit and no driver exists without a VIN.
    One Chrome can stay open: one that `setup_driver` started before its `stealth`
    call raised (app.py:31-43). `setup_driver` re-raises without returning that
    driver, so the `finally` never sees it, and neither function ever calls `quit`
    on it. The contract states exactly when this
    happens.

The browser is given as data (`Decoder.Browser`):
- whether `setup_driver()` succeeds or raises with a message, and, if it raises,
  whether Chrome was already started;
- for each URL, whether loading and parsing the page raises with a message, or
  yields the rows of the equipment table.

The table is `None` when the page has no table with the equipment class signature.
A row is the list of texts of its `td` cells. A header row made only of `th` cells
is a row with no cells.

`decode_vin` checks only that `vin` is present and non-empty (no length or checksum
check), and it consults one site.

## Model

| member | source | states |
|---|---|---|
| `Text.Strip` | app.py:69-70 | the stripped text has no whitespace at either end and is never longer than the cell text |
| `Text.StripCutsWhitespace` | app.py:69-70 | the stripped text is a slice of the cell text, and everything before and after that slice is whitespace |
| `Text.StripRecovers` | app.py:69-70 | a trimmed text surrounded by any whitespace strips back to exactly that text, so the strip is uniquely determined |
| `Text.StripIdempotent` | app.py:69-70 | stripping twice gives the same as stripping once |
| `Text.StripKeepsTrimmed` | app.py:69-70 | a cell text with no whitespace at either end is kept unchanged |
| `Equipment.HasTwoCells` | app.py:66-67 | the guard `len(cols) >= 2` on a row's `td` cells; that a row yields a record exactly when it holds is proved in `Equipment.ExtractFollowsRows` |
| `Equipment.RowRecord` | app.py:68-71 | a row's record is the stripped text of its first cell as `code` and of its second as `description`; neither begins or ends with whitespace |
| `Equipment.LaterCellsIgnored` | app.py:68-71 | cells after the second, however many, do not change a row's record |
| `Equipment.Extract` | app.py:64-71 | the equipment list never has more records than the table has rows |
| `Equipment.CollectEquipment` | app.py:64-71 | the loop that starts from an empty list and appends a record per row with two `td` cells or more builds exactly `Extract(rows)` |
| `Equipment.ExtractFollowsRows` | app.py:64-71 | the k-th record is the stripped first and second cell of the k-th row with two cells or more; positions strictly increase (table order); a row is used if and only if it has two cells or more; so the length is the number of such rows |
| `Equipment.ExtractAppend` | app.py:65-71 | rows are processed independently and in order: the list for two stretches of rows is the concatenation of their lists |
| `Equipment.SkippedRowAddsNothing` | app.py:65-67 | removing a row with fewer than two cells (a header row included) anywhere in the table does not change the list |
| `Equipment.OneRecordPerRowIff` | app.py:65-71 | the list has one record per row if and only if every row has two cells or more |
| `Equipment.EmptyIff` | app.py:64-71 | the list is empty if and only if no row has two cells; the table exists, so this is a 200 with `[]`, not a 404 |
| `Equipment.RecordsAreStripped` | app.py:68-71 | no code or description in the list begins or ends with whitespace |
| `Equipment.PaddedCells` | app.py:69-70 | the padded cell texts `" 202 "` and `"Air Conditioning\n"` strip to `202` and `Air Conditioning` |
| `Equipment.ExampleTable` | app.py:64-71 | a header row, two data rows (one with a third cell and padded text) and a one-cell row give exactly the two stripped records; the third cell is ignored |
| `Decoder.VinGiven` | app.py:47-48 | the guard `not vin`, negated: an absent parameter or the empty string is refused; the 400 rule it decides is `Decoder.Decide`'s contract |
| `Decoder.LookupUrl` | app.py:54 | the lookup URL is the fixed vindecoderz prefix followed by the VIN unchanged, for a VIN of any length or content: reading the VIN back from the URL gives exactly that VIN |
| `Decoder.LookupUrlInjective` | app.py:54 | different VINs are looked up at different URLs |
| `Decoder.Decide` | app.py:46-76 | the status is one of 200, 400, 404, 500; it is 400 exactly when the `vin` parameter is absent or the empty string, with the fixed message; 404 carries the fixed table-not-found message; it is 200 exactly when the body is the equipment list |
| `Decoder.MissingVinIgnoresBrowser` | app.py:47-49 | a missing or empty VIN gives the 400 answer whatever the browser would have done |
| `Decoder.ExceptionIs500` | app.py:75-76 | an exception from starting the driver or from loading the page gives a 500 whose error is the exception's message |
| `Decoder.MissingTableIs404` | app.py:59-62 | a page without the equipment table gives the 404 answer and no records |
| `Decoder.TableIs200` | app.py:64-73 | a page with the table gives a 200 whose body is the extracted list, never longer than the table |
| `Decoder.ExampleLookup` | app.py:54-73 | VIN 1HGCM82633A004352 with a table of a header row and rows 101/Power Steering and 202/Air Conditioning gives those two records with status 200 |
| `Decoder.ReplayExtend` | app.py:51-53 | replaying one more driver event continues from the state the replay of the earlier events ended in, so the open/closed state of the driver can be followed event by event |
| `Decoder.DecodeVin` | app.py:45-79 | the answer is `Decide(vin, browser)`. The driver events replay without error. A driver returned by `setup_driver` is quit on every path (success, 404, 500). A Chrome is left open exactly when the VIN is given and `setup_driver` raised after starting Chrome. Chrome is started only when the VIN is present, and then exactly when setup succeeds or raises after starting it. The only page requested is the lookup URL of the given VIN |

## Left out

- `setup_driver` (app.py:14-43): the Chrome binary and driver paths, the headless
  and window options, the user agent and the `selenium_stealth` settings. They are
  foreign-library configuration; the model keeps only whether the setup raises,
  with what message, and whether Chrome was already running when it raised.
- `driver.get(url)`, the five-second `time.sleep`, `driver.page_source` and
  BeautifulSoup's parsing (app.py:55-59): network and browser I/O, given as
  `Browser.load`.
- How `find` matches the class string `table table-striped table-hover`, and that
  `find_all('tr')` and `find_all('td')` also find rows and cells of nested tables.
  The model takes the table's rows and cells as given.
- `get_text(strip=True)` strips every text fragment of a cell separately and joins
  the fragments. The model takes a cell's text as one fragment and applies
  `str.strip()` to it.
- An exception raised by `driver.quit()` inside the `finally` (app.py:79), or by
  the extraction loop itself: the model's loop cannot fail, and quitting is an event
  that always succeeds.
- Flask routing, `request.args` parsing (a repeated `vin` parameter), `jsonify`
  serialisation, logging, and `app.run` with the `PORT` environment variable
  (app.py:1-12, 45, 81-82): web and process plumbing. The 200 status of a plain
  `jsonify(equipment)` return is Flask's default and is written into the model.
