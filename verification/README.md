# ebaydata: the flattener and the page loop, in Dafny

This project models the core of `EasyEbayData`, a small client that pages through
eBay's `findItemsAdvanced` search and turns the nested item records into flat
table rows. Two copies of the class are modelled:

- the package copy, `ebaydata/ebaydata.py`. It has a connection check
  (`test_connection`), `get_max_pages`, and a page loop that gives up at the
  third unsuccessful page;
- the older top-level copy, `ebaydata.py`. It has the same flattener and a page
  loop with no early stop.

The model has five modules:

- `Py` (`py.dfy`): `Option`, `Result`, and the exceptions that escape the class
  (`AssertionError`, `ConnectionError`, `UnboundLocalError`), returned as values.
- `Dicts` (`dicts.dfy`): a Python `dict` with string keys, modelled as its pairs
  in insertion order.
  - `Put` is `d[k] = v`. An existing key keeps its place and takes the new
    value; a new key goes to the end.
  - `PutAll` performs a list of such assignments one after another.
- `Seqs` (`seqs.dfy`): `FlatMap`, which models nested `for` loops that emit a
  run of results for each element.
- `Unembed` (`unembed.dfy`): `unembed_ebay_item_data`.
  - `Writes(item)` is the ordered list of assignments `unembedded_dict[name] = value`
    that the three nested loops make.
  - `FlattenItem` performs those assignments on an empty dict.
  - `FlattenItems` is the outer loop: one row per item, and an `AssertionError`
    for an item that is not a dict.
  - Both copies hold the same flattener; only the assertion message differs.
- `Collect` (`collect.dfy`): the page loop and the two `get_ebay_item_info` entry points.
  - The search service is a parameter. `Probe` is the connection check's reply,
    and `answer(p)` is the reply to page `p`: a success with items, an
    unsuccessful acknowledgement, or a raised `ConnectionError`.
  - `pages` lists the loop's requests. Page 1 is also requested once before
    the loop (the connection check, or the older copy's first request), and
    `probe` and `answer(1)` are separate replies.
  - `WalkPages` is the `for page in range(...)` loop.
  - Its contract `Collected` says which pages it requests (1, 2, … up to the
    stop point) and what it returns. It returns the rows of every successful
    page in page order, or the exception that ended it.
  - `StoppedAt` defines the stop point: the last page in range, a page that
    raises, or (package copy) the page on which the total failure count
    reaches 3.

What the code does, and a reader might not expect:

- Colliding names are not renamed. A later write replaces an earlier one
  (`DeepCollisionOverwrites`).
- Flattening stops at three levels. A dict nested deeper is stored as a value.
- The package loop counts all unsuccessful pages. The failure counter is never
  reset, and the threshold is the constant 3 (`TotalNotConsecutive`).
- The page count is not capped.
- A `ConnectionError` raised while fetching a later page is not caught. It ends
  the call.

## Model

| member | source | states |
|---|---|---|
| Dicts.Put | ebaydata/ebaydata.py:28-32 | `d[k] = v`: afterwards `k` maps to `v` and every other key maps to what it did before. An existing key keeps its position; a new key is appended, so insertion order is kept. |
| Dicts.LaterWriteWins | ebaydata/ebaydata.py:23-32 | When two writes use the same name, the later one decides the value: after the write `k := v`, writes to other keys leave `k` mapped to `v`. |
| Dicts.PutAllKeys | ebaydata/ebaydata.py:22-32 | After a list of writes, a key is present exactly when it was present before or one of the writes used it. |
| Dicts.PutAllFrom | ebaydata/ebaydata.py:22-32 | Every pair of the result was already there or is one of the writes; assignment never invents a value. |
| Dicts.PutAllDistinct | ebaydata/ebaydata.py:22-32 | When no two writes share a name, the row is the writes in loop order and nothing is overwritten. |
| Unembed.FlattenItems | ebaydata/ebaydata.py:19-34 | The call succeeds exactly when every item is a dict. A non-dict item gives `AssertionError`. On success there is one row per item. |
| Unembed.FlattenItemsRows | ebaydata.py:19-34 | Row `i` is item `i` flattened on its own, so rows keep the input order and items do not share rows. |
| Unembed.WritesExact | ebaydata/ebaydata.py:23-32 | The loops make exactly the writes the depth-based naming rule assigns, no more and no fewer. |
| Unembed.TopLevelKeepsKey | ebaydata/ebaydata.py:31-32 | A top-level non-dict value is stored under its own key. It keeps its value unless a later pair writes that same name. |
| Unembed.NestedJoinsKeys | ebaydata/ebaydata.py:29-30 | A non-dict `v2` under `k2` inside dict `k` is stored as `k_k2`. It keeps its value unless a later write uses that name. |
| Unembed.DeepDropsOuterKey | ebaydata/ebaydata.py:26-28 | A value `v3` under `k3` inside dict `k2` inside dict `k` is stored unchanged as `k2_k3`, even when it is a dict itself. The outer key `k` is not part of the name. |
| Unembed.FlattenKeys | ebaydata.py:23-32 | The row has a key for a name exactly when the naming rule produces a write with that name. |
| Unembed.WritesFlatIffShallow | ebaydata.py:24-30 | The writes carry a dict value exactly when the item nests dicts deeper than three levels. |
| Unembed.FlattenShallowIsFlat | ebaydata/ebaydata.py:24-30 | An item nested at most three levels deep gives a row with no dict values. |
| Unembed.FlattenFlatItem | ebaydata.py:31-32 | A flat dict comes back unchanged. |
| Unembed.FlattenIdempotent | ebaydata/ebaydata.py:18-34 | For items nested at most three levels deep, flattening twice gives the same row as flattening once. |
| Unembed.DeepCollisionOverwrites | ebaydata/ebaydata.py:26-28 | Two top-level dicts that both hold an inner dict `price` collide on `price_value`. Only the later value survives, and the outer keys appear nowhere. |
| Collect.RepliesMatchPages | ebaydata/ebaydata.py:69-72 | Page `p` is requested with `pageNumber` p, so the `i`-th reply the loop reads is the answer to the `i`-th page it requests. |
| Collect.FirstPagesInOrder | ebaydata.py:52 | The pages the loop requests are 1, 2, … in increasing order, each requested once by the loop. |
| Collect.WalkPages | ebaydata/ebaydata.py:65-84 | The loop requests exactly pages 1 .. the stop point and returns `Collected`'s outcome: the rows of the successful pages in page order, or the exception of the page that raised. |
| Collect.StoppedAtUnique | ebaydata/ebaydata.py:77-82 | Only one page can be the stop point: the loop never stops earlier or later. |
| Collect.CollectedDeterministic | ebaydata/ebaydata.py:65-84 | The loop's contract fixes both the pages requested and the result. |
| Collect.NeverStopWalksAll | ebaydata.py:52-64 | Without an early stop and with no raising page, every page is requested and the result is the rows of all successful pages. |
| Collect.FailedPageAddsNothing | ebaydata.py:57-62 | An unsuccessful page adds no rows wherever it falls. |
| Collect.TotalNotConsecutive | ebaydata/ebaydata.py:77-82 | Failures on pages 1, 3 and 5, with successes in between, end the package loop after page 5. The counter counts every failure, not a run of consecutive ones. |
| Collect.PackageGetItemInfo | ebaydata/ebaydata.py:56-84 | A raised connection check gives `None` and the loop requests no pages. A non-success check gives `AssertionError`. Otherwise the loop runs over pages 1 .. `get_max_pages(...)` and stops at the third failure. The `i`-th reply it reads is the answer to the `i`-th page it requests. |
| Collect.LegacyGetItemInfo | ebaydata.py:36-64 | A raised or unsuccessful first request leaves `response` or `pages2pull` unassigned (`UnboundLocalError`). Otherwise pages 1 .. N are walked with no early stop, and without a raising page all N are requested. The `i`-th reply it reads is the answer to the `i`-th page it requests. |
| Collect.PackageWindowHasExtraPage | ebaydata/ebaydata.py:48-54 | `get_max_pages` is `totalPages + 1` when `max_pages` is falsy (`False` or `0`), else `max_pages + 1`, for every `max_pages` including negative ones. When the intended count N is not negative, the package's window is the intended window plus the reply to page N + 1. |
| Collect.PackageRequestsExtraPage | ebaydata/ebaydata.py:63-69 | As written, a package run that neither raises nor reaches the failure limit requests N + 1 pages, and its last page is N + 1. |
| Collect.IntendedGetItemInfo | ebaydata/ebaydata.py:56-84 | The package entry point with the page range it evidently means: it behaves like `PackageGetItemInfo` over pages 1 .. N and never requests a page above N. The `i`-th reply it reads is the answer to the `i`-th page it requests. |

## Left out

- The `ebaysdk` connection and its `execute` calls. Each reply is an input: the
  probe for the connection check and `answer(page)` for the loop.
- The `pandas.DataFrame` built from the rows. The model returns the list of rows.
- `time.sleep`, the `tqdm` progress bar and the `print` messages. They only
  affect timing and console output.
- The constructor's type assertions. `keywords` is not used by the modelled
  logic, and `max_pages` is an integer or `False` (`MaxPages`). `max_pages=True`
  passes the `int` check in Python and acts as `Pages(1)`; it is not a separate case.
- `response.dict()['searchResult']['item']`. A successful page is taken to carry
  its item list, so the `KeyError` raised when that key is missing is not modelled.
- `int(...)` parsing of `totalPages`. The count is already an integer.
- Python's scalar types (numbers, booleans, `None`). Every leaf is a `Scalar`
  carrying text, since the flattener only asks whether a value is a dict.
- `setup.py`, which is packaging metadata.

## Findings

| source | as written | input that shows it | evidently intended | confidence | as-written member | corrected member |
|---|---|---|---|---|---|---|
| ebaydata/ebaydata.py:54 | `get_max_pages` returns the page count plus one, and the loop at line 69 adds one again in `range(1, pages2pull + 1)`, so pages 1 .. N + 1 are requested | `totalPages = 2` with `max_pages` unset: pages 1, 2 and 3 are requested | request pages 1 .. N, as the older copy does (`ebaydata.py:52`) | medium, not executed; the model does not say what page N + 1 returns, and a successful reply without `item` would raise `KeyError` at line 74, which is left out | Collect.PackageRequestsExtraPage | Collect.IntendedGetItemInfo |
