# Circular Economy good-practice scraper — Dafny model

This project models the decision logic of a scraper for the "good practices"
directory of the European Circular Economy Stakeholder Platform, together with
the chart-selection loop of its analysis helper. It covers these parts:

- **Field extraction.** A listing card becomes a `GoodPractice` record of ten
  text fields. A field that cannot be found holds the sentinel `"N/A"`.
  Multi-valued fields (key area, sector, scope) are joined with `", "`.
  Site-relative links get the base domain `https://circulareconomy.europa.eu` in front.
- **Retry.** Each listing page is requested up to `retries` times. The first
  status-200 response ends the loop. The loop sleeps only between attempts.
- **Pagination.** Pages `0, 1, 2, …` are crawled up to a cap (`max_pages`).
  Page indices in a skip set are not fetched, but they still use up the cap.
  The crawl stops at the first page that gives no records.
- **Persistence.** Each record becomes a ten-column row. An empty record list is
  refused. `main` turns the result into exit status 0, 1 or 2.
- **Plots.** For each requested column that the dataset has, a chart file named
  `<column>_distribution.png` is saved in the output directory.

Each part has its own module: `Practice` (record and row), `Extract`, `Fetch`,
`Paginate`, `Persist` and `Plots`. Two small helper modules support them:
`Wrappers` (Option/Result) and `Text` (joining and splitting lists, decimal page numbers).

Inputs the model cannot see are passed in as parameters:

- A card is given as the already-stripped texts its selectors matched.
- A request outcome comes from an oracle `respond(k)`, the result of attempt `k`.
- A page's records come from an oracle `pages(n)`. It stands for what the retry
  loop returns for the URL `PageUrl(base, n)`.
- File-system success is a boolean flag.
- The dataset's columns are given as a set.

In these places the model follows the code as written:

- An `<h2>` with empty text gives the title `""`, not the sentinel. The title is
  the sentinel only when the card has no `<h2>`.
- An anchor in the heading with no `href` raises an error in the code instead of
  giving the sentinel. The model makes "the anchor has an href" a precondition
  (`Extract.HrefPresent`).
- Skipped indices count toward `max_pages`.
- A 200 response whose page has no cards returns no records at once. It is not retried.

## Model

| member | source | states |
|---|---|---|
| Practice.ToRow | scrape_ce.py:46-59 | the row has exactly ten entries; their keys are the dataset header in fixed order (Title … Scope) and are pairwise distinct; each cell is the record field of that column |
| Practice.RowRoundTrip | scrape_ce.py:46-59 | reading a written row back gives the original record; any row that reads back as a record is exactly that record's row |
| Text.JoinAppend | scrape_ce.py:78 | joining two non-empty runs of items one after another puts exactly one separator between their joins; a single item joins to itself |
| Extract.SelectText | scrape_ce.py:62-68 | the result is never empty; it is the sentinel or the matched text, never anything else; a non-empty match is returned unchanged; no match gives the sentinel |
| Extract.KeepNonEmpty | scrape_ce.py:73-77 | only non-empty item texts are kept, and only texts taken from the input; nothing is kept iff every item is empty |
| Extract.KeepNonEmptyCounts | scrape_ce.py:73-77 | each non-empty text is kept exactly as many times as it occurs; the empty text is never kept |
| Extract.KeepNonEmptyAppend | scrape_ce.py:73-77 | the filter keeps document order: filtering two runs of texts one after another gives the kept texts of the first run followed by those of the second; a single text is kept iff it is non-empty |
| Extract.SelectListText | scrape_ce.py:71-78 | the result is never empty; all-empty or no items give the sentinel; otherwise it is the non-empty items joined with ", ", and when no item contains a comma, splitting it at ", " gives back exactly those items in document order |
| Extract.ResolveLink | scrape_ce.py:85-86 | the link is never empty; no heading, no anchor or an empty href give the sentinel; an href starting with "/" becomes the base domain followed by the href; any other href is kept unchanged |
| Extract.ParseCard | scrape_ce.py:81-114 | every column except the title is non-empty; with a heading the title is its text (empty exactly when that text is), without one title and link are the sentinel; a missing or empty href gives the sentinel link, a "/"-prefixed href gets the base domain in front, any other href is kept; each single-valued column is its element's non-empty text, else the sentinel; each multi-valued column is the sentinel when no element has text and otherwise the non-empty texts joined with ", " (which, for comma-free items, splits back into them in order) |
| Extract.MissingFieldIsSentinel | scrape_ce.py:83-101 | removing the markup of one field makes that column the sentinel and leaves every column from other markup as it was (title and link share the heading) |
| Extract.ParsePractices | scrape_ce.py:117-122 | exactly one record per card, in card order; zero cards give no records |
| Extract.ParsePracticesAppend | scrape_ce.py:117-122 | parsing two runs of cards one after another equals parsing their concatenation |
| Extract.FullCardFields | tests/test_scrape_ce.py:49-58 | the full test card gives one record with title "Circular Cities", organisation "Circular Org", type "SME", country "Belgium", language "English" |
| Extract.FullCardKeyArea | tests/test_scrape_ce.py:59 | key areas "Waste" and "Recycling" give the cell "Waste, Recycling" |
| Extract.FullCardLink | tests/test_scrape_ce.py:60 | the relative link of the full test card becomes the base domain followed by the link, so it ends with the link path |
| Extract.MinimalCardFields | tests/test_scrape_ce.py:63-68 | a card with only a plain heading gives one record whose organisation, scope and link are the sentinel |
| Fetch.GetGoodPractices | scrape_ce.py:132-153 | at most `retries` requests (none when `retries <= 0`); every request before the last was not a 200; a final 200 returns that page's parse, even if it is empty; if no 200 comes, every allowed attempt is used and no records are returned; sleeps are exactly one fewer than requests |
| Paginate.PageUrlRoundTrip | scrape_ce.py:175 | the page index can be read back from the URL built for it |
| Paginate.PageUrlInjective | scrape_ce.py:175 | different page indices are requested under different URLs |
| Paginate.ScheduleSpec | scrape_ce.py:169-173 | the schedule holds the non-skipped indices in [from, max_pages), strictly ascending, each one once |
| Paginate.CrawlFollowsSchedule | scrape_ce.py:169-183 | the fetched indices are a prefix of the schedule |
| Paginate.CrawlKeepsOrder | scrape_ce.py:176-185 | the records are the fetched pages' records joined in page order, and within a page in their own order |
| Paginate.CrawlStops | scrape_ce.py:169-185 | every fetched page before the last had records; the stop reason is "empty page" iff the last fetched page had none; stopping at the cap means every scheduled page was fetched |
| Paginate.ScrapeAllPages | scrape_ce.py:156-185 | the loop gives the same records, fetched indices and stop reason as the recursive crawl; the URL requested for each fetched index is `base_url?page=<index>` |
| Paginate.FetchedIndices | scrape_ce.py:167-183 | fetched indices are strictly increasing, below `max_pages`, and never in the skip set |
| Paginate.NoPagesUnderZeroCap | scrape_ce.py:169 | `max_pages <= 0` fetches nothing and returns no records |
| Paginate.StopsAtFirstEmptyPage | scrape_ce.py:176-179 | if k is the first non-skipped page with no records, the crawl fetches the non-skipped pages up to and including k, returns the records of those before k, and reports an empty page |
| Paginate.StopsAtCap | scrape_ce.py:169-185 | if no non-skipped page below the cap is empty, every such page is fetched, all their records are kept, and the crawl stops at the cap |
| Paginate.CapAndSkipExamples | scrape_ce.py:165-173 | with a cap of 5 and full pages, pages 0–4 are fetched and the crawl stops at the cap; skipping page 2 fetches 0, 1, 3, 4 |
| Persist.WriteDataset | scrape_ce.py:188-196 | an empty record list fails with the "no records" error, whatever the file system does; a file-system failure fails; otherwise one row per record, each reading back as its record |
| Persist.MainExitCode | scrape_ce.py:279-290 | status 1 iff there are no records; 2 iff there are records and saving fails; 0 iff there are records and saving succeeds; status 2 only ever comes from the file system |
| Plots.PlotNameRoundTrip | analyze.py:67 | the column can be read back from its chart file name |
| Plots.PresentSpec | analyze.py:63-66 | a column is charted iff it is requested and in the dataset, once per request, and nothing else is charted |
| Plots.PresentAppend | analyze.py:63-66 | charts follow request order: the present columns of two request runs one after another are those of the first run followed by those of the second; a single requested column is charted iff the dataset has it |
| Plots.GeneratePlots | analyze.py:58-68 | the output directory is created first, even when nothing is charted; each later action saves a chart to `output_dir/<column>_distribution.png`; the charted columns are the present requested ones, in request order |
| Plots.UnknownColumnSkipped | tests/test_analyze.py:19-25 | requesting Country and UnknownColumn from a dataset with Country and Scope charts only Country, as Country_distribution.png |

## Left out

- HTTP (session, headers, timeout, user agent): each request is an outcome from an oracle.
- `time.sleep` and the delay value: sleeps are only counted.
- HTML parsing, CSS selector matching and `get_text(strip=True)`: a card is the list of already-stripped texts its selectors matched.
- pandas CSV reading and writing, `expanduser`, `mkdir`: external I/O. Success or failure of the file system is one boolean.
- `save_bar_plot` rendering (matplotlib, seaborn) and the ordering by frequency inside a chart: done by a foreign library. Only the call and its file name are modelled.
- `load_dataset` and its rewrapped error, `main` of the analysis script, `parse_args`, `configure_logging` and all logging: I/O and glue.
- Path joining: `output_dir / name` is kept as a (directory, file name) pair. pathlib's rules for absolute or multi-part names are not modelled.
- Paginate.ScrapeAllPages: takes the records of each page from an oracle instead of calling the retry loop. The two are linked only by what the oracle stands for.
- Extract.ResolveLink: an anchor without `href` is excluded by a precondition. In the code it raises `KeyError`, which nothing catches, so the run crashes.
- Persist.MainExitCode: an exception other than `OSError`/`ValueError` (for example the `KeyError` above) is not caught in `main`, and Python then exits with status 1. That is the same status as "no records". Crashes are not modelled, so this clash is not either.
