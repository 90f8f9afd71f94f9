# FindApartmentCPH in Dafny

A model of the three stages of the FindApartmentCPH pipeline, with proofs of what each stage promises.

- **Scraper.** It crawls the Copenhagen rental listings of boligportal.dk. It finds the search-result pages, collects the listing links on them, fetches every listing and extracts one record per listing.
- **Cleaning script.** It turns the scraped text columns into numbers, labels and buckets.
- **Dashboard.** Its "Apply Filters" button narrows the cleaned table by a chain of row masks and stores the result in the page session.

Files:

- `wrappers.dfy`: the `Option` type, and dropping the missing values from a sequence of options.
- `text.dfy`: the Python string operations the pipeline uses: `replace`, `split`, `join`, `strip`, `in` and `int()`. These are helpers, so they have no rows below.
- `ordered_dict.dfy`: Python dictionaries with string keys, in insertion order. It covers assignment, `update` and a dict comprehension.
- `scrape.dfy`: page discovery, link extraction, fetching, the per-listing field extraction and the whole crawl.
- `preprocess.dfy`: the cell and column rules of the cleaning script, including the joint conversion of the four price columns.
- `dashboard.dfy`: the filter chain and the session state.

Three kinds of outside input are not parsed or run. Each is a parameter instead:

- **HTML.** A page is what each CSS selector the scraper uses matches on it.
- **HTTP.** A function from URL to response (status and page).
- **Date parsing and the quantile.** Functions passed into the model.

Dates are day numbers. A missing cell (pandas' NaN or NaT) is `None`.

The model follows the code where the code and its comments disagree:

- **Cellar floor.** The floor rewrite turns `Kælder` into floor 1, not -1. This is under Findings.
- **Float fill value.** The comment before the cast says missing float cells become 0, but the code fills them with -1.
- **Dashboard starting table.** The filters start from the freshly loaded table (`df.copy()`), not from the `original_df` kept in the session.

Other behaviour of the code worth knowing:

- **First discovery request.** When it fails, the loop stops with zero pages, so the run goes on with no links and no records.
- **Price columns.** The four price columns are cleaned together and converted together. A column with rows but no text at all makes the cleaning raise for all four. One cell that is not a number after cleaning leaves rent, aconto and deposit all as text. The `'0'` branch of the cleaning lambda is never taken: `x.str` either raises or is truthy.
- **Rows without a size.** The size block drops every row whose size is missing from the whole table, before its cast, and the drop stands when the cast raises. The available-from, area and floor rules and the buckets then see only the rows that are left.
- **Missing cells in column rules.** Among the rows that kept a size, a missing address, floor or available-from cell makes its whole column rule raise. The area and floor columns then stay as they were. The available-from column keeps the `Snarest muligt` replacement, which was assigned before the formatting raised.
- **Float cast of the numeric columns.** The cast of the price, size, total and day-count columns to floats at src/preprocess_scraped_data.py:211-212 has no handler. When one of those columns kept text that is not a number, it raises and no CSV is written.

## Model

| member | source | states |
|---|---|---|
| Scrape.PageUrlInjective | src/scrape_boligportal.py:126-138 | distinct page numbers are requested from distinct URLs (offset 18 × page number) |
| Scrape.DiscoverPages | src/scrape_boligportal.py:132-162 | the stored keys are exactly 1..n; page k is the body answered at offset 18·(k-1); no earlier page failed or carried the end marker; page n+1's response did, and it is not stored |
| Scrape.Anchored | src/scrape_boligportal.py:181 | the anchors are exactly those of the containers that have one, never more than the containers |
| Scrape.AnchoredCount | src/scrape_boligportal.py:181 | each container with an anchor contributes that anchor exactly once |
| Scrape.AnchoredAppend | src/scrape_boligportal.py:181 | the anchors of consecutive runs of containers come in document order |
| Scrape.Hrefs | src/scrape_boligportal.py:181 | the hrefs come in anchor order; the lookup raises (None) exactly when some anchor has no href |
| Scrape.PageLinks | src/scrape_boligportal.py:178-185 | a page's links are the hrefs of its anchored containers in document order; it raises exactly when an anchored container's anchor lacks an href |
| Scrape.LinksBoundedByDivs | src/scrape_boligportal.py:173-185 | there are never more links than listing containers on the stored pages |
| Scrape.LinksFailureSticks | src/scrape_boligportal.py:173-185 | once one page's extraction raises, the whole collection raises |
| Scrape.ThreeContainersTwoAnchors | src/scrape_boligportal.py:181 | a container without an anchor is skipped; the others keep their order |
| Scrape.ExtractLinks | src/scrape_boligportal.py:170-185 | the collected links are the pages' links, page after page in key order |
| Scrape.FetchHtmlContent | src/scrape_boligportal.py:20-27 | a record exactly when the prefixed URL answers 200, holding that URL and the body |
| Scrape.FetchAll | src/scrape_boligportal.py:189-190 | one result per link, in link order |
| Scrape.KeepFetched | src/scrape_boligportal.py:193 | every record that was a result is kept, as often as it was one, and nothing else |
| Wrappers.SomesAppend | src/scrape_boligportal.py:193 | dropping the missing results of two runs, one after the other, keeps each run's records in order |
| Scrape.Successes | src/scrape_boligportal.py:187-193 | every kept record answered 200 with its body and its URL is a prefixed link; every link that answered 200 gives its record |
| Scrape.SuccessesAppend | src/scrape_boligportal.py:189-193 | the successes of two runs of links, one after the other, come in link order |
| Scrape.FetchedDataIsSuccesses | src/scrape_boligportal.py:189-193 | fetching then dropping the failures gives exactly the successes, in link order |
| Scrape.SuccessesCount | src/scrape_boligportal.py:189-193 | all links answering 200 keeps them all; none answering keeps nothing |
| Scrape.DetailPairs | src/scrape_boligportal.py:104 | every pair comes from a row with both blocks; the comprehension raises exactly when a row with a value block lacks a heading |
| Scrape.DetailPairsComplete | src/scrape_boligportal.py:104 | when the comprehension succeeds, every row with both blocks gives its pair |
| Scrape.DetailPairsAppend | src/scrape_boligportal.py:104 | the pairs of two runs of rows, one after the other, come in row order; the comprehension raises when either run does |
| Scrape.LogOfListsFailures | src/scrape_boligportal.py:33-116 | the error log holds exactly the steps that raised, each once, in the order they ran |
| Scrape.RunStep | src/scrape_boligportal.py:41-47 | a step's handler writes the step's value, or None and a log entry when it raised |
| Scrape.RunFixedSteps | src/scrape_boligportal.py:31-100 | after the url and the nine single-field steps the record has those ten keys in order with their recorded values, and the log lists the failed steps |
| Scrape.MergeCharacteristics | src/scrape_boligportal.py:102-107 | the merge keeps the record well formed; present labels keep their place, new ones go last, and a raised comprehension adds nothing but a log entry |
| Scrape.ExtractApartmentInfo | src/scrape_boligportal.py:29-118 | the step-by-step extraction builds the declarative record and the step-by-step log |
| Scrape.EnergyWrittenLast | src/scrape_boligportal.py:109-118 | the energy mark is written after the merge and overrides any merged label of that name |
| Scrape.ApartmentInfoValid | src/scrape_boligportal.py:29-118 | every record lists each key once, and exactly the keys that have values |
| Scrape.UrlComesFirst | src/scrape_boligportal.py:31 | the record starts with url, then the nine fixed fields in step order; url holds the given URL unless a characteristics label `url` overrode it |
| Scrape.FixedFieldValue | src/scrape_boligportal.py:33-100 | each fixed field holds its step's value, or None when the step raised, unless a characteristics label of that name overrides it |
| Scrape.FieldFormats | src/scrape_boligportal.py:33-116 | the single-field steps (`Scrape.FieldStep`): a step raises exactly when its element is missing or its selector matched too few elements; the breadcrumb never raises and is the links joined by " > " (the empty text without links, the link itself for one link), the address the first two blocks joined by ", ", the rent the block plus " kr.", the aconto, move-in price and rental period the 1st, 2nd and 2nd match; the energy mark never raises and is "none" without an image |
| Scrape.EnergyMarkAlwaysPresent | src/scrape_boligportal.py:109-116 | energy_mark_src is always present: "none" without the image, None without a src, the src otherwise |
| Scrape.CharacteristicsFailureMergesNothing | src/scrape_boligportal.py:102-107 | when the comprehension raises no key is added, not even None, and the failure is logged |
| Scrape.LaterDuplicateLabelWins | src/scrape_boligportal.py:104-105 | of two rows with the same label, the later value is the one recorded |
| Scrape.MissingAddressRecordedAsNone | src/scrape_boligportal.py:57-63 | fewer than two address blocks give a None address and a logged failure |
| Scrape.FailedStepLogged | src/scrape_boligportal.py:33-100 | every single-field step that raised is in the log |
| Scrape.StepIsolation | src/scrape_boligportal.py:33-116 | when one step's outcome changes, the keys are the same and only that step's entry can differ |
| Scrape.ProcessApartmentInfo | src/scrape_boligportal.py:120-122 | the pool entry point extracts the record of its (page, url) pair |
| Scrape.Records | src/scrape_boligportal.py:210-213 | one record per fetched page |
| Scrape.RecordsAt | src/scrape_boligportal.py:210-213 | the i-th record is the one extracted from the i-th fetched page |
| Scrape.ExtractAll | src/scrape_boligportal.py:210-213 | the loop over fetched pages yields the records in page order |
| Scrape.Crawl | src/scrape_boligportal.py:124-213 | the run chains discovery, link collection, fetching and extraction; a raised link lookup ends it with no records |
| OrderedDict.Put | src/scrape_boligportal.py:36 | assigning a present key keeps its place; a new key goes last |
| OrderedDict.Update | src/scrape_boligportal.py:105 | update keeps the dict well formed; the other dict's values win; new keys are appended in its order |
| OrderedDict.FromPairs | src/scrape_boligportal.py:104 | a dict comprehension lists keys at first appearance and maps each key to its last value |
| OrderedDict.LastPairWins | src/scrape_boligportal.py:104 | of several pairs with one key, the last gives the value |
| OrderedDict.UpdateFromPairs | src/scrape_boligportal.py:104-105 | updating with a comprehension equals assigning its pairs one by one |
| Preprocess.CleanCurrency | src/preprocess_scraped_data.py:89 | the cleaned text contains no '.' and no ',' |
| Preprocess.ToNumeric | src/preprocess_scraped_data.py:94 | a cell is NaN exactly when missing or empty, a number exactly when its text is an integer, and otherwise it makes the conversion raise |
| Preprocess.CurrencyCell | src/preprocess_scraped_data.py:89-94 | a cell is NaN exactly when missing or cleaning to nothing, the integer of the cleaned text exactly when that text is one, and otherwise it makes the conversion raise |
| Preprocess.Converted | src/preprocess_scraped_data.py:94 | the conversion is cell by cell, in order |
| Preprocess.FillColumn | src/preprocess_scraped_data.py:99-108 | filling fails exactly when an unconvertible cell is present; otherwise each NaN gets the default and each number is kept |
| Preprocess.CurrencyColumn | src/preprocess_scraped_data.py:89-108 | one currency column cleaned, converted and filled, cell by cell, as it comes out when the joint conversion succeeds |
| Preprocess.PriceColumnsOf | src/preprocess_scraped_data.py:86-108 | rent, aconto and deposit convert together or all stay text; they convert exactly when every cell of the four columns does; after a cleaning that ran, each is its filled cells; prepaid is always cast when they convert and is cast from its text when they do not |
| Preprocess.PrepaidFromText | src/preprocess_scraped_data.py:98-102 | prepaid left as text: a missing cell is 0, any other is cast, and the column stays text exactly when one cast raises |
| Preprocess.OneBadCellKeepsAllText | src/preprocess_scraped_data.py:93-96 | one cell that is not a number after cleaning, in any of the four columns, keeps rent, aconto and deposit all as text |
| Preprocess.TextlessColumnKeepsAllText | src/preprocess_scraped_data.py:88-96 | when one column has rows but no text, nothing is cleaned, so a scraped price anywhere keeps rent, aconto and deposit as text |
| Preprocess.ScrapedPriceCleans | src/preprocess_scraped_data.py:89 | a scraped price (digits with thousands dots plus " kr.") cleans to its digits |
| Preprocess.ScrapedPriceConverts | src/preprocess_scraped_data.py:89-94 | such a price converts to the number its digits spell |
| Preprocess.TwelveAndAHalfThousand | src/preprocess_scraped_data.py:89 | "12.500 kr." cleans to "12500" |
| Preprocess.TotalColumn | src/preprocess_scraped_data.py:206-209 | the total column exists exactly when the joint conversion succeeded, with one total per row |
| Preprocess.RowTotal | src/preprocess_scraped_data.py:207 | after the conversion a row's total is its filled rent plus its filled aconto; a row without aconto totals one below its rent |
| Preprocess.ScrapedRowTotal | src/preprocess_scraped_data.py:207 | two scraped prices in one row total the numbers their digits spell |
| Preprocess.EnergyMark | src/preprocess_scraped_data.py:111-112 | the mark contains neither '/' nor '_' |
| Preprocess.EnergyMarkOfPath | src/preprocess_scraped_data.py:112 | the mark of dir/mark_rest is mark |
| Preprocess.EnergyMarkOfSentinels | src/preprocess_scraped_data.py:111-112 | "none" stays "none"; a missing source gives "" |
| Preprocess.SizeText | src/preprocess_scraped_data.py:118 | the cleaned size text contains no '.' |
| Preprocess.Present | src/preprocess_scraped_data.py:117 | rows with a missing size are dropped; every present size is kept as often as it occurs |
| Preprocess.AllCast | src/preprocess_scraped_data.py:118 | the column cast raises exactly when one cell's cast does |
| Preprocess.Casts | src/preprocess_scraped_data.py:118 | each size text is cast on its own, in order |
| Preprocess.KeptRows | src/preprocess_scraped_data.py:117 | the rows left are exactly those with a size, in table order |
| Preprocess.KeptSizes | src/preprocess_scraped_data.py:117 | the k-th row left holds the k-th present size |
| Preprocess.SizeColumn | src/preprocess_scraped_data.py:116-120 | the rows without a size leave the whole table whether or not the cast raises; the size column stays text exactly when the cast of a kept row's size raises, and otherwise holds each kept row's size |
| Preprocess.KeptCellsPresent | src/preprocess_scraped_data.py:117 | a later column rule sees a missing cell only in a row that kept a size |
| Preprocess.DroppedRowsSpareArea | src/preprocess_scraped_data.py:117-167 | an address missing only where the size is missing no longer stops the area column, which has one entry per row left |
| Preprocess.DroppedRowsFormatDates | src/preprocess_scraped_data.py:117-156 | a date missing only where the size is missing no longer stops the formatting: every row left is rewritten |
| Preprocess.ScrapedSize | src/preprocess_scraped_data.py:118 | "n m²" gives n |
| Preprocess.ScrapedSizeWithDecimals | src/preprocess_scraped_data.py:118 | with decimals, only the whole square metres count |
| Preprocess.Area | src/preprocess_scraped_data.py:167 | the area contains no ','; it contains no '-' when the address has one |
| Preprocess.AreaOfScrapedAddress | src/preprocess_scraped_data.py:167 | from "street, district" the area is the district |
| Preprocess.AreaBeforeDash | src/preprocess_scraped_data.py:167 | from "street, district - rest" the area is the district |
| Preprocess.AreaColumn | src/preprocess_scraped_data.py:166-169 | the area column is written exactly when no address is missing, with each row's area |
| Preprocess.AreaColumnOfScrapedAddress | src/preprocess_scraped_data.py:167 | in a written area column, a scraped "street, district" row holds its district |
| Preprocess.FloorTextAsWritten | src/preprocess_scraped_data.py:173 | the rewritten floor contains no '-' and no '.' |
| Preprocess.CellarAsWrittenIsFirstFloor | src/preprocess_scraped_data.py:171-173 | as written, "Kælder" becomes "01", that is floor 1 |
| Preprocess.FloorText | src/preprocess_scraped_data.py:171 | the corrected rewrite contains no '.' |
| Preprocess.GroundFloorIsZero | src/preprocess_scraped_data.py:171-173 | "Stuen" is floor 0 |
| Preprocess.PlaceholderIsZero | src/preprocess_scraped_data.py:171-173 | "-" is floor 0 |
| Preprocess.CellarIsMinusOne | src/preprocess_scraped_data.py:171 | under the corrected order, "Kælder" is floor -1 |
| Preprocess.NumberedFloor | src/preprocess_scraped_data.py:173 | "n." is floor n under both rules |
| Preprocess.FloorAgreesWithoutCellar | src/preprocess_scraped_data.py:173 | the two rules agree on every cell that does not mention the cellar |
| Preprocess.FloorColumnAsWritten | src/preprocess_scraped_data.py:172-175 | the floor column converts exactly when no cell is missing and every rewritten cell casts, each row to its floor |
| Preprocess.FloorColumn | src/preprocess_scraped_data.py:171-175 | the same column-level rule with the corrected rewrite |
| Preprocess.CellarRow | src/preprocess_scraped_data.py:171-173 | a cellar row reads 1 in the column as written and -1 in the corrected one |
| Preprocess.FloorColumnsAgreeWithoutCellar | src/preprocess_scraped_data.py:173 | without a cellar cell the two columns are the same |
| Preprocess.FirstMonthFrom | src/preprocess_scraped_data.py:142-143 | finds the first month, in calendar order, whose name the text contains, or reports that none is there |
| Preprocess.FormatDate | src/preprocess_scraped_data.py:140-152 | the loop returns the text with the first month name found replaced |
| Preprocess.FormattedDateReplacesFirstMonth | src/preprocess_scraped_data.py:140-152 | a text without month names is unchanged; otherwise every occurrence of the first month name is replaced by its number |
| Preprocess.DateWithoutSpacesUnchanged | src/preprocess_scraped_data.py:150-152 | a date already in number form, without spaces, is returned as it is |
| Preprocess.AvailableFrom | src/preprocess_scraped_data.py:154-156 | "Snarest muligt" becomes today's date, month-rewritten, which leaves a spaceless date as it is; any other cell is month-rewritten |
| Preprocess.AvailableFromColumn | src/preprocess_scraped_data.py:154-159 | without missing cells every cell is rewritten; with one, the column keeps only the "Snarest muligt" replacement |
| Preprocess.MissingCellSkipsFormatting | src/preprocess_scraped_data.py:154-156 | with a missing cell in the column, any other date keeps its month name |
| Preprocess.LaterAvailabilityLaterBucket | src/preprocess_scraped_data.py:196-199 | of two listings created the same day, the later available is never in an earlier availability bucket |
| Preprocess.OlderListingLaterBucket | src/preprocess_scraped_data.py:204-215 | a listing created earlier is never in an earlier months-on-website bucket |
| Preprocess.MissingDateLastBucket | src/preprocess_scraped_data.py:196-215 | a missing date lands in the last bucket of both scales |
| Preprocess.AvailabilityBuckets | src/preprocess_scraped_data.py:195-199 | each availability label holds exactly its range of days; a missing count gets the last label |
| Preprocess.MonthsOnWebsiteBuckets | src/preprocess_scraped_data.py:215 | each months-on-website label holds exactly its range of days |
| Preprocess.BucketsMonotone | src/preprocess_scraped_data.py:215 | more days never give an earlier bucket, on both scales |
| Preprocess.BucketsAgreeBelowNinety | src/preprocess_scraped_data.py:196-199 | below 90 days both scales agree; from 90 on, availability has one label where the other has two |
| Dashboard.KeepMembers | src/app.py:93 | a row mask keeps exactly the rows it holds on |
| Dashboard.KeepCount | src/app.py:93 | a row mask keeps each row it holds on as often as it occurs, and no copy of any other |
| Dashboard.KeepIsSubsequence | src/app.py:93 | a row mask keeps the rows in their order |
| Dashboard.AreaStep | src/app.py:92-93 | the area mask is the first filter of the chain |
| Dashboard.RoomsStep | src/app.py:95-96 | the rooms mask is the second filter |
| Dashboard.DateStep | src/app.py:98-108 | the date mask, either way the checkbox is set, is the third filter |
| Dashboard.PriceStep | src/app.py:111-114 | the inclusive range on `total_rental_price` (`Dashboard.TotalRentalPrice`, the rent plus the aconto as summed at src/app.py:25) is the fourth filter |
| Dashboard.SizeStep | src/app.py:117-120 | the inclusive size range is the fifth filter |
| Dashboard.EnergyStep | src/app.py:123-124 | the energy mask is the sixth filter |
| Dashboard.SkipAll | src/app.py:92 | a select box on 'All' leaves the rows as they are |
| Dashboard.CutStep | src/app.py:127-131 | the cut below 100 uses the quantile of the rows the other filters left |
| Dashboard.ApplyFilters | src/app.py:87-131 | the mask-by-mask reassignment yields the declarative filter result |
| Dashboard.FilteredIsSubsequence | src/app.py:89-131 | the stored rows are loaded rows, in loaded order |
| Dashboard.FilteredMembers | src/app.py:87-131 | a row is stored exactly when it was loaded, passes every filter (inclusive ranges, equality unless 'All'), and below 100 is at or under the quantile |
| Dashboard.FilteredCount | src/app.py:87-131 | each passing row is stored as often as it was loaded, so equal listings are never merged; a failing row not at all |
| Dashboard.NaNChoiceMatchesNothing | src/app.py:92-96 | a NaN area, rooms or energy choice matches no row |
| Dashboard.IncludeUnknownAddsMissingDates | src/app.py:98-108 | ticking the checkbox only adds rows, and only rows without a date |
| Dashboard.WidestSelectionKeepsAll | src/app.py:87-131 | with 'All', full ranges, the box ticked and the slider at 100, every row in range is kept |
| Dashboard.UnparseableDateDropped | src/app.py:100-107 | a date that does not parse is dropped whatever the checkbox says |
| Dashboard.Session.constructor | src/app.py:28-30 | the first run stores the loaded table as both the original and the filtered table |
| Dashboard.Session.Rerun | src/app.py:87-134 | the filtered table changes only when the button is pressed, to the filter result; the original is never touched |

## Left out

- HTTP requests, the process pools, `tqdm` and the timing prints. Responses are oracle parameters, and each pool is modelled as the ordered map it observably is.
- HTML parsing and CSS selector matching. A page is the list of texts, attributes or elements each selector matches.
- pandas and CSV I/O: reading and writing files, dated paths, `os.makedirs`, dropping and renaming columns, and the in-place column updates. Each column rule is a function over a sequence of cells.
- Logging configuration and message text. The model keeps only which extraction steps were logged.
- The null-percentage report and the unique-values dump. They are file output only.
- `pd.to_datetime` and `datetime.today()`. Dates are day numbers, and the parser and today's date are parameters.
- The quantile computation. It is the float function `quantile` passed in. Float casts of the numeric columns are not modelled either.
- Preprocess.ToNumeric: `pd.to_numeric` is modelled as `int()` on the text. Floats and exponents that pandas would accept count as unparseable.
- Preprocess.PrepaidFromText: `float()` is modelled as `int()` as well, so a decimal prepaid text counts as failing.
- Preprocess.CleaningRuns: only a column whose cells are all missing counts as having no text. A column pandas reads as numbers because every cell is a plain integer would also stop the cleaning; the model treats its cells as text.
- Preprocess.TotalColumn: when rent and aconto stay text, pandas adds them by string concatenation. The model gives `None` there instead of that text.
- Dashboard.SameValue: rooms are compared as integers. The source compares `float(str(x))` with the column, which is the same for the integer room counts the site lists.
- The column-level `try` blocks of the cleaning script are modelled for the currency cleaning and conversion, the prepaid fill, the size block, the area, the floor cast and the available-from rewrite. A failed block keeps what it assigned before the failing statement: the size block's row drop and the available-from replacement of `Snarest muligt` stand. Otherwise the column stays as it was, which is `None` in the model. The energy-mark block cannot fail on the modelled inputs, since missing sources are filled with empty text first.
- The whole table is not one value in the model. The size block's row drop is the list of rows it keeps (`Preprocess.SizeColumn`), and a later rule is applied to those rows through `Preprocess.Rows`. This is stated for the area and available-from rules (`Preprocess.DroppedRowsSpareArea`, `Preprocess.DroppedRowsFormatDates`). The floor rule and the buckets are stated on their columns as given.
- The uncaught float cast at src/preprocess_scraped_data.py:211-212 and the CSV writes after it are not modelled.
- After a failed block, the later steps on the unconverted text columns are not modelled: the float fill, the unique-values dump and the date parsing of unrewritten dates.
- The Streamlit widgets, the rendering of the table and the summary statistics, and `get_latest_file`, which depends on file modification times.
- Scrape.DiscoverPages: termination is shown only for sites that eventually answer with a failure or the end marker (the ghost `last`). The source loops forever otherwise.

## Findings

| source | as written | input that shows it | evidently intended | confidence | as-written member | corrected member |
|---|---|---|---|---|---|---|
| src/preprocess_scraped_data.py:171-173 | `Kælder` is rewritten to `-1` before every `-` becomes `0`, so the cellar becomes `01`, floor 1 | the floor cell `Kælder` | the cellar is floor -1, as the comment beside the rule says | not executed | Preprocess.CellarAsWrittenIsFirstFloor | Preprocess.CellarIsMinusOne |
