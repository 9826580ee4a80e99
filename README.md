# Kijiji rentals pipeline — a Dafny model

Three Python scripts turn Kijiji rental search results into a table ready for
analysis. This project models the logic of each one and proves what it
guarantees:

- **The scraper** (`kijiji_rentals_scraper.py`). Each ad on a result page
  becomes one row: Title, Price, Date, Location, Description,
  NearestIntersection, Bedrooms and Link. Texts are whitespace-normalised,
  "Wanted: " ads are skipped, '$' and ',' are stripped from the price, and the
  Link is the site address followed by the ad's href. The new rows are
  appended to the saved rows, and duplicate Links, then duplicate Titles, are
  dropped (first one kept). In the model (`scraper.dfy`), the ads of each page
  are given as values: `Ad` holds the raw text of every sub-element, or `None`
  when the page lacks it. `AdTable.CollectAdInfo` is the appending loop.
  `Update` is the main program.
- **The processing script** (`kijiji_rentals_process.py`). It replaces
  Poster, AdURL and AdId with surrogate ids (`anonymize_values`). It converts
  Price to a number, PostingDate and Move-In-Date to times, and Parking-Included
  to a count. It maps every column holding "Yes"/"No" to 1/0, and lower-cases
  Description. In the model (`process.dfy`, `anonymize.dfy`, `dates.dfy`), a
  table maps column names to typed columns (`Column`). A failed conversion is
  a `Failure`, and a missing cell is `None`. The class `Frame` is the data frame
  that the main block updates one step at a time.
- **The cleaning script** (`kijiji_rentals_clean.py`). It derives the default
  output file name and drops rows through a chain of quality filters. It then
  drops duplicate (AdId, Poster, City, Price) keys, keeping the first (`clean.dfy`).

Shared pieces:
- `strings.dfy`: Python's `split`/`join` normalisation, `replace`,
  `split(sep)[-1]`, digits and decimal numbers.
- `sequences.dfy`: subsequences and filters.
- `tabular.dfy`: pandas `drop_duplicates(keep='first')`.
- `wrappers.dfy`: `Option` and `Result`.

The processing script's live code is the main block, `anonymize_values` and
`get_coordinates` (kijiji_rentals_process.py:81-112, called at line 184).
`get_coordinates` queries a geocoding service and is left out (see below).
`beds_map`, `number_map`, `price_not_listed`, the pattern helpers and the
column derivations after the description step sit inside string literals
(kijiji_rentals_process.py:42-78 and 199-298). They never run, so they are not
modelled.

## Model

| member | source | states |
|---|---|---|
| Anonymize.Unique | kijiji_rentals_process.py:116 | `series.unique()` holds every value of the column, only values of the column, each once |
| Anonymize.AnonymizeValues | kijiji_rentals_process.py:115-118 | one id per cell, each below the number of distinct values, and the distinct value at that position is the cell's value |
| Anonymize.AnonymizeConsistent | kijiji_rentals_process.py:116-117 | two cells get the same id exactly when they hold the same value |
| Anonymize.AnonymizeOnto | kijiji_rentals_process.py:116-117 | every id below the number of distinct values is given to some cell |
| Anonymize.AnonymizeFirstAppearance | kijiji_rentals_process.py:116 | a value first seen at position i gets the number of distinct values seen before i; the first cell gets 0 |
| Process.AnonymizeColumn | kijiji_rentals_process.py:115-118 | a column of any dtype becomes an integer column of the same length with no missing cell and no negative id, and two cells get the same id exactly when they hold the same value |
| Process.AnonymizeStep | kijiji_rentals_process.py:141-147 | fails exactly when the column is absent (KeyError); otherwise only that column changes, to its ids |
| Process.AnonymizeIds | kijiji_rentals_process.py:141-147 | succeeds exactly when Poster, AdURL and AdId all exist; those three become ids and every other column is unchanged |
| Process.ProcessAnonymizes | kijiji_rentals_process.py:141-147 | after a whole run, two rows of Poster, AdURL or AdId share an id exactly when their raw values are equal, whatever the raw column's dtype |
| Process.CastAll | kijiji_rentals_process.py:155 | a column conversion succeeds exactly when every cell converts; the result is cell by cell, and a failure is that of the first failing cell |
| Strings.StripPriceSpec | kijiji_rentals_process.py:150-151 | after stripping, no '$' and no ',' remain; every other character is kept as often as it occurs, and in its order |
| Strings.RemoveCharSpec | kijiji_rentals_process.py:150-151 | removing one character removes every occurrence of it and keeps every other character, with its count and order |
| Strings.StripPriceIdempotent | kijiji_rentals_process.py:150-151 | stripping an already stripped price changes nothing |
| Process.CleanPrice | kijiji_rentals_process.py:150-155 | a missing cell stays missing; after stripping, exactly "Please Contact", "Free" and "Swap/Trade" become missing; any other text is the number `float()` reads from it, or an error when it does not read as one |
| Process.CleanPriceThousands | kijiji_rentals_process.py:150-155 | "$" digits "," digits reads as the number of the digits joined: "$1,200" is 1200 |
| Strings.ParseDecimalSpec | kijiji_rentals_process.py:155 | `float()` on plain decimal notation: a text reads as a number exactly when it is an optional sign, digits, and an optional point with digits, with at least one digit; the number is the one that text denotes |
| Process.CleanPriceDecimal | kijiji_rentals_process.py:150-155 | a price whose stripped text is a decimal text becomes the number it denotes: "$1,250.50" is 1250.5 |
| Strings.ParseDecimalDigits | kijiji_rentals_process.py:155 | a run of digits reads as the number it spells |
| Process.PriceStep | kijiji_rentals_process.py:150-155 | only Price changes, and it becomes a numeric column |
| Process.ProcessPrices | kijiji_rentals_process.py:150-155 | after a whole run, each Price cell is what CleanPrice makes of the raw cell |
| Process.TimeCell | kijiji_rentals_process.py:158 | a missing cell or a NaT text gives NaT; otherwise the cell is the parsed time, and a text the format rejects is an error |
| Process.TimeColumn | kijiji_rentals_process.py:158 | the conversion succeeds exactly when the column exists, is text and every cell converts; then only that column changes, cell by cell to TimeCell of the raw cell |
| Process.PostingDateStep | kijiji_rentals_process.py:158 | only PostingDate changes |
| Process.ProcessPostingDates | kijiji_rentals_process.py:158 | after a whole run, each PostingDate cell is the `%Y-%m-%dT%H:%M:%S` reading of the raw cell |
| Dates.ParsePostingDate | kijiji_rentals_process.py:158 | a text that parses names a valid time in the pandas timestamp range, and is exactly that time written as `%Y-%m-%dT%H:%M:%S` with zero-padded fields |
| Dates.ParsePostingDateSpec | kijiji_rentals_process.py:158 | a text parses to a time exactly when the time is representable and the text is that time written as `%Y-%m-%dT%H:%M:%S` |
| Dates.PadDigitsOfValue | kijiji_rentals_process.py:158 | a field of digits is what zero-padding its number to the field's width writes |
| Dates.PostingDateRoundTrip | kijiji_rentals_process.py:158 | a representable time written as `%Y-%m-%dT%H:%M:%S` parses back to itself |
| Process.YesNo | kijiji_rentals_process.py:164 | "Yes" gives 1, "No" gives 0, and anything else, missing included, gives missing (each as an if-and-only-if) |
| Process.BinarizeColumn | kijiji_rentals_process.py:161-165 | a column holding "Yes" or "No" becomes 1/0/missing cell by cell; any other column is unchanged; none holds "Yes"/"No" afterwards |
| Process.BinarizeAll | kijiji_rentals_process.py:161-165 | the pass keeps every column and its length, and leaves no column holding "Yes" or "No" |
| Process.BinarizeAllIdempotent | kijiji_rentals_process.py:161-165 | a second Yes/No pass changes nothing |
| Process.Frame.BinarizeYesNo | kijiji_rentals_process.py:161-165 | the in-place loop over `df.columns` leaves the frame's columns equal to BinarizeAll of the old ones |
| Process.ProcessNoYesNo | kijiji_rentals_process.py:161-191 | after a whole run, no column holds "Yes" or "No" |
| Process.LateStepsNoYesNo | kijiji_rentals_process.py:168-191 | the conversions after the Yes/No pass bring no "Yes"/"No" back (lower-casing leaves no capital letter) |
| Dates.ParseMoveInDate | kijiji_rentals_process.py:169 | a text that parses as `%B-%d,-%Y` names a valid, representable midnight; the text is a month token without '-', then "-", a day token without ',', then ",-" and a year token, and the time is the midnight those three tokens read as |
| Dates.MonthFrom | kijiji_rentals_process.py:169 | `%B` reads the month whose name matches the token, ignoring case, and fails when no name matches |
| Dates.DayOf | kijiji_rentals_process.py:169 | `%d` accepts exactly one or two digits from 1 to 31, or a blank and a digit from 1 to 9, and reads the number they spell: "07", " 7" and "7" are 7 |
| Dates.YearOf | kijiji_rentals_process.py:169 | `%Y` accepts exactly four digits and reads the number they spell, a year from 0 to 9999 |
| Dates.DayYearRoundTrip | kijiji_rentals_process.py:169 | `%d` reads back a day from 1 to 31 written with or without a leading zero, and `%Y` a year written with four digits |
| Dates.MoveInPieces | kijiji_rentals_process.py:169 | a text month "-" day ",-" year parses as the midnight of the three fields |
| Dates.MoveInDateRoundTrip | kijiji_rentals_process.py:169 | a representable midnight written as month name (any case) "-" day ",-" year parses back to itself |
| Dates.MoveInDateFormatted | kijiji_rentals_process.py:169 | the same round trip with the English month name |
| Dates.MoveInDateExample | kijiji_rentals_process.py:169 | "March-14,-2024" gives 2024-03-14 at midnight |
| Process.MoveInStep | kijiji_rentals_process.py:168-169 | without Move-In-Date the table is unchanged; with it, the step succeeds exactly when the column is text and every cell reads as `%B-%d,-%Y` or NaT, and only that column changes, cell by cell to its midnight |
| Strings.FirstDigitRun | kijiji_rentals_process.py:174 | `(\d+)` finds nothing exactly when there is no digit, and otherwise the maximal run starting at the first digit |
| Process.ParkingCount | kijiji_rentals_process.py:172-175 | "Not-Available" counts 0; otherwise the count is missing exactly when the text has no digit, and is the number the first run of digits spells; a count is never negative |
| Process.ParkingCountDigits | kijiji_rentals_process.py:172-175 | a text whose first digits form the run d counts the number d spells, wherever it stands: "2 spots" and "Spots: 2" are 2 |
| Process.ParkingStep | kijiji_rentals_process.py:171-175 | without Parking-Included the table is unchanged; with it, the step succeeds exactly when the column is text, and only that column changes, cell by cell to ParkingCount of the raw cell |
| Strings.LowerSpec | kijiji_rentals_process.py:191 | lower-cased text has no capital letter, lower-casing is idempotent, and only capitals change |
| Process.DescriptionStep | kijiji_rentals_process.py:191 | succeeds exactly when Description exists and is text; only Description changes, cell by cell to the raw text lower-cased |
| Process.LateSteps | kijiji_rentals_process.py:168-191 | Move-In-Date, Parking-Included and Description are the only columns that change, and each becomes its cell-by-cell conversion of the column it was given |
| Process.ConvertedLate | kijiji_rentals_process.py:161-191 | the late conversions act on the raw Move-In-Date, Parking-Included and Description columns, which the Yes/No pass cannot have touched in a run that succeeds |
| Process.ProcessMoveInDates | kijiji_rentals_process.py:168-169 | after a whole run, each Move-In-Date cell is the `%B-%d,-%Y` reading of the raw cell |
| Process.ProcessParking | kijiji_rentals_process.py:171-175 | after a whole run, each Parking-Included cell is the count of the raw cell |
| Process.ProcessDescription | kijiji_rentals_process.py:191 | after a whole run, each Description cell is the raw text lower-cased |
| Process.ConvertColumns | kijiji_rentals_process.py:150-191 | a column that no step names and that holds no "Yes"/"No" comes through unchanged; no row or column is added or lost |
| Process.ProcessTable | kijiji_rentals_process.py:122-191 | a successful run of the modelled steps keeps every column and every row count (the Longitude and Latitude columns of the geocoding step are left out) |
| Process.Frame.Apply | kijiji_rentals_process.py:141-191 | one assignment to the frame: the step's table on success, the old columns and the error on failure |
| Process.Frame.Run | kijiji_rentals_process.py:122-191 | the in-place main block leaves the frame equal to ProcessTable of the old columns, or returns ProcessTable's error |
| Strings.NormalizeSpaceShape | kijiji_rentals_scraper.py:40 | `' '.join(s.split())` has no leading, trailing or doubled whitespace, and every blank is a single ' ' |
| Strings.NormalizeSpaceIdempotent | kijiji_rentals_scraper.py:40 | normalising twice is normalising once |
| Strings.NormalizeSpaceKeepsText | kijiji_rentals_scraper.py:40 | normalising keeps every non-whitespace character, in order |
| Strings.WordsOfJoin | kijiji_rentals_scraper.py:40 | splitting words joined by single blanks gives the words back |
| Strings.NormalizedFixed | kijiji_rentals_scraper.py:40 | a text that is already normalised is its own `' '.join(s.split())` |
| Strings.RemoveAllAbsent | kijiji_rentals_scraper.py:47 | `replace(p, '')` changes nothing when `p` does not occur |
| Strings.RemoveAllAfter | kijiji_rentals_scraper.py:47 | `replace(p, '')` keeps the text before the first occurrence of `p`, drops that occurrence, and goes on removing after it |
| Strings.NormalizedJoinBlank | kijiji_rentals_scraper.py:40 | two normalised, non-empty texts joined by one blank are normalised |
| Strings.LastPieceSpec | kijiji_rentals_scraper.py:55 | `split(sep)[-1]` holds no `sep`, is preceded by `sep` when `sep` occurs, and is the whole text otherwise |
| Scraper.AfterLabel | kijiji_rentals_scraper.py:55 | "Bedrooms: 2" gives "2": the text after a label and ": " is the value when the value holds no ": " |
| Scraper.Required | kijiji_rentals_scraper.py:44-48 | a required element fails exactly when it is absent; otherwise it gives `' '.join(text.split())` of its text, which is normalised |
| Scraper.Optional | kijiji_rentals_scraper.py:50-57 | an optional element gives `''` when absent and `' '.join(text.split())` of its text otherwise |
| Scraper.BuildListing | kijiji_rentals_scraper.py:38-62 | an ad fails exactly when its title is absent, or when it is not a "Wanted: " ad and a required element is absent; it is skipped exactly when it is a "Wanted: " ad; otherwise the row's Title and Description are the normalised texts, Price the normalised text without '$' and ',', Date the run's stamp, Location the normalised location with the normalised date-posted text removed, NearestIntersection the normalised text or "", Bedrooms what follows the last ": " of the normalised text or "", and Link the site address followed by the href |
| Scraper.BuildListingOfPage | kijiji_rentals_scraper.py:38-62 | for a row whose texts are normalised, whose price holds no '$' or ',', whose bedrooms hold no ": " and whose location does not hold the date-posted text, the ad showing those texts reads back as that same row |
| Scraper.BuildListingOfDatedPage | kijiji_rentals_scraper.py:38-62 | when the location element shows the place, a blank and the date-posted text, and that text does not occur earlier, the row's Location is the place followed by the blank, and the ad reads back as the row holding it |
| Scraper.PlainTextsFixed | kijiji_rentals_scraper.py:40-57 | normalised texts, a price without '$' or ',' and bedrooms without ": " are read back unchanged |
| Scraper.ScrapedPriceStripped | kijiji_rentals_scraper.py:44 | stripping a collected price again changes nothing |
| Scraper.DateStampInjective | kijiji_rentals_scraper.py:45 | two runs write the same Date exactly when they fall on the same day |
| Scraper.Collect | kijiji_rentals_scraper.py:37-62 | the loop yields at most one row per ad |
| Scraper.CollectRows | kijiji_rentals_scraper.py:37-62 | every collected row is one the per-ad step produced |
| Scraper.CollectComplete | kijiji_rentals_scraper.py:42-43 | without a failure, the rows come from exactly the ads that are not skipped, one each and in ad order |
| Scraper.CollectStops | kijiji_rentals_scraper.py:37-62 | a run fails exactly when some ad fails; the error is that of the first failing ad, and the rows are those of the ads before it |
| Scraper.CollectAppend | kijiji_rentals_scraper.py:99-128 | collecting page after page into the same table is collecting their concatenation; a failure ends everything |
| Scraper.HarvestAds | kijiji_rentals_scraper.py:35-66 | every row collected from ads satisfies the row properties of BuildListing |
| Scraper.HarvestComplete | kijiji_rentals_scraper.py:42-43 | without a failure, the rows are the listings of exactly the ads that are not "Wanted: " ads, in order |
| Scraper.FlattenAppend | kijiji_rentals_scraper.py:99-128 | the ads of two runs of pages are the ads of the first run followed by those of the second |
| Scraper.AdTable.AppendRows | kijiji_rentals_scraper.py:37-62 | the loop appends the collected rows to the table and returns the failure that stopped it |
| Scraper.AdTable.CollectAdInfo | kijiji_rentals_scraper.py:35-66 | `collect_ad_info` appends exactly HarvestAds' rows to `df_new` and reports its failure |
| Tabular.DropDuplicatesSpec | kijiji_rentals_scraper.py:134-135 | `drop_duplicates(keep='first')` keeps an order-preserving subsequence, one row per key, every key, and for each key its earliest row (by value) |
| Tabular.DropDuplicatesSnoc | kijiji_rentals_scraper.py:134-135 | `drop_duplicates(keep='first')` of no rows is empty, and one more row is appended exactly when no earlier row has its key; the two equations fix the result, positions included |
| Tabular.DropDuplicatesKeepsPrefix | kijiji_rentals_scraper.py:132-134 | rows with distinct keys in front all survive, in front |
| Scraper.MergeSpec | kijiji_rentals_scraper.py:132-135 | the merged table is a subsequence of saved then new rows, with distinct Links and distinct Titles; the first row of each Link has its Title represented; every kept row is the first row with its Link, and the first with its Title among the rows the Link pass kept |
| Scraper.MergeAddOne | kijiji_rentals_scraper.py:132-135 | one more new row is appended to the merged table exactly when no earlier row has its Link and no row kept by the Link pass has its Title; otherwise the later duplicate is the one dropped |
| Scraper.MergeKeepsSaved | kijiji_rentals_scraper.py:132-135 | saved rows with distinct Links and Titles all stay, first and in order |
| Scraper.MergeAppendsNew | kijiji_rentals_scraper.py:132-135 | new rows that repeat no Link and no Title are all appended |
| Scraper.MergeRerun | kijiji_rentals_scraper.py:132-135 | a run that finds nothing new leaves a merged table as it is |
| Scraper.Update | kijiji_rentals_scraper.py:96-138 | the main program collects the ads of every page in order; on success it yields the merge of the saved rows with them, and on the first failing ad it yields that failure and writes nothing |
| Clean.OutputName | kijiji_rentals_clean.py:23-24 | a given name is kept; otherwise the name is the input name with every "_processed.csv" removed, cut just before its first '_' (or kept whole when it has none), followed by "_cleaned.csv" |
| Clean.OutputNameOfProcessed | kijiji_rentals_clean.py:23-24 | stem "_processed.csv" gives stem "_cleaned.csv" when the stem holds no '_' |
| Clean.OutputNameExample | kijiji_rentals_clean.py:23-24 | "ads_processed.csv" gives "ads_cleaned.csv" |
| Clean.PriceCap | kijiji_rentals_clean.py:100 | `max(q, 10000)` is at least 10000 and at least q when q is not NaN, and NaN when q is NaN |
| Clean.PassesAllQualifies | kijiji_rentals_clean.py:100-116 | passing every filter of the chain means a price present and at most the cap, PricePerBedroom present and finite, PricePerSqFt present, UnitType and Agreement-Type present and not "False", City and RentalCategory present |
| Sequences.ChainFilter | kijiji_rentals_clean.py:100-116 | filters applied one after the other equal one filter on their conjunction |
| Clean.FilteredSpec | kijiji_rentals_clean.py:100-116 | the filter chain keeps exactly the qualifying rows, in order |
| Sequences.FilterSnoc | kijiji_rentals_clean.py:100-116 | filtering one more element appends it exactly when it is kept |
| Clean.FilteredSnoc | kijiji_rentals_clean.py:100-116 | the filter chain of no rows is empty, and one more row is appended exactly when it qualifies |
| Clean.CleanSpec | kijiji_rentals_clean.py:100-120 | the cleaned table is an order-preserving subsequence of the input; all its rows qualify; no two share (AdId, Poster, City, Price); every qualifying row's key is kept, by the earliest qualifying row with that key; the result equals `drop_duplicates` of the qualifying rows |
| Clean.CleanSnoc | kijiji_rentals_clean.py:100-120 | cleaning no rows gives none; one more input row is appended to the cleaned table exactly when it qualifies and no earlier qualifying row has its (AdId, Poster, City, Price) key |
| Clean.CleanQualifies | kijiji_rentals_clean.py:100-116 | every cleaned row qualifies |
| Tabular.DropDuplicatesIdempotent | kijiji_rentals_clean.py:119 | dropping duplicates twice is dropping them once |
| Clean.CleanIdempotent | kijiji_rentals_clean.py:100-120 | cleaning a cleaned table again with the same cap changes nothing |

## Left out

- Network and HTML: fetching pages, BeautifulSoup lookups, the `page_number` and "Next" lookups, and the `htmlerror.txt` dumps (kijiji_rentals_scraper.py:79-128). The ads of each page are parameters of `Scraper.Update`.
- Geocoding: `get_coordinates` with Nominatim and the retry loop that calls it (kijiji_rentals_process.py:81-112 and 176-186). This code is live: the run adds Longitude and Latitude columns, fills them from the service, and casts them to `float32`. The service is external and the loop need not end, so the model's result has neither column.
- Process.ProcessTable: the table it returns lacks the Longitude and Latitude columns the real run adds, because geocoding is left out (above).
- Reading and writing CSV files, `argparse`, `os.path.isfile`, `print`, `tqdm` and `matplotlib`. These are I/O.
- pandas' column type inference on read. The raw table is given with typed columns. A column that pandas would read as numbers is not modelled as text; for example, a column whose cells are all empty is read as all-NaN floats. Converting such a column to times is an error in the model, but pandas gives NaT.
- Writing the merged table to CSV and reading it back on the next run turns empty texts into NaN. `Scraper.Merge` compares texts as they were written.
- Scraper.Update: the clock reading (`datetime.now()`) is a parameter, and only its calendar date is used.
- The dtype table of the cleaning script (kijiji_rentals_clean.py:26-83 and 92). Its library casting rules are not modelled.
- Strings.ParseDecimal: Python's `float()` grammar is modelled as an optional sign, digits and one optional point. Exponents, "inf"/"nan", underscores and surrounding blanks are treated as errors.
- Process.PriceStep: Price is cast to `float32` and Parking-Included to `float16` (kijiji_rentals_process.py:155 and 175). The model keeps exact values and does not round.
- Process.AnonymizeColumn: the ids are unbounded and are not truncated to `int32`; a column would need over 2^31 distinct values for the two to differ.
- Process.TimeCell: `utc=True` is taken as "naive times are UTC", so no time zone shift is modelled.
- Dates.ParsePostingDate: only the exact 19-character form is read. Any other spelling that pandas' ISO parser might accept, such as fractional seconds or a zone suffix, is treated as an error.
- Process.BinarizeColumn: `'Yes' in df[c].values` is modelled as true only for text columns holding "Yes" or "No". numpy's comparison of a string with numeric or time arrays is not modelled.
- Strings.LowerSpec: only ASCII capitals are lower-cased. Python's full Unicode case mapping is not modelled.
- Clean.PriceCap: the 0.99 quantile is a parameter `q` and is not computed from the prices (kijiji_rentals_clean.py:100).
- Floating point: `float64` cells are NaN, ±infinity or an exact real. The sign of zero and rounding are not modelled.
- Clean.PassesAllQualifies: only UnitType and Agreement-Type are compared with "False", as in the code (kijiji_rentals_clean.py:108 and 111). PricePerBedroom is checked only for NaN and infinity.
- kijiji_rentals_process.py:42-78 and 199-298 hold `beds_map`, `number_map` and the pattern helpers as dead code inside string literals. They never run and are not modelled.
- Strings.FirstDigitRun: `\d` in `(\d+)` and in pandas' `%d`/`%Y` patterns matches any Unicode decimal digit, and `float()`/`int()` read such digits. The model accepts ASCII digits only, here and in Dates.DayOf, Dates.YearOf and Strings.ParseDecimalSpec.
- Dates.MonthFrom: `%B` is matched ignoring case by Unicode case rules. The model lower-cases ASCII letters only.
- Clean.PassesAllQualifies: the rows are given with every column the filters read. The script indexes fixed columns (`df['UnitType']` and the others, kijiji_rentals_clean.py:100-119) and raises KeyError when one is absent; that error is not modelled.
