# fara-scraper, modelled in Dafny

fara-scraper is a Scrapy crawler for the foreign principals registered under the
Foreign Agents Registration Act (FARA). It reads them from the Department of
Justice's eFile site, which is an Oracle APEX application. A crawl goes through
four steps:

1. **Landing page.** The spider reads the session's hidden form fields
   (`p_flow_id`, `p_flow_step_id`, `p_instance`, and the worksheet and report ids
   sent as `x01` and `x02`). It also reads the record total from the pagination
   caption (`"1 - 15 of 512"`). Any missing or ambiguous field raises one of the
   repository's exceptions.
2. **Request bodies.** It builds one POST body per page window. Each body is a copy
   of the session fields with the APEX paging fields set on top.
3. **Main listing.** Each row of the listing becomes a record:
   - the detail link, with the session segment of its URL blanked;
   - the name, the address lines, the state, the registrant, the registration
     number and the date;
   - the country, found through the number at the end of the name cell's
     `headers` attribute.
4. **Exhibit page.** Each record is completed with the URL of an exhibit document.
   With several candidate rows, the candidate is chosen by the best name-match
   score, then by the latest date. The record then goes through the item loader:
   - text fields are cleaned of non-breaking spaces and blanks;
   - the address lines are joined;
   - the date is converted from `MM/DD/YYYY` to an ISO-8601 timestamp.

## Modules

- `Wrappers` provides `Option` and `Result`, the model's stand-ins for Python's
  `None` and for raised exceptions.
- `FaraExceptions` has one error constructor per exception class. It adds three
  constructors for errors the code lets the date library, the string matcher or the
  interpreter raise.
- `Text` holds the Python `str` operations the code relies on: `strip`,
  `replace`, `split`, `join`, `str(int)` and `int(str)`.
- `Dates` covers the `MM/DD/YYYY` parser, the ISO rendering and chronological order.
- `Selectors` covers `extract_first`. Everything else a markup query returns is
  taken as the list of strings it extracts.
- `Items` holds `strip_string`, the input and output processors, and the item
  loader class `FaraForeignPrincipalItemLoader` with its `add_value` and
  `load_item`.
- `Pagination` specifies the page windows and the request bodies.
- `StableSort` is Python's stable `sorted(..., reverse=True)`. `ExhibitSelection`
  is the exhibit choice, including the two-pass sort and its proof.
- `RowExtraction` covers the rows of the main listing.
- `Spider` is the spider class. Its fields `apexMetadata` and `totalRecords` are
  updated in place by `SetMetadataFromInitialPageTable`. It also has the request-body
  generator and the exhibit-page callback.

### Where the repository's description and its code differ

The model follows the code in each of these cases:

- **Non-integer record total.** When the total in the caption is not an integer,
  the code prints a message and leaves `total_records` as it was. It raises no error.
- **Date that does not parse.** The error is not one of the repository's
  exceptions: it is the date library's own, which Scrapy's input processor may
  re-raise as `ValueError`. The model uses `DateParseError`.
- **Country id.** The country id is read from the name cell's `headers` attribute:
  the second space-separated token, then its last `_`-separated piece.
- **Short detail link.** A link with fewer than three `:`-separated segments makes
  the code raise `IndexError`. The model uses `MalformedMarkupError`.
- **Output processor.** `TakeFirst` skips empty strings as well as `None`.
- **Missing date.** A row with no date makes the date input step produce nothing,
  so the loaded item has no `date` field.

## Model

Paths are relative to the repository root.

| member | source | states |
|---|---|---|
| `Spider.ParseApexXpathElement` | fara_foreign_principals/spiders/foreign_principals_spider.py:73-98 | Succeeds exactly when the selector exists and holds one value, and returns that value. A missing selector and an empty one both give `ApexFieldMissingError`. Several values give `ApexFieldMultipleValuesError` with those values. |
| `Spider.CheckIfSelectorEmpty` | fara_foreign_principals/spiders/foreign_principals_spider.py:102-111 | Reports an error exactly when the selector is missing or extracts nothing. The error is `SelectorEmptyError` for the given field. |
| `Spider.NonEmptyHasValue` | fara_foreign_principals/spiders/foreign_principals_spider.py:83-111 | A selection that passes the emptiness check never gives `ApexFieldMissingError`: its value is returned, or the multiple-values error is raised. |
| `Spider.ParseTotalRecords` | fara_foreign_principals/spiders/foreign_principals_spider.py:168-184 | Succeeds exactly when there is one caption text and its stripped form splits on `of` into exactly two parts. Any other number of texts raises `UnexpectedValueError` with the texts; any other number of parts raises it with the parts. On success, the two parts rejoin to the stripped caption, and the result is the integer parse of the stripped second part. |
| `Spider.ParseTotalRecordsOfCaption` | fara_foreign_principals/spiders/foreign_principals_spider.py:174-182 | For every integer `n`, a caption `"<range>of <n>"` yields `n`, when its range holds no `of` and does not start with a blank. |
| `Spider.ApexMetadataOf` | fara_foreign_principals/spiders/foreign_principals_spider.py:123-159 | Succeeds exactly when the form and the worksheet are present and each of the five form fields holds one value. A missing form raises `SelectorEmptyError("wwvFlowForm")` first, then a missing worksheet `SelectorEmptyError("apexir_WORKSHEET")`. Otherwise the first field, in source order, that fails raises its own error. On success, the metadata has exactly the five request keys, each holding the value of its own field. |
| `Spider.TotalRecordsOf` | fara_foreign_principals/spiders/foreign_principals_spider.py:161-184 | A missing data panel raises `SelectorEmptyError("apexir_data_panel")`. With the panel, a missing caption raises `SelectorEmptyError("fielddata(total_records_string)")`. With both, the result is the parse of the caption texts. |
| `Spider.LandingPageReadsTotal` | fara_foreign_principals/spiders/foreign_principals_spider.py:123-184 | A landing page with both containers, one value per form field, a data panel and a caption `"<range>of <n>"` yields the metadata of those five values and the record total `n`. |
| `Spider.MetadataKeysArePaging` | fara_foreign_principals/spiders/foreign_principals_spider.py:38-57 | The session keys and the paging keys are disjoint, so setting the paging fields never overwrites a session field. |
| `Spider.GeneratedBodyContents` | fara_foreign_principals/spiders/foreign_principals_spider.py:32-59 | With the metadata of a landing page, body `i` of the generator keeps every session field, adds the paging keys, asks for a full page or the rows left (at least one), and has the action modifier of the window starting at row `1 + i * rowsPerPage`. |
| `Spider.ForeignPrincipalsSpider.constructor` | fara_foreign_principals/spiders/foreign_principals_spider.py:27-30 | A new spider has neither metadata nor a record total. |
| `Spider.ForeignPrincipalsSpider.SetMetadataFromInitialPageTable` | fara_foreign_principals/spiders/foreign_principals_spider.py:114-184 | A metadata error is raised with both fields unchanged. Otherwise the metadata is stored before the total is looked for. A total error keeps the old total. An integer total replaces it. A non-integer total keeps it and raises nothing. |
| `Spider.ForeignPrincipalsSpider.GetNextPagePostBodyGenerator` | fara_foreign_principals/spiders/foreign_principals_spider.py:32-59 | Yields one body per page window, in order, and each body is the request body of its window. |
| `Spider.PagePostBody` | fara_foreign_principals/spiders/foreign_principals_spider.py:38-57 | The body built for a window is that window's request body. |
| `Spider.LoadedItem` | fara_foreign_principals/spiders/foreign_principals_spider.py:274-279 | The loader built for a row: the row's entries go through their input steps, then the item is the output values. A loaded item names only declared fields. |
| `Spider.LoadedItemFails` | fara_foreign_principals/spiders/foreign_principals_spider.py:274-279 | A row whose date does not parse yields no item, only the date parser's error. |
| `Spider.LoadedItemFields` | fara_foreign_principals/spiders/foreign_principals_spider.py:274-279 | Any other row loads. The item has only declared fields. Each text field is its cleaned text. The address is the cleaned `, ` join, absent when the join is empty. The date is the ISO timestamp, absent when the row has none. |
| `Spider.ExtractDataFromExhibitUrlPage` | fara_foreign_principals/spiders/foreign_principals_spider.py:238-279 | The result is the exhibit URL chosen for the page followed by the loaded item, or the first error on the way. |
| `Pagination.Windows` | fara_foreign_principals/spiders/foreign_principals_spider.py:36-58 | There are windows only while the first row is within the total, and the first window starts at that row. |
| `Pagination.WindowsCountFrom` | fara_foreign_principals/spiders/foreign_principals_spider.py:37-58 | From any row, the windows are the fewest pages that cover the rows left. |
| `Pagination.WindowsCount` | fara_foreign_principals/spiders/foreign_principals_spider.py:36-58 | With a positive page size there are ceil(total / page size) windows, and none for a total below 1. |
| `Pagination.WindowAt` | fara_foreign_principals/spiders/foreign_principals_spider.py:44-58 | Window `i` starts `i` pages after the first row and asks for the page size, or for the rows left when fewer remain. |
| `Pagination.WindowBounds` | fara_foreign_principals/spiders/foreign_principals_spider.py:44-55 | Every window asks for at least one row and at most a page. |
| `Pagination.RowsRequestedFrom` | fara_foreign_principals/spiders/foreign_principals_spider.py:44-58 | The windows from a row on ask for exactly the rows from there to the end. |
| `Pagination.RowsRequestedTotal` | fara_foreign_principals/spiders/foreign_principals_spider.py:44-58 | All windows together ask for every row once. |
| `Pagination.LastWindow` | fara_foreign_principals/spiders/foreign_principals_spider.py:51-57 | The last window asks for the remainder of the division, or a full page when there is none. |
| `Pagination.PagingFieldsContents` | fara_foreign_principals/spiders/foreign_principals_spider.py:38-43 | The body has the session keys plus the paging keys. Every session field the paging does not set keeps its value. The four fixed paging values are `APXWGT`, `worksheet`, `ACTION` and `PAGE`. |
| `Pagination.PagePayloadContents` | fara_foreign_principals/spiders/foreign_principals_spider.py:38-57 | As above. In addition, the row count reads back as the window's count, and the action modifier is that of the window. |
| `Pagination.PayloadsContents` | fara_foreign_principals/spiders/foreign_principals_spider.py:37-59 | Body `i` of a list of windows has the session keys plus the paging keys, keeps every session field the paging does not set, has the four fixed paging values, and reads back the row count and action modifier of window `i`. |
| `Pagination.WindowBodyContents` | fara_foreign_principals/spiders/foreign_principals_spider.py:36-59 | With session fields the paging keys do not name, body `i` of all the windows keeps every session field and asks for page `i`: from row `1 + i * rowsPerPage`, a full page or the rows left, at least one row. |
| `Selectors.ExtractFirst` | fara_foreign_principals/spiders/foreign_principals_spider.py:194 | The result is None exactly for an empty extraction, and otherwise its first value. |
| `RowExtraction.StripSessionSegment` | fara_foreign_principals/spiders/foreign_principals_spider.py:196-198 | Succeeds exactly when the link has at least three `:` segments. A shorter link fails with that link as the malformed markup. |
| `RowExtraction.StripSessionSegmentSegments` | fara_foreign_principals/spiders/foreign_principals_spider.py:196-198 | The rewritten link has the same `:` segments as the original, except the third, which is empty. |
| `RowExtraction.StripSessionSegmentIdempotent` | fara_foreign_principals/spiders/foreign_principals_spider.py:196-198 | Rewriting an already rewritten link changes nothing. |
| `RowExtraction.DetailUrl` | fara_foreign_principals/spiders/foreign_principals_spider.py:194-201 | No link gives no URL. A link succeeds exactly when its session segment can be blanked, and the URL is then the join of the rewritten link. |
| `RowExtraction.CountryNumberId` | fara_foreign_principals/spiders/foreign_principals_spider.py:223-224 | Succeeds exactly when the attribute exists and has at least two space-separated tokens. A missing attribute or a single token fails, naming the attribute text it could not index. A successful id holds no `_`. |
| `RowExtraction.CountryNumberIdOfSplits` | fara_foreign_principals/spiders/foreign_principals_spider.py:223-224 | For every attribute with at least two tokens, the id is the last `_`-separated piece of the second token. |
| `RowExtraction.CountryNumberIdOfJoin` | fara_foreign_principals/spiders/foreign_principals_spider.py:223-224 | For an attribute made of space-separated tokens whose second token is `_`-joined pieces, the id is the last piece. |
| `RowExtraction.CountryHeadingId` | fara_foreign_principals/spiders/foreign_principals_spider.py:225-228 | The heading id is the 19-character prefix `BREAK_COUNTRY_NAME_` followed by the country id, and nothing else. |
| `RowExtraction.CountryHeadingIdInjective` | fara_foreign_principals/spiders/foreign_principals_spider.py:225-228 | Different country ids name different headings. |
| `RowExtraction.CountryName` | fara_foreign_principals/spiders/foreign_principals_spider.py:225-228 | The country is the first text of the heading with that id, and None exactly when there is no such heading or it has no text. |
| `RowExtraction.RowOfCells` | fara_foreign_principals/spiders/foreign_principals_spider.py:192-228 | A row yields a record exactly when its link and its country id both succeed. The record holds the detail URL, the first name, state, registrant, registration number and date texts, all address lines, and the country of that id. A link error is raised first; with a good link, a country-id error is raised. |
| `RowExtraction.ExtractRow` | fara_foreign_principals/spiders/foreign_principals_spider.py:192-228 | Returns the record of the row, or that row's error. |
| `RowExtraction.ExtractDataFromMainPage` | fara_foreign_principals/spiders/foreign_principals_spider.py:187-235 | The records are those of the leading rows, in order. Without an error, every row has a record. With an error, it is the error of the first row that has no record. |
| `RowExtraction.EntriesFields` | fara_foreign_principals/spiders/foreign_principals_spider.py:203-228 | The record's entries name only declared item fields, each at most once. |
| `Items.DespaceClean` | fara_foreign_principals/items.py:20 | After the two replacements, neither spelling of the non-breaking space is left. |
| `Items.DespaceOfClean` | fara_foreign_principals/items.py:20 | A text with no non-breaking space in either spelling is unchanged by the replacements. |
| `Items.StripString` | fara_foreign_principals/items.py:17-24 | None stays None, and a returned text is never empty. |
| `Items.StripStringClean` | fara_foreign_principals/items.py:20-24 | A returned text holds no non-breaking space in either spelling, and has no blank at either end. |
| `Items.StripStringOfFixed` | fara_foreign_principals/items.py:17-24 | A non-empty text that is already clean and stripped is returned unchanged. |
| `Items.StripStringIdempotent` | fara_foreign_principals/items.py:17-24 | Cleaning twice is cleaning once. |
| `Items.StripStringBlank` | fara_foreign_principals/items.py:20-22 | A text becomes None exactly when, after the escape replacement, it is all whitespace. |
| `Items.ConvertDatesConverts` | fara_foreign_principals/items.py:45-47 | A successful conversion converts every value, in order, to the ISO timestamp of its date. |
| `Items.ConvertDatesFails` | fara_foreign_principals/items.py:45-47 | A failed conversion raises the error of a value that does not parse. |
| `Items.InputValues` | fara_foreign_principals/items.py:27-53 | A plain field's input step always records at least one value, because `IdentityOrNone` turns nothing into `[None]`. The address step always succeeds and records at most the one joined value. |
| `Items.IdentityOrNone` | fara_foreign_principals/items.py:27-31 | The default input step never produces nothing: it keeps a non-empty list of values and turns an empty one into `[None]`. |
| `Items.ConvertDates` | fara_foreign_principals/items.py:45-47 | The date input step converts every value, so a success has one timestamp per value. Any failure is a date-parse error. |
| `Items.TakeFirst` | fara_foreign_principals/items.py:48-54 | The result is the first value that is neither None nor empty, and None exactly when there is none. |
| `Items.OutputValue` | fara_foreign_principals/items.py:48-54 | A field's output value is never the empty string, and it is None when no value is neither None nor empty. The date field takes the first such value; the others clean it with `strip_string`. |
| `Items.OutputValueClean` | fara_foreign_principals/items.py:53-54 | Every output value except the date's holds no non-breaking space in either spelling and has no blank at either end. |
| `Items.AddProcessed` | fara_foreign_principals/spiders/foreign_principals_spider.py:277 | Processed values are appended to the field's collected values. Nothing is recorded for an empty result, and other fields are untouched. |
| `Items.OutputItem` | fara_foreign_principals/items.py:57-61 | The item has exactly the fields with collected values, each holding its output value. |
| `Items.FaraForeignPrincipalItemLoader.constructor` | fara_foreign_principals/spiders/foreign_principals_spider.py:274-275 | A new loader has no values and an empty item. |
| `Items.FaraForeignPrincipalItemLoader.AddValue` | fara_foreign_principals/spiders/foreign_principals_spider.py:277 | The loader's values and the error are those of adding the entries in order, stopping at the first failing input step. The item is untouched. |
| `Items.FaraForeignPrincipalItemLoader.LoadItem` | fara_foreign_principals/items.py:57-61 | Every field with collected values is set to its output value on top of the item, and that item is returned. The values are unchanged. |
| `Items.AddEntriesStops` | fara_foreign_principals/spiders/foreign_principals_spider.py:277 | Once an entry's input step fails, later entries change nothing. |
| `Items.AddEntriesOnlyIfSucceed` | fara_foreign_principals/spiders/foreign_principals_spider.py:277 | Adding raises nothing only if every entry's input step succeeds. |
| `Items.AddEntriesIfSucceed` | fara_foreign_principals/spiders/foreign_principals_spider.py:277 | If every entry's input step succeeds, adding raises nothing. |
| `Items.AddEntriesKeys` | fara_foreign_principals/spiders/foreign_principals_spider.py:277 | Every field with collected values comes from an entry. |
| `Items.AddEntriesDistinct` | fara_foreign_principals/spiders/foreign_principals_spider.py:277 | With distinct fields and no error, each field holds exactly what its own entry's input step produced, and is absent when that was nothing. |
| `Items.TextFieldOutput` | fara_foreign_principals/items.py:53-54 | A plain text field's values read back as the cleaned text. |
| `Items.AddressFieldOutput` | fara_foreign_principals/items.py:37-54 | The address step records nothing exactly when the `, ` join is empty. Otherwise it reads back as the cleaned join. |
| `Items.DateFieldOutput` | fara_foreign_principals/items.py:45-49 | No date records nothing. A date that does not parse raises the parser's error. A parsed date reads back as its ISO timestamp, uncleaned. |
| `Items.TextFieldItem` | fara_foreign_principals/items.py:53-61 | A recorded text field is in the item as its cleaned text. |
| `Items.AddressFieldItem` | fara_foreign_principals/items.py:37-61 | The address is in the item exactly when the join is non-empty, and then as the cleaned join. |
| `Items.DateFieldItem` | fara_foreign_principals/items.py:45-61 | The date is in the item exactly when the row had one, and then as its ISO timestamp. |
| `Dates.ParseUsDate` | fara_foreign_principals/spiders/foreign_principals_spider.py:301-302 | A parsed date is a calendar date. A refusal is a `DateParseError` naming the input. |
| `Dates.ParseFormatUsDate` | fara_foreign_principals/items.py:47 | Every calendar date is read back from its `MM/DD/YYYY` spelling. |
| `Dates.ParsedIsCanonical` | fara_foreign_principals/spiders/foreign_principals_spider.py:302 | The parser accepts only the canonical `MM/DD/YYYY` spelling of the date it returns. |
| `Dates.IsoTimestamp` | fara_foreign_principals/items.py:47 | The timestamp is 25 characters, `YYYY-MM-DD` followed by `T00:00:00+00:00`. |
| `Dates.IsoTimestampFields` | fara_foreign_principals/items.py:46-47 | Year, month and day are read back from their positions in the timestamp. |
| `Dates.OrdinalOrder` | fara_foreign_principals/spiders/foreign_principals_spider.py:306-307 | On calendar dates, the sort key orders chronologically, and equal keys mean equal dates. |
| `StableSort.StableSortDesc` | fara_foreign_principals/spiders/foreign_principals_spider.py:305-309 | Python's stable `sorted(..., reverse=True)`, by repeated insertion. It keeps the length; order, permutation and stability are the lemmas below. |
| `StableSort.StableSortDescSorted` | fara_foreign_principals/spiders/foreign_principals_spider.py:306-309 | The sort's output is in descending key order. |
| `StableSort.StableSortDescPermutes` | fara_foreign_principals/spiders/foreign_principals_spider.py:306-309 | The sort's output is a permutation of its input. |
| `StableSort.StableSortDescMembers` | fara_foreign_principals/spiders/foreign_principals_spider.py:306-309 | The sort keeps exactly the input's elements. |
| `StableSort.StableSortDescOfSorted` | fara_foreign_principals/spiders/foreign_principals_spider.py:306-309 | An input already in descending order is left as it is. |
| `StableSort.InsertDescClass` | fara_foreign_principals/spiders/foreign_principals_spider.py:306-309 | Inserting an element puts it in front of the elements with its key, and keeps the order of the elements of every key. |
| `StableSort.StableSortDescStable` | fara_foreign_principals/spiders/foreign_principals_spider.py:306-309 | Stability: for every key value, the elements with that key appear in the output in their input order. |
| `StableSort.FirstMaxIndex` | fara_foreign_principals/spiders/foreign_principals_spider.py:308-312 | Returns the first index whose key is greatest. |
| `StableSort.HeadIsFirstMax` | fara_foreign_principals/spiders/foreign_principals_spider.py:308-312 | After a stable descending sort, the head is the first element with the greatest key. |
| `StableSort.LexFirstMax` | fara_foreign_principals/spiders/foreign_principals_spider.py:305-312 | Returns the first index that is greatest by the second key, then by the first. |
| `StableSort.TwoPassHead` | fara_foreign_principals/spiders/foreign_principals_spider.py:305-312 | Sorting stably by the first key and then by the second, both descending, puts first the first element that is greatest by the second key, then by the first. |
| `ExhibitSelection.WithUrl` | fara_foreign_principals/spiders/foreign_principals_spider.py:294-295 | Keeps only rows of the page that have a link, and every row when all have one. |
| `ExhibitSelection.WithUrlKeepsLinked` | fara_foreign_principals/spiders/foreign_principals_spider.py:294-295 | Every row with a link is kept, so nothing is kept exactly when no row has a link. A single row is kept exactly when it has a link. |
| `ExhibitSelection.WithUrlAppend` | fara_foreign_principals/spiders/foreign_principals_spider.py:294-295 | Filtering a concatenation filters each part and keeps their order. |
| `ExhibitSelection.Score` | fara_foreign_principals/spiders/foreign_principals_spider.py:295-302 | A row with a link scores exactly when both names are present and its date parses. A missing name raises `StringMatchError` before the date is read. A bad date raises the date's error. The candidate carries the row's URL, its parsed date and the ratio of the two names. |
| `ExhibitSelection.Candidates` | fara_foreign_principals/spiders/foreign_principals_spider.py:293-303 | On success, there is one candidate per row with a link, in page order: the score of that row. On failure, the error is that of the first row with a link that cannot be scored. |
| `ExhibitSelection.CandidatesStops` | fara_foreign_principals/spiders/foreign_principals_spider.py:294-303 | Once a date fails, later rows do not change the outcome. |
| `ExhibitSelection.CandidatesValid` | fara_foreign_principals/spiders/foreign_principals_spider.py:302 | Every candidate carries a calendar date. |
| `ExhibitSelection.BestIndex` | fara_foreign_principals/spiders/foreign_principals_spider.py:286-289 | No candidate beats the chosen one, meaning a higher score, or an equal score and a later date. It beats every candidate before it. |
| `ExhibitSelection.BestIndexUnique` | fara_foreign_principals/spiders/foreign_principals_spider.py:286-289 | Only one candidate has these two properties. |
| `ExhibitSelection.SelectExhibit` | fara_foreign_principals/spiders/foreign_principals_spider.py:283-314 | Fails exactly when scoring fails, with the error of the first row with a link that cannot be scored. Otherwise it gives None exactly when no row has a link. With a link, it returns the link of a row of the page, namely the link of the candidate `BestIndex` ranks first. |
| `ExhibitSelection.DateKeyOrder` | fara_foreign_principals/spiders/foreign_principals_spider.py:306-307 | The date key orders candidates chronologically. |
| `ExhibitSelection.OutranksIsLex` | fara_foreign_principals/spiders/foreign_principals_spider.py:305-309 | Beating is exactly the order the two sort keys decide together. |
| `ExhibitSelection.BestIsLexFirstMax` | fara_foreign_principals/spiders/foreign_principals_spider.py:284-290 | The documented winner is the first candidate greatest by score, then by date. |
| `ExhibitSelection.TwoPassSortSelectsBest` | fara_foreign_principals/spiders/foreign_principals_spider.py:305-312 | Sorting by date and then by score, both descending and stable, puts the documented winner first. |
| `ExhibitSelection.GetExhibitUrlWhenMultiplePresent` | fara_foreign_principals/spiders/foreign_principals_spider.py:283-314 | Scores the rows with a link in a loop, failing at the first row that cannot be scored, and sorts twice. The result is the selection `SelectExhibit` specifies. |
| `ExhibitSelection.ExhibitRowOf` | fara_foreign_principals/spiders/foreign_principals_spider.py:261-270 | The record of one exhibit-page row: each of its link, linked name and date is the first text its query returns, and None exactly when the query returns nothing. |
| `ExhibitSelection.ExhibitUrl` | fara_foreign_principals/spiders/foreign_principals_spider.py:246-272 | No row gives no URL. A single row gives the page's first exhibit link, or None when there is none. Several rows give the selection over those rows' records. |
| `ExhibitSelection.ExhibitUrlOfPage` | fara_foreign_principals/spiders/foreign_principals_spider.py:241-272 | The row-count branching, with the loop that gathers the rows' records, returns `ExhibitUrl`. |
| `Text.StripEmpty` | fara_foreign_principals/items.py:20-21 | `strip()` gives the empty string exactly for an all-whitespace text. |
| `Text.StripIsSlice` | fara_foreign_principals/items.py:20 | `strip()` returns a contiguous slice of its input. |
| `Text.StripOfStripped` | fara_foreign_principals/spiders/foreign_principals_spider.py:180 | A text with no blank at either end is its own `strip()`. |
| `Text.ReplaceAbsent` | fara_foreign_principals/items.py:20 | Replacing a pattern that does not occur changes nothing. |
| `Text.ReplaceRemovesPattern` | fara_foreign_principals/items.py:20 | After `replace`, the pattern no longer occurs, when the replacement cannot rebuild it. |
| `Text.ReplaceCharAt` | fara_foreign_principals/items.py:20 | Replacing one character by another changes exactly the positions that held it. |
| `Text.IndexOf` | fara_foreign_principals/spiders/foreign_principals_spider.py:174 | Finds the first occurrence of the pattern, and None exactly when there is none. |
| `Text.SplitOnPieces` | fara_foreign_principals/spiders/foreign_principals_spider.py:174 | No piece of `split(sep)` contains the separator. |
| `Text.JoinSplit` | fara_foreign_principals/spiders/foreign_principals_spider.py:196-198 | `sep.join(s.split(sep)) == s`. |
| `Text.SplitJoin` | fara_foreign_principals/spiders/foreign_principals_spider.py:224 | Splitting the one-character join of pieces that do not contain that character gives the pieces back. |
| `Text.ParseIntToString` | fara_foreign_principals/spiders/foreign_principals_spider.py:182 | `int(str(n)) == n` for every integer. |
| `Text.IntToStringInjective` | fara_foreign_principals/spiders/foreign_principals_spider.py:45-52 | Different integers print differently. |

## Left out

- **Requests and `parse`** (spiders/foreign_principals_spider.py:62-70, 230-235): the Scrapy `FormRequest` and `Request` objects and their callbacks are not modelled. The operations they chain are modelled, and so is their order. `parse` passes `total_records` both as the total and as the page size, so the crawl asks for a single page.
- **XPath evaluation**: it is not modelled. Each query is taken to be the list of strings it extracts. A container query that can be missing is an `Option` of that list.
- **`difflib.SequenceMatcher(...).ratio()`**: on two names it is taken as the `Ratio` function parameter, and its algorithm is not modelled. A `None` name, on which the matcher raises `TypeError` (or `AttributeError` when both are `None`), is modelled as `StringMatchError`.
- `Dates.ParseUsDate`: `arrow.get(s, 'MM/DD/YYYY')` is modelled as a strict parser of two-digit month, two-digit day and four-digit year, for years 1 to 9999. The library's other tokens, its leniency and its time zones are left out. `isoformat()` is modelled for midnight UTC.
- **`response.urljoin`**: it is a parameter. How URLs are resolved is not modelled.
- **`copy.deepcopy`**: Dafny maps and datatypes are values, so a copy is the value itself.
- **Order of the body fields**: a Python `dict` keeps insertion order, and `FormRequest` encodes the fields in that order. The model's `map` has no order, so the order of the encoded fields is not modelled. No behaviour of the spider depends on it.
- **The multiple-rows selection**: the source mutates the row dictionaries in place, adding the score and replacing the date. The model computes a separate candidate value per row.
- **Exception messages and `print`** (spiders/foreign_principals_spider.py:184): errors carry the field name and the offending values. The formatted text of a message is not modelled.
- **Generator laziness**: the request bodies are returned as a sequence in the order they are yielded.
- **Scrapy's `ItemLoader` machinery**: processor lookup, loader contexts and `Item` field declarations are not modelled generically. Selecting the processor by field name is modelled in `Items.InputValues` and `Items.OutputValue`, and the declared fields in `RowExtraction.FieldNames`.
- **Unicode in `str.strip()`**: it follows Python's `isspace()` table for the characters listed in `Text.Whitespace`. Unicode categories are not derived.
- **The request for an exhibit page whose row has no link** (spiders/foreign_principals_spider.py:231): the URL joined from `None` is not modelled.
- `Spider.ForeignPrincipalsSpider.GetNextPagePostBodyGenerator`: requires a positive page size and stored metadata whenever there is a row to request. The source loops forever for a page size of zero or less, and raises `TypeError` when it assigns into a `None` metadata copy. Neither behaviour is modelled.
- `Spider.ParseTotalRecords`: `int()` is modelled for an optional sign followed by ASCII digits, with surrounding whitespace. Digit-group underscores and non-ASCII digits, which Python also accepts, are not modelled.
- `RowExtraction.CountryNumberId`: a missing `headers` attribute and a header with a single token make the source raise `AttributeError` and `IndexError`. Both are modelled as `MalformedMarkupError`.
- **Nesting of the landing-page queries** (spiders/foreign_principals_spider.py:123-166): the data panel is searched inside the worksheet, and the caption inside the data panel. The model takes each query as an independent input of the page, so it does not relate what they select.
- **`RowExtraction.CountryName`**: the heading query also requires the class `apexir_REPEAT_HEADING` (spiders/foreign_principals_spider.py:226). The model's headings map holds only headings of that class, keyed by id. When several headings share an id, only one of them is kept. The source takes the first in document order.
- The repository's tests are not modelled.
