# GradCafe harvester (module_2), modelled in Dafny

This project models the two-stage GradCafe harvester of `module_2` and
proves properties of it. In the first stage a walker reads the survey
listing page by page and collects one entry per distinct `result_id`. In
the second stage each entry's result page is fetched, its label/value pairs
are read into a dict, and the dicts are merged with the survey entries.
A cleaner then collapses whitespace and renames legacy keys.

`scrape.py` is the canonical version. The earlier variants are modelled
beside it so that their differences can be stated:

| source file | Dafny module | what differs |
|---|---|---|
| `module_2/scrape.py` | `Survey`, `Scrape`, `Merge` | walker with `result_url`/`added_on` keys; the detail dict reads a `dl`'s direct `div`s and a list item's last span; a failed request becomes a `detail_error` record |
| `module_2/scraper2.py` | `Survey`, `Scraper2`, `Merge` | same walker, with `url`/`date_added` keys; the detail search in a `dl` goes to any depth, a list item's value is its second span, and a one-element list is returned; in the main run a failed request ends the run |
| `module_2/scraper.py` | `ResultLinks` | anchor-based `(id, url)` collector; the id pattern is anchored at the end of the href; a page with nothing new does not stop the walk |
| `module_2/test.py` | `SectionFields` | reads only the first `dl` of the first `div.tw-mt-6`; empty labels and values are kept |
| `module_2/test2.py` | `DeepFields` | a deep `div` pass and a flat `dt`/`dd` pass per `dl`; no `result_id` seed |
| `module_2/clean.py` | `Clean` | whitespace collapse and the non-clobbering rename table, applied in place to the harvest's records |

Shared modules:
- `Text`: Python's `isspace`, `strip`, `split()`, `join`, `rstrip(c)`, `get_text(sep, strip=True)` and `str(int)`.
- `Patterns`: the regular expressions, matched by hand.
- `Collections`: first-occurrence deduplication (the `seen` set), the `limit` cut, and `Assoc`. `Assoc` is the dict a sequence of `d[k] = v` writes builds.
- `Web`: the listing as a finite sequence of pages.
- `Markup`: parsed pages.
- `Records`: Python dict records with `None`.
- `Fields`: label/value extraction shared by the detail extractors.

The network is replaced by two values. For the listing, `Site<X>` maps each
page number to a `Listing<X>`: `Ok(rows)` (status 200), `BadStatus` (any
other status) or `Unreachable(message)` (the request raised a transport
error); every page outside the site answers 200 with no rows. For detail pages, `Server`
maps each URL to a `Response(status, page)` or to a `NetworkFailure(message)`.

A walk is specified by the sequence of page numbers it requested. The
entries are the first occurrence of each id on those pages, cut at the
limit. No page before the last one met a stopping condition, and the last
one did, or the next page lies past `end_page`. A walk whose request raised
is specified by `WalkFailed`: the earlier pages answered and did not stop
the walk, and the last one raised the walk's error.

Where the code and the specification of the system disagree, the model
follows the code:
- The code accepts a `limit` of zero or less and returns after the first entry it appends. The specification calls a non-positive limit invalid. `Collections.Cap` models the code.
- In `scraper2.py`'s main run a failed detail request ends the whole run (nothing catches the exception). The specification says a single bad item never aborts a run; only `scrape.py` behaves that way.
- Records are keyed by `result_id`, not by `id` as in the specification's example.
- A listing request that raises a transport error (timeout, DNS failure, connection reset) is not caught by any walker (module_2/scrape.py:94, module_2/scraper2.py:32, module_2/scraper.py:25). The walk raises it, and in scrape.py no `scrape_data` object is made. The specification says a listing transport error is recovered by skipping the page. `Survey.CollectSurveyEntries`, `ResultLinks.CollectResultLinks`, `Scrape.ScrapeData.Create` and `Scraper2.Run` model the code and fail with that error.

## Model

| member | source | states |
|---|---|---|
| Survey.RowEntry | module_2/scrape.py:106-146 | A row is skipped exactly when it has fewer than 3 direct cells, has no `/result/` link, or its href has no `/result/<digits>` match. |
| Survey.RowEntryFields | module_2/scrape.py:117-146 | A kept row's id is a non-empty digit string captured at the leftmost match. Its url is the resolved href; its `added_on` comes from the third cell and its term from the detail row. |
| Survey.AddedOn | module_2/scrape.py:127-131 | `added_on` is the leftmost date in the third cell's text. With no date it is the text itself, and None exactly when that text is empty. |
| Survey.TermOf | module_2/scrape.py:133-139 | The term, when one is found, has no whitespace at either end. |
| Survey.TermOfSpec | module_2/scrape.py:133-139 | The term is Some exactly when a following `tw-border-none` row has a string with a season and a year. It is then the first such string, stripped. |
| Survey.WalkPage | module_2/scrape.py:93-155 | One turn of the walk: the page ends the walk exactly when it meets a stop condition, and the entries are then everything found so far, cut at the limit. Otherwise they are the first occurrences found so far, still short of the limit, and the seen-set is exactly their ids. |
| Collections.ScanItems | module_2/scrape.py:105-151 | The item loop of one 200 page, generic in what an item yields. Either the limit is reached on the page, and the result is the first `Cap(limit)` distinct values of everything found so far. Or the whole page is read: the result is every first occurrence, short of the limit, the seen-set is their keys, and `new_found` counts the values the page added. |
| Collections.AddItem | module_2/scrape.py:122-151 | A value is appended exactly when its key is not in the seen-set. The result is the first-occurrence order of everything offered so far. The limit test fires exactly when this value was appended and the result reached the limit. |
| Survey.CollectSurveyEntries | module_2/scrape.py:75-160 | On success, the pages requested are consecutive from `start_page`, none lies past `end_page` and none raised. No earlier page met a stop condition; the last met one or the next lies past `end_page`. The entries are the first occurrence of each id on those pages, cut at the limit, with distinct ids. On failure, the last page requested raised the walk's error, and every earlier page answered without stopping the walk. |
| Survey.NonOkPageNeverStops | module_2/scrape.py:95-98 | A page that does not answer 200 adds no entry and never stops the walk. |
| Survey.SkippedPage | module_2/scraper2.py:33-35 | The same rule in scraper2.py's walker: a non-200 page adds nothing and does not stop the walk. |
| Survey.ReadPage | module_2/scrape.py:153-155 | After a 200 page is read whole, the walk stops exactly when the limit is reached or, with no `end_page`, when the page added no new id. |
| Survey.StopsPastHorizon | module_2/scraper2.py:89-90 | Without `end_page`, a page with no rows stops the walk. |
| Survey.FoundAllIds | module_2/scrape.py:122-124 | Short of the limit, the ids returned are exactly the ids of the qualifying rows on the pages requested. |
| Survey.FoundFromPages | module_2/scraper2.py:55-58 | Every entry returned was found on one of the requested pages. |
| Collections.DedupDistinct | module_2/scrape.py:85-86 | The one seen-set of the whole walk leaves no id twice in the result. |
| Collections.DedupKeys | module_2/scrape.py:122-124 | Deduplication loses no id. |
| Collections.DedupCappedDistinct | module_2/scraper2.py:23 | The ids stay distinct after the limit cut. |
| Collections.Capped | module_2/scrape.py:149-151 | At most `Cap(limit)` entries are kept (`limit` itself when it is at least 1). When more were found, exactly that many, as a prefix. |
| Collections.LimitInItems | module_2/scrape.py:149-151 | Reaching the limit mid-page returns what was collected then: reading the rest of the page would change nothing in the result. |
| Collections.AssocLastWins | module_2/scrape.py:190 | A dict written by successive `d[k] = v` holds a key exactly when some write wrote it, with the value of the last such write. |
| Collections.AssocAppend | module_2/scrape.py:68 | Writing one sequence after another is the map union of the two, where the right side wins (`{**a, **b}`). |
| Collections.AssocKeys | module_2/scrape.py:62 | The keys of a dict built by writes are the keys written. |
| Collections.AssocDistinct | module_2/scrape.py:62 | With distinct keys, every write's value survives. |
| Collections.DedupOfDistinct | module_2/scrape.py:66 | A sequence with distinct keys is its own first-occurrence order. |
| Collections.SomesAll | module_2/scrape.py:63 | When every item is accepted, exactly one value is extracted per item, in order. |
| Collections.SomesNone | module_2/test2.py:44 | Nothing is extracted exactly when every item is rejected. |
| Web.HarvestBeyond | module_2/scrape.py:153-155 | Pages past the last page of the site add nothing. |
| Patterns.FindResultIdLeftmost | module_2/scrape.py:20 | `RESULT_RE.search` gives the id captured at the leftmost position where `/result/(\d+)\b` matches. It finds nothing only when the pattern matches nowhere. |
| Patterns.ResultIdAtShape | module_2/scrape.py:20 | A match is `/result/` and a maximal non-empty digit run that no word character follows. |
| Patterns.ResultIdAtParts | module_2/scrape.py:20 | Any `/result/<digits>` that no word character follows is a match at its own position, capturing those digits. |
| Patterns.FindResultIdAtEndSound | module_2/scraper.py:8 | With `$`, an id is found only when the href ends in `/result/<digits>`, possibly followed by one newline. |
| Patterns.FindResultIdAtEndComplete | module_2/scraper.py:8 | Every href ending in `/result/<digits>` (or that plus a newline) yields exactly those digits. |
| Patterns.DateAtSound | module_2/scrape.py:22 | What `DATE_RE` matches at a position is a well-formed date: a capital, lower-case letters, a space, one or two digits, a comma, a space and four digits. |
| Patterns.DateAtComplete | module_2/scrape.py:22 | Wherever a well-formed date starts, `DATE_RE` matches there and takes exactly that date. |
| Patterns.FindDateLeftmost | module_2/scrape.py:22 | `DATE_RE.search` gives the leftmost text of the form `Xx+ d{1,2}, dddd`, with the longest day at that position. |
| Patterns.FindDateNone | module_2/scrape.py:22 | `DATE_RE.search` finds nothing exactly when no position starts a date. |
| Patterns.FirstTermString | module_2/scrape.py:21 | The first string of the row in which a season, whitespace and four digits occur, and None when there is none. |
| Patterns.TermAtParts | module_2/scrape.py:21 | A season name, whitespace and a four-digit year, with no word character on either side, is a `TERM_RE` match. |
| Text.GetTextTrimmed | module_2/scrape.py:187-188 | `get_text(sep, strip=True)` has no whitespace at either end. |
| Text.StrippedPiecesTrimmed | module_2/scrape.py:187-188 | With `strip=True`, each text string kept is non-empty and stripped. |
| Text.GetTextEmpty | module_2/scrape.py:189 | `get_text(sep, strip=True)` is empty exactly when every text string of the element is whitespace. |
| Text.RStrip | module_2/scrape.py:195 | `rstrip(":")` drops exactly the trailing colons. |
| Text.Decimal | module_2/scrape.py:173 | `str(n)` of a non-negative code is a numeral with no leading zero that `int` reads back as `n`. |
| Text.DecimalOfDigits | module_2/scrape.py:173 | Every numeral with no leading zero is `str` of its own value, so `str` is onto these numerals. |
| Text.IntText | module_2/scrape.py:173 | The status text in the exception message is a numeral with a minus sign exactly when the code is negative. |
| Text.IntTextRoundTrip | module_2/scrape.py:173 | `int(str(n)) == n` for every code, and `str(int(s)) == s` for every numeral `str` can write. So the message's status text and the code determine each other. |
| Text.NormalizeSingleSpaced | module_2/clean.py:14 | `" ".join(val.split()).strip()` is the words joined by single spaces: whitespace only as single spaces between non-space characters. |
| Text.NormalizeKeepsWords | module_2/clean.py:14 | The collapse keeps the words of the value. |
| Text.NormalizeIdempotent | module_2/clean.py:14 | Collapsing twice is collapsing once, and a single-spaced value is unchanged. |
| Fields.BoxPair | module_2/test.py:39-44 | A box gives a pair exactly when it has a `dt` and a `dd`; both texts are trimmed. |
| Fields.FilledPair | module_2/scrape.py:184-190 | With the `if key and val` filter, a pair is kept exactly when both the `dt` and the `dd` hold some non-whitespace text. |
| Fields.WriteBoxes | module_2/scrape.py:183-190 | The box loop leaves the dict as the earlier writes followed by the kept pairs, in document order. |
| Fields.ItemPair | module_2/scrape.py:193-197 | A list item raises `IndexError`, with its message, exactly when it has too few spans. |
| Fields.ItemPairText | module_2/scrape.py:195-196 | A pair from a list item has no trailing colon in its key and no surrounding whitespace in its value. |
| Fields.WriteItems | module_2/scrape.py:193-197 | The list-item loop either raises at the first item that has too few spans, or writes every item's pair over the dict. |
| Fields.ItemWritesFail | module_2/scraper2.py:126-130 | The item pass fails exactly when some item has too few spans (one for the last span, two for the second), with `IndexError`'s message. |
| Fields.ItemWritesPairs | module_2/scraper2.py:126-130 | A successful item pass writes exactly one pair per item, in order. |
| Fields.DefListWritesFilled | module_2/scrape.py:181-190 | A pass that keeps only filled pairs writes only non-empty labels and values. |
| Fields.DefListWritesEmpty | module_2/test2.py:25-42 | A page writes nothing exactly when no `dl` contributes a pair. |
| Scrape.GetDetailFields | module_2/scrape.py:166-199 | The method computes `DetailFields`: a transport error or a non-200 status fails, otherwise the seeded dict is filled by the `dl` loop and then the list-item loop. |
| Scrape.WriteDefLists | module_2/scrape.py:177-190 | The `dl` loop leaves `{"result_id": rid}` written over by every `dl`'s filled direct-`div` pairs, in document order. |
| Scrape.DetailFieldsFailure | module_2/scrape.py:170-173 | The request fails exactly on a transport error, on a status other than 200 (message naming status and URL), or on a list item with no span (`IndexError`). |
| Scrape.PageFieldsLayers | module_2/scrape.py:177-197 | The dict is three layers, each overriding the one before: `{"result_id": rid}`, the filled pairs of every `dl`'s direct `div`s, and the list items' first-span to last-span pairs. The `dl` layer has no empty label or value. |
| Scrape.PageFieldsKeepId | module_2/scrape.py:177 | The seeded `result_id` survives unless some label is `result_id`. |
| Scrape.DetailUrlOfResultBase | module_2/scrape.py:170 | `f"{RESULT_BASE.rstrip('/')}/{rid}"` is `RESULT_BASE + rid`. |
| Scrape.DetailRecord | module_2/scrape.py:44-53 | Every detail record holds `result_id`. A failed request gives exactly `{"result_id": rid, "detail_error": message}`. |
| Scrape.FailedDetailKeepsId | module_2/scrape.py:48-50 | A failed request's record carries its entry's id and `detail_error`, and nothing else. |
| Survey.EntryDict | module_2/scrape.py:141-146 | The walker's dict for an entry has exactly four keys: `result_id`, the URL key, the date key and `term`. They hold the id, the resolved URL, the date or None, and the term or None. scrape.py names the URL and date keys `result_url`/`added_on`; scraper2.py (module_2/scraper2.py:75-80) names them `url`/`date_added`. |
| Scrape.ScrapeData.Create | module_2/scrape.py:28-69 | `scrape_data(limit)`. When a listing request raises, the call fails with that error, makes no object, and the pages requested end with the one that raised. Otherwise a fresh object holds `links`: the whole walk from page 1 with no `end_page`, with consecutive pages, only the last one stopping, the first occurrences cut at `limit`, and distinct ids. `data` has one record per link, in order. `combined` is the merge of the two. |
| Scrape.ScrapeData.constructor | module_2/scrape.py:41-69 | The rest of `__init__` once the walk has returned: `links` are the walk's entries, `data` has one detail record per link in order, and `combined` is the merge of the two. |
| Scrape.FetchDetails | module_2/scrape.py:43-53 | One record per entry, in order: the entry's detail dict, or `{"result_id": rid, "detail_error": message}` when the request raises. |
| Scrape.CombinedPerEntry | module_2/scrape.py:61-69 | When each detail record's `result_id` is its own entry's id (as when no result page has a `result_id` label), `combined` has one record per survey entry, in walk order. Each is the survey record overridden by that entry's own detail record; a failed request shows its message under `detail_error`. `Merge.MergedPerEntry` gives the general case. |
| Merge.SurveyMap | module_2/scrape.py:62 | `survey_map`: the first-insertion key order and the last value per key. |
| Merge.DetailMapOf | module_2/scrape.py:63 | `detail_map`: the records that have a `result_id`, keyed by it, the last one winning. |
| Merge.MergeRecords | module_2/scrape.py:65-69 | The merge loop computes `Merged`. |
| Merge.MergedIds | module_2/scraper2.py:156-161 | The merged records follow the survey ids in first-seen order, each id once, none lost. |
| Merge.MergedPerEntry | module_2/scraper2.py:156-161 | With distinct survey ids there is exactly one merged record per entry, in order: the entry overridden by its detail record or by `{}`. |
| Merge.MergedDetailWins | module_2/scrape.py:67-68 | A merged record's keys are the union of both records' keys. The detail value wins on a shared key; every other key keeps its survey value. |
| Merge.DetailMapAligned | module_2/scrape.py:63-67 | Detail records aligned with distinct entries, each carrying its entry's id, are found again by `detail_map.get(rid, {})`. |
| Scraper2.GetDetailFields | module_2/scraper2.py:101-137 | The method computes `DetailList`: fail on a transport error or a non-200 status; otherwise fill the seeded dict through the deep `dl` pass and the second-span item pass, and append it if non-empty. |
| Scraper2.WriteDefLists | module_2/scraper2.py:114-124 | The `dl` loop leaves `{"result_id": rid}` written over by the filled pairs of every `div` inside every `dl`, in document order. |
| Scraper2.DetailListSingle | module_2/scraper2.py:114-137 | A successful request returns exactly one dict, which holds `result_id`; the list is never empty. |
| Scraper2.DetailListFailure | module_2/scraper2.py:104-106 | The request fails exactly on a transport error, on a non-200 status (message without the URL), or on a list item with fewer than two spans. |
| Scraper2.DetailListLayers | module_2/scraper2.py:114-130 | The dict is the seed overridden by the filled pairs of every `div` inside every `dl`, then by the first-span to second-span pairs. |
| Scraper2.AllDetailsFailed | module_2/scraper2.py:151-153 | A failed request ends the run: later entries do not change the outcome. |
| Scraper2.AllDetailsAligned | module_2/scraper2.py:150-153 | When every request succeeds, `data` holds one dict per entry, in order, each holding `result_id`. |
| Scraper2.Run | module_2/scraper2.py:143-161 | The main run walks from page 1 with limit 20. When a listing request raises, the run fails with that error, and the pages requested end with the one that raised. Otherwise the walk is complete: consecutive pages, only the last one stopping, with distinct ids and at most 20 entries. The run then fails with the first failing detail request's message, or else gives the merge of the entries with their dicts. |
| Scraper2.RunPerEntry | module_2/scraper2.py:156-161 | When every request succeeds and each dict's `result_id` is its own entry's id (as when no result page has a `result_id` label), the run gives one record per entry, in walk order: the entry overridden by its dict. `Merge.MergedPerEntry` gives the general case. |
| ResultLinks.AnchorLink | module_2/scraper.py:43-52 | An anchor yields a pair exactly when `RESULT_RE`, anchored with `$`, finds an id in its href. The pair holds that id and the resolved href. |
| ResultLinks.AnchorLinkShape | module_2/scraper.py:43-47 | Such an id is a non-empty digit string, and the href ends in `/result/<id>`, possibly followed by one newline. |
| ResultLinks.WalkPage | module_2/scraper.py:24-63 | One turn of the walk: a non-200 page adds nothing, and a 200 page's anchors go through the shared seen-set. The turn ends the walk exactly when the limit is reached, and the pairs are then everything found so far, cut at the limit. Otherwise they are every first occurrence so far, and the seen-set is exactly their ids. |
| ResultLinks.SkippedAnchors | module_2/scraper.py:26-30 | A non-200 page adds no pair. |
| ResultLinks.RaisingPageEnds | module_2/scraper.py:24-25 | Without `end_page`, a listing page at or after `start_page` whose request raises makes the walk end, whatever the limit: the request is caught nowhere. |
| ResultLinks.ShortOfHorizon | module_2/scraper.py:20-63 | Without `end_page`, when the site holds enough distinct ids for the limit or has a page that raises, a walk whose pages have all answered and that is still short of the limit has not yet passed the last page of the site. |
| ResultLinks.CollectResultLinks | module_2/scraper.py:10-65 | On success, the pages requested are consecutive, none lies past `end_page` and none raised. Every earlier page left the walk short of the limit. Without `end_page` the walk ends only by reaching the limit. The result is the distinct pairs of those pages in first-seen order, cut at the limit. On failure, the last page requested raised the walk's error, and every earlier page answered and left the walk short of the limit. |
| SectionFields.GetDetailFields | module_2/test.py:22-47 | The method computes `DetailFields`: fail on a transport error or a non-200 status; `{}` with no section or no `dl`; otherwise the first `dl`'s direct boxes written in order. |
| SectionFields.DetailFields | module_2/test.py:23-25 | The request fails exactly on a transport error or a non-200 status; a page of any shape gives a dict. |
| SectionFields.PageFieldsKeys | module_2/test.py:38-45 | The dict's keys are exactly the labels of the boxes that hold both a `dt` and a `dd`. |
| SectionFields.BlankLabelKept | module_2/test.py:43-45 | A box whose `dt` is only whitespace still writes its value under the empty label; there is no emptiness filter. |
| SectionFields.PageFieldsEmpty | module_2/test.py:29-47 | The result is `{}` exactly when no visited box holds both a `dt` and a `dd`. That includes a missing section or `dl`. |
| SectionFields.LaterBoxWins | module_2/test.py:45 | A later box with the same label replaces the earlier value; other keys are untouched. |
| DeepFields.GetDetailFields | module_2/test2.py:13-44 | The method computes `DetailFields`: fail on a transport error or a non-200 status, otherwise the two passes over every `dl`. |
| DeepFields.DetailFields | module_2/test2.py:14-16 | The request fails exactly on a transport error or a non-200 status. |
| DeepFields.WriteDefList | module_2/test2.py:27-42 | One `dl` writes the filled pairs of its nested `div`s, then of its flat `dt`/`dd` siblings. |
| DeepFields.DefListFieldsFilled | module_2/test2.py:33-34 | Every label and every value in the dict is non-empty. |
| DeepFields.DefListFieldsEmpty | module_2/test2.py:24-44 | With no seed, the result is `{}` exactly when no `dl` has a filled box, nested or flat. |
| DeepFields.DefListFieldsLayers | module_2/test2.py:25-42 | A later `dl` overrides the earlier ones. Within a `dl` the flat pass overrides the nested pass. |
| Clean.Collapsed | module_2/clean.py:12-14 | The collapse keeps the keys, collapses every string value and leaves None alone. |
| Clean.CollapseFields | module_2/clean.py:12-14 | The loop over a snapshot of the items computes `Collapsed`. |
| Clean.RenameFields | module_2/clean.py:25-27 | The rename loop applies `rename_map` in its order. |
| Clean.CleanData.Clean | module_2/clean.py:9-27 | `clean()` replaces every record of the harvest's `combined` by its cleaned form, keeping count and order, and changes nothing else of the harvest. |
| Clean.CleanData.constructor | module_2/clean.py:5-7 | `self.data` is the harvest's own `combined`, and constructing cleans it in place. |
| Clean.Cleaned | module_2/clean.py:10 | The same number of records, in the same order, each cleaned. |
| Clean.RenamesSeparate | module_2/clean.py:16-24 | No new key of the table is an old key, and the old keys and the new keys are each pairwise distinct. |
| Clean.CleanRenames | module_2/clean.py:25-27 | For each rename: a present new key keeps its value and the old key stays. Otherwise a present old key moves to the new key and disappears. With neither present, neither appears. |
| Clean.CleanOtherKeys | module_2/clean.py:10-27 | A key outside the table is kept exactly when present, with its collapsed value. |
| Clean.CleanSingleSpaced | module_2/clean.py:12-14 | Every string value of a cleaned record is single-spaced, with no leading or trailing whitespace. |
| Clean.RenameAllSettles | module_2/clean.py:25-27 | After the renames, every old key of the table is gone or its new key is present. |
| Clean.RenameAllOfSettled | module_2/clean.py:26 | On such a record no rename fires. |
| Clean.CleanIdempotent | module_2/clean.py:12-27 | Cleaning a cleaned record changes nothing. |

## Left out

- Network I/O (urllib3 requests, headers, timeouts) is replaced by `Site` and `Server` values. `time.sleep(random.uniform(...))` has no effect on the result and is left out.
- BeautifulSoup's selectors are not modelled: a parsed page is given as datatypes holding what each selection returns. `urljoin` is a function parameter (`resolve`), as is the URL of each listing page.
- The listing is a finite sequence of pages, and pages outside it answer 200 with no rows. A site that answers a non-200 status forever, which would keep the source looping, is not modelled.
- ResultLinks.CollectResultLinks: requires `end_page`, a limit that the site's distinct ids can meet, or a page from `start_page` on that raises (`Ends`). On any other site the source requests page after page for ever, because pages past the listing answer 200 with nothing new and its empty-page stop is commented out.
- Regular expressions are matched by hand: `\d` and `\w` are the ASCII classes, not Python's Unicode ones. `str.isspace` is modelled by its character list.
- Dict key order is not modelled, except for the list order of merged records. In particular, `pop` moving a renamed key to the end of the dict is not modelled.
- The dead branches at module_2/scrape.py:54-59 (a detail that is a list, or neither a dict nor a list) are not modelled. `get_detail_fields` always returns a dict.
- scraper2.py builds `details_keys` with `d["result_id"]`, which would raise on a dict without that key. Every dict it gets holds `result_id`, so the model uses the same `detail_map` as scrape.py.
- Exceptions raised by the HTML parser itself, and exception types other than the message, are not modelled.
- The `__main__` printing and test.py's module-level fetch (module_2/test.py:49-51) are left out.
- scraper2.py's `limit` is the constant 20 of its main run. scrape.py's constructor takes it as a parameter.
- In `get_text`, a parsed element is represented by its text strings. Entities, comments and `<br>` handling belong to the parser and are not modelled.
