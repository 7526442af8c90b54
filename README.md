# Cracked and BuzzFeed extractors of youtube-dl, modelled in Dafny

This project models two site extractors of youtube-dl. In each, the network, the regular-expression
engine and the helper library are taken as abstract inputs. What remains is modelled and proved.

- **Cracked** (`youtube_dl/extractor/cracked.py`) turns one video page into one of two things. If the
  page embeds a YouTube video, the result is a bare reference to it. Otherwise the result is a video
  record. Video URL and title come from ordered fallback pattern chains and are required. Description,
  view count and comment count are optional. The timestamp comes from an ISO `"date"` field, or failing
  that from a US-style "Month Day, Year" item (`_parse_us_time`: a month-name table plus UTC calendar
  arithmetic). Width and height come from a `_<W>X<H>.mp4` suffix of the video URL, both or neither.
- **BuzzFeed** (`youtube_dl/extractor/buzzfeed.py`) turns one article page into a playlist. Its entries
  are bare references found by three strategies, concatenated in a fixed order:
  - video-embed buckets, using key `video`, else `progload_video`;
  - Facebook embed URLs;
  - anchors whose `href` is on a youtube.com domain and whose `class` holds `subbuzz-youtube__thumb`.

Files (one module each):
- `wrappers.dfy`: `Option` and `Result`.
- `text.dfy`: string primitives (digit runs, prefixes, substring search).
- `utils.dfy`: stand-ins for `int_or_none` and `str_to_int`.
- `calendar.dfy`: days since 1970-01-01 in closed form. Proved equal to a year-by-year and
  month-by-month count. Proved to count days in order.
- `search.dfy`: `_search_regex` / `_html_search_regex` over an ordered list of abstract matchers.
- `info.dfy`: the `url_result` reference record.
- `json.dfy`: parsed JSON values and Python truthiness.
- `cracked.dfy`: pure functions, as in the source.
- `buzzfeed.dfy`: the pure anchor filter, plus `Extract`, a method whose `for` loop builds the entry list
  the way the source's loop with `append`/`continue` and its two `extend`s do.

Each regular-expression search is an abstract matcher `string -> Option<string>`, applied to the page
text. The helper calls whose code is not part of this model are fields of an `Env` record:
`clean_html`, `parse_iso8601`, `YoutubeIE._extract_url`, `FacebookIE._extract_urls`, `_og_search_title`,
`_og_search_description`, the bucket `findall` + `json.loads`, and the per-anchor attribute capture. The
URL-derived id and the downloaded page are parameters.

## Model

| member | source | states |
|---|---|---|
| `Search.SearchRegex` | youtube_dl/extractor/cracked.py:61-67 | The result is absent iff no pattern matches. Otherwise it is the capture of the first pattern (in list order) that matches, whatever later patterns would give. |
| `Search.HtmlSearchRegex` | youtube_dl/extractor/cracked.py:61-63 | Absent exactly when the chain finds nothing. Otherwise it is the first matching pattern's capture, cleaned when non-empty and kept as the empty string when empty. |
| `Cracked.MonthTableIsBijection` | youtube_dl/extractor/cracked.py:45-46 | The table's keys are exactly the twelve capitalised English month names, mapped one-to-one onto 1..12 in calendar order. |
| `Cracked.ParseUsTime` | youtube_dl/extractor/cracked.py:43-50 | Gives `None` iff the month is not in the table or day or year is not a non-zero decimal. Gives the `datetime.date` error iff the three are recognised but form no valid date. Otherwise gives midnight UTC of that date in epoch seconds. |
| `Cracked.ParseUsTimeExample` | youtube_dl/extractor/cracked.py:25-26 | ("July", "10", "2014") gives 1404950400, the timestamp the first test expects. |
| `Cracked.ParseUsTimeRejects` | youtube_dl/extractor/cracked.py:46-49 | A lower-case month name or a zero day gives `None`. |
| `Cracked.ParseUsTimeInvalidDay` | youtube_dl/extractor/cracked.py:50 | February 30 makes `datetime.date` raise, which the model returns as an error. |
| `Calendar.DaysBeforeYearIsYearStart` | youtube_dl/extractor/cracked.py:50 | The closed-form leap-year count equals summing the length of every year from 1970 (both directions in time). |
| `Calendar.DaysBeforeMonthIsMonthStart` | youtube_dl/extractor/cracked.py:50 | The cumulative month table equals summing the month lengths, leap February included. |
| `Calendar.EpochDay` | youtube_dl/extractor/cracked.py:50 | The day number of a date is the number of days in the years and months before it, plus the day minus one, counted from 1970-01-01. |
| `Calendar.MidnightUtc` | youtube_dl/extractor/cracked.py:50 | `calendar.timegm(...timetuple())` of a date is a whole number of days, and that number is the date's day number. |
| `Calendar.EpochDayOrigin` | youtube_dl/extractor/cracked.py:50 | 1970-01-01 is day 0. |
| `Calendar.EpochDayNext` | youtube_dl/extractor/cracked.py:50 | The next calendar date (across month and year ends) is exactly one day later. |
| `Calendar.EpochDayStrictlyIncreasing` | youtube_dl/extractor/cracked.py:50 | Later valid dates get strictly larger day numbers, so distinct dates never share a midnight. |
| `Text.DropLast` | youtube_dl/extractor/cracked.py:76 | `timestamp[:-6]` is the prefix of the capture that is six characters shorter, or empty for a shorter capture. |
| `Cracked.UploadTimestamp` | youtube_dl/extractor/cracked.py:73-81 | A non-empty `"date"` capture decides the timestamp through `parse_iso8601` of the capture minus its last six characters. Otherwise the date-published item decides it through `_parse_us_time`, else it is absent. |
| `Cracked.IsoDateSuppressesFallback` | youtube_dl/extractor/cracked.py:75-76 | Once a non-empty `"date"` capture is found, the date-published matcher is never consulted, even if `parse_iso8601` gives `None`. |
| `Cracked.FallbackIgnoresIsoParser` | youtube_dl/extractor/cracked.py:77-81 | Without a non-empty `"date"` capture, `parse_iso8601` plays no part. |
| `Cracked.DimensionSuffixComplete` | youtube_dl/extractor/cracked.py:90-93 | Every URL ending in `_` digits `X` digits `.mp4` (optionally before one final newline) gives width and height equal to the decimal values of those two runs. |
| `Cracked.DimensionSuffix` | youtube_dl/extractor/cracked.py:90-95 | Dimensions are given only for URLs ending in `_` digits `X` digits `.mp4` (optionally before one final newline), and then they are the values of those two runs. |
| `Cracked.VideoRecord` | youtube_dl/extractor/cracked.py:61-107 | Fails iff the video URL or title chain finds nothing (naming that field), or the fallback date is impossible (giving that date's error). Missing description and counts never abort. The record carries the URL-derived id, the video URL and title captures and the optional fields. Width and height are both present or both absent, and present exactly when the URL has the dimension suffix. |
| `Cracked.Extract` | youtube_dl/extractor/cracked.py:52-107 | A truthy YouTube embed gives only a bare reference with the `Youtube` extractor key. Otherwise the result is the video record, or its error. |
| `Cracked.YoutubeEmbedIgnoresRest` | youtube_dl/extractor/cracked.py:57-59 | With a YouTube embed, the result does not depend on any other matcher or helper. |
| `Cracked.VideoUrlPrefersCkVidSrc` | youtube_dl/extractor/cracked.py:61-63 | When the `CK_vidSrc` pattern matches, its cleaned capture is the video URL whatever the `<video src>` pattern gives. |
| `Cracked.TitlePrefersOgTitle` | youtube_dl/extractor/cracked.py:65-67 | When the og:title pattern matches, its capture is the title whatever the `class="title"` pattern gives. |
| `Cracked.MissingTitleFails` | youtube_dl/extractor/cracked.py:65-67 | A page with no YouTube embed, a video URL but neither title pattern fails with the field name "title" and yields no record. |
| `Cracked.UploadTimestampAsWritten` | youtube_dl/extractor/cracked.py:73-81 | The selection as the code is written. It leaves text in `timestamp` exactly when the `"date"` capture is the empty string and there is no date-published item, and that text is `''`. |
| `Cracked.TimestampAsWrittenKeepsBlank` | youtube_dl/extractor/cracked.py:73-81 | As written, a blank `"date"` value with no date-published item leaves `''` as the timestamp. The corrected selection gives `None`. |
| `Cracked.UploadTimestampCorrectsAsWritten` | youtube_dl/extractor/cracked.py:73-81 | The code as written differs from the corrected selection only in that blank-`"date"` case. Everywhere else the two agree. |
| `Utils.IntOrNone` | youtube_dl/extractor/cracked.py:47-48 | A captured day or year reads as a number iff it is a non-empty run of decimal digits, and its value is the decimal value of those digits. |
| `Utils.StrToInt` | youtube_dl/extractor/cracked.py:83-88 | An absent count capture stays absent. A present one is read after its separators are deleted. |
| `Utils.StrToIntSeparated` | youtube_dl/extractor/cracked.py:84 | A `,` or `.` inside a count does not change the value read (`1,234` reads as `1234`). |
| `Text.ContainsIff` | youtube_dl/extractor/buzzfeed.py:96 | The substring test is true iff the marker occurs at some position of the class value. |
| `BuzzFeed.BucketVideo` | youtube_dl/extractor/buzzfeed.py:85 | `video` is used when truthy, otherwise whatever `progload_video` holds (a missing key reads as `None`). |
| `BuzzFeed.BucketEntry` | youtube_dl/extractor/buzzfeed.py:85-88 | A bucket yields the `video` URL if that is truthy, else the `progload_video` URL if that is truthy, else nothing. |
| `BuzzFeed.BucketEntries` | youtube_dl/extractor/buzzfeed.py:82-88 | No more entries than buckets, and a single bucket gives exactly its own entry or none. Every entry comes from some bucket. Every bucket with a truthy video contributes its entry. |
| `BuzzFeed.BucketEntriesAppend` | youtube_dl/extractor/buzzfeed.py:83-88 | Bucket entries keep the order in which the buckets were found. |
| `BuzzFeed.HostIsYoutubeIff` | youtube_dl/extractor/buzzfeed.py:96 | The hand-written host test accepts exactly the strings in which `youtube.com` starts at the beginning or after one dot-free label and a dot. |
| `BuzzFeed.YoutubeDomain` | youtube_dl/extractor/buzzfeed.py:96 | The domain test holds exactly when the href starts with `http://` or `https://` and `youtube.com` follows at once or after one dot-free label and a dot, as `^https?://(?:[^.]*\.)?youtube\.com` means. |
| `BuzzFeed.AnchorAccepted` | youtube_dl/extractor/buzzfeed.py:96 | An anchor is kept exactly when href and class are both present and non-empty, the href passes the domain test and the marker occurs at some position of the class value. |
| `BuzzFeed.YoutubeHrefs` | youtube_dl/extractor/buzzfeed.py:95-96 | Every href kept belongs to an accepted anchor (href and class present and non-empty, youtube.com domain, marker in the class). Every accepted anchor's href is kept. |
| `BuzzFeed.YoutubeHrefsAppend` | youtube_dl/extractor/buzzfeed.py:95-96 | The filter keeps document order. |
| `BuzzFeed.YoutubeHrefsSingle` | youtube_dl/extractor/buzzfeed.py:95-96 | One anchor yields exactly its href when accepted, and nothing (no error) otherwise. |
| `BuzzFeed.AsEntries` | youtube_dl/extractor/buzzfeed.py:90-93 | One bare reference per URL, in order, none filtered. |
| `BuzzFeed.PlaylistEntries` | youtube_dl/extractor/buzzfeed.py:82-99 | Bucket entries come first, then the Facebook entries, then the anchor entries. The length is the sum of the three counts. |
| `BuzzFeed.OneOfEach` | youtube_dl/extractor/buzzfeed.py:82-99 | One bucket, one Facebook URL and one accepted anchor give exactly three entries in that order. |
| `BuzzFeed.Extract` | youtube_dl/extractor/buzzfeed.py:74-108 | The loop and the two `extend`s build exactly the strategy-ordered entry list. The playlist carries `playlist_id` and the page's og title and description. It is returned even when the list is empty. |

## Left out

- URL matching (`_match_id`, `_VALID_URL`) and `_download_webpage` are network and dispatch helpers. The id and the page text are parameters.
- The regular-expression engine is not modelled. Each search is an abstract matcher. The bucket `findall` plus `json.loads`, and the per-anchor `href`/`class` capture of `re.finditer`, are abstract functions of the page text.
- `clean_html`, `parse_iso8601`, `YoutubeIE._extract_url`, `FacebookIE._extract_urls`, `_og_search_title` and `_og_search_description` are opaque inputs. Whether a missing og:title raises is decided in `common.py`, which is not part of this model.
- The warning that `fatal=False` prints is not modelled; only the absent comment count is.
- Utils.StrToInt: assumed to delete `,` and `.` and then read ASCII decimal digits. A capture made only of separators gives `None` here; the real helper may raise.
- Utils.IntOrNone: reads only ASCII digit strings. Python's `int` also accepts signs, surrounding whitespace, underscores and non-ASCII digits. The captures passed to it are `\d+` runs.
- Cracked.VideoRecord: builds its timestamp with the corrected selection `UploadTimestamp`, so a blank `"date"` capture with no date-published item gives `None` where the code leaves `''`. The code as written is `UploadTimestampAsWritten` (see "## Findings").
- Cracked.DimensionSuffix: treats `\d` as ASCII digits. Python 3 also matches other Unicode decimal digits.
- BuzzFeed.Extract: requires every parsed bucket to be an object. A truthy selected video must be an object whose `url` is a JSON string. The source raises on a non-object bucket or a missing `url`, and passes a non-string `url` on unchanged.
- Idempotence is exact by construction: every member is a deterministic function of its inputs. No lemma states it.
- Both counts are optional: the view count passes `default=None` and the comment count `fatal=False`, so neither can abort the extraction.
- The `_TESTS` dictionaries appear only as the concrete date example.

## Findings

| source | as written | input that shows it | evidently intended | confidence | as-written member | corrected member |
|---|---|---|---|---|---|---|
| youtube_dl/extractor/cracked.py:73-81 | If the `"date"` capture cleans to the empty string, `if timestamp:` is false. If there is then no date-published item, `timestamp` keeps `''` and the record's timestamp is a string. | A page whose `"date"` value is blank (`BlankDatePage`) and that has no date-published item | The timestamp is absent (`None`) | not executed; the cleaning helper is opaque here | `Cracked.UploadTimestampAsWritten` (shown by `Cracked.TimestampAsWrittenKeepsBlank`) | `Cracked.UploadTimestamp` (related by `Cracked.UploadTimestampCorrectsAsWritten`) |
