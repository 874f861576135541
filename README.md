# archive.org scraper and downloader: size parsing, row aggregation and chunked download

`scrape-archive_download.py` scrapes an archive.org download listing and then downloads the files it lists. This project models and proves properties of three pieces of its logic:

- **`parse_size`** (module `SizeParsing`, `size.dfy`). It converts a listing's size text such as `"1.5G"`, `"300M"`, `"100K"` or `"2048"` into a byte count, as a `real`.
  - The text is stripped, using Python's full `isspace` set, and upper-cased.
  - Only the last character is examined, in the order G, M, K. It selects 1024³, 1024² or 1024.
  - The rest goes through `float()`, which is modelled by a decimal grammar: optional sign, digits with an optional point, optional `E`/`e` exponent, surrounding whitespace.
  - `float()` skips a smaller whitespace set than `str.strip()`. CPython turns non-ASCII whitespace into spaces, leaves ASCII text as it is, and then skips only tab to carriage return and space. The information separators U+001C to U+001F are whitespace to `str.strip()` but not to `float()`, so `"1\x1cG"` keeps its separator after stripping, `float("1\x1c")` raises, and the size is 0.
  - A `ValueError` becomes 0.
- **The row loop of `scrape_archive`** (module `Listing`, `listing.dfy`). Each table row is abstract: its first anchor (if any), that anchor's `href` (if any), and its cell texts.
  - A row is looked at only if it has an anchor and a cell.
  - If the row is accepted, the loop appends the joined URL and the percent-decoded last path segment of the `href`, and adds the parsed size of the row's last cell to the running total.
  - A row that raises contributes nothing.
  - `urljoin` and `unquote` are function parameters. `urljoin` answers `None` where the library would raise.
  - A failed page fetch is an absent page.
- **`download_file`** (module `Download`, `download.dfy`).
  - If the target exists, it is left alone.
  - A status other than 200, or a malformed Content-Length, ends the call before the file is opened.
  - Otherwise the file is opened for writing, and every non-empty chunk of the streamed body is appended, with `downloaded` counting the bytes written, until the progress division raises when the length is 0 (then only the first non-empty chunk is written).
  - The outcome of the call is the handler it reaches.
  - The HTTP exchange is an input: a connection failure, or a status, a Content-Length header, the body as chunks, and whether the stream breaks afterwards.

`wrappers.dfy` holds the shared `Option` type.

## Model

| member | source | states |
|---|---|---|
| SizeParsing.ParseSize | scrape-archive_download.py:10-22 | `parse_size`: the suffix dispatch applied to the stripped, upper-cased text; its properties are stated by `SuffixScales`, `NoSuffixIsBytes`, `SurroundingSpaceIgnored`, `CaseInsensitive`, `NoDigitIsZero`, `DoubleSuffixIsZero` and `SeparatorBeforeUnitIsZero` |
| SizeParsing.SizeOfNormalized | scrape-archive_download.py:14-22 | only the last character is looked at, G before M before K, and a failed `float()` gives 0; stated by `SuffixScales`, `NoSuffixIsBytes`, `DoubleSuffixIsZero` and `SeparatorBeforeUnitIsZero` |
| SizeParsing.Normalize | scrape-archive_download.py:12 | `size_str.strip().upper()`; stated by `SurroundingSpaceIgnored` and `CaseInsensitive` |
| SizeParsing.Strip | scrape-archive_download.py:12 | `StripLeft` then `StripRight` over a set of characters; `Strip(s, IsSpace)` is `str.strip()`, and `StripIgnoresSurroundingSpace` states that characters of the set added on either side are removed again |
| SizeParsing.StripIgnoresSurroundingSpace | scrape-archive_download.py:12 | for any set of characters, stripping text with characters of the set added on either side gives the same result as stripping the text alone |
| SizeParsing.ParseFloat | scrape-archive_download.py:15-20 | `float()` on the decimal subset, skipping `IsFloatSpace` whitespace (not U+001C to U+001F); stated by `DecimalParses`, `FloatIgnoresSurroundingSpace`, `NumberEnd`, `NoDigitNoNumber` and `SeparatorBeforeUnitIsZero` |
| SizeParsing.FloatIgnoresSurroundingSpace | scrape-archive_download.py:15-20 | `float()` gives the same result with whitespace it skips (tab to carriage return, space, and the non-ASCII `isspace()` characters) added on either side |
| SizeParsing.NoDigitNoNumber | scrape-archive_download.py:15-21 | within the modelled decimal subset (see Left out), `float()` raises `ValueError` on any text without a digit |
| SizeParsing.Upper | scrape-archive_download.py:12 | `upper()` keeps the length and maps every character through the ASCII upper-case map |
| SizeParsing.StripLeft | scrape-archive_download.py:12 | the result is a suffix of the input, everything removed is in the stripped set, and the result does not start with a character of it |
| SizeParsing.StripRight | scrape-archive_download.py:12 | the result is a prefix of the input, everything removed is in the stripped set, and the result does not end with a character of it |
| SizeParsing.DecimalParses | scrape-archive_download.py:15-20 | `float()` of a plain decimal numeral `w` or `w.f` gives w + f/10^len(f) |
| SizeParsing.SuffixScales | scrape-archive_download.py:12-19 | a numeral followed by g/G, m/M or k/K parses to the numeral's value times 1024³, 1024² or 1024 respectively |
| SizeParsing.NoSuffixIsBytes | scrape-archive_download.py:20 | a numeral without a unit letter parses to its own value |
| SizeParsing.SurroundingSpaceIgnored | scrape-archive_download.py:12 | adding whitespace on either side of any size text does not change the result |
| SizeParsing.CaseInsensitive | scrape-archive_download.py:12 | upper-casing any size text first does not change the result |
| SizeParsing.NoDigitIsZero | scrape-archive_download.py:13-22 | within the modelled decimal subset (see Left out), any text with no digit, such as "", "G" or "garbage", gives 0 instead of an error |
| SizeParsing.NumberEnd | scrape-archive_download.py:15-20 | within the modelled decimal subset (see Left out), every text `float()` accepts ends, once the whitespace `float()` skips is removed, in a digit or a point |
| SizeParsing.DoubleSuffixIsZero | scrape-archive_download.py:14-22 | when the normalised text ends in two unit letters (e.g. "1KK"), only one is removed, `float()` fails and the result is 0 |
| SizeParsing.SeparatorBeforeUnitIsZero | scrape-archive_download.py:12-22 | when the normalised text ends in a unit letter preceded by one of U+001C to U+001F, which `strip()` left in place, `float()` rejects the rest and the result is 0 |
| SizeParsing.StrayBeforeUnitIsZero | scrape-archive_download.py:14-22 | within the modelled decimal subset (see Left out), when the character before the final unit letter is neither part of a numeral nor whitespace `float()` skips, the result is 0 |
| SizeParsing.ExampleFractionalGiga | scrape-archive_download.py:14-15 | "1.5G" is 1.5 · 1024³ bytes |
| SizeParsing.ExampleMega | scrape-archive_download.py:16-17 | "300M" is 300 · 1024² bytes |
| SizeParsing.ExampleKilo | scrape-archive_download.py:18-19 | "100K" is 100 · 1024 bytes |
| SizeParsing.ExampleBytes | scrape-archive_download.py:20 | "2048" is 2048 bytes |
| SizeParsing.ExampleSpacedLowerCase | scrape-archive_download.py:12-15 | " 2g " gives the same 2 · 1024³ as "2G" |
| SizeParsing.ExampleGarbage | scrape-archive_download.py:21-22 | "garbage" gives 0 |
| SizeParsing.ExampleEmpty | scrape-archive_download.py:21-22 | "" gives 0 |
| SizeParsing.ExampleBareUnit | scrape-archive_download.py:14-22 | "G" gives 0, since float("") raises |
| SizeParsing.ExampleDoubleUnit | scrape-archive_download.py:18-22 | "1KK" gives 0 |
| SizeParsing.ExampleSeparatorBeforeUnit | scrape-archive_download.py:12-22 | "1\x1cG" gives 0, since `float("1\x1c")` raises |
| Listing.LastSegment | scrape-archive_download.py:48 | `href.split('/')[-1]` is the longest suffix of the `href` without a '/', preceded by a '/' when it is not all of it |
| Listing.ProcessRow | scrape-archive_download.py:43-54 | the loop body for one row: not a file, raised, or accepted with URL, name and size text; stated by `RowRule` |
| Listing.RowRule | scrape-archive_download.py:43-54 | a row is skipped silently exactly when it lacks an anchor or a cell; it is accepted exactly when it also has an `href` that `urljoin` resolves; an accepted row yields the joined URL, the decoded last segment and the parsed size of its last cell |
| Listing.ScrapeRows | scrape-archive_download.py:37-56 | the loop returns URL and name lists of equal length, equal to the URLs and names of the accepted rows in order, and the sum of their sizes |
| Listing.ScrapeArchive | scrape-archive_download.py:25-56 | a failed fetch gives two empty lists and 0; otherwise the result of the row loop over the page |
| Listing.FailingRowChangesNothing | scrape-archive_download.py:45-54 | inserting a row that is not accepted anywhere in the page leaves the collected entries unchanged |
| Listing.EntriesAppend | scrape-archive_download.py:42-54 | the entries of two consecutive runs of rows are the entries of each, concatenated |
| Listing.AcceptedCount | scrape-archive_download.py:42-54 | there is one entry per accepted row, and each accepted position is a row of the page |
| Listing.EntriesInDocumentOrder | scrape-archive_download.py:42-54 | the k-th entry is what the k-th accepted row yields |
| Listing.AcceptedIndicesIncrease | scrape-archive_download.py:42 | accepted rows are visited in strictly increasing document position |
| Listing.AcceptedIndicesComplete | scrape-archive_download.py:42-54 | no accepted row is missed |
| Listing.TotalIsSumOverAcceptedRows | scrape-archive_download.py:39-52 | the running total equals the sum, taken over the rows from the first, of the size each accepted row yields (its last cell's parsed size, by `RowRule`) and 0 for the others |
| Listing.NameIgnoresPage | scrape-archive_download.py:48-49 | the name and size text of an accepted row do not depend on the page URL |
| Download.LocalFile.OpenForWrite | scrape-archive_download.py:92 | opening with "wb" leaves an existing, empty file |
| Download.LocalFile.Write | scrape-archive_download.py:95 | a write appends the chunk to the file's bytes |
| Download.DeclaredSize | scrape-archive_download.py:87 | `int(response.headers.get('Content-Length', 0))`; `MissingLengthIsZero` states that a missing header acts as 0 and only a malformed one stops the call |
| Download.MissingLengthIsZero | scrape-archive_download.py:87 | a missing Content-Length gives the same outcome and the same file as a declared 0, and the file is opened for every header except a malformed one |
| Download.Written | scrape-archive_download.py:87-99 | the chunks that reach the file; stated by `KnownLengthWritesWholeBody`, `UnknownLengthKeepsFirstChunk` and `WrittenIsPrefix` |
| Download.DownloadOutcome | scrape-archive_download.py:73-116 | the handler a call reaches, in the source's order: existing file, request failure, bad status, malformed length, division by zero, broken stream, unassigned elapsed time, completion; `DownloadFile` is proved to reach it, and `MissingLengthIsZero` and `GuardChangesOnlyZeroDivision` state its properties |
| Download.NonEmpty | scrape-archive_download.py:93-94 | the chunks that pass `if chunk:` are non-empty and no more numerous than the chunks received |
| Download.DownloadFile | scrape-archive_download.py:71-116 | an existing target is untouched and nothing else is written unless the file is opened; once opened, the file holds exactly the written chunks and `downloaded` is its length; the outcome is the handler reached (bad status, malformed length, division by zero, broken stream, unassigned elapsed time, completion) |
| Download.SkippingEmptyChunksLosesNothing | scrape-archive_download.py:93-96 | dropping empty chunks never changes the bytes |
| Download.NoEmptyChunkKept | scrape-archive_download.py:93-94 | a body whose chunks are all non-empty passes the `if chunk:` test unchanged, chunk for chunk |
| Download.KnownLengthWritesWholeBody | scrape-archive_download.py:87-99 | with a non-zero Content-Length the file receives the whole body |
| Download.UnknownLengthKeepsFirstChunk | scrape-archive_download.py:87-116 | with a missing or zero Content-Length the file receives exactly the first non-empty chunk, or nothing when all chunks are empty |
| Download.WrittenIsPrefix | scrape-archive_download.py:92-99 | whatever the Content-Length, the file holds a prefix of the body |
| Download.UnknownLengthTruncates | scrape-archive_download.py:87-116 | with no Content-Length, a body of two one-byte chunks ends in the division-by-zero handler with only the first byte on disk |
| Download.DownloadFileGuarded | scrape-archive_download.py:87-99 | with the progress computation guarded by a positive length, an opened file receives the whole body for every Content-Length |
| Download.GuardChangesOnlyZeroDivision | scrape-archive_download.py:98-116 | the guarded and the original code differ only on calls that open the file with length 0 and receive a non-empty chunk |
| Download.ExampleThreeChunks | scrape-archive_download.py:87-93 | a 250000-byte body in 100 KiB chunks is written whole, as three appends (two full, one partial), with its Content-Length, and cut to 102400 bytes without it |

## Left out

- HTTP is left out: `requests.get`, `raise_for_status`, timeouts and how `iter_content` splits the body into chunks (lines 29-33, 82). The fetch result and the chunk sequence are inputs.
- HTML parsing with BeautifulSoup is left out (lines 35, 41-44). A row is the abstract `Row` value.
- The internals of `urllib.parse.urljoin` (reference resolution, section 5.2 of RFC 3986) and `unquote` (percent-decoding, section 2.1 of RFC 3986) are left out. Both are function parameters.
- SizeParsing.ParseFloat models only part of Python's `float()`:
  - it does not accept `inf`, `nan`, digit-group underscores or non-ASCII digits; the model gives 0 for these where Python gives a number;
  - its values are exact decimals, not rounded to binary64.
- SizeParsing.Upper upper-cases ASCII letters only. Python's `str.upper()` also maps non-ASCII letters, but none of them to a digit, a point, a sign, an `E` or one of G, M, K.
- Printing, the progress percentage and bar (lines 98-100), speed, and elapsed time (lines 97, 103-111) are left out. Only whether the elapsed time was ever assigned is kept, because line 111 reads it.
- `shutil.disk_usage` (lines 77-79) and `get_folder_size` (lines 59-66) are left out. The first is a filesystem query outside the `try`; the second is never called.
- `main()` (lines 119-168) is left out: interactive input, CSV writing and reading, and folder creation. A known quirk there is that line 161 percent-decodes the already-decoded name a second time.
- Download.LocalFile: `open()` failing with an `OSError` (caught by line 115) is left out. The file path is the object itself, so path joining (line 71) is not modelled.
- Download.DownloadFile: a `file.write(chunk)` that raises `OSError` (a full disk, say) is not modelled. Python then leaves a partly written file and ends in the generic handler, while the contract promises that an opened file holds all of the written chunks.
- Download.DownloadFile: a transport error is modelled only after the last delivered chunk (`broken`), not between chunks, since that is the same as a shorter body that then breaks.

## Findings

| source | as written | input that shows it | evidently intended | confidence | as-written member | corrected member |
|---|---|---|---|---|---|---|
| scrape-archive_download.py:87-98 | a missing Content-Length defaults to 0, and the progress line divides by it after the first non-empty chunk is written; the generic handler catches the `ZeroDivisionError`, so the file is left holding only that chunk | status 200, no Content-Length, body chunks `[1]`, `[2]`: outcome "division by zero", file holds `[1]` of `[1, 2]` | progress is shown only for a known length and the whole body is downloaded | high (not executed) | Download.UnknownLengthTruncates | Download.DownloadFileGuarded |
