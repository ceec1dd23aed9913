# VidGrab core logic in Dafny

VidGrab is a Flask front end over the yt_dlp extraction engine. `get_info` asks
the engine for a video's format records and answers with a catalog of up to 15
video formats. `download_video` has the engine download one format into a temporary
folder, finds the file by its correlation token and sends it to the browser under a
new name. Almost all of `app.py` is glue. This project models the five pieces of
logic that belong to the application itself, with the engine, the filesystem, the
clock and the random token turned into parameters:

- `sizes.dfy`, module `Sizes`: `format_bytes`. The `while` loop is a method
  (`ScaleDown`). It is proved against two recursive functions: `UnitIndex` (the
  number of divisions by 1024) and `Scaled` (the value left). The unit index is
  shown to be the least k with size <= 1024^(k+1). The model raises a `KeyError`
  exactly for sizes above 1024^5.
- `catalog.dfy`, module `Catalog`: the format loop of `get_info`. `BuildCatalog` is
  the `for` loop with its appends, followed by `reverse()` and the `[:15]` slice. It
  is proved equal to `CatalogOf`. The lemmas say which records are kept, which
  record each entry comes from, how order is reversed, how the size and resolution
  fallbacks work, and which record's error ends the loop.
- `options.dfy`, module `DownloadOptions`: the `ydl_opts` that `download_video`
  builds. The output template is followed by the `convert_to` / `format_id` case
  split. The dictionary updates are modelled as one record built by a case split.
- `artifact.dfy`, module `Artifact`: the scan of the temporary folder for the first
  name that starts with the token (a `while` loop with `break`), the extension taken
  after the last dot, and the delivered name `VidGrab_<timestamp>.<ext>`.
- `errors.dfy`, module `ErrorText`: the substring tests that turn an engine error
  into the fixed login/bot message or into `"Failed: " + message`.
- `routes.dfy`, module `Routes`: `get_info` and `download_video` composed from the
  above. The engine's answer, the listing, the token and the timestamp are
  parameters.
- `text.dfy` and `wrappers.dfy`: Python's `in`, `str.split('.')[-1]` and `str(int)`
  on strings, plus `Option`/`Result`.

The float division in `format_bytes` is modelled with exact reals. The `%.2f`
rendering of the scaled value is a parameter `render: real -> string` and is not
interpreted.

Some consequences of the code as written, which the model keeps:
- Because of the strict `>` in the loop, 1024 bytes render as `1024.00B` and
  1048576 bytes render as `1024.00KB`.
- A record with no `vcodec` key passes the filter.
- An unknown `format_id` goes to the engine unchanged.

## Model

| member | source | states |
|---|---|---|
| `Sizes.UnitIndex` | app.py:21-23 | The number of divisions by 1024 the loop makes. `UnitIndexLeast` and `UnitIndexUnique` prove it is the least k with size <= 1024^(k+1). |
| `Sizes.Scaled` | app.py:21-23 | The value the loop leaves. `ScaledBounds` and `ScaledTimesPower` prove it lies in (1, 1024] after a division and that it times 1024^n is the input. |
| `Sizes.SizeText` | app.py:15-24 | What `format_bytes` returns or raises. `SizeTextUnknownIffFalsy`, `SizeTextFailsIffTooLarge`, `SizeTextBoundaries` and `SizeTextNegative` state its cases. |
| `Sizes.ScaleDown` | app.py:18-23 | After the loop the value is at most 1024. If at least one division happened, it is above 1. size = scaled * 1024^n, and (n, scaled) are `UnitIndex(size)`, `Scaled(size)`. |
| `Sizes.FormatBytes` | app.py:15-24 | `format_bytes` returns exactly `SizeText(size)`: "Unknown" for a falsy size, otherwise the rendered scaled value, the unit letter and "B", or `KeyError(n)` when n has no label. |
| `Sizes.ScaledBounds` | app.py:21-23 | The scaled value is at most 1024. It is above 1 when a division happened, and it is the input when none did. |
| `Sizes.ScaledTimesPower` | app.py:21-23 | Scaling loses no magnitude: `Scaled(x) * 1024^UnitIndex(x) == x`. |
| `Sizes.UnitIndexLeast` | app.py:21-23 | x <= 1024^(n+1), and x > 1024^k for every 1 <= k <= n. So n is the least k with x <= 1024^(k+1). |
| `Sizes.UnitIndexUnique` | app.py:21-23 | Any k that meets those two bounds is the unit index. |
| `Sizes.PowerOfMonotone` | app.py:18 | Powers of 1024 grow with the exponent. |
| `Sizes.UnitLabel` | app.py:20 | `power_labels` has an entry exactly for the indices 0 to 4. |
| `Sizes.SizeTextUnknownIffFalsy` | app.py:16-17 | "Unknown" is returned exactly when the size is None or 0. Every other result ends in "B". |
| `Sizes.SizeTextFailsIffTooLarge` | app.py:20-24 | `format_bytes` raises exactly when the size is truthy and above 1024^5. The missing key is then at least 5. |
| `Sizes.SizeTextBoundaries` | app.py:21 | 1024 stays in bytes (render(1024) + "B"). 1025 becomes (1025/1024) + "KB". 1048576 becomes 1024 + "KB". 0 and None give "Unknown". |
| `Sizes.SizeTextNegative` | app.py:16-24 | A negative size is truthy, is never divided and gets the empty unit. |
| `Catalog.Offered` | app.py:68 | The filter `vcodec != 'none' and resolution != 'audio only'`. `OfferedPositionsExact` proves the loop keeps exactly the records that pass it. |
| `Catalog.SizeOf` | app.py:69 | `filesize or filesize_approx`. `EntryFields` proves the fallback and when "Unknown" results. |
| `Catalog.ResolutionOf` | app.py:73 | `resolution or height`. `ResolutionFallback` states its three cases. |
| `Catalog.EntryOf` | app.py:69-76 | The dictionary appended for one record, or the `KeyError` its size raises. `EntryFields` states what it copies and how it falls back. |
| `Catalog.Collected` | app.py:66-76 | `formats_list` after the loop, or the first error. `CollectedFromOffered`, `CollectedFailure` and `CollectedFailurePersists` state which entries it holds and which error ends it. |
| `Catalog.CatalogOf` | app.py:78-85 | The reversed list cut to 15. `CatalogProvenance`, `CatalogOrder` and `CatalogBounds` state its length, order and the record behind each entry. |
| `Catalog.BuildCatalog` | app.py:66-85 | The loop, the reversal and the slice give exactly `CatalogOf(formats)`. This includes stopping at the first record whose size raises. |
| `Catalog.Reversed` | app.py:78 | Reversal keeps the length. |
| `Catalog.ReversedAt` | app.py:78 | Element k of the reversed list is element n-1-k of the list. |
| `Catalog.CollectedFailurePersists` | app.py:67-76 | Once a prefix of the records raises, the whole loop raises the same error. |
| `Catalog.OfferedPositionsExact` | app.py:67-68 | The kept positions are strictly increasing. Every one is a record with `vcodec` != 'none' and `resolution` != 'audio only', and every such record is kept. |
| `Catalog.CollectedFromOffered` | app.py:67-76 | The k-th appended entry is the entry of the k-th kept record. |
| `Catalog.CatalogProvenance` | app.py:66-85 | The catalog is min(kept, 15) long. Entry k is the entry of kept record number (kept-1-k): the catalog is a prefix of the reversed kept list. |
| `Catalog.CatalogOrder` | app.py:78 | Of two catalog entries, the earlier one comes from the later record in engine order. |
| `Catalog.CollectedFailure` | app.py:69-76 | The loop raises exactly when some kept record's entry raises. The error is that of the first such record, and every kept record before it succeeds. |
| `Catalog.EntryFields` | app.py:69-75 | `format_id` and `ext` are copied. The size comes from `filesize` when it is truthy and from `filesize_approx` otherwise. It shows "Unknown" exactly when both are falsy. |
| `Catalog.ResolutionFallback` | app.py:73 | A non-empty `resolution` is shown as is. An empty or missing one falls back to `height`. The result is empty only when both are missing. |
| `Catalog.NoneOffered` | app.py:67-68 | With no record passing the filter, no position is kept. |
| `Catalog.CatalogBounds` | app.py:78-85 | A list with no video record gives an empty catalog. A catalog is never longer than 15. |
| `DownloadOptions.SelectOptions` | app.py:114-146 | The options the engine is started with. `Mp3Conversion`, `TranscodeIffMp3`, `VideoSelection` and `SelectionAlwaysFallsBack` state the mp3 and video branches. |
| `DownloadOptions.Mp3Conversion` | app.py:133-140 | With `convert_to == 'mp3'`, the selection is 'bestaudio/best' with a single FFmpegExtractAudio/mp3 post-processor and no merge container. `format_id` is ignored. |
| `DownloadOptions.TranscodeIffMp3` | app.py:132-142 | A post-processor is present exactly for mp3. Otherwise the merge container is `convert_to`. |
| `DownloadOptions.VideoSelection` | app.py:141-146 | Outside mp3 the selection ends in "+bestaudio/best". Before that suffix stands `format_id` when it is truthy and not 'best', and "bestvideo" otherwise. |
| `DownloadOptions.SelectionShape` | app.py:132-146 | Every selection is some text followed by "bestaudio/best". |
| `DownloadOptions.SelectionAlwaysFallsBack` | app.py:132-146 | Every selection ends with "bestaudio/best": it always asks for the best audio and falls back to "best". |
| `ErrorText.IsLoginBlock` | app.py:91-93 | One of the three phrases occurs in the message. `LoginBlockInContext` and `NoPhraseInDigits` state when it holds. |
| `ErrorText.Classify` | app.py:91-99 | The `error` text of the 500 response. `ClassifyCases`, `ClassifyKeepsUnrecognised` and `DigitsAreUnrecognised` state its two branches. |
| `ErrorText.ClassifyCases` | app.py:88-99 | The fixed login message comes out exactly when one of the three phrases occurs. Any other message is "Failed: " followed by the whole message. |
| `ErrorText.ClassifyKeepsUnrecognised` | app.py:99 | Two unrecognised messages with the same report are the same message. |
| `ErrorText.LoginBlockInContext` | app.py:91-93 | A recognised phrase is still recognised with any text around it. |
| `ErrorText.NoPhraseInDigits` | app.py:91-93 | A phrase that starts with a non-digit never occurs in a string of digits. |
| `ErrorText.DigitsAreUnrecognised` | app.py:88-99 | An exception text made of digits (a `KeyError` from `format_bytes`) is reported as "Failed: " + text. |
| `Artifact.Lookup` | app.py:155-159 | The artifact the scan settles on. `LookupFirstMatch` proves it is the first name starting with the token, and none only when no name does. |
| `Artifact.LookupFirstMatch` | app.py:155-159 | Nothing is found exactly when no name starts with the token. Otherwise the first name that does gives the path and the text after its last dot. |
| `Artifact.FindArtifact` | app.py:152-159 | The scan with `break` returns exactly `Lookup(listing, token)`. |
| `Artifact.TemplateArtifactFound` | app.py:115-158 | A file named token + "." + ext (as the output template writes it) is found with extension `ext`, provided no earlier name starts with the token. |
| `Artifact.LeadingDigitsBeforeDot` | app.py:176 | The digits before the dot of `<digits>.<ext>` are read back whole. |
| `Artifact.DeliveredName` | app.py:176 | `VidGrab_<ts>.<ext>`. `DeliveredNameKeepsExtension` and `DeliveredNameInjective` state what it keeps. |
| `Artifact.DeliveredNameKeepsExtension` | app.py:158-176 | The delivered name starts with "VidGrab_". Its text after the last dot is the extension of the file on disk. |
| `Artifact.DeliveredNameInjective` | app.py:176 | Equal delivered names have equal timestamps and equal extensions. |
| `Text.Contains` | app.py:91-93 | Python's `sub in s`. `ContainsIff` proves it means an occurrence at some position. |
| `Text.ContainsIff` | app.py:91-93 | `sub in s` holds exactly when `sub` is a prefix of some suffix of `s`. |
| `Text.ContainsInContext` | app.py:91-93 | An occurrence survives any text put before and after it. |
| `Text.AfterLastDot` | app.py:158 | `f.split('.')[-1]` is no longer than `f` and holds no dot. |
| `Text.AfterLastDotIsLastSegment` | app.py:158 | The extension is a suffix of the name. It is either the whole name or is preceded by a dot. |
| `Text.AfterLastDotNoDot` | app.py:158 | A name without a dot is its own extension. |
| `Text.AfterLastDotAppend` | app.py:176 | The text after the last dot of `pre + "." + ext` is `ext` when `ext` has no dot. |
| `Text.NatToString` | app.py:176 | `str(int(time.time()))` is a non-empty string of decimal digits. |
| `Text.NatToStringRoundTrip` | app.py:176 | Reading the digits back gives the number. |
| `Routes.GetInfo` | app.py:39-99 | A missing or empty URL gets 400 "Please provide a URL", whatever the engine would do, and only then. An engine error gets 500 with the classified message. Extracted formats give the catalog. A `KeyError` while building it gives 500 "Failed: <key>". |
| `Routes.Download` | app.py:105-180 | A missing or empty URL gets 400 "Invalid URL", and the engine is never started. Otherwise the engine gets `SelectOptions(token, convert_to, format_id)`. An engine error gives 500 "Download Failed: " + message. With no name starting with the token, the answer is the "File not found" 500. Otherwise the first matching file is sent as `VidGrab_<ts>.<ext>`, with its real extension. |

## Left out

- Flask itself is left out: routing, `request.json` / `request.form` parsing,
  `jsonify`, `render_template` and `send_file`. Each handler's inputs are
  parameters, and its response is a datatype.
- A request body that is not JSON is left out. Flask then fails the request
  before `get_info`'s own logic runs.
- The yt_dlp calls (`extract_info`, `download`) are not modelled. The engine's
  answer is a parameter: a list of format records or an error text, and a completed
  run or an error text.
- `STANDARD_HEADERS`, `extractor_args`, `quiet`, `no_warnings` and
  `nocheckcertificate` are left out. They are fixed settings that only the engine
  reads.
- The `title`, `thumbnail`, `duration` and `platform` fields of the info response
  are left out. They copy engine values unchanged.
- The filesystem is left out: creating `TEMP_FOLDER`, `os.listdir` (the listing is
  a parameter), and the `after_this_request` cleanup that removes the file.
- `uuid.uuid4()` and `time.time()` are parameters (`token`, `timestamp`).
  `timestamp` is taken to be non-negative.
- Sizes.FormatBytes: floating-point rounding is not modelled, and the size is
  divided with exact reals. The `%.2f` digits are the parameter `render`.
- Catalog.FormatRecord: `filesize`, `filesize_approx` and `height` are integers.
  Float values from the engine are not modelled.
- Catalog.FormatRecord: a `format_note` key that is present with value `None` is
  not told apart from a missing key (the note shows "" for both). A record
  without `format_id` or `ext` is not modelled either; in the source that raises a
  `KeyError`.
- Routes.GetInfo: a `formats` key whose value is `None` is not modelled. A missing
  key is passed as the empty list.
- DownloadOptions.SelectOptions: a missing `merge_output_format` key is not told
  apart from one set to `None`.
- Routes.Download: `found_ext`'s initial value `convert_to` is not modelled. It is
  never used, because a scan that finds nothing returns the "File not found" error.
