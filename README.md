# ESP file-manager web server, modelled in Dafny

This project models the request handlers of the ESP8266 side of the
espBadUSB-Plus device (`esp_duck/webserver.cpp`): the small web server
that lets a browser list, create, delete, upload and download the script
files kept in the SPIFFS flash file system, answer websocket commands,
and receive over-the-air firmware updates.

The model keeps the logic that the handlers compute and drops the
asynchronous server plumbing around them:

- `ArduinoString` (`arduino_string.dfy`): `endsWith`, `startsWith` and
  `substring(left)` on strings of characters (see "## Left out" for how
  this differs from the byte strings of the Arduino `String` class).
- `Http` (`http.dfy`): a request as its ordered list of arguments
  (`args()`, `arg(i)`, `hasArg(name)`), and a response as
  code, content type, content (literal text or stored file bytes) and the
  `Content-Encoding: gzip` flag.
- `ContentType` (`content_type.dfy`): `getContentType` as its if-chain,
  with a suffix table and a first-match lookup as the reference
  definition, proved equal.
- `FileList` (`file_list.dfy`): the JSON directory listing as a
  specification function, and the handler's appending loop proved to
  build it.
- `Ota` (`ota.dfy`): the 32-bit sector-aligned size passed to
  `Update.begin`, and the progress percentage, as written and corrected.
- `WebServer` (`webserver.dfy`): a `Server` class whose fields are the
  file store (a `map<string, seq<bv8>>` standing for SPIFFS), the current
  websocket client and the texts sent to clients. Each handler is a method
  that returns every response it hands to `request->send`, in order, so a
  handler that sends two responses (delete of a missing file) shows both.

Inputs the handlers get from code outside the model are parameters: the
names `SPIFFS.openDir` yields (`entries`), whether `SPIFFS.open` succeeds
when creating a file (`openOk`), and the strings that `cli::parse` passes
to its output callback (`replies`).

## Model

| member | source | states |
|---|---|---|
| `ContentType.GetContentType` | esp_duck/webserver.cpp:75-103 | the result is the download type, `text/plain`, or one of the table's types |
| `ContentType.GetContentTypeIsLookup` | esp_duck/webserver.cpp:75-103 | the if-chain equals the download type when `download` is set, and otherwise the first-match lookup over the suffix table in the handler's order |
| `ContentType.LookupFirstMatch` | esp_duck/webserver.cpp:78-101 | the lookup returns the type of the first table entry whose suffix the name ends with |
| `ContentType.LookupNoMatch` | esp_duck/webserver.cpp:102 | the lookup falls back to `text/plain` when no suffix matches |
| `ContentType.ContentTypeOfFirstMatch` | esp_duck/webserver.cpp:78-101 | without `download`, the first matching suffix in the listed order decides the type |
| `ContentType.ContentTypeFallback` | esp_duck/webserver.cpp:102 | without `download`, a name with none of the suffixes is `text/plain` |
| `ContentType.DownloadOverrides` | esp_duck/webserver.cpp:76-77 | a `download` argument gives `application/octet-stream` whatever the filename |
| `ContentType.HtmlSuffixes` | esp_duck/webserver.cpp:78-81 | names ending in `.htm` and in `.html` are both `text/html` |
| `ContentType.GzipNameTypedAsGzip` | esp_duck/webserver.cpp:100-101 | typed by its own name, `x.html.gz` would be `application/x-gzip`, which is why the handler types the file before adding `.gz` |
| `WebServer.ResolvePath` | esp_duck/webserver.cpp:107-109 | a path ending in `/` gets `index.html` appended, any other path is kept, and the result never ends in `/` |
| `WebServer.ResolvePathIdempotent` | esp_duck/webserver.cpp:107-109 | resolving a resolved path changes nothing |
| `WebServer.Server.HandleFileRead` | esp_duck/webserver.cpp:105-132 | if the resolved path's `.gz` sibling is stored, it is served gzip-encoded; else if the path is stored it is served plain; the result is true exactly in these two cases and nothing is sent otherwise; the type comes from the path before `.gz` |
| `WebServer.ServeCompressedHtml` | esp_duck/webserver.cpp:107-117 | for stored `x.html.gz`, a request for `x.html` is answered 200 with that file, gzip-encoded and typed `text/html` |
| `WebServer.Server.HandleFileDelete` | esp_duck/webserver.cpp:134-156 | no args gives 500 `BAD ARGS` and path `/` gives 500 `BAD PATH`, both leaving the store; otherwise a missing file is answered 404 and then 200, a present one 200, and the path is absent afterwards while every other file is kept |
| `WebServer.Server.HandleFileCreate` | esp_duck/webserver.cpp:158-188 | in order: no args → 500 `BAD ARGS`; path `/` → 500 `BAD PATH`; existing path → 500 `FILE EXISTS`; open failure → 500 `BAD ARGS`, all with the store unchanged; otherwise 200 and exactly one new empty file |
| `WebServer.Server.HandleFileList` | esp_duck/webserver.cpp:190-217 | without a `dir` argument 500 `BAD ARGS`; otherwise 200 `text/json` with the listing of the directory's entries in iteration order |
| `ArduinoString.SubstringFrom` | esp_duck/webserver.cpp:210 | the result is the characters from `left` on, and empty when `left` is at or past the end |
| `FileList.EntryJson` | esp_duck/webserver.cpp:206-211 | an entry's object is enclosed in braces and is 25 characters longer than the name without its first character |
| `FileList.AppendEntry` | esp_duck/webserver.cpp:205-211 | one loop step adds a comma unless the output is still `[`, then the entry's object |
| `FileList.BuildListing` | esp_duck/webserver.cpp:202-215 | the loop's output is `[`, the entries' objects joined by commas in order, and `]` |
| `FileList.JoinEntriesSnoc` | esp_duck/webserver.cpp:205 | appending an entry adds a separating comma exactly when there already was one |
| `FileList.JoinEntriesBraces` | esp_duck/webserver.cpp:207-211 | a non-empty join starts with `{` and ends with `}` |
| `FileList.ListingShape` | esp_duck/webserver.cpp:202-215 | the listing is bracketed, is `[]` exactly for an empty directory, and has no leading or trailing comma |
| `WebServer.NormalizeName` | esp_duck/webserver.cpp:223 | the upload name always starts with `/`; one that already did is kept, any other gets `/` prepended |
| `WebServer.NormalizeNameIdempotent` | esp_duck/webserver.cpp:223 | normalizing twice equals normalizing once |
| `WebServer.UploadChunk` | esp_duck/webserver.cpp:225-228 | a chunk at offset 0 makes the file exactly the chunk; a later chunk appends to the old content (creating the file if missing); no other file changes |
| `WebServer.Server.HandleUpload` | esp_duck/webserver.cpp:220-234 | the handler changes the store exactly as one upload chunk does |
| `WebServer.UploadAllAppends` | esp_duck/webserver.cpp:225-228 | a run of chunks, each at the offset where the previous ended, leaves the earlier content (none from offset 0) followed by all chunks, and every other file as it was |
| `WebServer.UploadReplaces` | esp_duck/webserver.cpp:225-228 | a whole upload from offset 0 makes the file's content exactly the uploaded bytes |
| `WebServer.Server.constructor` | esp_duck/webserver.cpp:33 | the server starts with no current websocket client |
| `WebServer.Server.Send` | esp_duck/webserver.cpp:366-368 | text is sent to the current client if there is one; outside a websocket event nothing is sent |
| `WebServer.Server.OnWsEvent` | esp_duck/webserver.cpp:39-73 | only a text frame sets the current client; each reply the parser hands to its callback (lines 65-69) goes to that client once, in order; afterwards no client is current; other events send nothing |
| `Ota.BeginSize` | esp_duck/webserver.cpp:329 | in 32-bit arithmetic the size is a multiple of 4096; with at least one sector free it is the largest such multiple not above free minus 4096; below that the subtraction wraps and the size is `0xFFFFF000` |
| `Ota.ProgressAsWritten` | esp_duck/webserver.cpp:298 | the division is defined exactly when `total >= 100`, and the value times the divisor never exceeds `progress` |
| `Ota.ProgressDividesByZero` | esp_duck/webserver.cpp:298 | every image under 100 bytes makes the divisor zero, whatever the progress |
| `Ota.ProgressOvershoots` | esp_duck/webserver.cpp:298 | for `progress = total = 199` the printed value is 199 |
| `Ota.ProgressBoundedForLargeImages` | esp_duck/webserver.cpp:298 | from 10000 bytes on, the value as written never exceeds 100 while `progress <= total` |
| `Ota.ProgressPercent` | esp_duck/webserver.cpp:298 | the corrected percentage is defined exactly for a non-empty image |
| `Ota.ProgressPercentBounded` | esp_duck/webserver.cpp:298 | the corrected percentage is at most 100 and equals 100 exactly when the whole image has arrived |

## Left out

- The asynchronous HTTP server, its routing table (`begin`, including the `/` and not-found redirects, the `/run` and `/ip` routes) and its response objects are represented only by the responses each handler returns.
- `reply` (lines 19-25): a helper that wraps a compiled-in buffer in a gzip response; it is not called from the handlers modelled here.
- The `/run` route and `wsEvent` hand text to `cli::parse`, whose source is not part of this model; its outputs are the `replies` parameter.
- `WebServer.Server.OnWsEvent`: `cli::parse` may have effects besides its replies (on SPIFFS, on the script runtime); they are not modelled and are assumed to be none, so the method promises the file store unchanged, which the source does not guarantee.
- `wsEvent`'s `msg[len] = 0`: a write into a buffer owned by the websocket library, outside the model.
- `debugf`/`debugln`, `digitalWrite` on the status pin, and `ESP.restart` in `update`: output to hardware.
- WiFi access point, mDNS and DNS server setup: platform services.
- ArduinoOTA and the `Update` library (`begin`, `write`, `end`, `hasError`, the `/update` reply and the `onError` messages): foreign calls; only the two arithmetic expressions are modelled.
- SPIFFS itself: capacity, name length limits and write failures are not modelled. Whether opening for create succeeds is the `openOk` parameter; an upload chunk is assumed to open and write in full.
- `WebServer.Server.HandleUpload`: does not model a failed open or a short write during an upload, because their effect lies inside SPIFFS.
- `WebServer.Server.HandleFileList`: the directory's entries and their order come from `SPIFFS.openDir`, which is not part of this model, so they are a parameter and are not tied to the file store.
- `ArduinoString.SubstringFrom`: strings are modelled as sequences of characters, while the Arduino `String` is a sequence of bytes. So the listing's `substring(1)` on a name whose first character takes several bytes in UTF-8 (the source drops only the first byte, the model the whole character) is not captured, and neither are names that are not valid UTF-8.
- `FileList.EntryJson`: names are put into the JSON without escaping, as in the source; the model does not state what a JSON reader makes of a name with quotes in it.
- The script interpreter (`duckscript`, `duckparser`) and the NeoPixel driver: only declarations or hardware calls are available, so their behaviour is not part of this model.
- Concurrency: the async server may run handlers concurrently with the main loop; the model treats each handler call as atomic.

## Findings

| source | as written | input that shows it | evidently intended | confidence | as-written member | corrected member |
|---|---|---|---|---|---|---|
| esp_duck/webserver.cpp:298 | `progress/(total/100)` with unsigned division | `progress = total = 199` prints `199%`; any `total < 100` divides by zero | a percentage from 0 to 100, `progress * 100 / total` | low, not executed: firmware images are far larger than 10000 bytes, where the value stays at most 100 (`Ota.ProgressBoundedForLargeImages`) | `Ota.ProgressAsWritten`, `Ota.ProgressOvershoots` | `Ota.ProgressPercent`, `Ota.ProgressPercentBounded` |
