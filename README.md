# file_downloader: a verified model of the download helper's logic

The downloader is a single browser script (`app.js`). A user types a URL. The
script asks a relay to fetch it and streams the response body. While the body
streams, it shows a progress percentage and a throughput figure. At the end it
saves the bytes as a local file. It also keeps cumulative statistics in local
storage: attempts, successful downloads and bytes saved.

This project models the parts of that script that are logic rather than glue:

- `Display` (display.dfy) covers the display arithmetic. `Math.round` of a
  percentage is done on exact rationals. It also holds the success rate of
  the statistics block and the unit that `formatBytes` picks.
- `Filename` (filename.dfy) covers `getFilenameFromUrl`. It models
  `split('/')` exactly and proves that it is the inverse of `join('/')`. The
  file name is the last piece of the pathname, or `"downloaded-file"`.
- `Transfer` (transfer.dfy) covers the streaming read loop of `startDownload`
  as a method with loop invariants. The method is proved against
  specification functions:
  - the chunk buffer, which is the readings in arrival order;
  - the byte count;
  - the percentages shown;
  - a throughput meter whose checkpoint moves only after more than 500 ms.
- `Stats` (stats.dfy) holds the `downloadStats` record and the attempt state
  machine on it (`After`, `Replay`). `DownloadStats` is a class with the three
  counters and a ghost copy of what local storage holds. `StartDownload` is a
  method on it that runs one attempt end to end.

The outside world comes in as parameters:
- the relay's behaviour (`Relay`): unreachable, or a status, a parsed
  Content-Length and the chunks with their `Date.now()` readings, possibly
  ending in a stream error;
- the result of the browser's URL parser (`Option<string>` pathname);
- the stored record at page load (`Option<Record>`);
- the clock reading taken before the request.

Behaviour of the code worth noting, which the model follows:
- The record is written to storage only on the success path (app.js:126).
  A failed attempt leaves storage as it was, although the in-memory attempt
  counter has grown. `DownloadStats.Valid` states this exact lag.
- A stored value that is not valid JSON makes `JSON.parse` throw at app.js:4.
  It is not treated as "no prior stats". The model takes the stored record as
  present or absent only.
- The progress percentage and the throughput checkpoint are updated only
  when the parsed total is truthy (app.js:90). A total of 0 behaves like a
  missing one.
- `response.ok` holds for 204 and 205 too, but under the Fetch standard
  those responses have a null body. `response.body.getReader()` at app.js:78
  then throws, so such an attempt fails (`NoBody`) and is not counted as a
  success.

## Model

| member | source | states |
|---|---|---|
| Display.RoundedPercentIsNearest | app.js:91 | RoundedPercent(part, whole) = r is Math.round(100*part/whole) on exact rationals: 2w·r <= 200·part + w < 2w·(r+1), so halves round up |
| Display.PercentMonotone | app.js:91 | more bytes never show a smaller percentage |
| Display.PercentAtMost100 | app.js:91 | a part no larger than the whole shows at most 100%, and the whole shows exactly 100% |
| Display.SuccessRate | app.js:19-20 | 0 when there were no attempts (no division by zero); otherwise the rounded percentage successful/total; in 0..100 whenever successful <= total; 100 when every attempt succeeded |
| Display.UnitIndex | app.js:29 | floor(log base 1024 of n) for n >= 1: 1024^i <= n < 1024^(i+1) |
| Display.UnitIndexIsLargest | app.js:29 | 1024^j <= n exactly when j <= UnitIndex(n), so the index is the largest such j and the only one that brackets n |
| Display.SizeUnit | app.js:25-30 | "Bytes" for 0; a label exists exactly when bytes < 1024^4, and it is always one of Bytes/KB/MB/GB |
| Display.SizeUnitBracket | app.js:28-30 | for a positive count, the unit is sizes[i] exactly when 1024^i <= bytes < 1024^(i+1) |
| Filename.Split | app.js:145 | `split('/')` yields at least one piece and no piece contains '/' |
| Filename.JoinSplit | app.js:145 | joining the pieces of `split('/')` with '/' gives back the pathname |
| Filename.SplitJoin | app.js:145 | splitting the '/'-join of separator-free pieces gives back the pieces |
| Filename.LastSegment | app.js:145 | `split('/').pop()` contains no '/' |
| Filename.LastSegmentIsTail | app.js:145 | the popped piece is the suffix after the final '/' (or the whole pathname when there is none), and it is empty exactly when the pathname is empty or ends in '/' |
| Filename.FilenameFromUrl | app.js:141-149 | the name is never empty and never contains '/'; it is "downloaded-file" when the URL does not parse |
| Filename.FilenameOfPathname | app.js:143-146 | for a parsed pathname: "downloaded-file" when it is empty or ends in '/', otherwise the tail after its final '/' |
| Transfer.ConcatLength | app.js:86-110 | the saved payload (`new Blob(chunks)`) is exactly the sum of the chunk lengths, which is `loaded` |
| Transfer.ConcatHoldsChunk | app.js:86-110 | each chunk sits in the payload in arrival order, at the offset of the bytes that arrived before it |
| Transfer.Tick | app.js:96-105 | the checkpoint moves exactly when more than 500 ms have passed since it last moved; it then takes the current time and `loaded` and records the figure (bytes since, ms since); its time never decreases |
| Transfer.MeterInvariant | app.js:96-105 | lastLoaded <= loaded; lastTime >= startTime; every figure spans more than 500 ms and a non-negative byte count; the figures add up to (lastLoaded, lastTime - startTime) |
| Transfer.MeterMonotone | app.js:100-105 | over later chunks the checkpoint's time, its byte count and the number of figures never decrease, whatever the clock does |
| Transfer.PercentagesMonotone | app.js:87-93 | the percentage shown after a chunk is never smaller than one shown after an earlier chunk |
| Transfer.LoadedIsTotalLength | app.js:86-87 | after k chunks, `loaded` is the total length of the first k buffered chunks |
| Transfer.PercentagesBounded | app.js:90-93 | when at most `total` bytes arrive, no percentage shown exceeds 100 |
| Transfer.PercentagesReachFull | app.js:90-93 | when exactly `total` bytes arrive, the last percentage shown is 100 |
| Transfer.ReadBody | app.js:79-107 | the loop buffers the chunks in arrival order and `loaded` is their total length; with a truthy total it shows round(100*loaded/total) after each chunk and leaves the meter as the per-chunk Tick sequence (Metered) gives it; otherwise it shows nothing and the checkpoint stays (startTime, 0) |
| Stats.Render | app.js:11-21 | the statistics block shows both counters, a success rate of 0 when there were no attempts and at most 100 for a consistent record, and a unit for totals below 1024^4 |
| Stats.After | app.js:36-126 | an empty URL changes nothing; an accepted attempt adds exactly 1 attempt whatever the outcome; only a completed one (2xx other than the null-body 204/205, body read to the end) adds 1 success and its bytes; successful <= total is preserved |
| Stats.ReplayCounts | app.js:36-126 | from the all-zero record, any series of attempts leaves exactly (accepted attempts, bytes of completed ones, completed ones), so the success rate stays within 100% |
| Stats.DownloadStats.Load | app.js:4-8 | the stored record when the key is present, the all-zero record when it is absent; storage unchanged |
| Stats.DownloadStats.StartDownload | app.js:34-138 | the counters follow `After`; an empty URL is rejected with storage untouched; the attempt completes exactly when the relay answers 2xx with a body (not 204/205, whose null body makes `getReader()` throw) and the body ends cleanly; a completed attempt saves the concatenated chunks (`loaded` bytes) under FilenameFromUrl, showed round(100*loaded/total) after each chunk and left the meter as Metered gives it when the total is truthy (nothing shown and the checkpoint at (startTime, 0) otherwise), and writes the whole record to storage; a failed one reports network, HTTP-status, null-body or stream error and leaves storage as it was; the statistics view is re-rendered (returned) except on rejection; storage lags memory only in failed attempts |

## Left out

- The `fetch` call to the relay, its request body, the `response.ok` status check itself and the reading of `Content-Length` through `parseInt` are not modelled. They are inputs: `Relay` carries the status, the parsed total (None for NaN) and the chunks.
- DOM writes, `alert`, `console.error`, and the `Blob` / `createObjectURL` / anchor-click save are not modelled. They are browser side effects; the model returns the payload and file name that the save receives.
- The error-message texts (`HTTP error! status: …` and the browser's transport messages) are reduced to the `Failure` kinds, which keep the status code.
- `localStorage` and `JSON.parse` / `JSON.stringify` are not modelled as real I/O. Persistence is the ghost field `persisted`.
- Stats.DownloadStats.Load: requires a stored record with successful <= total. It assumes the record was written by this page. The source checks nothing, and a malformed stored value makes `JSON.parse` throw, which is not modelled.
- Display.SizeUnit: only the unit is modelled. The numeral (`toFixed(2)` and `parseFloat`) is floating-point rendering and is left out.
- Display.UnitIndex: uses an exact integer logarithm. The source uses `Math.log(bytes) / Math.log(1024)` in floating point, which may differ near exact powers of 1024.
- Display.SizeUnit: does not model `formatBytes` on fractional throughput values, which can be below 1.
- Display.RoundedPercent and Display.SuccessRate: compute on exact rationals, not IEEE doubles. At an exact .5 the double result can round differently.
- Transfer.Tick: records the operands of the throughput figure (bytes since, ms since), not the fractional quotient `bytesDiff / timeDiff`.
- The `URL` constructor is a foreign parser. Only its pathname result, or its throwing (None), enters the model.
- The async suspension points of `startDownload` are not modelled. Neither are re-entrant clicks while a download is in flight, which would interleave two attempts on the shared record.
