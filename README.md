# camera-project in Dafny

A model of the two working daemons of a Raspberry Pi camera project, with
proofs of what they promise.

- **camera-daemon.py**: the MJPEG frame splitter. The camera pushes byte
  chunks into `StreamingOutput.write`. A chunk that opens with the JPEG
  start-of-image marker `FF D8` closes the frame accumulated so far. That
  frame becomes the published `frame`, and the marker chunk starts the next
  one. The model also covers the HTTP handler `do_GET`: which response each
  path gets, and the exact bytes of one part of the
  `multipart/x-mixed-replace` stream.
- **file-watcher.py**: `read_settings_file`, which resolves a fixed option
  table against the settings file; the start-up checks of `main`; and the
  retention sweep that deletes every media file at least two whole days old.

Modules:

- `Wrappers` (wrappers.dfy): `Option` and `Result`.
- `Bytes` (bytes.dfy): the `byte` type, the start-of-image test, `Flatten`
  (`b''.join`), Latin-1 encoding, and `Decimal` (`str(n)`) with its
  read-back proof.
- `ByteStream` (byte_stream.dfy): the `io.BytesIO` buffer the splitter
  drives, as a class with a byte string and a position. `truncate`,
  `getvalue`, `seek` and `write` behave as in CPython. A write overwrites
  at the position, pads with zero bytes past the end, and does nothing at
  all when the chunk is empty.
- `CameraOutput` (camera_output.dfy): the class `StreamingOutput`. Two ghost
  fields track its state: `history`, every chunk written, and `chunks`, the
  chunks written since the last marker. `Valid()` ties the buffer's live
  bytes (those before the position) to `chunks`, and `frame` to the
  function `Published(history)`. The lemmas about `Published` and `Pending`
  state what the splitter promises over any sequence of writes.
- `CameraHttp` (camera_http.dfy): `Route`, `Part` and `StreamBody`. A reader
  (`ParsePart`, `ParseStream`) is the partner of the part framing: any
  stream body reads back as exactly the frames it carries. Header lines
  follow section 3.2 of RFC 7230. The part delimiter follows section 5.1.1
  of RFC 2046. The redirect follows section 6.4.2 of RFC 7231.
- `WatcherSettings` (watcher_settings.dfy): `ReadSettingsFile` is a method
  whose loop fills the dictionary, proved equal to the function
  `ReadSettings`. `Startup` models the checks at the top of `main`.
- `WatcherSweep` (watcher_sweep.dfy): the class `MediaDirectory`, whose
  `Sweep` unlinks entries in place, proved equal to the filters `Expired`
  and `Retained`.

## Behaviour worth knowing

- The first marker chunk publishes a frame. On a fresh output that frame
  is the empty byte string; otherwise it is whatever was written before the
  first marker (`FirstMarkerPublishesEmpty`).
- A published frame includes its own `FF D8` marker bytes. So writing
  `FF D8 'A' 'A' 'A'` and then `FF D8 'B' 'B' 'B'` publishes two frames:
  the empty one, then `FF D8 'A' 'A' 'A'` (`TwoMarkerChunks`).
- The capture saved to disk is the marker chunk `buf`, not the frame. It is
  saved on every marker chunk, without throttling. This I/O is left out
  (see below).

## Model

| member | source | states |
|---|---|---|
| `CameraOutput.StreamingOutput.constructor` | camera-daemon.py:80-85 | a fresh output has no frame (`None`), a fresh empty buffer at position 0, and no chunks written or pending |
| `CameraOutput.StreamingOutput.Write` | camera-daemon.py:87-101 | returns `len(buf)`; a marker chunk publishes exactly the live bytes (everything written since the previous marker chunk, never the stale tail past the position) and leaves the live bytes equal to the chunk; any other chunk leaves `frame` unchanged and is appended after the live bytes, even if it holds `FF D8` further in; the buffer's new bytes and position are stated in full |
| `CameraOutput.PublishCount` | camera-daemon.py:88-94 | over any sequence of writes, one frame is published per chunk that opens with the marker, the first marker chunk included |
| `CameraOutput.NothingLostOrDuplicated` | camera-daemon.py:87-101 | the published frames followed by the pending bytes are exactly the bytes written, in order: no byte is lost, repeated or reordered |
| `CameraOutput.PendingOpensWithMarker` | camera-daemon.py:88-101 | once a marker chunk has been written, the chunks accumulating toward the next frame start with a marker chunk |
| `CameraOutput.LaterFramesOpenWithMarker` | camera-daemon.py:88-95 | every published frame after the first starts with `FF D8` |
| `CameraOutput.PublishedGrows` | camera-daemon.py:92-94 | later writes only append frames; an already published frame is never changed |
| `CameraOutput.FirstMarkerPublishesEmpty` | camera-daemon.py:80-94 | when the first chunk written to a fresh output is a marker chunk, the first published frame is the empty byte string |
| `CameraOutput.TwoMarkerChunks` | camera-daemon.py:87-101 | the chunks `FF D8 41 41 41` then `FF D8 42 42 42` publish the empty frame, then the whole first chunk |
| `CameraOutput.StaleTailIsCut` | camera-daemon.py:91-95 | after a 5-byte frame and then a 3-byte marker chunk, the buffer still holds 2 stale bytes past the position, yet the next marker publishes only the 3 live bytes |
| `ByteStream.Overwrite` | camera-daemon.py:101 | `BytesIO.write` at a position: the chunk lands at the position; bytes before it are kept; a gap past the end is zero-filled; bytes after the chunk are kept; an empty chunk changes nothing |
| `ByteStream.OverwriteLive` | camera-daemon.py:101 | writing inside the string: the bytes before the new position are the old live bytes followed by the chunk |
| `ByteStream.BytesIO.constructor` | camera-daemon.py:82 | `io.BytesIO()` is empty at position 0 |
| `ByteStream.BytesIO.GetValue` | camera-daemon.py:93 | `getvalue()` returns the whole byte string, whatever the position; the stale tail past the position is removed by `Truncate` before, which is how `Write` publishes only the live bytes |
| `ByteStream.BytesIO.Truncate` | camera-daemon.py:91 | `truncate()` cuts the string at the position, which does not move |
| `ByteStream.BytesIO.Seek` | camera-daemon.py:95 | `seek(0)` moves the position and leaves the bytes as they are |
| `ByteStream.BytesIO.Write` | camera-daemon.py:101 | `write(buf)` overwrites from the position, advances past the chunk and returns its length |
| `Bytes.StartsWithSoi` | camera-daemon.py:88 | `buf.startswith(b'\xff\xd8')`: the chunk's first two bytes are `FF D8`; `Write`, `WriteStep` and `LaterFramesOpenWithMarker` state what the splitter does with such a chunk |
| `Bytes.Decimal` | camera-daemon.py:135 | `str(len(frame))` is a non-empty run of decimal digits without a leading zero |
| `Bytes.DecimalRoundTrip` | camera-daemon.py:135 | the Latin-1 bytes of `str(n)` read back as `n` |
| `CameraHttp.HeaderLine` | camera-daemon.py:134-136 | a `send_header` line is the name, `: `, the value and CRLF: 4 bytes longer than name and value, with the colon right after the name and CRLF at the end (`HeaderLineIsEncodedText` gives the exact bytes) |
| `CameraHttp.HeaderBlock` | camera-daemon.py:134-136 | the header lines followed by the empty line of `end_headers`: the block always ends with CRLF, is exactly CRLF when there are no headers, and otherwise ends with two CRLFs |
| `CameraHttp.HeaderLineIsEncodedText` | camera-daemon.py:134-135 | a header line is the Latin-1 encoding of `Name: value` followed by CRLF |
| `CameraHttp.Route` | camera-daemon.py:107-143 | every response is 301, 200 or 404; a 404 is exactly a response without handler headers; only a 200 has a body, and a page body is the page itself (`RouteStatus` says which path gets which) |
| `CameraHttp.RouteStatus` | camera-daemon.py:107-143 | `/` gets 301, `/index.html` and `/stream.mjpg` get 200, every other path gets 404, and only `/stream.mjpg` gets the part stream; the path is `self.path` as `http.server` leaves it, compared as text |
| `CameraHttp.RedirectTargetIsPage` | camera-daemon.py:107-118 | the 301 for `/` carries `Location: /index.html`, and that target is answered with 200 and the page |
| `CameraHttp.PageContentLength` | camera-daemon.py:112-118 | the page is sent as `text/html` with a `Content-Length` that reads back as the encoded page's byte length |
| `CameraHttp.StreamHeaders` | camera-daemon.py:120-126 | the stream's head is `Age: 0`, `Cache-Control: no-cache, private`, `Pragma: no-cache`, `Content-Type: multipart/x-mixed-replace; boundary=FRAME`, in that order |
| `CameraHttp.StreamDeclaresPartBoundary` | camera-daemon.py:125-133 | the boundary declared in the stream's content type is the one every part opens with (`--FRAME` and CRLF) |
| `CameraHttp.RouteHeadersWellFormed` | camera-daemon.py:107-126 | every response header the handler sends has a token name and a field value without CR, LF or surrounding white space |
| `CameraHttp.PartHeadersWellFormed` | camera-daemon.py:134-135 | both header lines of every part are well-formed header fields |
| `CameraHttp.Part` | camera-daemon.py:133-138 | a part opens with the delimiter `--FRAME` CRLF and ends with the frame and CRLF, with the part's headers between (`PartLayout` gives every byte, `PartRoundTrip` reads it back) |
| `CameraHttp.StreamBody` | camera-daemon.py:128-138 | the bytes sent for a run of frames: empty exactly when there are no frames, otherwise opening with the delimiter (`StreamRoundTrip` reads it back) |
| `CameraHttp.PartLayout` | camera-daemon.py:133-138 | a part is `--FRAME` CRLF, `Content-Type: image/jpeg` CRLF, `Content-Length: n` CRLF, an empty line, the frame and CRLF, where n is the frame's byte length |
| `CameraHttp.PartRoundTrip` | camera-daemon.py:133-138 | reading a part back yields its frame and exactly what follows it, whatever bytes the frame holds |
| `CameraHttp.StreamRoundTrip` | camera-daemon.py:128-138 | a stream body made of parts reads back as exactly the frames sent, in order |
| `WatcherSettings.ParseInt` | file-watcher.py:42 | `int(text)` succeeds if and only if the text after an optional `+` or `-` is a non-empty run of decimal digits; the result is negative exactly when the sign is `-` and the digits are not all zero |
| `WatcherSettings.ParseSigned` | file-watcher.py:42 | a digit run, bare or after `+` or `-`, reads as its decimal value, negated after `-` |
| `WatcherSettings.ParseIntRoundTrip` | file-watcher.py:42 | `int(str(n)) == n` for every integer `n` |
| `WatcherSettings.Resolve` | file-watcher.py:33-42 | one table entry: a missing section or option gives the entry's default unconverted; a present `path` option becomes a `Path`; an `integer` option becomes `int` of its text, and the entry fails, with `ValueError` on that text, if and only if `int` refuses it; an option with no conversion stays its text |
| `WatcherSettings.ReadSettings` | file-watcher.py:12-43 | a missing file reads as the empty dictionary, and only an existing file can fail |
| `WatcherSettings.ReadSettingsFile` | file-watcher.py:12-43 | the loop over the option table returns what `ReadSettings` defines: an empty dictionary for a missing file, otherwise the table walked in order, stopping at the first refused `int` conversion |
| `WatcherSettings.FailureIsFinal` | file-watcher.py:39-42 | once a conversion raises, the result is that error whatever the rest of the table holds |
| `WatcherSettings.SettingsFromFails` | file-watcher.py:33-42 | reading fails if and only if some entry's conversion is refused |
| `WatcherSettings.SettingsFromContents` | file-watcher.py:33-42 | a successful read has exactly one key per table entry, each holding that entry's converted value or default |
| `WatcherSettings.FixedTable` | file-watcher.py:21-38 | the source's table yields exactly the keys `log_file` and `output_dir`, each resolved from its own section and option (the dictionary's insertion order is not modelled) |
| `WatcherSettings.ExistingFileSettings` | file-watcher.py:20-43 | an existing file gives exactly the keys `log_file` and `output_dir`; a present option becomes a `Path`; a missing section or option gives `None` |
| `WatcherSettings.Startup` | file-watcher.py:48-69 | a missing `log_file` key raises `KeyError` first; `No input dir given` is raised if and only if both keys are present and the output directory is not true; with `log_file` present, a missing `output_dir` raises `KeyError`; if both keys are present and the directory is true, `main` goes on with that directory, logging to the configured `log_file` exactly when it is true |
| `WatcherSettings.MissingFileFailsOnLogFile` | file-watcher.py:48-53 | without a settings file, `main` fails on the `log_file` lookup, before the output-directory check |
| `WatcherSettings.StartupWithFile` | file-watcher.py:48-69 | with a settings file, `main` raises `No input dir given` if and only if `media_save_dir` is missing; otherwise it sweeps that path (even an empty one) and logs to `log_file` exactly when one is configured |
| `WatcherSweep.AgeDays` | file-watcher.py:76 | the age in whole days is the floor of the elapsed seconds over 86400: d days means at least d and less than d + 1 days have passed |
| `WatcherSweep.TooOld` | file-watcher.py:76 | `.days > 1`: an entry is too old if and only if at least two full days (172800 s) have passed since its modification |
| `WatcherSweep.MediaDirectory.constructor` | file-watcher.py:74 | the directory starts with the listed entries |
| `WatcherSweep.MediaDirectory.Unlink` | file-watcher.py:78 | `unlink()` removes exactly the one entry and keeps the others in order |
| `WatcherSweep.MediaDirectory.Visit` | file-watcher.py:75-78 | one turn of the loop unlinks the entry if and only if it is too old, and changes nothing otherwise |
| `WatcherSweep.MediaDirectory.Sweep` | file-watcher.py:74-78 | after one pass the directory holds exactly the entries that are not too old, in listing order; the deleted ones are exactly the too-old ones |
| `WatcherSweep.SweepPartitions` | file-watcher.py:74-78 | deleted and kept entries together are the listing, as a multiset |
| `WatcherSweep.ExpiredMembers` | file-watcher.py:74-78 | an entry is deleted if and only if it is listed and too old; it is kept if and only if it is listed and not too old |
| `WatcherSweep.RecentEntriesKept` | file-watcher.py:74-78 | an entry modified less than two days ago, or in the future, is never deleted |
| `WatcherSweep.SweepIdempotent` | file-watcher.py:71-79 | a second pass at the same time deletes nothing and keeps everything |
| `WatcherSweep.ExpiryIsMonotone` | file-watcher.py:71-79 | whatever a pass deletes at one time, a pass at any later time would delete too |

## Left out

- Concurrency: the `Condition` lock, `wait` and `notify_all`, and the thread-per-client server (camera-daemon.py:83, 92-94, 130-132, 145-147). Publishing is one assignment of `frame`, so a frame is replaced atomically. Which published frames a given client sees depends on thread timing and is not modelled.
- The client loop itself (camera-daemon.py:128-140): the model gives the bytes of one part (`Part`) and of any finite run of parts (`StreamBody`). It does not model the endless `while True` loop, the wait between parts, or the removal of a client when a write raises.
- The picamera recording lifecycle, `serve_forever`, and the SSL socket wrapping (camera-daemon.py:149-161): hardware and library calls.
- Saving captures to disk under a `datetime.now()` file name (camera-daemon.py:84-85, 96-100): file I/O and a clock. It writes the chunk `buf`, not the frame.
- `CameraOutput.StreamingOutput.Write`: assumes the capture save succeeds. When it fails (for example when `picture_save_dir` does not exist; nothing creates it), `open` raises out of `write` at camera-daemon.py:98. By then the frame is already published and the buffer rewound (camera-daemon.py:91-95), and the marker chunk is never written to the buffer (camera-daemon.py:101), so the next frame would lack its marker chunk.
- Module-level settings and logger set-up (camera-daemon.py:21-76; file-watcher.py:50-63): the page text is a parameter of `Route`, already UTF-8 encoded.
- The status line and the `Server` and `Date` headers that `send_response` adds: they come from the HTTP library and the clock. `Route` gives only the status code and the headers that `do_GET` itself sends.
- HTTP/0.9 requests: for them `send_response`, `send_header` and `end_headers` send nothing, so a part is only `--FRAME` CRLF, the frame and CRLF, and the redirect has no `Location`. `Route`, `Part` and `HeaderBlock` model HTTP/1.x requests.
- The 404 response body and the headers that `send_error` generates: they come from the library. The model records status 404 with no handler headers. The extra `end_headers()` call after `send_error` (camera-daemon.py:142-143) is not modelled.
- `CameraHttp.HeaderLine`: requires Latin-1 text, where `send_header` would raise `UnicodeEncodeError` instead. Every header text the handler sends is ASCII (`RouteHeadersWellFormed`, `PartHeadersWellFormed`).
- `ByteStream.BytesIO.Seek`: does not model the `ValueError` of a negative offset; the splitter only seeks to 0.
- `configparser` details in `WatcherSettings`: option-name lower-casing, the `DEFAULT` section, `%` interpolation errors, and parse errors of a malformed file. The settings file is modelled as a map from (section, option) to the text `parser.get` returns, that is after interpolation (`%%` already turned into `%`, `%(name)s` already substituted), not the raw text of the file.
- `WatcherSettings.ParseInt`: accepts an optional sign and ASCII decimal digits only. Python's `int` also accepts surrounding white space, `_` separators, and non-ASCII Unicode decimal digits (`int('١٢') == 12`), all of which the model refuses. The source's table has no `integer` entry, so this branch is never taken on the real table.
- Request-target handling in `http.server`: `Route` receives `self.path` as text. Recent CPython versions collapse a leading `//` before `do_GET` runs, so `//index.html` is served as `/index.html`; that parsing is not modelled.
- `Path(text)` normalisation (collapsing `//`, dropping `.` parts and trailing `/`): a `Path` is modelled as its text.
- The rest of `main` in file-watcher.py: creating directories and the rotating log handler (file-watcher.py:53-58, 65-67), and the `sleep(60)` loop around the sweep (file-watcher.py:71, 79).
- `WatcherSweep.AgeDays`: times are whole seconds. The source subtracts a float `st_mtime`, read as naive local time, from `datetime.now()` at microsecond resolution, so daylight-saving shifts are not modelled.
- `glob`, `stat` and `unlink` of the real filesystem: the listing is a sequence of (path, mtime) entries taken once before the pass. Directories in the listing, files vanishing during the pass, and `unlink` errors are not modelled.
- motion-daemon.py: not part of this model. It does not run (`parser` is undefined and `main` rejects its own option), and its daemon body is empty.
