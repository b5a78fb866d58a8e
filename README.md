# deepracer-teleoperation: the stream extractor and the session logic, in Dafny

deepracer-teleoperation is an iOS app that drives an AWS DeepRacer car over
its local web interface. This project models the two parts of the app that
carry its logic and proves properties of them.

- **The camera stream** (`MJPEGStreamer`). The car serves its camera as a
  motion-JPEG byte stream. Every network chunk is appended to a buffer. Then,
  over and over:
  - the first start-of-image marker `FF D8` is found;
  - the first end-of-image marker `FF D9` at or after the end of that start
    marker is found;
  - the frame between the two is cut out and shown if it decodes as an image;
  - everything up to the end marker is dropped from the buffer.

  A buffer left longer than 5,000,000 bytes is emptied. The marker codes are
  those of ITU-T T.81, Table B.1. `start()`, `stop()` and the chunk callback
  switch the streamer on and off.
- **The session** (`DeepRacerManager`).
  - `login()` GETs the login page and scrapes a CSRF token from it. The
    scraper tries a `<meta name="csrf-token" content="…">` literal first, then
    an `<input … name="csrf_token" … value="…">` tag.
  - It then POSTs `password=…&csrf_token=…`, both values percent-encoded as
    in section 2.1 of RFC 3986. `+`, `=` and `&` are always escaped. Only a
    2xx status counts as a successful login.
  - `fetchBatteryLevel()` polls the battery endpoint. An HTML page in reply
    means the session has expired and logs the manager out.

Modules:

| file | module | contents |
|---|---|---|
| `common.dfy` | `Wrappers`, `Bytes` | `Option`, `Result`, the `Byte` type |
| `search.dfy` | `Search` | first-occurrence search as Foundation's `range(of:)` and `contains` do it, and `replacingOccurrences(of:with: "")` |
| `endpoints.dfy` | `Endpoints` | the device URLs `https://<address><path>` and a reference URL splitter |
| `mjpeg.dfy` | `Mjpeg` | the extraction as a function on byte sequences, the frame loop as a method proved against it, and the class `Streamer` |
| `csrf.dfy` | `Csrf` | the two regular expressions of the scraper as explicit scans, the scraper as written, and the scraper as intended |
| `form.dfy` | `FormEncoding` | UTF-8, the percent-encoder, the login body, and a reference form parser the encoder is proved against |
| `manager.dfy` | `Manager` | the token fetch (with the scraper as written), the POST check, the battery poll, and the class `DeepRacerManager` |

Network replies, `URL(string:)`, `UIImage(data:)` and `JSONDecoder` are
inputs to the methods:
- an exchange is a `Result` holding a reply (an optional HTTP status and the
  body bytes) or the description of the error thrown;
- `urlParses`, `decodes` and `decode` are function parameters.

The model follows the app's code, in particular:
- the login page's HTTP status is never checked (`Manager.TokenIgnoresStatus`);
- the scraped token is not kept after login;
- the token posted is the one the scraper as written returns, including the cut described under "## Findings";
- session expiry is detected when the battery reply *contains*
  `<!DOCTYPE html>` or `<html` anywhere, not only when it starts with one;
- `lastError` holds the error that was caught, not its text.

## Model

| member | source | states |
|---|---|---|
| Search.FindFirst | deepracer-teleoperation/Services/DeepracerApi.swift:114 | the search behind `contains` returns the first occurrence at or after the start, and fails only when the literal occurs nowhere from there on |
| Search.ContainsIff | deepracer-teleoperation/Services/DeepracerApi.swift:114 | `contains` holds exactly when the literal occurs at some index |
| Search.RemoveTrailing | deepracer-teleoperation/Services/DeepracerApi.swift:140 | removing every quote from a quote-free text followed by one quote leaves the text |
| Search.RemoveClosing | deepracer-teleoperation/Services/DeepracerApi.swift:140 | removing `body"` from a quote-free `u` followed by a quote removes the closing quote and, if `u` ends with `body`, that trailing `body` too; nothing else |
| Search.DropSuffix | deepracer-teleoperation/Services/DeepracerApi.swift:140 | the result followed by the suffix is the input when the input ends with it, and the input itself otherwise |
| Endpoints.DeviceUrlSplits | deepracer-teleoperation/Services/DeepracerApi.swift:69 | `https://<host><path>` splits back into exactly that host and path when the host holds no `/` |
| Endpoints.StreamUrl | deepracer-teleoperation/Services/DeepracerApi.swift:25-30 | the camera URL addresses the device at the 480x360 motion-JPEG route |
| Endpoints.LoginUrl | deepracer-teleoperation/Services/DeepracerApi.swift:69 | the login URL addresses the device at `/login` |
| Endpoints.HomeUrl | deepracer-teleoperation/Services/MJPEGStreamer.swift:29 | the `Referer` of the stream request addresses the device at `/home` |
| Endpoints.BatteryUrl | deepracer-teleoperation/Services/DeepracerApi.swift:106 | the battery URL addresses the device at `/api/get_battery_level` |
| Mjpeg.FindMarker | deepracer-teleoperation/Services/MJPEGStreamer.swift:55 | a marker found is at or after the start index and is `FF code` there |
| Mjpeg.FindMarkerFirst | deepracer-teleoperation/Services/MJPEGStreamer.swift:55 | the marker search returns the first occurrence, and fails only when there is none |
| Mjpeg.NextFrame | deepracer-teleoperation/Services/MJPEGStreamer.swift:55-65 | a frame spans at least 4 bytes, so every iteration shrinks the buffer by at least 4 |
| Mjpeg.NextFrameAt | deepracer-teleoperation/Services/MJPEGStreamer.swift:55-65 | the next frame spans [i, e) exactly when `FF D8` begins at i with none before it and `FF D9` begins at e - 2, at least two bytes after i, with none between the end of the start marker and it |
| Mjpeg.NoNextFrameIff | deepracer-teleoperation/Services/MJPEGStreamer.swift:55-58 | no frame is cut exactly when no `FF D8` has an `FF D9` beginning two or more bytes after it |
| Mjpeg.CutIsFrame | deepracer-teleoperation/Services/MJPEGStreamer.swift:58-65 | the bytes cut out begin with `FF D8`, end with `FF D9`, and hold no earlier `FF D9` |
| Mjpeg.NextPieceValid | deepracer-teleoperation/Services/MJPEGStreamer.swift:55-75 | the cut frame is well formed, and the bytes dropped before it hold no start marker |
| Mjpeg.ExtractReassembles | deepracer-teleoperation/Services/MJPEGStreamer.swift:53-76 | the dropped bytes, the frames and the bytes left, in order, make up the buffer exactly: nothing is lost, duplicated or reordered |
| Mjpeg.ExtractedPiecesValid | deepracer-teleoperation/Services/MJPEGStreamer.swift:53-76 | every frame taken is well formed and nothing dropped before it held a start marker |
| Mjpeg.ExtractLeavesNoFrame | deepracer-teleoperation/Services/MJPEGStreamer.swift:53-62 | the loop stops only when the buffer holds no complete frame |
| Mjpeg.LeftoverHasNoCompleteFrame | deepracer-teleoperation/Services/MJPEGStreamer.swift:55-62 | in the bytes left, every end marker comes before every start marker, so a start marker with no end marker yet stays buffered |
| Mjpeg.Ingest | deepracer-teleoperation/Services/MJPEGStreamer.swift:77 | the buffer never holds more than 5,000,000 bytes after a chunk |
| Mjpeg.IngestReassembles | deepracer-teleoperation/Services/MJPEGStreamer.swift:51-77 | after a chunk, the buffer has either been emptied by the ceiling, or the frames taken and the bytes left make up the old buffer followed by the chunk |
| Mjpeg.FrameComesFirst | deepracer-teleoperation/Services/MJPEGStreamer.swift:55-65 | a buffer that begins with a well-formed frame yields exactly that frame first |
| Mjpeg.ExtractFrameFirst | deepracer-teleoperation/Services/MJPEGStreamer.swift:53-76 | a leading frame is taken whole, with nothing dropped, and extraction goes on with what follows |
| Mjpeg.SingleFrame | deepracer-teleoperation/Services/MJPEGStreamer.swift:53-76 | a buffer holding one frame yields it and is left empty |
| Mjpeg.TwoFrames | deepracer-teleoperation/Services/MJPEGStreamer.swift:53-76 | two back-to-back frames are both taken, in order, and the buffer is left empty |
| Mjpeg.BackToBackFrames | deepracer-teleoperation/Services/MJPEGStreamer.swift:51-77 | two back-to-back frames fed in one chunk to an empty buffer are both extracted in order and leave the buffer empty |
| Mjpeg.PartialFrameWaits | deepracer-teleoperation/Services/MJPEGStreamer.swift:62 | a proper prefix of a frame yields nothing and stays buffered whole |
| Mjpeg.FrameAcrossChunks | deepracer-teleoperation/Services/MJPEGStreamer.swift:51-76 | a frame split across two chunks is kept after the first and extracted after the second |
| Mjpeg.GarbageIsDropped | deepracer-teleoperation/Services/MJPEGStreamer.swift:77 | more than 5,000,000 bytes without a start marker are thrown away |
| Mjpeg.DrainFrames | deepracer-teleoperation/Services/MJPEGStreamer.swift:53-76 | the loop leaves the extraction's leftover, shows exactly the frames that decode, in stream order, and ends with the last of them on screen |
| Mjpeg.Streamer.constructor | deepracer-teleoperation/Services/MJPEGStreamer.swift:16-18 | a new streamer has no image, an empty buffer and is not running |
| Mjpeg.Streamer.Start | deepracer-teleoperation/Services/MJPEGStreamer.swift:20-40 | a no-op while running; otherwise the streamer is running even when the URL does not parse, and the stream request carries the home page as `Referer` |
| Mjpeg.Streamer.Stop | deepracer-teleoperation/Services/MJPEGStreamer.swift:42-45 | the streamer stops and the image is cleared, but the buffer is kept |
| Mjpeg.Streamer.Feed | deepracer-teleoperation/Services/MJPEGStreamer.swift:48-80 | a chunk while stopped changes nothing; otherwise the buffer becomes the extraction's leftover under the ceiling, and the image becomes the last frame that decodes |
| Csrf.CloseQuote | deepracer-teleoperation/Services/DeepracerApi.swift:136 | the `[^"]+` run closes at a quote after at least one character |
| Csrf.MatchedShape | deepracer-teleoperation/Services/DeepracerApi.swift:136-139 | a match is the attribute, a non-empty quote-free capture and a closing quote |
| Csrf.FirstQuotedFirst | deepracer-teleoperation/Services/DeepracerApi.swift:136 | the regex search returns the leftmost match and fails only when there is none |
| Csrf.LastQuotedBelowLast | deepracer-teleoperation/Services/DeepracerApi.swift:145 | the greedy `[^>]*` settles on the last `value="…"` match before the tag's `>` |
| Csrf.InputAtWhen | deepracer-teleoperation/Services/DeepracerApi.swift:145 | the input pattern matches at `<input` when, before the first `>`, `name="csrf_token"` is followed by a `value="…"` match |
| Csrf.InputAtWitness | deepracer-teleoperation/Services/DeepracerApi.swift:145 | conversely, every match of the input pattern has such a name and value before the tag's `>` |
| Csrf.FindInputLeftmost | deepracer-teleoperation/Services/DeepracerApi.swift:145 | the input pattern matches nowhere before the match found |
| Csrf.FindInputNone | deepracer-teleoperation/Services/DeepracerApi.swift:145 | with no match anywhere, the input search fails |
| Csrf.MetaInnerAt | deepracer-teleoperation/Services/DeepracerApi.swift:136-139 | inside the matched meta tag, `content="…"` is found right after the head, with the same capture |
| Csrf.InputInnerAt | deepracer-teleoperation/Services/DeepracerApi.swift:145-148 | inside the matched input tag, the first `value="…"` match from the tag's start is found, so a value placed before `name` wins |
| Csrf.StripMatched | deepracer-teleoperation/Services/DeepracerApi.swift:140 | stripping `attr` and then every quote from `attr T"` leaves `T`, less a trailing attribute name |
| Csrf.Scrape | deepracer-teleoperation/Services/DeepracerApi.swift:136-151 | a scrape found text longer than its attribute, under `content="` or `value="` |
| Csrf.ExtractCsrfToken | deepracer-teleoperation/Services/DeepracerApi.swift:134-154 | the scraper as written fails exactly when neither strategy finds a match |
| Csrf.ExtractCsrfTokenIntended | deepracer-teleoperation/Services/DeepracerApi.swift:134-154 | the capture group of the match found; fails exactly when neither strategy finds a match |
| Csrf.MetaWins | deepracer-teleoperation/Services/DeepracerApi.swift:136-141 | a meta match decides the token, whatever hidden input follows: intended, its capture `T`; as written, `T` less a trailing `content=` |
| Csrf.InputFallback | deepracer-teleoperation/Services/DeepracerApi.swift:145-150 | without a meta match, the token is the first `value="…"` capture from the input match on; as written, it loses a trailing `value=` |
| Csrf.NoTokenIff | deepracer-teleoperation/Services/DeepracerApi.swift:134-153 | extraction fails exactly when neither pattern matches anywhere |
| Csrf.TokenShape | deepracer-teleoperation/Services/DeepracerApi.swift:134-153 | the corrected scraper's token, the capture group, is non-empty and holds no `"` |
| Csrf.TokenShapeAsWritten | deepracer-teleoperation/Services/DeepracerApi.swift:134-153 | the token as written holds no `"`, and is empty exactly when the capture is `content=` (meta match) or `value=` (input match) |
| Csrf.AsWrittenAgrees | deepracer-teleoperation/Services/DeepracerApi.swift:140-149 | unless the token ends with `content=` or `value=`, the code as written returns it unchanged |
| Csrf.TokenEndingInAttrIsCut | deepracer-teleoperation/Services/DeepracerApi.swift:140 | a page opening with `<meta name="csrf-token" content="content="` yields the empty token as written, `content=` as intended |
| FormEncoding.Utf8Char | deepracer-teleoperation/Services/DeepracerApi.swift:91 | a scalar value takes one to four bytes, one exactly when it is ASCII |
| FormEncoding.DecodeUtf8Char | deepracer-teleoperation/Services/DeepracerApi.swift:91 | the bytes of one scalar value decode back to it, whatever follows |
| FormEncoding.Utf8RoundTrip | deepracer-teleoperation/Services/DeepracerApi.swift:91 | UTF-8 decoding gives back every string that was encoded |
| FormEncoding.HexDigit | deepracer-teleoperation/Services/DeepracerApi.swift:87-88 | an escape digit is an allowed character whose hexadecimal value is the nibble |
| FormEncoding.EncodeBytes | deepracer-teleoperation/Services/DeepracerApi.swift:86-88 | the encoding holds no `+`, `=` or `&`, only allowed characters and `%` |
| FormEncoding.PercentEncode | deepracer-teleoperation/Services/DeepracerApi.swift:86-88 | the encoded password and token hold no raw `+`, `=` or `&` |
| FormEncoding.DecodeEncodedBytes | deepracer-teleoperation/Services/DeepracerApi.swift:86-88 | percent-decoding gives back the bytes that were encoded |
| FormEncoding.FormValueRoundTrip | deepracer-teleoperation/Services/DeepracerApi.swift:86-88 | form-decoding an encoded value gives back the string |
| FormEncoding.LoginBodyFields | deepracer-teleoperation/Services/DeepracerApi.swift:90 | the body splits at `&` into exactly the `password=` field and the `csrf_token=` field |
| FormEncoding.LoginBodyRoundTrip | deepracer-teleoperation/Services/DeepracerApi.swift:86-90 | parsing the body as a form gives back exactly the password and the token |
| Manager.FetchCsrfToken | deepracer-teleoperation/Services/DeepracerApi.swift:68-77 | the token is scraped as written, and a fetched token holds no `"` |
| Manager.FetchedTokenIsCapture | deepracer-teleoperation/Services/DeepracerApi.swift:72-76 | with the page received as UTF-8, the fetched token is the capture of the matched pattern unless that capture ends with `content=` or `value=` |
| Manager.TokenIgnoresStatus | deepracer-teleoperation/Services/DeepracerApi.swift:70 | the token fetch never looks at the HTTP status |
| Manager.TokenFetchFailsIff | deepracer-teleoperation/Services/DeepracerApi.swift:72-75 | with the page received, the fetch fails, with the extraction error, exactly when the body is not UTF-8 or neither pattern matches |
| Manager.CheckLoginResponse | deepracer-teleoperation/Services/DeepracerApi.swift:93-97 | the POST is accepted exactly when it drew an HTTP response with status 200 to 299; a thrown error is passed on |
| Manager.LoginSucceedsIff | deepracer-teleoperation/Services/DeepracerApi.swift:50-57 | login succeeds exactly when a token was fetched and the POST drew a 2xx HTTP status |
| Manager.PostSentIff | deepracer-teleoperation/Services/DeepracerApi.swift:50-52 | a POST is sent exactly when the login URL parses, the login page arrives as UTF-8 and one of the two CSRF patterns matches in it; without a POST the login fails |
| Manager.SentPostCarriesCredentials | deepracer-teleoperation/Services/DeepracerApi.swift:79-91 | the POST goes to `/login` as a form, and its body parses back to exactly the password and the token |
| Manager.LooksLikeHtmlIff | deepracer-teleoperation/Services/DeepracerApi.swift:114 | the expiry check holds exactly when `<!DOCTYPE html>` or `<html` occurs somewhere in the reply |
| Manager.HtmlReplyLogsOut | deepracer-teleoperation/Services/DeepracerApi.swift:113-119 | a reply holding `<!DOCTYPE html>` or `<html` anywhere logs out whatever the JSON decoder would make of it |
| Manager.PollIgnoresStatus | deepracer-teleoperation/Services/DeepracerApi.swift:109 | the poll never looks at the HTTP status: two replies with the same body have the same effect |
| Manager.LevelIgnoresSuccessFlag | deepracer-teleoperation/Services/DeepracerApi.swift:123-127 | the decoded `success` flag plays no part: decoders that agree on the level and differ at most in the flag have the same effect |
| Manager.DeepRacerManager.constructor | deepracer-teleoperation/Services/DeepracerApi.swift:16-23 | the manager starts unauthenticated, not logging in, without error, at battery level 0 |
| Manager.DeepRacerManager.VideoStreamUrl | deepracer-teleoperation/Services/DeepracerApi.swift:25-30 | the stream URL exists exactly when `URL(string:)` accepts the string, and then addresses the current device at the camera route |
| Manager.DeepRacerManager.Login | deepracer-teleoperation/Services/DeepracerApi.swift:43-66 | afterwards not logging in; authenticated exactly when fetch and POST succeeded; the error recorded on failure and cleared on success; the POST made only after a token was fetched |
| Manager.DeepRacerManager.FetchBatteryLevel | deepracer-teleoperation/Services/DeepracerApi.swift:102-131 | a no-op unless authenticated; otherwise an HTML reply logs out, a decoded reply sets the level, and anything else changes nothing |

## Left out

- Network I/O and TLS are not modelled: `URLSession`, its cookie configuration, `SSLBypassDelegate` and the streamer's challenge handler. Replies are inputs.
- `URL(string:)`, `UIImage(data:)` and `JSONDecoder` are foreign code. They are the parameters `urlParses`, `decodes` and `decode`.
- Concurrency is not modelled: `MainActor.run`, `DispatchQueue.main.async`, `Task` and the 5-second battery poll in the view. Each method is atomic, and a data task still running after `stop()` is a `Feed` call while stopped.
- Mjpeg.Streamer.Feed: the image is updated immediately, not on a later main-queue turn.
- Manager.DeepRacerManager.Login: the intermediate state with `isLoggingIn` set is not observable.
- Manager.DeepRacerManager.Login: `lastError` holds the error value, not its `localizedDescription`. Only the extraction error's text ("CSRF Extraction Failed") is fixed by the code; the rest is platform text.
- Manager.DeepRacerManager.Login: the second URL check in `performLoginPost` is the same parse of the same string that the token fetch already passed, so in the method it is a branch proved unreachable.
- Mjpeg.Streamer.Start: the host is a parameter rather than a read of the shared manager's `ipAddress`. The data task it opens is the returned request.
- FormEncoding.PercentEncode: the `?? ""` fallback is not modelled, because the encoder fails only on strings that are not valid Unicode, and a Dafny `string` always is.
- Search.Contains, Search.Find and Search.RemoveAll compare Unicode scalar values, not Swift `Character`s. Swift's `contains`, `range(of:)` and `replacingOccurrences` compare grapheme clusters, so they miss a literal whose last character is followed by a combining mark, such as `<html` followed by U+0301, or `content="` followed by a capture that starts with U+0301. The model matches there. No normalisation is modelled either.
- FormEncoding.Utf8Decode rejects malformed and overlong sequences and surrogates. Foundation's handling of a leading byte-order mark is not modelled.
- Csrf: only the two patterns of the scraper are modelled, by explicit scans, not a general regex engine. The end of the input match is the greedy reading: the last `value="…"` before the tag's `>`. The token does not depend on that choice, since every candidate end lies at or after the close of the first value.
- The drive controller (`updateSteering`, `updateThrottle`) is not part of this model: it is defined in no source file available.
- UI and app shell are not modelled: gesture math, the connection animation, form validation, SwiftData persistence, the battery display mapping, `ContentView`, and the debug `print` calls and commented-out code.

## Findings

| source | as written | input that shows it | evidently intended | confidence | as-written member | corrected member |
|---|---|---|---|---|---|---|
| deepracer-teleoperation/Services/DeepracerApi.swift:140 | removes every `content="` from the matched `content="T"`, so a token ending in `content=` loses that ending together with the closing quote; line 149 does the same with `value=` | `<meta name="csrf-token" content="content=">` gives the empty token | the capture group `T`, here `content=` | not executed | Csrf.TokenEndingInAttrIsCut | Csrf.MetaWins |
