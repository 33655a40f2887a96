# Video range requests, modelled in Dafny

The server streams MP4 files from its video directory through
`GET /videos/:filename`. It also has two ingestion endpoints,
`POST /download/url` and `POST /download/torrent`. This project models the
decision logic of the streaming handler:

- what `fs.stat` reported, together with the optional `Range` request header,
  determines the status (404, 200 or 206);
- the same inputs determine the headers passed to `res.writeHead`, including
  the exact `Content-Range` text;
- they also determine the inclusive byte window handed to
  `fs.createReadStream`.

The range is read the way the handler reads it:

- the first `bytes=` is removed, wherever it occurs;
- the rest is split on `-`;
- each part goes through `parseInt`, which gives NaN when there are no leading
  digits;
- an absent or empty end part means `size - 1`;
- the chunk size is `end - start + 1`.

It also models the 400 presence checks at the top of the two ingestion
handlers.

The model is pure functions with lemmas:

- `wrappers.dfy` holds `Option`.
- `js_numbers.dfy` holds JavaScript numbers: NaN or an integer, with the `-`
  and `+` used by the handler, number-to-text rendering and `parseInt(s, 10)`.
- `js_strings.dfy` holds non-global `replace` and one-character `split`.
- `video_route.dfy` holds the handler and its properties.
- `download_routes.dfy` holds the presence checks.

The model follows the code, not an idealised range resolver:

- There is no check that the start precedes the end, or that it lies inside
  the file.
- A part that is not a number becomes NaN and is printed as `NaN` in
  `Content-Range`.
- The handler never chooses 416, and never chooses 400 on this route. Every
  non-empty `Range` header leads to 206 being passed to `res.writeHead`.
- An open range on an empty file gets the end -1.
- The file name is not checked for `..` segments.

The lemmas `NoUnsatisfiableRange`, `NoReversedRangeCheck`, `NonNumericStart`
and `NaNShownInContentRange` state these behaviours outright. The status in
the model is the one the handler passes to `res.writeHead`. Whether that head
reaches the client depends on Node's file reader, as a line under
"Left out" says.

## Model

| member | source | states |
|---|---|---|
| VideoRoute.Serve | server.js:22-50 | 404 exactly when the stat failed or is not a regular file, with the body `File not found`; 200 exactly for a regular file with no or an empty `Range` header, with `Content-Type: video/mp4`, `Content-Length: size` and the whole file; 206 exactly for a regular file with a non-empty `Range` header, and then the reply built from the parsed range; `Accept-Ranges` and `Content-Range` are sent only with 206 |
| VideoRoute.PartialReply | server.js:42-51 | the 206 reply has exactly the four headers `Content-Range`, `Accept-Ranges: bytes`, `Content-Length` and `Content-Type: video/mp4`; the window passed to the reader is the start/end pair printed in `Content-Range`; `Content-Length` is end - start + 1 when both ends are numbers and NaN otherwise |
| VideoRoute.NotFoundIgnoresRange | server.js:22-25 | when the file is missing or not a regular file, the reply is the same 404 whatever the `Range` header is |
| VideoRoute.FullContent | server.js:30-35 | with no `Range` header, or an empty one, the reply is 200 with exactly `Content-Type` and `Content-Length: size`, and the whole file |
| VideoRoute.RangeParts | server.js:38 | removing `bytes=` and splitting on `-` gives at least one part, and no part contains `-` |
| VideoRoute.FieldsOf | server.js:39-42 | the chunk size is a number exactly when start and end both are, and then it equals end - start + 1; a parsed start or end is never negative, so only the default end `size - 1` can be (for an empty file) |
| VideoRoute.ParseRange | server.js:38-42 | for any `Range` text, the chunk size is a number exactly when both ends are, and then it equals end - start + 1 |
| VideoRoute.PartsAfterPrefix | server.js:38 | a header that starts with `bytes=` is split on `-` after that prefix |
| VideoRoute.PartsOfClosedRange | server.js:38 | `bytes=S-E` with S and E runs of decimal digits splits into exactly S and E |
| VideoRoute.ParseClosedRange | server.js:38-42 | `bytes=S-E` with S and E non-empty runs of decimal digits, leading zeros allowed, gives start S, end E (their values) and chunk size E - S + 1, for every file size |
| VideoRoute.FieldsOfDigitParts | server.js:39-42 | the parts S and E, non-empty runs of digits, give start S, end E and chunk size E - S + 1 |
| VideoRoute.StartOfTwoParts | server.js:39 | for any two parts without `-`, the start is exactly what `parseInt` reads from the first part, a number or NaN |
| VideoRoute.EndOfTwoParts | server.js:40 | for any two parts without `-` with a non-empty second part, the end is exactly what `parseInt` reads from that part, a number or NaN, instead of the default |
| VideoRoute.ParseClosedDecimalRange | server.js:38-42 | `bytes=S-E` with the canonical numerals of naturals S and E gives start S, end E and chunk size E - S + 1 |
| VideoRoute.LeadingZerosAccepted | server.js:38-42 | `bytes=0099-0100` parses to start 99, end 100 and chunk size 2 |
| VideoRoute.PartsOfOpenRange | server.js:38 | for any start part A without `-`, `bytes=A-` splits into A and an empty part, and `bytes=A` splits into A alone |
| VideoRoute.OpenEndDefault | server.js:38-42 | for any start part A without `-` (leading zeros, a sign, no digits at all), `bytes=A-` and `bytes=A` both give start `parseInt(A)` and the default end size - 1, and the chunk size is computed from those two |
| VideoRoute.ParseOpenRange | server.js:40-42 | with the numeral of a natural S, `bytes=S-` and `bytes=S` both give start S, the default end size - 1 and chunk size size - S |
| VideoRoute.FieldsOfOpenDecimal | server.js:39-42 | the parts of `bytes=S-` and of `bytes=S`, with the numeral of a natural S, give start S, the default end size - 1 and chunk size size - S |
| VideoRoute.LeadingZerosOpenRange | server.js:38-42 | `bytes=0500-` parses to start 500, the default end size - 1 and chunk size size - 500 |
| VideoRoute.NonNumericOpenRange | server.js:38-42 | `bytes=x-` parses to a NaN start, the default end size - 1 and a NaN chunk size |
| VideoRoute.SignedOpenRange | server.js:38-42 | `bytes=+5-` parses to start 5, the default end size - 1 and chunk size size - 5 |
| VideoRoute.ParseLeadingZeros | server.js:39 | `parseInt` reads `0500` as 500 |
| VideoRoute.ParsePlusSign | server.js:39 | `parseInt` reads `+5` as 5 |
| VideoRoute.ServeClosedRange | server.js:38-51 | the full 206 reply to `bytes=S-E`: `Content-Range: bytes S-E/size` with the same decimals, `Accept-Ranges: bytes`, `Content-Length: E - S + 1`, `Content-Type: video/mp4`, and the window [S, E] |
| VideoRoute.RangeText | server.js:44 | no `ensures` of its own: the template `bytes ${start}-${end}/${videoSize}`; its layout and read-back are stated by `ContentRangePieces`, `ContentRangeReadBack` and `NaNShownInContentRange` |
| VideoRoute.ContentRangePieces | server.js:44 | the `Content-Range` text of a window of two naturals starts with `bytes `, and the rest splits on `-` into the start numeral and `end/size` |
| VideoRoute.ContentRangeReadBack | server.js:38-44 | reading the `Content-Range` text of a window of two naturals back with `split` and `parseInt` gives the window's start, its end and the file size again; the window [0, -1] of an open range on an empty file, printed `bytes 0--1/0`, is not covered and does not read back this way |
| VideoRoute.EmptyFileRangeText | server.js:40-44 | the window [0, -1] of `bytes=0-` on an empty file is printed `bytes 0--1/0`, and its text after `bytes ` splits on `-` into three parts, `0`, an empty part and `1/0` |
| VideoRoute.EndAndSizeReadBack | server.js:44 | `end/size` is read by `parseInt` as the end, and splits on `/` into the two numerals |
| VideoRoute.NonNumericStart | server.js:39-42 | a start part with no digits gives a NaN start and a NaN chunk size, while a numeric end is still read |
| VideoRoute.NonNumericEnd | server.js:38-42 | `bytes=A-W` with a non-empty end part W that has no digits gives start `parseInt(A)`, a NaN end and a NaN chunk size |
| VideoRoute.FieldsOfNonNumericEnd | server.js:39-42 | the parts A and a digit-free W give start `parseInt(A)`, a NaN end and a NaN chunk size |
| VideoRoute.NonNumericEndExample | server.js:38-42 | `bytes=0-x` parses to start 0, a NaN end and a NaN chunk size |
| VideoRoute.ParseZero | server.js:39 | `parseInt` reads `0` as 0 |
| VideoRoute.NaNEndShownInContentRange | server.js:44 | a NaN end is printed as the text `NaN` in `Content-Range`: `bytes S-NaN/size` |
| VideoRoute.NaNShownInContentRange | server.js:44 | a NaN start is printed as the text `NaN` in `Content-Range` |
| VideoRoute.NoUnsatisfiableRange | server.js:40-50 | `bytes=S-` with S at or past the end of the file still has 206 passed to `writeHead`, with the window [S, size - 1] and a `Content-Length` of size - S, which is zero or negative |
| VideoRoute.NoReversedRangeCheck | server.js:38-50 | `bytes=S-E` with E < S still has 206 passed to `writeHead`, with a `Content-Length` of E - S + 1, which is zero or negative |
| VideoRoute.FirstHundredBytes | server.js:38-50 | `bytes=0-99` on a 1000-byte file gives 206 with `Content-Range: bytes 0-99/1000`, `Content-Length: 100` and the window [0, 99] |
| VideoRoute.FirstHundredBytesFields | server.js:38-42 | `bytes=0-99` on a 1000-byte file parses to start 0, end 99 and chunk size 100 |
| VideoRoute.OpenEndedFromMiddle | server.js:38-50 | `bytes=500-` on a 1000-byte file gives 206 with `Content-Range: bytes 500-999/1000`, `Content-Length: 500` and the window [500, 999] |
| VideoRoute.OpenEndedFromMiddleFields | server.js:40-42 | `bytes=500-` on a 1000-byte file parses to start 500, the default end 999 and chunk size 500 |
| JsStrings.IndexOf | server.js:38 | the index that `replace` acts on is an occurrence of the pattern with no earlier occurrence; when none is found, the pattern occurs nowhere |
| JsStrings.ReplaceFirst | server.js:38 | no `ensures` of its own: `replace` with a non-global literal pattern; `IndexOf` states which occurrence it acts on, and `ReplaceFirstAtFront` and `ReplaceFirstRemoves` state the result |
| JsStrings.ReplaceFirstAtFront | server.js:38 | replacing a pattern that starts the text removes it from the front |
| JsStrings.ReplaceFirstRemoves | server.js:38 | replacing with the empty text removes exactly the first occurrence, and a text without the pattern is unchanged |
| JsStrings.Split | server.js:38 | `split` gives at least one part, no part contains the separator, and joining the parts with the separator gives back the text |
| JsStrings.SplitWithoutSeparator | server.js:38 | a text without the separator splits into one part, itself |
| JsStrings.SplitFirstPiece | server.js:38 | a first piece without the separator, followed by the separator, is split off as the first part |
| JsStrings.SplitTwo | server.js:38 | two pieces without the separator, joined by it, split back into those two pieces |
| JsStrings.SplitJoin | server.js:38 | `split` undoes `join` for pieces without the separator |
| JsNumbers.Sub | server.js:42 | no `ensures` of its own: `a - b`, NaN when either operand is NaN; with `Add`, the chunk-size relation of `FieldsOf` and `ParseRange` and the NaN cases of `NonNumericStart` and `NonNumericOpenRange` state what it gives |
| JsNumbers.Add | server.js:42 | no `ensures` of its own: `a + b`, NaN when either operand is NaN; stated through the same members as `Sub` |
| JsNumbers.NumberToString | server.js:44 | the text of a number is never empty |
| JsNumbers.NumberToStringReadBack | server.js:44 | printing any number, NaN and negative integers included, and reading the text back with `parseInt` gives the number again |
| JsNumbers.NaNReadsBack | server.js:44 | the text `NaN` reads back as NaN |
| JsNumbers.NegativeReadsBack | server.js:44 | `-` followed by the numeral of n reads back as -n |
| JsNumbers.Decimal | server.js:44 | the decimal text of a natural has at least one digit, is all digits and has no leading zero |
| JsNumbers.DecimalValue | server.js:44 | reading the decimal text of a natural back digit by digit gives the natural |
| JsNumbers.DecimalInjective | server.js:44 | two naturals with the same decimal text are equal |
| JsNumbers.ParseInt | server.js:39-40 | no `ensures` of its own: `parseInt(text, 10)`; its behaviour is stated by `DigitRunIsLongest`, `ParseIntDigits`, `ParseIntNoDigits`, `ParseIntSkipsWhitespace`, `ParseIntWithoutMinus`, `ParseIntPlusSign` and `ParseIntMinusSign` |
| JsNumbers.TrimStart | server.js:39-40 | the white space skipped by `parseInt` is removed from the front only: the result is a suffix of the text |
| JsNumbers.TrimStartRemovesWhitespace | server.js:39-40 | what is skipped is all white space, and what is kept does not start with white space |
| JsNumbers.DigitRun | server.js:39-40 | the length of the digit run `parseInt` reads never exceeds the text; `DigitRunIsLongest` states that it is the longest run of leading digits |
| JsNumbers.DigitRunIsLongest | server.js:39-40 | `parseInt` reads the longest run of leading digits: everything in it is a digit, and the character after it is not |
| JsNumbers.ParseIntLeadingDigits | server.js:39-40 | a text that starts with a digit is read by `parseInt` as the value of its leading digits |
| JsNumbers.ParseIntDigits | server.js:39-40 | `parseInt` reads any non-empty run of digits, leading zeros included, as its value, whatever non-digit text follows it |
| JsNumbers.ParseIntDigitsAlone | server.js:39-40 | `parseInt` reads a non-empty run of digits alone as its value |
| JsNumbers.ParseIntDecimal | server.js:39-40 | `parseInt` reads a decimal numeral back to its value, whatever non-digit text follows it |
| JsNumbers.ParseIntDecimalAlone | server.js:39-40 | `parseInt` reads a decimal numeral alone back to its value |
| JsNumbers.DigitRunOf | server.js:39-40 | the digit run of a numeral followed by a non-digit is the whole numeral |
| JsNumbers.ParseIntSkipsWhitespace | server.js:39-40 | leading white space does not change what `parseInt` reads |
| JsNumbers.TrimStartSkips | server.js:39-40 | leading white space is removed whatever follows it |
| JsNumbers.ParseIntWithoutMinus | server.js:39-40 | `parseInt` of a text without `-` is NaN or at least zero |
| JsNumbers.ParseIntNoDigits | server.js:39-40 | `parseInt` of a text with no digit at all is NaN |
| JsNumbers.ParseIntPlusSign | server.js:39-40 | a leading `+` is skipped: `+D` reads as the value of the digits D |
| JsNumbers.ParseIntMinusSign | server.js:39-40 | a leading `-` negates: `-D` reads as minus the value of the digits D |
| JsNumbers.SignedDigits | server.js:39-40 | after a one-character sign, the digits that follow are the whole digit run |
| DownloadRoutes.Truthy | server.js:64 | no `ensures` of its own: ECMAScript ToBoolean on a request-body value, whose negation is `!x` at server.js:64 and server.js:96; `TruthyUnlessListedFalsy` states it against the list of falsy values |
| DownloadRoutes.TruthyUnlessListedFalsy | server.js:64 | a request field is falsy exactly when it is `undefined`, `null`, `false`, NaN, 0 or the empty text |
| DownloadRoutes.Field | server.js:62 | no `ensures` of its own: the destructuring `const { url, filename } = req.body` (and `const { magnetLink } = req.body` at server.js:94) reads a field, `undefined` when it is missing; `MissingFieldsRejected` states that a missing field leads to the 400 |
| DownloadRoutes.MissingFieldsRejected | server.js:62-65 | a body without `url` or without `filename` is refused with the URL 400, and a body without `magnetLink` (server.js:94-97) with the torrent 400 |
| DownloadRoutes.CheckUrlRequest | server.js:62-65 | a URL request is refused with 400 `URL and filename are required` exactly when `url` or `filename` is falsy; otherwise it goes ahead with both values |
| DownloadRoutes.UrlRequestNeedsBothFields | server.js:64-65 | a URL request whose `url` or `filename` is missing or falsy gets that 400 |
| DownloadRoutes.UrlRequestWithBothFields | server.js:62-65 | a URL request with two non-empty texts goes ahead with exactly those texts |
| DownloadRoutes.CheckTorrentRequest | server.js:94-97 | a torrent request is refused with 400 `Magnet link is required` exactly when `magnetLink` is falsy; otherwise it goes ahead with that value |
| DownloadRoutes.TorrentRequestNeedsMagnetLink | server.js:96-97 | a torrent request whose `magnetLink` is missing or falsy gets that 400 |
| DownloadRoutes.TorrentRequestWithMagnetLink | server.js:94-97 | a torrent request with a non-empty `magnetLink` text goes ahead with it |

## Left out

- Streaming the file (`fs.createReadStream(...).pipe(res)`) and `fs.stat` are I/O. The stat result is an input (failed, or regular-file flag and size), and the read is the window that is passed to the reader.
- What Node does with the window is not modelled. Node's reader requires `start` and `end` to be non-negative integers with `start <= end`, and throws synchronously otherwise. That covers a NaN start or end, the end -1 of an open range on an empty file, and a reversed range. The throw happens inside the `fs.stat` callback, outside the handler's `try`, so it is not caught there. `writeHead` only stores the head, so on these inputs the 206 head that the model records is never sent.
- The URL ingestion after the presence check (axios download piped to a file) is not modelled. It is network and disk I/O driven by stream events.
- The torrent ingestion after the presence check (the WebTorrent client and its `done` and `error` events) is not modelled. It is event-driven I/O in a foreign library.
- Express routing, JSON body parsing, creating the video directory, `app.listen`, logging and the 500 replies from the `catch` blocks are not modelled. The server's plumbing is not part of this model.
- The filename is joined to the video directory unchecked (`..` included), and the model does not add a check the code lacks. The path only matters through the stat result.
- The headers that Express adds to the 404 `send` reply are not modelled. The 404 reply carries only its status and message text.
- The order of header names is not modelled. The headers are a map with one value per name, as the object passed to `writeHead` is.
- JsNumbers: numbers are unbounded integers or NaN, not IEEE doubles. Three differences follow:
  - A numeral beyond 2^53 loses precision in JavaScript but not here.
  - A number of 1e21 or more (22 digits or more) is printed by the template literal as exponent notation, such as `1e+21`, not as its digits; `NumberToString` prints the digits.
  - A numeral above about 1.8e308 parses to `Infinity` in JavaScript, so the chunk size becomes `Infinity`, `-Infinity` or NaN, and `Content-Range` shows `Infinity`; here it stays an integer.
- JsNumbers: `-0` is folded into `0`, since it prints as `0` and behaves like `0` in the arithmetic used.
- JsNumbers.ParseInt: the radix is fixed at 10, as the handler passes it.
- JsStrings.ReplaceFirst: only patterns without regular-expression special characters are modelled, as `/bytes=/` is one.
- JsStrings.Split: only one-character separators are modelled, as `-` is one.
- The `Range` header is modelled as one text or absent. How Node joins repeated headers is not modelled.
