# Streamed upload route, modelled in Dafny

This project models the upload endpoint of a small Next.js application. It covers the two
handlers of `src/app/api/upload/route.ts` and the in-memory file table they share.

- **POST** reads the request body as a stream of byte chunks. It appends each chunk to a
  list and keeps a running byte total. It answers 413 as soon as that total exceeds
  100 MiB (100·1024·1024 bytes). Otherwise it joins the chunks in arrival order into one
  buffer. It stores `{buffer, type, name}` under the key `<Date.now()>-file` and answers
  200 with that key and the buffer's length.
- **GET** takes the `filename` query parameter. It answers 404 when the parameter is
  missing, empty or not a key of the table. Otherwise it returns the stored bytes with
  `Content-Type` set to the stored type and `Content-Disposition` set to
  `attachment; filename="<name>"`.

Files:

- `chunks.dfy` (module `Chunks`): bytes, the 100 MiB cap, the running total
  `TotalSize` and the joined buffer `Concat`, with lemmas about their lengths, order and
  prefix sums.
- `decimal.dfy` (module `Decimal`): the decimal text, with a minus sign when negative,
  of the millisecond timestamp that forms a key, and its inverse.
- `upload_route.dfy` (module `UploadRoute`): the response datatypes, the accumulation
  loop `ReadBody`, and the class `UploadStore`. The class holds the table as a
  `map<string, Entry>` field, which `Post` reassigns and `Get` reads.
- `wrappers.dfy` (module `Wrappers`): `Option`, used for a header or query parameter that
  may be absent.

Inputs that come from outside the handler are parameters:

- the stream reader is a finite `seq<seq<byte>>` of chunks in arrival order;
- `Date.now()` is the `now: int` argument of `Post`;
- the `content-type` header is an `Option<string>`;
- the `filename` query parameter is an `Option<string>`.

JavaScript treats the empty string as false. So an empty header falls back to
`application/octet-stream`, and an empty `filename` is answered with 404.

## Model

| member | source | states |
|---|---|---|
| `Chunks.TotalSize` | src/app/api/upload/route.ts:18-25 | the running total is at least the length of every chunk read |
| `Chunks.Concat` | src/app/api/upload/route.ts:38 | the buffer joined from the chunks is exactly as long as the running total of their lengths |
| `Chunks.ConcatAppend` | src/app/api/upload/route.ts:24-38 | joining a list of chunks built by appending equals joining each part and appending the results, so arrival order is kept |
| `Chunks.ConcatChunkAt` | src/app/api/upload/route.ts:21-38 | chunk j occupies exactly the bytes of the joined buffer from the total size of the chunks before it to that size plus its own length |
| `Chunks.PrefixSizeMonotone` | src/app/api/upload/route.ts:25 | the running total never decreases as more chunks are read |
| `Chunks.OverLimitIffSomePrefix` | src/app/api/upload/route.ts:25-34 | some prefix of the body exceeds a limit if and only if the whole body does, so the cap check during the loop decides the same thing as a check of the total |
| `Decimal.NatToDecimal` | src/app/api/upload/route.ts:43 | the text of a non-negative timestamp is non-empty, all decimal digits, and has no leading zero unless the value is 0 |
| `Decimal.DecimalRoundTrip` | src/app/api/upload/route.ts:43 | reading the decimal text of a non-negative timestamp back gives the timestamp |
| `Decimal.IntToDecimal` | src/app/api/upload/route.ts:43 | the text of any timestamp is non-empty and starts with a minus sign exactly when the timestamp is negative |
| `Decimal.SignedDecimalRoundTrip` | src/app/api/upload/route.ts:43 | the text of any timestamp, negative or not, is an optional minus sign followed by digits, and reading it back gives the timestamp |
| `Decimal.IntToDecimalInjective` | src/app/api/upload/route.ts:43 | different timestamps have different texts |
| `UploadRoute.FileKey` | src/app/api/upload/route.ts:43 | the key is the timestamp's text (with a minus sign for a clock before 1970) followed by `-file`, and both parts can be recovered from it |
| `UploadRoute.FileKeyInjective` | src/app/api/upload/route.ts:43 | uploads received at different milliseconds get different keys |
| `UploadRoute.EffectiveContentType` | src/app/api/upload/route.ts:41-42 | the recorded type is never empty. It is the request header whenever that header is present and non-empty, and `application/octet-stream` when the header is absent or empty |
| `UploadRoute.AttachmentDisposition` | src/app/api/upload/route.ts:82 | the header is `attachment; filename="` followed by the name and a closing quote, so the name can be read back from it |
| `UploadRoute.ReadBody` | src/app/api/upload/route.ts:16-38 | the result is a complete buffer exactly when the total body size is at most 100 MiB. On success the buffer is the chunks joined in order, and its length equals the final running total. On rejection, reading stopped at the first chunk whose prefix sum exceeds the cap, and every shorter prefix was within it |
| `UploadRoute.UploadStore.constructor` | src/app/api/upload/route.ts:4 | the table starts empty |
| `UploadRoute.UploadStore.Post` | src/app/api/upload/route.ts:13-59 | 413 exactly when the body exceeds 100 MiB, and then the table is unchanged. Otherwise the response carries the key `<now>-file` and a size equal to the buffer length and the total size, which is at most 100 MiB. The table is the old one with that key set (an existing entry is overwritten) to the joined body, the effective content type and the key as name; every other key is untouched. Every entry stays named after its key |
| `UploadRoute.UploadStore.Get` | src/app/api/upload/route.ts:70-85 | 404 exactly when the parameter is missing, empty or not a key. Otherwise the response is the stored buffer, the stored type and the attachment header for the stored name, which is the queried key itself. The table is never changed |
| `UploadRoute.UploadThenDownload` | src/app/api/upload/route.ts:46-50 | a GET for the key a successful POST reported returns the joined body, the effective content type and an attachment header naming that key; a rejected POST leaves the table unchanged |

## Left out

- The `try`/`catch` path that answers 500 and logs with `console.error`. It fires when a
  request has no body, because `request.body!.getReader()` then throws, or when a foreign
  call throws (a stream error, `Buffer.concat`). Neither is modelled: the body is always a
  sequence of chunks.
- `NextRequest`/`NextResponse` construction, URL parsing, the JSON message texts and the
  `config` export that disables the body parser. These are framework plumbing. Responses
  are the datatypes `PostResponse` and `GetResponse`.
- The asynchronous `reader.read()` and `request.body!`. The body is a finite sequence of
  chunks that is already available, so a missing body or a stream error is not represented.
- `Date.now()`. The clock reading is the `now` parameter of `Post`, an integer of any sign.
  A negative reading, from a clock set before 1970, gives a key such as `-5-file`.
- `totalSize` is a JavaScript number. It is modelled as an unbounded integer. The two
  agree for any body under 2^53 bytes.
- Concurrent requests interleaving at the `await` points are not modelled. Each POST and
  GET runs as one step.
- The browser upload form `src/app/page.tsx`. It is UI state and a `fetch` call with no
  logic beyond setting messages.

