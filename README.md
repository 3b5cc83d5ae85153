# errplane-nodejs client core, modelled in Dafny

This project models the reporting core of the errplane Node.js client:

- **The batching queue** (`lib/queue.js`). Points are pushed onto an
  in-memory list. A debounce timer, or reaching `maxPostSize` points, posts
  a batch. Each post pops points off the tail, fills in the defaults
  (`value || 1`, `timestamp || "now"`), renders each point as one line and
  sends the lines joined by newlines.
- **The client facade** (`lib/errplane.js`): the `Errplane` constructor,
  `Errplane.initialize`, and the line `postException` sends for an
  exception (`exceptions/<fingerprint> 1 now`).
- **The fingerprint codec** of the same file: `Base64.encode`/`decode` and
  their helpers `_utf8_encode`/`_utf8_decode`.

How the model is laid out:

- **Strings.** In the codec a JavaScript string is a sequence of UTF-16
  code units (`Utf8.JsString`). `charCodeAt` is indexing. A code read past
  the end is NaN, which every bit operation reads as 0. `String.fromCharCode`
  keeps the low 16 bits. The queue (point names, timestamps, contexts and
  bodies) and the client configuration only copy, join and split text, so
  they use Dafny `string`; `Errplane.Units` converts where the client hands
  text to the codec.
- **Point values** are integral JavaScript numbers of magnitude at most
  `Number.MAX_SAFE_INTEGER` (`Text.SafeInt`), where `String` writes plain
  decimal digits.
- **Bit operations.** Shifts and masks are written as division,
  multiplication and remainder by powers of two. `|` is a recursive
  bitwise or on naturals (`Bits.BitOr`).
- **Codec loops.** Each loop is a Dafny `method` with a loop invariant,
  proved equal to a recursive specification function. The round trips,
  lengths and padding are proved as lemmas about those functions.
- **The queue** is the class `PointQueue.Queue`:
  - its fields are the source's `_items`, `_timer` (as a flag) and the two
    size limits;
  - events the queue emits to itself (`post`, `setTimeout`, `clearTimeout`)
    become direct method calls, since Node runs listeners synchronously;
  - the firing of the pending timer is the method `Tick`;
  - the HTTP transport is the ghost log `sent` of the bodies posted.
- **Where the specification and the code disagree, the model follows the
  code:**
  - a batch holds up to `maxPostSize + 1` points, not `maxPostSize`;
  - points leave from the tail, newest first;
  - `flush` throws instead of draining;
  - the "fingerprint" is a reversible Base64 text, not a digest. Frames
    that differ only by a CR LF versus an LF share one fingerprint
    (`Errplane.CrlfFramesCollide`).

## Model

| member | source | states |
|---|---|---|
| Bits.BitOr | lib/errplane.js:104-105 | `a \| b` on non-negative operands is at least each operand and at most their sum |
| Bits.BitOrDisjoint | lib/errplane.js:139-141 | or-ing a value shifted left by k with a value below 2^k is addition, which is what lets the decoder reassemble the bits the encoder split |
| Utf8.CrlfToLf | lib/errplane.js:162 | the CR LF replacement never lengthens the text and leaves text without a CR LF pair unchanged |
| Utf8.EncodeUnit | lib/errplane.js:169-180 | one code unit becomes 1, 2 or 3 units (below 128, below 2048, otherwise), each below 256 |
| Utf8.EncodedUnits | lib/errplane.js:165-182 | the encoded text is all bytes and between one and three times as long as its input |
| Utf8.Decoded | lib/errplane.js:188-216 | decoding never lengthens the text |
| Utf8.Encode | lib/errplane.js:161-185 | the `_utf8_encode` loop computes exactly the specification `Utf8.Encoded` (CR LF folded, then unit by unit) |
| Utf8.Decode | lib/errplane.js:188-216 | the `_utf8_decode` loop, whose index steps by 1, 2 or 3, computes exactly `Utf8.Decoded` |
| Utf8.DecodeEncodeUnit | lib/errplane.js:169-180 | the decoder reads each unit's encoding back as that unit, whatever follows it |
| Utf8.DecodeEncodedUnits | lib/errplane.js:165-182 | decoding undoes the per-unit encoding of any text |
| Utf8.RoundTrip | lib/errplane.js:161-216 | `_utf8_decode(_utf8_encode(s)) == s` for every text without a CR LF pair |
| Utf8.CrlfIsFolded | lib/errplane.js:162 | CR LF does not survive the round trip: it comes back as LF |
| Base64.CharAt | lib/errplane.js:115-116 | `_keyStr.charAt(e)` is the e-th alphabet character, and empty past the end |
| Base64.IndexOf | lib/errplane.js:134-137 | `_keyStr.indexOf(c)` is the first position holding c, and -1 exactly when c is not in the alphabet |
| Base64.StripNonAlphabet | lib/errplane.js:130 | the filter keeps only alphabet characters and leaves an all-alphabet input unchanged |
| Base64.EncAt | lib/errplane.js:134-137 | a digit read from filtered input, past its end included, is a valid alphabet index (at most 64) |
| Base64.QuadShape | lib/errplane.js:103-116 | each encoding round yields four alphabet characters; the first two are never '='; the third is '=' iff one unit was left and the fourth iff at most two were |
| Base64.TripleOfQuad | lib/errplane.js:103-116 | a decoding round reads an encoding round's four characters back as the (up to) three units it encoded |
| Base64.DecodeEncodedBytes | lib/errplane.js:97-118 | the encoding loop's output is all alphabet characters and the decoding loop reads back the bytes it encoded |
| Base64.RoundTrip | lib/errplane.js:90-158 | `Base64.decode(Base64.encode(s)) == s` for every text without a CR LF pair |
| Base64.EncodedBytesLength | lib/errplane.js:97-118 | m bytes encode to exactly 4·ceil(m/3) characters |
| Base64.EncodedShape | lib/errplane.js:87-118 | `Base64.encode` output is 4·ceil(m/3) alphabet characters for m UTF-8 units, with '=' only as trailing padding (two when m mod 3 = 1, one when m mod 3 = 2, none otherwise) |
| Base64.StripAppend | lib/errplane.js:130 | the filter works character by character: filtering a concatenation concatenates the filtered parts |
| Base64.JunkStripped | lib/errplane.js:130 | a run of non-alphabet characters filters to nothing |
| Base64.DecodeIgnoresNonAlphabet | lib/errplane.js:130 | inserting non-alphabet characters anywhere in the input does not change what `Base64.decode` returns |
| Base64.Encode | lib/errplane.js:90-121 | the `Base64.encode` loop, with its NaN padding branches, computes exactly `Base64.Encoded` |
| Base64.Decode | lib/errplane.js:124-158 | the `Base64.decode` loop, with its '=' checks, computes exactly `Base64.Decoded` |
| Text.SplitJoin | lib/queue.js:65 | splitting a `join` on its separator gives the parts back when no part contains the separator |
| Text.IntToString | lib/queue.js:58 | a rendered safe integer is never empty and contains no space or newline |
| Text.ParseIntToString | lib/queue.js:58 | the rendered value reads back as the same integer |
| PointQueue.DrainPartition | lib/queue.js:53-54 | one post takes min(n, limit) points off the tail; what stays is the untouched prefix; remaining plus taken is the original queue, as a sequence and as a multiset |
| PointQueue.FlushPartition | lib/queue.js:28-29 | posting until empty sends every queued point exactly once, in batches of 1 to limit points |
| PointQueue.LineFields | lib/queue.js:55-61 | splitting a line on spaces recovers name, value, timestamp and encoded context; the value reads back as the filled value, never 0, and the timestamp is never empty |
| PointQueue.PostBodyLines | lib/queue.js:53-65 | splitting a post body on newlines recovers one line per drained point, in pop order |
| PointQueue.TwoPointsOneBody | lib/queue.js:53-65 | the post body of a queue holding values 42 then 17 with no timestamp is "latency 17 now" newline "latency 42 now" |
| PointQueue.TwoPushesThenTick | lib/queue.js:17-26 | on a fresh queue, pushing 42 then 17 and firing the timer sends exactly the body "latency 17 now" newline "latency 42 now" and leaves the queue empty with no timer pending |
| PointQueue.AsWrittenBodyExceedsLimit | lib/queue.js:53-65 | with `lines.length <= maxPostSize` as the loop guard, a queue of more than maxPostSize readable points posts a body of maxPostSize + 1 lines |
| PointQueue.CappedBatchesFit | lib/queue.js:53 | with the bound taken as maxPostSize, no post and no flush batch exceeds maxPostSize |
| PointQueue.Queue.constructor | lib/queue.js:5-15 | a new queue is empty with no timer pending, limits 10000 and 200 |
| PointQueue.Queue.SetTimeout | lib/queue.js:32-39 | afterwards a timer is pending; a new timer is started only when none was pending |
| PointQueue.Queue.ClearTimeout | lib/queue.js:41-44 | afterwards no timer is pending |
| PointQueue.Queue.PostAtMost | lib/queue.js:46-65 | clears the timer; an empty queue sends nothing; otherwise the queue keeps `Remaining` and exactly one body, `PostBody`, is sent |
| PointQueue.Queue.Post | lib/queue.js:46-65 | the `post` listener as written: `PostAtMost` with a bound of maxPostSize + 1 |
| PointQueue.Queue.PostCapped | lib/queue.js:53 | the corrected post: `PostAtMost` with a bound of maxPostSize |
| PointQueue.Queue.Tick | lib/queue.js:35-37 | the pending timer firing posts; with no timer pending nothing changes |
| PointQueue.Queue.Push | lib/queue.js:17-26 | a full queue is left unchanged; otherwise the point is appended at the tail and a timer is pending, and reaching maxPostSize posts at once, leaving no timer; a queue below maxPostSize stays below it |
| PointQueue.Queue.Flush | lib/queue.js:28-29 | the intended flush: it ends with the queue empty, having sent the bodies of `FlushBatches` in order |
| PointQueue.Queue.FlushAsWritten | lib/queue.js:28-29 | `flush` as written throws exactly when the queue is non-empty and changes nothing |
| Errplane.OrDefault | lib/errplane.js:13 | `x \|\| d` on a string gives x when it is present and non-empty, and d otherwise |
| Errplane.ExceptionBodyShape | lib/errplane.js:52-53 | the body is "exceptions/", the fingerprint, then " 1 now"; the fingerprint is alphabet-only, a multiple of 4 long, and decodes back to name plus first frame when that text has no CR LF pair |
| Errplane.FingerprintsSeparateFrames | lib/errplane.js:52 | for one exception name, two fingerprints are equal iff the first frames are equal (texts without CR LF) |
| Errplane.CrlfFramesCollide | lib/errplane.js:52 | two different frames, CR LF and LF, give the same fingerprint |
| Errplane.Errplane.constructor | lib/errplane.js:9-20 | no keys; host "http://" + hostname; environment NODE_ENV or "development"; timeout 30000 ms; API host apiv2.errplane.com |
| Errplane.Errplane.Initialize | lib/errplane.js:27-33 | the new client carries both keys; a missing or empty environment keeps the constructor's default |
| Errplane.Errplane.PostException | lib/errplane.js:47-53 | the body posted for an exception is `ExceptionBody` of its name and frames |

## Left out

- The HTTP requests (lib/queue.js:71-86, lib/errplane.js:60-75) are left out. Their URLs, headers and callbacks are I/O; the queue's sends are the ghost log `sent`. As written, the queue's URL reads `applicationId`, `environment` and `apiKey`, which are never set on the queue.
- All logging is left out (`util.log`, `console.log`, the 99-character previews at lib/queue.js:66-69): output only.
- Real timers and `postInterval` (500 ms) are left out. The pending timer is a flag and its firing is `Tick`, so no timing is modelled.
- The per-request timeouts (`postTimeout` 3000 ms, the request timeout at lib/errplane.js:64) are left out. They only parameterise the transport.
- `EventEmitter` is left out: its synchronous dispatch is modelled as direct calls.
- `JSON.stringify` and `Buffer` base64 of a context are not modelled. They are the queue's opaque `encodeContext` function, so the model does not say what happens to a context that cannot be serialised.
- Text.IntToString: renders only safe integers (`Text.SafeInt`). Non-integral numbers, NaN, non-number values and integers beyond `Number.MAX_SAFE_INTEGER` are not modelled as point values, so neither is the exponent notation `String` uses from 10^21 upward.
- Timestamps are given as text. Numeric timestamps and their rendering are not modelled.
- Point: falsy contexts other than a missing one are folded into `None`, and a point's name is always a string. Array `join` rendering undefined as "" is therefore not modelled.
- `_post` fills the defaults into the caller's point object in place; that aliasing is not modelled, because points are values.
- `maxQueueSize` and `maxPostSize` are constants here. The source exposes them as writable properties, and changing them at run time is not modelled.
- `enqueueException` and `reportExceptions` (lib/errplane.js:35-45) are left out: they only log and install a process hook around `postException`.
- `Errplane.PACKAGE` (lib/errplane.js:22-25) is left out: it reads package.json from disk.
- Stack-trace parsing (lib/errplane.js:48-50) is left out. Frames arrive already formatted as `function file line` text.
- Surrogate pairs are not modelled, because the codec works on single code units. The model shows this: a code unit above 0x7FF becomes three units on its own.
- Errplane.FingerprintsSeparateFrames: only proved for texts without a CR LF pair, because the encoder folds those (see `Errplane.CrlfFramesCollide`).

## Findings

| source | as written | input that shows it | evidently intended | confidence | as-written member | corrected member |
|---|---|---|---|---|---|---|
| lib/queue.js:53 | the drain loop runs while `lines.length <= this.maxPostSize`, so one post takes up to maxPostSize + 1 points | a queue holding 201 points with maxPostSize 200 (reached once maxPostSize is lowered below the queue's length; with the default limits and pushes alone the queue never reaches 200, per `PointQueue.Queue.Push`) posts all 201 in one body | a post carries at most maxPostSize points | not executed; the guard is evident, reaching it needs a reconfigured limit | PointQueue.AsWrittenBodyExceedsLimit | PointQueue.CappedBatchesFit |
| lib/queue.js:29 | `flush` calls `this._post()`, but `_post` is a local variable of the constructor and never a property of the queue | any non-empty queue: `flush()` throws a TypeError and posts nothing | post repeatedly until the queue is empty | not executed; `_post` is only registered as the `post` listener at lib/queue.js:89 | PointQueue.Queue.FlushAsWritten | PointQueue.Queue.Flush |
