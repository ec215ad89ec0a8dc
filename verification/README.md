# Carafe in Dafny

Carafe is a small HTTP/1.1 server library in C++. This project models its three hard components and proves what
they promise:

1. **The streaming request reader**: a resumable line splitter over a compacting buffer, and the seven-phase state
   machine that frames HTTP/1.1 messages on top of it.
2. **Path normalisation and routing**: percent-escapes, dot segments, compiled patterns, captures and lookup.
3. **The connection pool, the deadlines of a connection, and the serving loop.**

`dafny verify dfyconfig.toml` checks everything. Automatic induction is switched off wherever Dafny would try it; every
inductive proof says its own step.

## How the model is built

Objects are classes with the program's own fields (`LineReader`, `RequestReader`, `Router`, `Connection`,
`ConnectionPool`), loops are methods with invariants, and each is proved against a function. The reader's functions
together form a transition system over a state and the unread bytes (`ReaderModel`): `OneStep` is one turn of the
driver loop, `NextRequest` the loop up to its next answer, `Drain` everything a caller gets by asking until there is
nothing more, and `Feed` (in `Segmentation`) the same when the stream arrives in pieces. The theorems about whole runs
are about these, and the classes are proved to be them.

| file | holds |
|---|---|
| `Text`, `Ascii`, `FieldList`, `Messages` | searching and splitting, character classes, comma lists, requests |
| `LineReader`, `RequestParser`, `Framing` | lines, request lines and fields, numbers, codings and body lengths |
| `ReaderModel`, `RequestReader` | the transition system, and the object that implements it |
| `Segmentation`, `Composition`, `Bounds`, `Delivered`, `RoundTrip`, `Grammar`, `Refusals` | the theorems about the reader |
| `Escapes`, `DotSegments`, `Rfc3986`, `Path`, `Router`, `CaptureProofs`, `Captures` | paths, patterns, lookup, what is bound |
| `Pool`, `ConnectionPool` | the pool as a protocol, and the object's critical sections |
| `Connection`, `Response`, `Serve`, `Exchange` | deadlines, printing, serving, and a whole exchange of bytes for bytes |

A byte is a `char` and a buffer a `string`; nothing depends on values staying below 256. Time is in nanoseconds,
deadlines and socket timeouts in milliseconds, as in the program. The digit loop (`Framing.ReadNumber`) and
the sums of heads, fields, bodies and chunks (`ReaderModel.SumsFit`) are proved not to leave the program's 64 bits; other
arithmetic is over unbounded integers.

Places where a promise fails, each with its exact condition:

- Feeding a stream in pieces gives the same answers as feeding it whole **unless** a cut falls between the CR and the
  LF of a line of exactly 8192 bytes: with the LF still to come the pending CR counts against the cap
  (src/http/line_reader.cpp:34), with both present it does not (src/http/line_reader.cpp:50).
  `Segmentation.SegmentationIndependence` is an equivalence; `CapLineSplit` and `CapLineExists` exhibit the exception.
- The stack walk over segments is the algorithm of section 5.2.4 of RFC 3986 on every absolute path, and on a
  relative path **exactly when** its first ordinary segment is never popped (`Rfc3986.RemoveDotsIsRfc`; "a/.." is a
  witness).
- Resolving escapes is idempotent on well-escaped text. On any text it is so **exactly when** every bare '%' is harmless:
  if the next two units stand for hex digits, these are uppercase and spell a byte that keeps its escape
  (`Escapes.ResolveTwice`; "%%341" is a witness). Decoding after resolving is decoding once **exactly when** no two such
  units follow a bare '%' (`Escapes.DecodeResolved`). Normalising twice is normalising once **exactly when** the segments
  of the path that survive have only harmless ones (`Paths.NormalizeTwice`; the same witness).

Where the design notes and the code disagree the code is followed: Transfer-Encoding is decoded, not refused with a
blanket 501, and the resumed search looks one byte back, not three.

## Model

| member | source | states |
|---|---|---|
| LineReading.LineReader.Append | src/http/line_reader.cpp:17-26 | bytes are added behind the unread ones, which compaction never touches; the buffer is at most twice the old unread bytes plus the new ones; all bytes ever moved are at most all bytes ever appended |
| LineReading.LineReader.NextLine | src/http/line_reader.cpp:29-59 | the resumed search answers what a reader rescanning all unread bytes answers, consumes exactly the line, and is charged only for positions not searched before (plus one when it finds nothing) |
| LineReading.LineReader.ResumedSearch | src/http/line_reader.cpp:28-49 | no terminator lies before the resume position, so resuming finds the first one |
| LineReading.LineReader.Take | src/http/line_reader.cpp:61-71 | exactly the next n unread bytes, or nothing and nothing consumed |
| LineReading.LineReader.Discard | src/http/line_reader.cpp:73-78 | drops the smaller of n and what is unread and reports it |
| FieldList.NextElement | src/http/field_list.hpp:11-33 | walks exactly the trimmed, non-empty pieces between commas, in order, each once |
| FieldList.ElementsAppend | src/http/field_list.hpp:9-33 | two values joined by a comma are the list of both (section 5.3 of RFC 9110) |
| FieldList.ListReadBack | src/http/field_list.hpp:11-33 | however a list is padded, and with any empty elements in it, what is read is its texts in order |
| FieldList.TrimPadded | src/http/field_list.hpp:21-26 | trimming recovers a bare text from any whitespace around it |
| FieldList.TrimParts | src/http/request_parser.cpp:211-219 | and a text is its trimmed core between two runs of whitespace |
| RequestParser.LookupMethod | src/http/request_parser.cpp:21-38 | the table search finds exactly the verb of that name |
| RequestParser.MethodNames | src/http/request_parser.cpp:22-30 | a token names a method if and only if it is the method's printed name |
| RequestParser.ParseVersion | src/http/request_parser.cpp:41-59 | shape before value: no version, a version not spoken, or one of the two |
| RequestParser.HasValidEscapes | src/http/request_parser.cpp:120-134 | accepts exactly the texts made of plain characters and whole escapes |
| RequestParser.ParseRequestLine | src/http/request_parser.cpp:139-184 | the cuts, checks and lookups in the program's order are the decision on the three parts of the split line, whose every outcome the next three rows fix |
| RequestParser.RequestLineAccepted | src/http/request_parser.cpp:139-184 | a line is accepted as (method, target, version) if and only if it is that triple printed, with a legal target |
| RequestParser.PartsRefused | src/http/request_parser.cpp:166-181 | three plain parts are refused for the first thing wrong: the last is no version (malformed), is a version not spoken (unsupported), the target has a broken escape (malformed), the verb names no method (unknown) |
| RequestParser.OtherLinesMalformed | src/http/request_parser.cpp:139-165 | every line that is not three plain parts is malformed |
| RequestParser.VersionShapeIs | src/http/request_parser.cpp:41-47 | the shape of a version is "HTTP/", a digit, a dot and a digit |
| RequestParser.ParseHeaderField | src/http/request_parser.cpp:186-229 | the loops give the folded name and trimmed value, or nothing |
| RequestParser.FieldReadBack | src/http/request_parser.cpp:186-229 | every spelling of a field, in any case and padding, is read back as the field |
| RequestParser.FieldAccepted | src/http/request_parser.cpp:186-229 | and only such a spelling is accepted |
| Ascii.TokenCharacters | src/http/request_parser.cpp:78-105 | token characters are the visible ones that delimit nothing |
| Ascii.ControlsAndValues | src/http/request_parser.cpp:63-76 | control characters are those below the space and DEL; a value may hold all others and tabs |
| Ascii.LowerLetters | src/http/ascii.hpp:8-16 | folding takes each capital to its small letter and changes nothing else |
| Framing.ReadNumber | src/http/request_reader.cpp:87-131 | the digit loop computes the number denoted, or the error the first offending digit decides; no step leaves 64 bits |
| Framing.NumberExactly | src/http/request_reader.cpp:87-104 | a number is read exactly when the whole text is digits denoting one within the cap |
| Framing.OverCapExactly | src/http/request_reader.cpp:93-101 | too large exactly when some run of leading digits already is, whatever follows |
| Framing.DecimalReadBack | src/http/request_reader.cpp:87-104 | a printed number is read back, or reported over the cap, exactly by its size |
| Framing.ParseContentLength | src/http/request_reader.cpp:87-104 | Content-Length is read against the drain cap |
| Framing.ParseChunkSize | src/http/request_reader.cpp:109-131 | what stands before the first ';' is read in hex against the body cap |
| Framing.ChunkSizeReadBack | src/http/request_reader.cpp:106-131 | any case, leading zeros and any extension read as the size meant |
| Framing.TransferCodings | src/http/request_reader.cpp:69-83 | the walk over all fields tallies the one list they form |
| Framing.MeasureBody | src/http/request_reader.cpp:134-175 | the framing decision, rule by rule |
| Framing.ChunkedExactly | src/http/request_reader.cpp:135-159 | chunked framing exactly for 1.1, no Content-Length, and a coding list of "chunked" alone |
| Framing.UnsupportedExactly | src/http/request_reader.cpp:146-156 | 501 exactly when chunked is last and only there, with other codings under it |
| Framing.SizedExactly | src/http/request_reader.cpp:161-175 | a length exactly for no Transfer-Encoding and at most one Content-Length, all digits, within the drain cap |
| Framing.TooLargeExactly | src/http/request_reader.cpp:93-101 | too large to drain exactly when the one Content-Length, alone, has leading digits over the drain cap |
| Framing.MalformedExactly | src/http/request_reader.cpp:134-175 | malformed exactly when Transfer-Encoding stands with a Content-Length, on 1.0 or without "chunked" last and only there, or when there are several Content-Lengths or one that is no number |
| Framing.ChunkSizeRefused | src/http/request_reader.cpp:109-131 | a chunk size is too large exactly when its leading digits are, else malformed exactly when it is no number |
| Framing.FoldingKeepsFraming | src/http/request_reader.cpp:68-83 | joining repeated Transfer-Encoding fields with commas never changes the decision |
| ReaderModel.OneStep | src/http/request_reader.cpp:407-433 | every turn waits, latches a failure, or consumes bytes, and keeps the phase invariants: each body phase owes a byte, caps hold |
| ReaderModel.NextRequest | src/http/request_reader.cpp:407-433 | the driver loop terminates; an answer that does not fail consumed bytes |
| RequestReading.RequestReader.Append | src/http/request_reader.cpp:205-207 | appending touches no parser state |
| RequestReading.RequestReader.HandleRequestLine | src/http/request_reader.cpp:209-229 | is the model's handler: three error cases or the head of a request |
| RequestReading.RequestReader.HandleFieldLine | src/http/request_reader.cpp:231-248 | is the model's handler: counted before parsed, stored in order |
| RequestReading.RequestReader.CompleteHead | src/http/request_reader.cpp:250-279 | is the model's head check: host rule, framing, refusal, delivery |
| RequestReading.RequestReader.HandleChunkSize | src/http/request_reader.cpp:281-301 | is the model's handler: last chunk, growing body cap |
| RequestReading.RequestReader.HandleTrailerLine | src/http/request_reader.cpp:303-319 | is the model's handler: trailers are checked, counted and dropped |
| RequestReading.RequestReader.ReadBodyBytes | src/http/request_reader.cpp:321-353 | is the model's step in the three phases that consume bytes |
| RequestReading.RequestReader.ReadNextLine | src/http/request_reader.cpp:355-405 | is the model's step in the four line phases |
| RequestReading.RequestReader.NextRequest | src/http/request_reader.cpp:407-433 | is the model's driver; over the life of the reader the positions examined for terminators are at most the bytes appended plus one per call |
| Refusals.StartRefused | src/http/request_reader.cpp:209-229 | the failure a first line of three plain parts latches, told from the parts |
| Refusals.StartMalformed | src/http/request_reader.cpp:209-218 | any other first line latches a malformed failure |
| Refusals.LongLineRefused | src/http/request_reader.cpp:355-379 | a line that does not end within the cap is a request line, a field or a chunk size too long, each with its own error |
| Refusals.FullHeadRefused | src/http/request_reader.cpp:381-388 | a line that takes the head over its cap is refused as that before anything in it is looked at |
| Refusals.FieldRefused | src/http/request_reader.cpp:231-248 | in heads and trailers alike: one field too many whatever it says, else a line that spells no field |
| Refusals.HeadRefused | src/http/request_reader.cpp:250-266 | the hosts are asked for first, then the framing; malformed and unsupported are told apart by the fields |
| Refusals.LengthRefused | src/http/request_reader.cpp:87-104 | a declared length is malformed or too large even to skip, each exactly by its digits |
| Refusals.ChunkSizeLineRefused | src/http/request_reader.cpp:281-301 | a chunk-size line is malformed or too large, alone or with the body before it |
| Refusals.ChunkEndRefused | src/http/request_reader.cpp:339-353 | chunk data that does not end where its size said is malformed |
| Segmentation.SegmentationIndependence | src/http/request_reader.cpp:355-433 | answers, final state and unread bytes are those of the whole stream if and only if no cut falls inside the CRLF of a line of exactly the cap |
| Segmentation.DrainSplit | src/http/request_reader.cpp:407-433 | one cut: draining the first part and going on is draining the whole, or the first part has failed at the cap |
| Segmentation.StepAppend | src/http/request_reader.cpp:321-405 | more bytes never change an answer already given, but at that boundary |
| Segmentation.WaitAppend | src/http/request_reader.cpp:321-405 | having waited is no different from the bytes arriving together |
| Segmentation.CapLineSplit | src/http/line_reader.cpp:29-59 | any such request line is refused when its CR and LF arrive apart and read when they arrive together |
| Segmentation.CapLineExists | src/http/line_reader.cpp:12 | and there is one |
| Composition.DrainByRequests | src/http/request_reader.cpp:407-433 | asking for the next request until there is none is draining |
| Composition.FreshAfterRequest | src/http/request_reader.cpp:179-193 | after a delivered request the rest is read as by a newly built reader, although the chunk length is not cleared |
| Composition.DrainedBody | src/http/request_reader.cpp:321-329 | a refused body is skipped to the byte, silently, and leaves a newly built reader |
| Composition.RefusedBodySkipped | src/http/request_reader.cpp:250-279 | a length over the body cap and within the drain cap costs exactly one resumable failure and exactly the declared bytes |
| Composition.FailureRepeats | src/http/request_reader.cpp:195-203 | every other failure repeats for ever with the same error and version, whatever arrives |
| Bounds.StepBudget | src/http/request_reader.cpp:281-301 | a turn that goes round again lowers the budget by at least the bytes it consumed, chunk-size lines included |
| Bounds.BoundedWork | src/http/request_reader.cpp:381-388 | from any live state, however the bytes are cut, a constant number of them forces an answer |
| Bounds.BoundedMemory | src/http/request_reader.cpp:321-353 | with nothing to give, at most one body and a byte are held unread, and the body so far is within its cap |
| Delivered.FreshDelivered | src/http/request_reader.cpp:231-319 | every request handed over in any run meets the host rule, has at most 100 folded, legal fields, and a body its one framing describes |
| Delivered.DeliveredFraming | src/http/request_reader.cpp:134-175 | such a request never has both framing fields; its length is its single Content-Length, or it is 1.1 with "chunked" alone |
| Delivered.FeedHead | src/http/request_reader.cpp:281-353 | from an accepted head on, however the rest of the message is cut, what is handed over is that head with a body, no trailer merged in, or a failure |
| RoundTrip.MessagesRead | src/http/request_reader.cpp:231-353 | any list of well-formed requests, framed either way with any chunking, extensions, hex case and trailers, drains to exactly those requests with nothing left over |
| RoundTrip.FramingRoundTrip | src/http/request_reader.cpp:355-433 | and so it does however the stream is cut, the cap boundary excepted |
| Grammar.MessageWritten | src/http/request_reader.cpp:209-353 | the converse: whatever is handed over was written, so the bytes consumed are a well-formed message meaning exactly that request |
| Grammar.AcceptedExactly | src/http/request_reader.cpp:407-433 | the accepted language is the grammar: a request is handed over if and only if the stream starts with a well-formed message that means it, and the rest is left unread |
| Grammar.Unambiguous | src/http/request_reader.cpp:134-175 | a stream can be cut into messages in one way only: two readings mean the same request and end at the same byte |
| Grammar.EveryRequestWritten | src/http/request_reader.cpp:355-433 | in any run, however the stream is cut, the requests handed over are exactly the messages written in it one after the other, refused ones skipped, a failure last |
| Escapes.ResolveEscapes | src/http/path.cpp:16-49 | the loop computes the normal spelling of every escape and copies the rest |
| Escapes.PercentDecode | src/server/router.cpp:40-58 | the loop decodes every whole escape and copies the rest |
| Escapes.DecodePlain | src/server/router.cpp:40-58 | a text without '%' decodes to itself |
| Escapes.ResolveFixed | src/http/path.cpp:14-49 | resolving leaves a text alone exactly when every escape in it is already normal |
| Escapes.ResolveSpells | src/http/path.cpp:14-49 | in what resolving a well-escaped text gives, every '%' starts an escape with uppercase digits of a byte that is no letter, digit, "-", ".", "_" or "~" |
| Escapes.ResolveNormalises | src/http/path.cpp:14-49 | on well-escaped text resolving is idempotent, and decoding after it is decoding once |
| Escapes.ResolveDecidesEquivalence | src/http/path.hpp:9-10 | two texts resolve alike if and only if one can be respelled into the other unit by unit (sections 6.2.2.1 and 6.2.2.2 of RFC 3986) |
| Escapes.ResolveTwice | src/http/path.cpp:27-35 | on any text, idempotent exactly when every bare '%' is harmless: the next two units do not both stand for hex digits, or stand for uppercase ones of a byte that keeps its escape |
| Escapes.DecodeResolved | src/server/router.cpp:40-58 | on any text, decoding after resolving is decoding once exactly when no bare '%' is followed by two units that stand for hex digits |
| Escapes.ResolveTwiceWitness | src/http/path.cpp:27-35 | a malformed text where it fails |
| DotSegments.RemoveDotSegments | src/http/path.cpp:53-100 | the walk with positions and a stack computes the fold over the split segments |
| DotSegments.NoDotsSurvive | src/http/path.cpp:51-100 | on every input none of the segments that come out is "." or ".." |
| DotSegments.RemoveDotsFixed | src/http/path.cpp:51-100 | the paths left alone are exactly those without dot segments |
| Rfc3986.RemoveDotsIsRfc | src/http/path.cpp:53-100 | equals the two-buffer algorithm of section 5.2.4 of RFC 3986 on every absolute path, and on a relative one exactly when its first segment is never popped |
| Rfc3986.RelativeWitness | src/http/path.cpp:54-99 | a relative path where they differ |
| Paths.NormalizePath | src/http/path.cpp:104-108 | escapes first, then dot segments |
| Paths.NormalizeIdempotent | src/http/path.cpp:104-108 | on well-escaped paths idempotent, canonical and free of dot segments |
| Paths.NormalizeFixed | src/http/path.hpp:9-18 | the texts left alone are exactly the canonical ones without dot segments |
| Paths.NormalizeTwice | src/http/path.cpp:104-108 | on any text, twice is once exactly when each segment of the path as written that survives has only harmless bare '%'s |
| Paths.NormalizeTwiceWitness | src/http/path.cpp:104-108 | a malformed path that changes again |
| Paths.NormalizeRespects | src/http/path.hpp:9-10 | equivalent spellings are routed alike |
| Routing.Compile | src/server/router.cpp:194-208 | one segment for each piece of the split path, in order |
| Routing.CompiledExactly | src/server/router.cpp:158-190 | a piece is a parameter if and only if it is a bracketed name, alone or after a known converter and a colon; any other text is a literal of itself |
| Routing.Matches | src/server/router.cpp:91-152 | the walk answers the declarative relation between the pattern and the split path, captures included and none on a miss; what those are the rows of `Captured` say |
| Routing.Router.Add | src/server/router.cpp:218-220 | routes are appended with their patterns compiled from the normalised path |
| Routing.Router.Find | src/server/router.cpp:222-252 | the earliest route of the method, else for HEAD the earliest GET, else whether the path is known |
| Routing.Router.AllowedMethods | src/server/router.cpp:254-273 | the list built in registration order, with HEAD put after a GET unless it is there already |
| Routing.LookupAgrees | src/server/router.cpp:222-273 | a lookup succeeds for a method exactly when the list has it, the list has no repeats, and the path counts as matched exactly when the list is not empty |
| Routing.LookupChoice | src/server/router.cpp:222-252 | the earliest fitting route of the method; the earliest fitting GET only for HEAD and only when no HEAD route fits; else only whether some route fits |
| Routing.QueryIgnored | src/server/router.cpp:20-27 | a lookup sees the path before the first '?' and nothing of the query |
| Routing.AllowedInOrder | src/server/router.hpp:66-68 | the list reads as registration order |
| CaptureProofs.RestGuarantee | src/server/router.hpp:52-55 | for every well-escaped target a rest capture is not empty, does not begin with '/', has no "." or ".." segment after decoding, and has exactly the separators of the normalised path |
| CaptureProofs.SeparatorsKept | src/server/router.cpp:113-121 | counting separators refuses exactly the rests one of whose pieces decodes to text with a '/' |
| CaptureProofs.StaticRouteExact | src/server/router.cpp:73-87 | a pattern without brackets matches exactly the targets whose normalised path is its own |
| CaptureProofs.NumberBindsDigits | src/server/router.cpp:29-36 | a number capture binds the digits themselves |
| Captured.CapturesEach | src/server/router.cpp:113-137 | a match binds every parameter of the pattern in order and nothing else, each to its name and to the decoded part of the path at its own position |
| Captured.BoundAdmissible | src/server/router.cpp:101-105 | whatever a well-escaped target binds is not empty, no dot segment, and under a number all digits; literals stand as written |
| Captured.FilledMatches | src/server/router.cpp:91-152 | the read-back law: a path that fills the parameters with any bytes, escaped, matches and binds exactly those bytes if and only if none is empty, a dot segment, or no number where one is asked; else it does not match |
| Captured.RestFilled | src/server/router.cpp:107-130 | and a path that fills a rest, separators left as they are, binds exactly that |
| Captured.RegisteredFillable | src/server/router.cpp:218-220 | the patterns this holds for are those registered under a well-escaped absolute path |
| Pool.EveryRunSafe | src/server/pool.cpp:35-122 | in every state of every run of a pool built with so many workers and such limits: they are still those, no lost wakeup, arrival order, ordered timestamps, the queue within its limit, every socket in exactly one place |
| Pool.WakeupStep | src/server/pool.cpp:60-87 | every step keeps "where a worker sleeps, queued jobs are at most the woken workers" |
| Pool.NobodySleepsOnAJob | src/server/pool.cpp:76-87 | a job never waits while a worker sleeps unless another worker is awake and able to take it |
| Pool.EveryRunServes | src/server/pool.cpp:76-107 | in every run a worker has exited only if the pool is stopping, and while it is not a queued job always has some worker with a step to take |
| Pool.FrontSoonTaken | src/server/pool.cpp:76-107 | while the job in front waits in a running pool, the workers between them take at most three steps each |
| Pool.PlacesStep | src/server/pool.cpp:52-107 | every step moves a socket between being submitted, queued, held and closed, never into two places or none |
| Pool.ClosedFor | src/server/pool.cpp:52-107 | each cause is what happened: refused while being submitted, expired in a worker's hands after more than the wait allowed, served by the worker that had begun it, unserved when still queued at the end |
| Pool.ClosedForGood | src/server/pool.cpp:52-107 | a closed connection stays closed for its one cause, and what was taken is never taken back |
| Pool.NoneTakenWhileStopping | src/server/pool.cpp:82-84 | once the flag is set no job is taken and nothing is admitted |
| Pool.ShutdownIsBounded | src/server/pool.cpp:109-122 | once everyone is notified nobody blocks again, and the workers together take at most three more steps each |
| Pool.ShutdownOfWorker | src/server/pool.cpp:76-122 | for each worker alone: at most three more steps of its own, it begins or finishes at most the connection it already has, and never has another |
| Pool.ShutdownProgress | src/server/pool.cpp:109-122 | and until all have exited one of them can take a step |
| Pool.AllAccountedFor | src/server/pool.cpp:48-50 | when the pool is gone every socket it was given has been closed, and what was admitted was taken in order or left unserved |
| Pool.LiveBounded | src/server/pool.cpp:35-107 | in every state of every run at most as many connections are live as there were workers to start with, each in the hands of exactly one, and no more are open than workers and queue places together |
| Pooling.ConnectionPool.Submit | src/server/pool.cpp:52-74 | the critical section is the protocol's enqueue when there is room, else a refusal |
| Pooling.ConnectionPool.NextJob | src/server/pool.cpp:78-87 | the critical section is the protocol's check: leave, take the front job, or sleep |
| Pooling.ConnectionPool.Claim | src/server/pool.cpp:89-98 | a job is served exactly when it has not outwaited its limit |
| Pooling.ConnectionPool.RaiseFlag | src/server/pool.cpp:112-115 | the first half of stop |
| Pooling.ConnectionPool.Destroy | src/server/pool.cpp:48-50 | what is still queued is closed unserved, and then every socket not still being submitted is closed |
| Connections.MillisecondsUntil | src/net/socket.cpp:32-38 | the whole milliseconds left, at least one: they end no later than the deadline and less than one short of it; nothing exactly when under one is left |
| Connections.Connection.ApplyReadDeadline | src/server/connection.cpp:58-70 | idle between requests; within one, at least a millisecond, never past the request's deadline and less than one short of it; expired is a timeout |
| Connections.Connection.NextRequest | src/server/connection.cpp:16-52 | gives the next answer the bytes read so far owe, reading only while they owe none; a request's deadline never moves, and what a call within one waits comes off its remaining time; one call is blocked at most idle plus request in total; and when a read gives up under its timeout a request had less than a millisecond left, an idle connection its whole idle deadline |
| Responses.Serialize | src/http/response.cpp:58-81 | prints the status line, the kept fields in order, one Content-Length and the body |
| Responses.PrintedReadBack | src/http/response.cpp:58-81 | read back with the reader's own parsers: the fields in order without a caller's Content-Length, exactly one telling the body size, and the exact body |
| Responses.StatusReadBack | src/http/response.cpp:60-63 | the status is read back off the status line |
| Serving.HasConnectionOption | src/server/serve.cpp:92-107 | finds an option in the one list all connection fields form |
| Serving.ClientWantsClose | src/server/serve.cpp:111-124 | the loops decide persistence; the next two rows say for whom |
| Serving.PersistenceExactly | src/server/serve.cpp:109-124 | on 1.1 a request ends the connection exactly when some connection field lists "close", on 1.0 also when none lists "keep-alive" |
| Serving.PersistentByVersion | src/server/serve.cpp:109-124 | with no connection field, exactly on 1.0 |
| Serving.FoldingKeepsPersistence | src/server/serve.cpp:90-107 | folding repeated connection fields makes no difference |
| Serving.ClosingAnnounced | src/server/serve.cpp:128-131 | a closing reply carries "connection: close" after everything the handler set |
| Serving.ClosingReadBack | src/server/serve.cpp:128-131 | and the bytes of a closing reply, read back by the library's own parsers, name "close" among the connection options |
| Serving.ReplyReadBack | src/server/serve.cpp:126-138 | every reply read back: the handler's status and fields in order, "connection: close" exactly when the connection ends, the length of the body, and the body but for HEAD |
| Serving.RefusalReadBack | src/server/serve.cpp:62-84 | a refusal reaches the client as the status its error calls for, and names "close" exactly when the reader cannot go on or on 1.0 |
| Serving.TimeoutReadBack | src/server/serve.cpp:150-152 | the one reply to no request is a 408 that names "close" |
| Serving.ServeConnection | src/server/serve.cpp:140-178 | reply k answers the k-th answer owed by the bytes received; the one extra reply is a 408 for a timeout within a request; nothing is written or read after a decision to close; nothing owed is left when reading ends it |
| Exchanges.EveryMessageAnswered | src/server/serve.cpp:140-178 | from bytes to bytes: of any well-formed messages, received in any part and cut in any way, each in turn gets the reply owed to exactly the request meant, then at most one 408; only the last may close, and with everything received none is left unanswered |
| Exchanges.PersistenceOfExchange | src/server/serve.cpp:109-124 | no exchange of 1.1 messages without a connection field is ended by decision; of 1.0 ones the first reply is the last |
| Exchanges.StartAnswered | src/server/serve.cpp:62-84 | from a wrong first line to the status on the wire: 400, 505, 400 or 501 for the first thing wrong, 414 when it does not end within the cap |

## Left out

- Socket calls, errno handling, descriptor flags, `Listener` and `serve_forever`: foreign calls and accept-loop plumbing. A socket is a script of arrivals, of which only this is assumed: a read returns within the timeout it was armed with.
- `Pipeline`, middleware and handlers: caller-supplied code and exceptions; `respond` is an arbitrary function from requests to responses.
- Allocation failure, string views and their lifetimes: views are sequences; in the pool enqueueing may fail at any time.
- Threads as such: the mutex makes each critical section one step of `Pool`; `ConnectionPool` holds those sections with the whereabouts of the threads as ghost state. A thread that cannot be created only makes the pool smaller (src/server/pool.cpp:37-45): `Start` takes the number that did start.
- Connections.Connection.NextRequest: the bound on blocked time is stated for a non-zero idle deadline, because a zero timeout is no timeout at all (src/net/socket.cpp:19-20).
- Connections.Socket.Write: a failed write says nothing of the bytes already sent, because the connection ends there.
- The 503 written to a refused connection: written without waiting or not at all, with no effect on the protocol.
- The reason phrases of `status_message`, `Params::get`, `version`, `describe`, `App`: tables and plumbing that a reading settles.
