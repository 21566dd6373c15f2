# NanoRPC envelope codec and response errors, in Dafny

NanoRPC is a small RPC protocol over a byte stream. Every message on the
stream is one *frame*: `varint(tag) ++ varint(len) ++ payload`. The tag is
always field 0 with the length-delimited wire type (the single varint value
2). The varints are the "Base 128 Varints" of the Protocol Buffers
encoding. This project models two pure parts of the Go package
`pkg/nanorpc`:

- **The envelope codec** (`nanorpc.go`). `marshal` builds a frame.
  `DecodeSplit` classifies a buffer three ways: a whole frame, incomplete
  (`io.ErrUnexpectedEOF`, more input may complete it) or malformed.
  `Split` is the `bufio.SplitFunc` stream tokenizer built on it. `unmarshal`,
  `DecodeResponse`, `DecodeRequest`, `EncodeRequest` and `EncodeResponse`
  put messages in and out of frames.
- **The status-to-error mapper** (`errors.go`). `ResponseAsError` turns a
  response into no error, `ErrNoResponse`, or a `ResponseError` wrapping a
  sentinel. The file also covers the rendering of `ResponseError`, its
  `Unwrap`, and the predicates `IsNotFound`, `IsNotAuthorized` and
  `IsNoResponse`.

Files, one module each:

| file | module | models |
|---|---|---|
| `wrappers.dfy` | `Wrappers` | `Option` (Go `nil`) and `Result` (Go `(value, error)`) |
| `numeric.dfy` | `Numeric` | `byte`, `uint32`, `int32`, `uint64`, `MaxInt32` |
| `varint.dfy` | `Varint` | the protowire functions used: AppendVarint, SizeVarint, ConsumeVarint, EncodeTag, DecodeTag |
| `decimal.dfy` | `Decimal` | the `%d` rendering of an integer |
| `messages.dfy` | `Messages` | Request/Response records, enumerations, status names |
| `errors.dfy` | `Errors` | `errors.go` |
| `envelope.dfy` | `Envelope` | frame layout, `DecodeSplit`, `Split` |
| `codec.dfy` | `Codec` | `marshal`, `unmarshal`, `Encode*`, `Decode*` |

Modelling choices:

- The protobuf serialiser (`proto.Marshal`/`proto.Unmarshal`) is foreign
  code. It is the parameter `Serializer<M>`: a pair of total functions that
  may fail. The round-trip lemmas assume two things. `RoundTrips(c)` says
  the serialiser reads back what it writes. `FitsFrame(c, m)` says it
  serialises `m` in at most MaxInt32 bytes. The second assumption is not
  idle: `marshal` frames a payload of any length, but `DecodeSplit` refuses
  a declared size above MaxInt32. So the frame of a larger payload is
  always rejected as malformed (`Codec.MarshalOversizeRejected`).
- protowire's `ConsumeVarint` has three outcomes: `Ok(value, len)`,
  `Truncated` and `Overflow`. `Overflow` covers a varint longer than ten
  bytes, or a tenth byte above 1. Non-minimal encodings are accepted, as in
  protowire. `ParseError` maps `Truncated` to `io.ErrUnexpectedEOF` and
  `Overflow` to protowire's overflow error.
- `SizeVarint` uses protowire's formula `(9 * bitlen + 64) / 64`.
  `Varint.EncodeSize` proves it equal to the number of bytes AppendVarint
  writes.
- Go sentinels are compared by identity. Here each sentinel is its own
  constructor of `Errors.Error`, so identity is datatype equality.
  `core.Wrap(cause, …)` is `Wrapped(cause, detail)`. `errors.Is` /
  `core.IsError` is `Errors.Is`, which follows `Unwrap` step by step.
- Go mutates the caller's message in `EncodeRequest`/`EncodeResponse`. The
  model returns the updated message next to the result (`Codec.Encoded`).
  The mutation happens before the outer `marshal`, so it is visible even when
  that marshal fails.
- The status names are those of the generated enum `String()`. A value
  outside the enumeration renders as its decimal number.

Behaviour of the code worth knowing before reading the model:

- `unmarshal` (used by `DecodeResponse`) deserialises exactly
  `data[prefixLen:prefixLen+payloadLen]`. `DecodeRequest` instead passes
  `data[prefixLen:]`, everything up to the end of the buffer (see Findings).
- The errors other than "incomplete" are of two kinds. A wrong tag and an
  oversized length wrap `os.ErrInvalid`. An overlong varint returns
  protowire's own overflow error. `Envelope.Malformed` covers both kinds.
- The status text strips `STATUS_` from the enum name, so a NOT_FOUND
  response renders as `nanorpc: NOT_FOUND: <message>`.
  `Errors.NotFoundResponseExample` states this.
- A truncated tag varint is reported as incomplete even when its bytes so
  far can never become the tag 2 (for example a lone `0x83`). Only more input
  turns it into "malformed". `Envelope.DecodeSplitExtend` shows that this is
  the only verdict that more input can change.

## Model

| member | source | states |
|---|---|---|
| `Varint.EncodeSize` | pkg/nanorpc/nanorpc.go:22 | for every uint64, SizeVarint's bit-length formula equals the number of bytes AppendVarint writes |
| `Varint.ConsumeEncode` | pkg/nanorpc/nanorpc.go:25-26 | ConsumeVarint reads back every uint64 that AppendVarint wrote, consuming exactly its bytes (at most ten), whatever follows |
| `Varint.ConsumeFromEncode` | pkg/nanorpc/nanorpc.go:25-26 | the same round trip from any position inside a varint, for values that fit the remaining seven-bit groups |
| `Varint.ConsumeExtend` | pkg/nanorpc/nanorpc.go:132-149 | appending input never changes a completed or overflowing varint parse |
| `Varint.ConsumeFromTruncated` | pkg/nanorpc/nanorpc.go:132-134 | a parse is truncated exactly when every byte so far has the continuation bit and fewer than the allowed bytes are present |
| `Varint.ConsumeFromTruncatedCompletes` | pkg/nanorpc/nanorpc.go:146-149 | a truncated varint is completed by one more terminating byte, so "truncated" means "need more input" |
| `Varint.EncodePrefixTruncated` | pkg/nanorpc/nanorpc.go:132-134 | every proper prefix of a written varint parses as truncated |
| `Varint.DecodeEncodeTag` | pkg/nanorpc/nanorpc.go:20 | DecodeTag inverts EncodeTag for every valid field number and wire type |
| `Varint.EnvelopeTagUnique` | pkg/nanorpc/nanorpc.go:138-139 | the tag check passes for exactly one varint value, EncodeTag(0, BytesType) |
| `Envelope.Frame` | pkg/nanorpc/nanorpc.go:20-26 | a frame is longer than its payload and ends with the payload unchanged |
| `Envelope.FrameSize` | pkg/nanorpc/nanorpc.go:20-24 | the frame's length is the precomputed prefixLen + payloadLen; the tag takes one byte; payloads under 128 bytes get a two-byte header |
| `Envelope.DecodeSplit` | pkg/nanorpc/nanorpc.go:129-166 | reported sizes stay in the buffer; success means the whole frame is buffered with payloadLen <= MaxInt32; every error other than incomplete reports payloadLen 0 and is the overflow error or wraps os.ErrInvalid |
| `Envelope.SplitAfterTag` | pkg/nanorpc/nanorpc.go:144-165 | after a frame tag, when there is no error the header includes the size varint; success means the whole frame is buffered; every error other than incomplete reports payloadLen 0 and is the overflow error or wraps os.ErrInvalid |
| `Envelope.DecodeSplitTag` | pkg/nanorpc/nanorpc.go:132-142 | after a complete tag varint, DecodeSplit reads the size exactly when the tag is EncodeTag(0, BytesType), and otherwise returns the tag length, payloadLen 0 and an os.ErrInvalid wrapper |
| `Envelope.DecodeSplitFrame` | pkg/nanorpc/nanorpc.go:129-166 | a frame with payload <= MaxInt32 decodes with no error, prefixLen = size of the two varints and payloadLen = payload size, whatever bytes follow |
| `Envelope.DecodeSplitHeaderPrefix` | pkg/nanorpc/nanorpc.go:132-149 | a buffer cut inside the tag or length varint is incomplete (unexpected EOF through ParseError) |
| `Envelope.DecodeSplitPayloadPrefix` | pkg/nanorpc/nanorpc.go:159-165 | a buffer cut inside the payload is incomplete and still reports both lengths |
| `Envelope.DecodeSplitFramePrefix` | pkg/nanorpc/nanorpc.go:159-165 | every proper prefix of a frame is incomplete, never malformed |
| `Envelope.DecodeSplitExtend` | pkg/nanorpc/nanorpc.go:129-166 | appending input changes nothing unless the verdict was incomplete: a whole frame stays the same and malformed stays malformed |
| `Envelope.SplitAfterTagExtend` | pkg/nanorpc/nanorpc.go:146-165 | after the tag, more input changes nothing unless the size varint or the payload was incomplete |
| `Envelope.DecodeSplitWrongTag` | pkg/nanorpc/nanorpc.go:138-142 | a complete leading varint other than tag 2 gives an os.ErrInvalid error with prefixLen = tag length and payloadLen = 0 |
| `Envelope.DecodeSplitOversize` | pkg/nanorpc/nanorpc.go:152-155 | a declared size above MaxInt32 gives an os.ErrInvalid error, never incomplete, with prefixLen covering both varints and payloadLen 0 |
| `Envelope.Split` | pkg/nanorpc/nanorpc.go:110-124 | incomplete and not at EOF gives (0, nil, nil); any other error, including incomplete at EOF, gives (0, nil, err); success gives advance = prefixLen + payloadLen <= len(data) and msg = data[:advance] |
| `Envelope.SplitFrame` | pkg/nanorpc/nanorpc.go:122-123 | a buffer that starts with a frame yields exactly that frame as the token, with advance = frame length |
| `Envelope.SplitFramePrefix` | pkg/nanorpc/nanorpc.go:113-119 | part of a frame asks for more input before EOF and is io.ErrUnexpectedEOF at EOF |
| `Envelope.SplitTwoFrames` | pkg/nanorpc/nanorpc.go:122-123 | after the first token of two back-to-back frames is cut off, the remainder yields the second frame |
| `Codec.Marshal` | pkg/nanorpc/nanorpc.go:14-28 | marshal fails exactly when the serialiser fails, with its error; otherwise it returns the frame of the serialised message |
| `Codec.MarshalOversizeRejected` | pkg/nanorpc/nanorpc.go:152-155 | the frame marshal writes for a payload above MaxInt32 bytes is malformed whatever follows, and unmarshal consumes nothing and fails with DecodeSplit's error |
| `Codec.Unmarshal` | pkg/nanorpc/nanorpc.go:30-41 | on a DecodeSplit error it consumes 0 bytes and returns that error; otherwise it consumes the whole frame and deserialises exactly the declared payload |
| `Codec.UnmarshalMarshal` | pkg/nanorpc/nanorpc.go:30-41 | unmarshal of a marshalled message returns the message and consumes exactly its frame, whatever follows |
| `Codec.DecodeResponse` | pkg/nanorpc/nanorpc.go:45-52 | success returns the message unmarshal decoded and the size of the whole frame, which fits the buffer; it fails exactly when unmarshal fails, with unmarshal's error and no size; a bad or partial prefix surfaces DecodeSplit's own error (io.ErrUnexpectedEOF for a partial buffer) |
| `Codec.DecodeEncodeResponse` | pkg/nanorpc/nanorpc.go:45-52 | decoding the bytes EncodeResponse wrote returns the response as sent and the frame length, even with trailing bytes |
| `Codec.DecodeRequest` | pkg/nanorpc/nanorpc.go:56-69 | malformed or incomplete prefixes are rejected with DecodeSplit's error; otherwise data[prefixLen:] goes to the deserialiser, up to the end of the buffer |
| `Codec.DecodeRequestSeesTrailingBytes` | pkg/nanorpc/nanorpc.go:62-64 | for a frame followed by more bytes, DecodeRequest deserialises payload ++ rest while the bounded decoder deserialises the payload alone |
| `Codec.DecodeRequestTwoFrames` | pkg/nanorpc/nanorpc.go:56-69 | with a protobuf-like serialiser, two back-to-back request frames make DecodeRequest fail, while the bounded decoder returns the first request |
| `Codec.DecodeRequestBounded` | pkg/nanorpc/nanorpc.go:36-39 | corrected DecodeRequest: succeeds only on a whole frame and deserialises exactly the declared payload, like unmarshal |
| `Codec.DecodeEncodeRequest` | pkg/nanorpc/nanorpc.go:56-69 | the bounded decoder returns the sent request whatever follows; DecodeRequest does too when the buffer holds that frame alone |
| `Codec.AttachData` | pkg/nanorpc/nanorpc.go:75-85 | nil inner data leaves Data untouched; a serialiser error is returned; an empty serialisation clears Data; any other becomes its only element |
| `Codec.EncodeRequest` | pkg/nanorpc/nanorpc.go:74-88 | only Data of the request changes; an inner serialiser error leaves the request as it was; otherwise the output is marshal of the updated request |
| `Codec.EncodeResponse` | pkg/nanorpc/nanorpc.go:93-107 | only Data of the response changes; an inner serialiser error leaves the response as it was; otherwise the output is marshal of the updated response |
| `Codec.EmptyInnerIsAbsent` | pkg/nanorpc/nanorpc.go:99-100 | an inner payload that serialises to nothing gives the same result as a response with no data and no inner payload |
| `Errors.Unwrap` | pkg/nanorpc/errors.go:43-45 | a ResponseError unwraps to its Err; only wrapping errors unwrap to something |
| `Errors.IsUnwrap` | pkg/nanorpc/errors.go:97-111 | sentinel matching is "equal, or matching after one Unwrap" |
| `Errors.IsLeaf` | pkg/nanorpc/errors.go:12-24 | a sentinel matches only itself |
| `Errors.ResponseAsError` | pkg/nanorpc/errors.go:68-95 | nil response gives ErrNoResponse; no error exactly for status OK; any other status gives a ResponseError with the response's status and message unchanged and a sentinel inside |
| `Errors.ResponseAsErrorUnwraps` | pkg/nanorpc/errors.go:75-88 | NOT_FOUND unwraps to fs.ErrNotExist, NOT_AUTHORIZED to fs.ErrPermission, INTERNAL_ERROR to ErrInternalServerError, UNSPECIFIED to core.ErrInvalid, any other value to core.ErrUnknown |
| `Errors.ResponseAsErrorMatches` | pkg/nanorpc/errors.go:97-111 | IsNotFound holds iff the status is NOT_FOUND, IsNotAuthorized iff NOT_AUTHORIZED, IsNoResponse iff there was no response |
| `Errors.CutPrefix` | pkg/nanorpc/errors.go:49 | the cut succeeds iff the name starts with the prefix, and then prefix ++ rest is the name |
| `Errors.StatusTextCases` | pkg/nanorpc/errors.go:49-55 | an unknown value or the core.ErrUnknown sentinel prints "unknown status N"; otherwise UNSPECIFIED prints "UNSPECIFIED: invalid status", and any other status prints the name without "STATUS_"; the text never ends in a space |
| `Errors.RenderShape` | pkg/nanorpc/errors.go:47-64 | the text starts with "nanorpc: "; it ends with ": " + Msg exactly when Msg is non-empty; with no message it is "nanorpc: " + status text |
| `Errors.ErrorText` | pkg/nanorpc/errors.go:39-41 | Error() is the same text as String() |
| `Errors.RenderNotFoundExample` | pkg/nanorpc/errors.go:47-64 | NOT_FOUND with message "unknown sensor" renders as "nanorpc: NOT_FOUND: unknown sensor" |
| `Errors.RenderUnspecifiedExample` | pkg/nanorpc/errors.go:53-54 | UNSPECIFIED without a message renders as "nanorpc: UNSPECIFIED: invalid status" |
| `Errors.RenderUnknownValueExample` | pkg/nanorpc/errors.go:51-52 | status value 7 renders as "nanorpc: unknown status 7" |
| `Errors.RenderUnknownSentinelExample` | pkg/nanorpc/errors.go:51-52 | a known status carrying core.ErrUnknown also renders as "unknown status N" |
| `Errors.NotFoundResponseExample` | pkg/nanorpc/errors.go:68-111 | a NOT_FOUND response becomes an error that IsNotFound recognises, that no other predicate recognises, and that renders as "nanorpc: NOT_FOUND: unknown sensor" |
| `Messages.StatusName` | pkg/nanorpc/errors.go:49 | the name has the "STATUS_" prefix exactly for the five declared values; any other value's name is its decimal number |
| `Messages.StatusNameInjective` | pkg/nanorpc/errors.go:49-52 | distinct status values have distinct names |
| `Decimal.ItoaShape` | pkg/nanorpc/errors.go:52 | `%d` output is a sign or digit followed by digits, ends with a digit, and reads back as the number |

## Left out

- The session state machine, the path-hash registry and all concurrency:
  their code is not part of this model. `ErrSessionClosed` and
  `ErrHashCollision` appear only as sentinels.
- `pkg/nanorpc/client/logger.go` is logging glue and
  `pkg/generator/generator.go` is a thin wrapper over the protoc plugin
  library. Neither has behaviour to verify.
- `proto.Marshal`/`proto.Unmarshal`: foreign. They are the `Serializer`
  parameter, and the message body is opaque bytes.
  `Codec.DecodeRequestTwoFrames` assumes two things of it: it reads back
  what it writes (`RoundTrips`), and, as the protobuf encoding says, it
  refuses field number 0 (`RejectsFieldZero`).
- Error texts: the messages of the sentinels, of `core.Wrap` and of
  protowire's errors are not modelled. `core.Wrap` keeps only its cause and
  a `Detail`. `ErrNoResponse`'s timeout wrapper (`core.NewTimeoutError`) is
  treated as one opaque sentinel.
- `writeString` and `strings.Builder` are not part of this model. They are
  taken to append their arguments in order.
- The numeric values of the status enumeration come from the generated
  code, which is not part of this model. They are taken as 0 to 4 in the
  declared order (UNSPECIFIED, OK, NOT_FOUND, NOT_AUTHORIZED,
  INTERNAL_ERROR).
- A nil `req`/`res` pointer passed to `EncodeRequest`/`EncodeResponse` is not
  modelled. Go would panic when it assigns `Data`.
- `marshal`'s preallocated capacity is a memory concern. Only the resulting
  length is stated (`Envelope.FrameSize`).
- The `bufio.Scanner` loop that drives `Split` belongs to the standard
  library. It is not modelled.
- Go's `int` is taken to be 64 bits wide, as on 64-bit platforms. There the
  sums `prefixLen + payloadLen` (nanorpc.go:37, :122, :161) are at most
  20 + MaxInt32 and cannot overflow, so they are written as plain integers.
  On 32-bit platforms (386, arm, mips) `int` is 32 bits and these sums can
  wrap. For example, `[0x02, 0xff, 0xff, 0xff, 0xff, 0x07]` declares a size
  of MaxInt32, and `6 + MaxInt32` wraps to a negative number. `DecodeSplit`
  would then report a whole frame, and `Split` would panic when it slices
  `data[:advance]`. The model reports this buffer as incomplete, and the
  32-bit wrap-around and its panic are not modelled.

## Findings

| source | as written | input that shows it | evidently intended | confidence | as-written member | corrected member |
|---|---|---|---|---|---|---|
| pkg/nanorpc/nanorpc.go:57-64 | `DecodeRequest` deserialises `data[prefixLen:]`, everything up to the end of the buffer, and ignores the declared `payloadLen` | two request frames back to back, `marshal(m1) ++ marshal(m2)`: the deserialiser receives `payload1 ++ frame2`, and frame2 starts with the byte 2, a field-0 tag that protobuf refuses | deserialise `data[prefixLen:prefixLen+payloadLen]`, as `unmarshal` does for `DecodeResponse` | low; not executed; callers that pass exactly one frame (as `Split` yields) are unaffected | `Codec.DecodeRequest` (exhibited by `Codec.DecodeRequestTwoFrames`) | `Codec.DecodeRequestBounded` (proved by `Codec.DecodeEncodeRequest`) |
