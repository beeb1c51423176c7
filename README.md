# git-odb-daemon IPC protocol, modelled in Dafny

git-odb-daemon serves git objects to clients over a Unix socket. It uses a
small pkt-line style protocol, and this project models that protocol and
the loop that serves one connection:

- **Framing and request decoding** (`ReadRequest`).
  - A frame starts with a four-character hex length `L` that counts its
    own four bytes.
  - `L = 0` is a flush packet on its own.
  - Otherwise `L - 4` payload bytes follow, then the terminator `0000`.
  - The payload is a 16-byte, zero-padded command key and the
    little-endian fields of the command. The only command is `oid`
    (GetOid): an object id, flags and a want-content byte.
- **Responses** (`WriteErrorResponse` and `GetOidResponse.WriteResponse`).
  - The error sentinel is `0009error0000`.
  - A GetOid response is a `%04x` length, then the 112-byte little-endian
    response struct, the object content when asked for, and `0000`.
- **Object identities**:
  - `Key.ToString`;
  - `ObjectId.Hex` and `ObjectId.GitHash`, which depend on the algorithm
    (20 or 32 bytes);
  - `GitHashToObjectId`.
- **The per-connection loop** of `main.go`:
  - a flush packet is skipped;
  - the end of the stream closes the connection;
  - an `oid` request is looked up in the object store and answered with
    its response.
  - A failure before `WriteResponse` is called (a malformed request, a
    missing object, a reader that cannot be opened) sends the sentinel
    and closes. A failure inside `WriteResponse` (the content read or a
    write) closes without one.

The modules follow the program:

- `Wrappers` holds Option and Result.
- `Encoding` holds the parts of Go's standard library the protocol relies
  on: little-endian integers, `encoding/hex`, `strconv.ParseUint(s, 16, 32)`,
  `fmt.Sprintf("%04x")` and `string`/`[]byte` conversions.
- `Connection` holds both sides of the socket:
  - `io.ReadFull` reads from the unread input into a buffer array;
  - `Conn` is the write side, a class whose `out` field grows with every
    accepted `Write`.
- `IpcTypes` models `internal/ipc/types.go`.
- `IpcRequest` models `internal/ipc/request.go`.
- `IpcResponse` models `internal/ipc/response.go`.
- `Daemon` models the loop in `cmd/git-odb-daemon/main.go`.

The imperative code stays imperative, each method proved against a pure
function:

- `ReadRequest` reads from an input position. It returns what
  `ParseRequest` says about the unread input.
- `WriteResponse` returns an error, or performs the writes
  `ResponseWrites` lists.
- `Serve` runs the `for` loop. What it writes is exactly the part of
  `SessionWrites(input, store)` that the peer accepts.

A peer that goes away is modelled as a write budget. Once the budget is
spent, every further write fails and writes nothing. So the output of any
run is the ideal output cut off after a whole number of writes.

Two points about the command key and the frame length:

- **Key trimming.** `Key.ToString` (internal/ipc/types.go:15) trims zero
  bytes at both ends of the 16-byte key, and the model does the same.
  `IpcTypes.TrimOfPadded` states this, and `IpcTypes.InteriorZerosKept`
  shows that interior zeros stay.
- **Lengths 1 to 3.** Here the model departs from the code. The code
  subtracts 4 from an unsigned 64-bit length without a check, and then
  panics in `make` (internal/ipc/request.go:61-65). The model rejects
  these lengths with `LengthUnderflow` instead (see Findings).

## Model

| member | source | states |
|---|---|---|
| Encoding.Uint32Of | cmd/git-odb-daemon/main.go:93 | `uint32(size)` keeps the size modulo 2^32, and is the size itself when it fits in 32 bits |
| Encoding.EncodeU32 | internal/ipc/response.go:49 | a uint32 is 4 little-endian bytes, and decoding them gives the value back |
| Encoding.EncodeDecodeU32 | internal/ipc/request.go:93 | any four bytes are the encoding of the uint32 they decode to, so decoding loses nothing |
| Encoding.EncodeI32 | internal/ipc/response.go:49 | an int32 is 4 two's-complement little-endian bytes, and decoding them gives the value back |
| Encoding.EncodeDecodeI32 | internal/ipc/request.go:93 | any four bytes are the two's-complement encoding of the int32 they decode to |
| Encoding.EncodeI64 | internal/ipc/response.go:49 | an int64 is 8 two's-complement little-endian bytes, and decoding them gives the value back |
| Encoding.LeValueOfBytes | internal/ipc/request.go:93 | any value below 256^w survives writing as w little-endian bytes and reading back |
| Encoding.LeBytesOfValue | internal/ipc/request.go:93 | any byte string survives reading as a little-endian number and writing back at its own width |
| Encoding.EncodeToString | internal/ipc/types.go:25 | hex encoding gives two lower-case hex digits per byte |
| Encoding.DecodeString | internal/ipc/response.go:23 | hex decoding succeeds exactly for an even number of hex digits, and gives half as many bytes |
| Encoding.DecodeEncodeString | internal/ipc/response.go:23 | decoding the hex encoding of any byte string gives it back |
| Encoding.ParseUint | internal/ipc/request.go:51 | parsing succeeds exactly for a non-empty string of hex digits (either case) whose value is below 2^32, and gives that value |
| Encoding.Sprintf04x | internal/ipc/response.go:17 | `%04x` gives at least four lower-case hex digits |
| Encoding.HexValueOfDigits | internal/ipc/response.go:72 | the shortest hex rendering of n has value n |
| Encoding.Sprintf04xWidth | internal/ipc/response.go:72 | `%04x` of n has exactly four characters if and only if n <= 0xffff |
| Encoding.Sprintf04xParses | internal/ipc/request.go:51 | a four-character `%04x` rendering parses back to the number |
| Encoding.LengthPrefixFits | internal/ipc/response.go:72 | a length prefix has at least four bytes; it has exactly four iff the length is at most 0xffff, and then it parses back to the length |
| Encoding.LengthPrefixStarts | internal/ipc/request.go:42-51 | a four-byte length prefix parses back from the first four bytes of any stream it starts |
| Encoding.StringOfInjective | internal/ipc/request.go:80 | `string(b)` determines b, so comparing texts compares bytes |
| Connection.ReadFull | internal/ipc/request.go:42 | `io.ReadFull` copies min(buffer length, bytes left) input bytes from the position, and reports nil, EOF (nothing read) or unexpected EOF (short) |
| Connection.Conn.Write | internal/ipc/response.go:72-92 | a write either appends all its bytes and uses up one accepted write, or, once the peer is gone, appends nothing and fails |
| Connection.Send | internal/ipc/response.go:72-92 | attempting write i of a planned sequence keeps the output equal to the accepted prefix of the plan, and succeeds iff the budget exceeds i |
| Connection.FlattenAppend | internal/ipc/response.go:72-92 | the bytes of two runs of writes are the bytes of the first run, then those of the second |
| Connection.AttemptNext | cmd/git-odb-daemon/main.go:53-119 | attempting the next writes of a plan, from the state the earlier ones left, gives the accepted prefix of the longer plan and its remaining budget |
| IpcTypes.FlushPktText | internal/ipc/request.go:80 | comparing a packet's text with "0000" is the same as comparing its bytes with the flush packet |
| IpcTypes.Trim | internal/ipc/types.go:15 | the trimmed key neither starts nor ends with a zero byte, and the key is that result with zero padding on both sides |
| IpcTypes.ToString | internal/ipc/types.go:14-16 | a key's name has at most 16 characters, and neither starts nor ends with NUL |
| IpcTypes.TrimOfPadded | internal/ipc/types.go:15 | padding a name with zeros on either side and trimming gives exactly the name back |
| IpcTypes.OidKeyIsOid | internal/ipc/types.go:15 | "oid" followed by 13 zero bytes reads as "oid" |
| IpcTypes.InteriorZerosKept | internal/ipc/types.go:15 | zero bytes between a key's characters are kept |
| IpcTypes.Hex | internal/ipc/types.go:23-29 | Hex is 40 lower-case hex digits for algorithm 1, and 64 otherwise |
| IpcTypes.HexDecodes | internal/ipc/types.go:23-29 | Hex renders exactly bytes 0..19 for algorithm 1, and all 32 bytes otherwise |
| IpcTypes.NewHash | internal/ipc/types.go:32 | `plumbing.NewHash` of well-formed hex gives its first 20 bytes, or all of its bytes followed by zeros when there are fewer |
| IpcTypes.GitHash | internal/ipc/types.go:31-33 | GitHash is exactly the id's first 20 hash bytes, whatever the algorithm |
| IpcTypes.Sha1TailIgnored | internal/ipc/types.go:24-25 | two algorithm-1 ids that share bytes 0..19 have equal Hex and equal GitHash |
| IpcRequest.EncodeObjectId | internal/ipc/request.go:93 | an object id is 36 bytes (hash, then algorithm) that decode back to it |
| IpcRequest.EncodeDecodeObjectId | internal/ipc/request.go:93 | any 36 bytes are the encoding of the id they decode to |
| IpcRequest.DecodeGetOidBody | internal/ipc/request.go:92-93 | `binary.Read` of the 41-byte body: id, flags and want-content; `IpcRequest.EncodeGetOidBody` and `IpcRequest.EncodeDecodeGetOidBody` make it a bijection between bodies and requests |
| IpcRequest.EncodeGetOidBody | internal/ipc/request.go:93 | a GetOid body is 41 bytes that decode back to the request |
| IpcRequest.EncodeDecodeGetOidBody | internal/ipc/request.go:92-93 | any 41 bytes are the encoding of the request they decode to |
| IpcRequest.DecodePayload | internal/ipc/request.go:84-100 | a payload decodes exactly when it holds at least 16 + 41 bytes and its key trims to "oid"; it then decodes to a GetOid request; it fails with ShortKey exactly when it is shorter than a key |
| IpcRequest.ParseRequest | internal/ipc/request.go:39-101 | a request never takes more than the input; EOF is read only from an empty stream and takes nothing; every other request takes at least four bytes |
| IpcRequest.ParseFrame | internal/ipc/request.go:61-101 | a frame that decodes takes exactly L + 4 bytes, all within the input |
| IpcRequest.ReadRequest | internal/ipc/request.go:39-59 | reading at a position returns what the unread input parses to, and moves the position by exactly the bytes the request takes |
| IpcRequest.ReadFrame | internal/ipc/request.go:61-71 | after the prefix, the payload read and then the rest of the frame give the frame's request or its error, and take its bytes |
| IpcRequest.FinishFrame | internal/ipc/request.go:75-100 | once reqBuf holds the payload, the terminator read and the decoding give the frame's request or its error |
| IpcRequest.ReadTerminator | internal/ipc/request.go:75-82 | the four bytes after the payload are "0000", or the frame fails with ShortTerminator (stream ended) or BadTerminator (other bytes) |
| IpcRequest.CompleteFrame | internal/ipc/request.go:75-100 | a frame whose payload and "0000" terminator are in place is what its payload decodes to, taking L + 4 bytes |
| IpcRequest.DecodeBuffer | internal/ipc/request.go:84-100 | the key read and body read through the payload buffer give the payload's request or its error |
| IpcRequest.EncodeGetOidFrame | internal/ipc/request.go:29-33 | a client's GetOid frame is 65 bytes |
| IpcRequest.GetOidPayload | internal/ipc/request.go:84-97 | the "oid" key followed by an encoded body decodes to that request |
| IpcRequest.Frame | internal/ipc/request.go:39-82 | a frame is 8 bytes longer than its payload |
| IpcRequest.FrameRoundTrip | internal/ipc/request.go:39-101 | a framed payload, followed by anything, reads back as the payload's request (or its error), taking exactly the frame |
| IpcRequest.GetOidRoundTrip | internal/ipc/request.go:39-101 | a client's GetOid frame, followed by anything, reads back as that request and takes its 65 bytes |
| IpcRequest.EndOfStreamIsEof | internal/ipc/request.go:42-44 | the end of the stream before any prefix byte is the EOF request, not an error |
| IpcRequest.FlushPacketTakesFourBytes | internal/ipc/request.go:51-59 | "0000" is a flush packet and takes exactly four bytes |
| IpcRequest.MalformedPrefixIsError | internal/ipc/request.go:45-54 | one to three bytes, or four that are not all hex digits, are an error |
| IpcRequest.ShortLengthRejected | internal/ipc/request.go:61 | a length of 1, 2 or 3 is an error |
| IpcRequest.EmptyPayloadIsError | internal/ipc/request.go:84-88 | L = 4 gives an empty payload, which fails for want of a key |
| IpcRequest.FrameShape | internal/ipc/request.go:61-97 | every GetOid request read takes L + 4 bytes, ends in "0000", and is what its payload decodes to |
| IpcRequest.WrongTerminatorIsError | internal/ipc/request.go:75-82 | when the four bytes after the payload are not "0000", the read fails, whatever the payload |
| IpcRequest.TruncatedPayloadIsError | internal/ipc/request.go:65-71 | a stream that ends inside the payload is an error |
| IpcRequest.GetOidLayout | internal/ipc/request.go:84-97 | an "oid" payload under 57 bytes fails; otherwise bytes 16..47 are the hash, 48..51 the algorithm, 52..55 the flags and 56 want-content, all little-endian, and later bytes are ignored |
| IpcRequest.UnknownKeyIsError | internal/ipc/request.go:90-100 | any key that does not trim to "oid" fails with that key's name |
| IpcRequest.GoPayloadSize | internal/ipc/request.go:61 | Go's unsigned `reqSize -= 4` is L - 4 for L >= 4 |
| IpcRequest.ShortLengthWrapsAround | internal/ipc/request.go:61-65 | for L in 1..3, Go's `reqSize -= 4` wraps to at least 2^63, a size `make` cannot allocate |
| IpcResponse.ErrorWrites | internal/ipc/response.go:15-20 | the sentinel is three writes |
| IpcResponse.ErrorSentinelBytes | internal/ipc/response.go:15-20 | the sentinel is exactly the 13 bytes "0009error0000" |
| IpcResponse.WriteErrorResponse | internal/ipc/response.go:15-20 | the output grows by the accepted part of the three sentinel writes, whatever their errors |
| IpcResponse.GitHashToObjectId | internal/ipc/response.go:22-33 | a converted id uses algorithm 1 |
| IpcResponse.GitHashToObjectIdExact | internal/ipc/response.go:22-33 | the conversion never fails; bytes 0..19 are the hash and 20..31 zero; the id's Hex is the hash's hex and its GitHash is the hash |
| IpcResponse.EncodeResponse | internal/ipc/response.go:36-49 | the response struct encodes to exactly 112 bytes |
| IpcResponse.ResponseLayout | internal/ipc/response.go:36-45 | every field sits at its offset in field order, little-endian, and bytes 100..103 are zero padding |
| IpcResponse.ResponseRoundTrip | internal/ipc/response.go:49 | a client decoding the 112 bytes gets the whole response back |
| IpcResponse.Read | internal/ipc/response.go:64 | one Read either fails or copies min(buffer length, bytes available) bytes |
| IpcResponse.ReadAll | internal/ipc/response.go:61-70 | reading the content fails exactly when the reader fails or returns other than Size bytes, and otherwise gives the content |
| IpcResponse.ReadContent | internal/ipc/response.go:61-70 | it fails iff the reader fails or has fewer than Size bytes; on success there is content iff there is a reader, and it is the first Size bytes |
| IpcResponse.ResponseWrites | internal/ipc/response.go:72-92 | a response is four writes with content and three without |
| IpcResponse.DeclaredLength | internal/ipc/response.go:54-57 | the length the prefix announces; `IpcResponse.ResponseFrame` shows it is 4 plus the bytes before the terminator |
| IpcResponse.ResponseFrame | internal/ipc/response.go:54-92 | a response is the prefix, the struct, the content if any, then "0000"; its declared length is 4 plus the bytes before the terminator |
| IpcResponse.ResponsePrefixReadsBack | internal/ipc/response.go:54-72 | the prefix is four characters iff the declared length is at most 0xffff, and then a client parses the length back from the response |
| IpcResponse.NoContentWithoutReader | internal/ipc/response.go:55-87 | without a reader, a response is prefix "0074", the struct and "0000": 120 bytes and no content |
| IpcResponse.WriteResponse | internal/ipc/response.go:47-95 | when the content read fails, the error comes back and nothing is written; otherwise the response's writes go out until one fails, and an error comes back iff one did |
| IpcResponse.WriteFrame | internal/ipc/response.go:72-94 | the writes go out in order; the output grows by their accepted part, and an error comes back iff one was refused |
| Daemon.LoopStep | cmd/git-odb-daemon/main.go:53-119 | a pass that goes on takes at least four input bytes, so the loop makes progress |
| Daemon.Session | cmd/git-odb-daemon/main.go:53-119 | everything the loop sends for a whole input when every write is accepted; `Daemon.Serve` emits its accepted prefix, and `Daemon.SentinelOnlyLast` and `Daemon.SessionServesInOrder` state its shape |
| Daemon.ObjectResponse | cmd/git-odb-daemon/main.go:83-94 | the response the loop fills for a found object; `Daemon.AnswerFound` states its fields |
| Daemon.Answer | cmd/git-odb-daemon/main.go:67-113 | an oid request either gets one reply and the loop goes on, or the loop returns after the sentinel or after nothing |
| Daemon.AnswerGetOid | cmd/git-odb-daemon/main.go:67-113 | an oid request writes the accepted part of its answer; the loop stops exactly when the answer ends the session or the peer refuses one of its writes |
| Daemon.HandleRequest | cmd/git-odb-daemon/main.go:54-118 | one pass writes the accepted part of that request's answer; it stops exactly when the request ends the session or the peer refuses one of its writes, and otherwise goes on at the position after the request |
| Daemon.Turn | cmd/git-odb-daemon/main.go:53-119 | after each pass, the output is the accepted prefix of the whole session's writes, and the rest of the session is that of the remaining input |
| Daemon.Serve | cmd/git-odb-daemon/main.go:53-119 | serving a connection writes exactly the part of the session's writes that the peer accepts |
| Daemon.SessionEndOfStream | cmd/git-odb-daemon/main.go:65-66 | a stream that has ended gets no output |
| Daemon.SessionSkipsFlush | cmd/git-odb-daemon/main.go:63-64 | a flush packet writes nothing, and the session goes on with the next request |
| Daemon.SessionReadError | cmd/git-odb-daemon/main.go:54-59 | a request that cannot be read gets the sentinel "0009error0000" and nothing after it |
| Daemon.SessionMissingObject | cmd/git-odb-daemon/main.go:75-80 | any input that reads as a request for an object the store lacks gets the sentinel only |
| Daemon.SessionNoReader | cmd/git-odb-daemon/main.go:97-104 | any input that reads as a content request for an object whose reader cannot be opened gets the sentinel only |
| Daemon.SessionShortContent | cmd/git-odb-daemon/main.go:109-112 | any input that reads as a content request whose read fails or comes back short ends the connection with no output at all, not even the sentinel |
| Daemon.AnswerFound | cmd/git-odb-daemon/main.go:82-107 | a found object's reply has key "oid", the object's hash as an algorithm-1 id, Size the low 32 bits of its size, its type, and the other fields zero; it carries content iff WantContent is nonzero; in a consistent store it names the requested object |
| Daemon.SessionFoundObject | cmd/git-odb-daemon/main.go:67-113 | any input that reads as a servable request gets that request's reply, and the session continues after the bytes the request took |
| Daemon.SentinelOnlyLast | cmd/git-odb-daemon/main.go:53-119 | the sentinel is sent at most once, and only as the last thing in a session |
| Daemon.SessionServesInOrder | cmd/git-odb-daemon/main.go:53-119 | a run of servable requests, with or without content, gets one reply each, in order, followed by the session of what comes after |
| Daemon.RepliesOnePerRequest | cmd/git-odb-daemon/main.go:53-119 | the replies of a run are exactly one per request, the i-th being the reply to the i-th request |

## Left out

- Sockets, listening and accepting, the signal handler, socket removal,
  the goroutine per connection, `defer conn.Close()` and `log.Fatal` are
  not modelled. They are I/O and concurrency.
- `fmt.Printf` diagnostics and `unsafe.Sizeof` are not modelled. They
  print and do not affect the protocol.
- The storage backends are not modelled. The object store is a map from
  20-byte hashes to records:
  - A record holds the hash, type and size the object reports, and its
    reader.
  - A missing key stands for a lookup error, and a missing reader for a
    failing `Reader()` call.
  - `Daemon.Consistent` names the case where each object is filed under
    its own hash.
- `plumbing.NewHash` is modelled as: decode hex until the first bad digit,
  then zero-pad or cut to 20 bytes.
- The content reader is one `Read` call: it returns up to the buffer's
  length from a fixed chunk, or fails. Readers whose later calls would
  return more bytes are not modelled, because `WriteResponse` reads
  exactly once.
- The peer's input is an immutable byte sequence read at a position
  index. The `pktLine`, `reqBuf` and `content` buffers are arrays. An
  input that arrives in pieces is not modelled: `io.ReadFull` waits for
  all of its bytes, or for the end of the stream.
- Network read errors other than the end of the stream are not modelled.
- A write either succeeds in full or fails and writes nothing. Partial
  writes are not modelled, because a Go `net.Conn` write that stops short
  reports an error.
- Error values are collapsed into the `ReadError` and `WriteError`
  datatypes. Message texts are not modelled.
- The `binary.Write` error path (internal/ipc/response.go:50-52) is not
  modelled. It cannot fail for a fixed-size struct written to a buffer.
- The `GitHashToObjectId` error path in the loop
  (cmd/git-odb-daemon/main.go:86-91) is kept in `Daemon.Answer`,
  but `IpcResponse.GitHashToObjectIdExact` proves it is never taken, so
  `Daemon.AnswerGetOid` has no branch for it.
- The failed type assertion (cmd/git-odb-daemon/main.go:68-73) and the
  `default` branch (cmd/git-odb-daemon/main.go:114-117) are not
  modelled. A request is one of exactly three datatype variants, so both
  are unreachable. The `Key()` strings are replaced by that dispatch.
- The Go panic for a length of 1 to 3 is not reproduced. It is an error
  instead (see Findings).
- The storage backends, git object types and the hash-object path are
  not part of this model. The daemon has no hash-object command to serve.

## Findings

| source | as written | input that shows it | evidently intended | confidence | as-written member | corrected member |
|---|---|---|---|---|---|---|
| internal/ipc/request.go:61 | `reqSize -= 4` on an unsigned 64-bit length, with no check that the length is at least 4 | a frame starting "0001" (or "0002", "0003") | reject a length smaller than its own prefix as a malformed request, answered with the error sentinel | not executed | IpcRequest.ShortLengthWrapsAround | IpcRequest.ShortLengthRejected |
