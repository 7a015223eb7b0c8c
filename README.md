# CT submission client — a Dafny model of its wire codec

This project models the submission client of the certificate-transparency
tool (`src/client/ct.cc`). The client sends one command frame, `UPLOAD_BUNDLE`
with a certificate bundle as payload, over a connected TCP stream. It then
reads one response frame and prints its code and data length. When the code is
`SUBMITTED` it also prints the data as a lowercase hex token.

Both directions use the same frame layout:

| field   | size        | content                                    |
|---------|-------------|--------------------------------------------|
| version | 1 byte      | `VERSION = 0`                              |
| tag     | 1 byte      | the command (outbound) or the code (inbound) |
| length  | 3 bytes     | unsigned, most significant byte first      |
| payload | length bytes | the bundle, or the response data          |

The project has three modules:

- `Wire` (wire.dfy) holds the pure specification:
  - the `byte` type and the `VERSION`, `UPLOAD_BUNDLE` and `SUBMITTED` constants;
  - the big-endian length field (`EncodeLength` / `DecodeLength`);
  - whole frames (`EncodeFrame` / `DecodeFrame`);
  - what reading one response off a stream yields (`ExpectReply`, `ReplySize`).
- `HexEncoding` (hex.dfy) holds the token rendering `Hex`, its inverse `Unhex`,
  and the `HexString` loop.
- `Client` (client.dfy) holds the imperative client:
  - a `Stream` class standing for the socket: the bytes written so far (`sent`)
    and the bytes still to read (`pending`);
  - the `CTResponse` record;
  - the `CTClient` class, whose methods are the source's loops, each proved
    against the `Wire` functions.

The transport's `::write` and `::read` are the methods `Stream.WriteSome` and
`Stream.ReadSome`. Each call moves an arbitrary count between 1 and the amount
requested, so the full-transfer loops are verified for every pattern of partial
transfers. `ReadSome` returns 0 only when the peer has closed the stream and
nothing is left. The `assert(n > 0)` in `read` then fails; the model gives that
abort a value, `Reply.Closed`. A version byte other than `VERSION` trips the
assertion in `readResponse`; the model gives that abort the value
`Reply.WrongVersion`.

Where the protocol's specification and the code disagree, the model follows the code:

- The specification describes an oversize payload (2^24 bytes or more) as rejected before any
  I/O. The code checks the length inside `writeLength`, after the version and
  command bytes are already written (src/client/ct.cc:148-150). Here the bound is a
  precondition of `WriteCommand`, `WriteLength` and `UploadBundle`, because it is an
  assertion the callers must satisfy.
- The specification describes typed errors. The code aborts through `assert`. Here the
  abort points are values of `Reply`, and nothing after them is modelled.
- `writeLength` asserts only `lengthOfLength <= sizeof(size_t)` (8). However, the
  shifts `1U << (lengthOfLength * 8)` and `0xff << ((lengthOfLength - 1) * 8)` are
  undefined for widths of 4 or more. The model therefore requires a width of at
  most 3, the only width the client uses.

## Model

| member | source | states |
|---|---|---|
| `Wire.EncodeLength` | src/client/ct.cc:108-116 | the length field of width k has exactly k bytes |
| `Wire.DecodeLength` | src/client/ct.cc:135-138 | the big-endian value of a k-byte field is below 256^k |
| `Wire.EncodeLengthAt` | src/client/ct.cc:112-115 | byte j of a k-byte field is (n >> 8(k-1-j)) & 0xff: most significant byte first |
| `Wire.DecodeEncodeLength` | src/client/ct.cc:109-139 | reading back a field written for any n < 256^k gives n |
| `Wire.EncodeDecodeLength` | src/client/ct.cc:109-139 | writing the decoded value of any field at its own width gives the same bytes back |
| `Wire.EncodeFrame` | src/client/ct.cc:48-54 | a frame with a body below 2^24 bytes takes 5 bytes plus the body length |
| `Wire.EncodeFrameHeader` | src/client/ct.cc:147-151 | the header is [version, tag, L>>16 & 0xff, L>>8 & 0xff, L & 0xff] with L the body length, followed by the body unchanged |
| `Wire.DecodeEncodeFrame` | src/client/ct.cc:48-54 | parsing an encoded frame returns the same version, tag and body |
| `Wire.EncodeDecodeFrame` | src/client/ct.cc:48-54 | every byte string that parses as a frame is the encoding of that frame |
| `Wire.ReplySize` | src/client/ct.cc:153-158 | a read of a response consumes 1 byte on a bad version, 5 bytes plus the data length on success, and all input when the stream ends inside the frame |
| `Wire.ReplyOfFrame` | src/client/ct.cc:153-158 | a well-formed frame with version 0 at the head of the stream is read as its code and data, and exactly its bytes are consumed |
| `Wire.ReplyIsFrame` | src/client/ct.cc:153-158 | the bytes consumed by a successful read form exactly one frame with version 0, that code and that data |
| `HexEncoding.Hex` | src/client/ct.cc:16-23 | the rendering has exactly two characters per byte |
| `HexEncoding.HexAt` | src/client/ct.cc:14-23 | characters 2i and 2i+1 are the digits of the high and low nibble of byte i, and every character is one of "0123456789abcdef" |
| `HexEncoding.UnhexHex` | src/client/ct.cc:16-23 | the rendering is lossless: parsing it back two digits per byte gives the original bytes |
| `HexEncoding.HexString` | src/client/ct.cc:16-23 | the loop builds exactly the rendering `Hex(data)`, two characters per byte, so HexAt and UnhexHex describe its result |
| `Client.Stream.WriteSome` | src/client/ct.cc:96 | one transport write accepts between 1 and the requested count of the next bytes of the buffer, in order |
| `Client.Stream.ReadSome` | src/client/ct.cc:120 | one transport read delivers between 1 and the requested count of the next pending bytes at the offset, or 0 with nothing changed once the stream is exhausted |
| `Client.CTClient.Write` | src/client/ct.cc:94-100 | the loop terminates, and the stream has received exactly buf[0..length) in order; nothing is read |
| `Client.CTClient.WriteByte` | src/client/ct.cc:102-106 | exactly one byte, the argument truncated to 8 bits, is written |
| `Client.CTClient.WriteLength` | src/client/ct.cc:108-116 | for a width of at most 3 and length < 256^width, exactly the big-endian field of that width is written |
| `Client.CTClient.Read` | src/client/ct.cc:118-124 | the loop terminates; it succeeds exactly when length bytes are available, then buf[0..length) holds the next length bytes in order and nothing more is consumed; otherwise all input is consumed (the abort) |
| `Client.CTClient.ReadByte` | src/client/ct.cc:126-130 | returns the next byte and consumes exactly it, failing only on an exhausted stream |
| `Client.CTClient.ReadLength` | src/client/ct.cc:132-139 | consumes exactly k bytes and returns their big-endian value modulo 2^64 (the size_t accumulator) |
| `Client.CTClient.ReadString` | src/client/ct.cc:141-145 | returns exactly the next length bytes and consumes exactly them |
| `Client.CTClient.WriteCommand` | src/client/ct.cc:147-151 | writes VERSION, the command, then the 3-byte big-endian length |
| `Client.CTClient.ReadResponse` | src/client/ct.cc:153-163 | the reply is ExpectReply of the pending input and exactly ReplySize bytes are consumed: one byte on a wrong version, 5 + L on success, with the code and the L data bytes stored in the record; a token, equal to the hex rendering of the data, is produced exactly when the code is SUBMITTED, and any other code is reported without one |
| `Client.CTClient.UploadBundle` | src/client/ct.cc:86-91 | the stream receives exactly the frame (0, UPLOAD_BUNDLE, bundle), 5 bytes plus the bundle length, and those bytes parse back to the same triple; the response is then read as in ReadResponse |
| `Client.HelloFrame` | src/client/ct.cc:147-151 | the frame sent for the 5-byte bundle "hello" is [0, UPLOAD_BUNDLE, 0, 0, 5] followed by the bundle |
| `Client.SubmittedReply` | src/client/ct.cc:153-163 | the reply [0, SUBMITTED, 0, 0, 4, 01, 02, 03, 04] is read whole as SUBMITTED with data 01 02 03 04, and its token renders as "01020304" |

## Left out

- The `CTClient` constructor (socket creation, address parsing, `connect`, the exit codes) is left out because it consists of operating-system calls. `Client.CTClient.constructor` only takes an already-connected `Stream`.
- `readAll`, `unknownCommand`, the command-line `uploadBundle(argc, argv)` and `main` are left out because they are file I/O, argument parsing and process exit.
- Console output is left out. The model returns the printed values instead: the code and data (whose length is the printed length) in `Reply`, and the token as `Option<string>`.
- The numeric values of `ct::UPLOAD_BUNDLE` and `ct::SUBMITTED` are not modelled, because `ct.h` is not part of this model. They are constants of type `byte` with no fixed value, so every property holds whatever their values are.
- The shift-and-mask expressions of `writeLength` are written as division and remainder by powers of 256. For the widths allowed here (at most 3) they compute the same byte.
- Client.Stream.WriteSome: a write never fails in the model. Transport write errors (a return of 0 or less, errno) are not modelled, so `Write` always completes.
- Client.CTClient.ReadResponse: when the stream ends inside a frame, the model states only that all input is consumed. It does not say what the `CTResponse` record holds, because the source aborts at that point.
- Client.CTResponse.constructor: leaves `code` unconstrained, as the source leaves it uninitialised.
- Blocking reads are not modelled: `pending` holds every byte the peer will send before it closes the connection.
- The stack-allocated variable-length buffers (`byte buf[length]`) become Dafny arrays and sequences, so stack exhaustion on a large length is not modelled.
- The `int` return of `::read`/`::write` truncating a count above 2^31 is not modelled; frames are below 2^24 + 5 bytes.
