# websocket-go: frame decoder and handshake response, in Dafny

This project models the core of a small WebSocket server written in Go. It
covers the single-frame decoder `readFrame` and its helper
`getPayloadLength`, the accept token `getAccept`, the response text that
`Handshake` writes, and the `Frame`/`Opcode` model of `frame.go`. It also
proves what each of them does.

The model follows what the Go code does, even where that departs from base
framing as section 5.2 of RFC 6455 defines it. Each departure is stated as
a lemma:

- FIN is bit 0x40 of the first byte (`readFrame` line 129), where RFC 6455 puts RSV1.
- MASK is bit 0x80 of the first byte (line 131), not of the second byte.
  The second byte's top bit is never looked at.
- The opcode is never stored. `SetOpcode` has a value receiver, so every
  decoded frame keeps the zero opcode, Continuation.
- A missing length byte or a short extended length is not an error: the
  length becomes 0, and the bytes that were read are gone.
- `getAccept` strips every leading `e` and `a` from the base64 token.
- A 64-bit length is converted to Go's `int`. A value of 2^63 or more turns
  negative. `make` then panics, unless the frame is masked and its key
  read fails first, in which case readFrame returns EOF or UnexpectedEOF.

Structure:

- `bytes.dfy` (module `Bytes`): Go's `byte` as the integers 0..255, with
  bitwise `&` and `^` defined bit by bit. The decoder is written with
  closed forms: `Low(b, 0x80)` for `b & 0x7F` and `HasFlag(b, 0x40)` for
  `b & 0x40 != 0`. Each closed form is proved equal to the bitwise operation.
- `byte_reader.dfy` (module `ByteReader`): the `bufio.Reader` the decoder
  consumes. It is a class holding the whole input and a cursor. It has
  `ReadByte` and `ReadFull`, which fail the way `io.ReadFull` does: `EOF`
  when nothing was read, `UnexpectedEOF` after a partial read. A short
  read still consumes what it read.
- `frame.dfy` (module `Frames`): the opcode constants, the `Frame` class
  and the value-receiver `SetOpcode`.
- `decoder.dfy` (module `Decoder`): `PayloadLength` and
  `Decode`/`DecodeKey`/`DecodePayload` specify what `getPayloadLength` and
  `readFrame` do to the unconsumed input. The methods `GetPayloadLength`,
  `ReadFrameFrom`, `ReadLengthKeyAndPayload`, `ReadKeyAndPayload`, `ReadPayload` and `UnmaskInPlace`
  run step by step over the shared reader and an in-place payload array,
  and are proved to agree with those functions.
- `decoder_properties.dfy` (module `DecoderProperties`): what decoding
  promises.
  - The frame layout and exactly when decoding fails.
  - The deviations listed above.
  - An encoder for the frames this decoder reads, with the round trip
    through `Decode`.
  - The examples of section 5.7 of RFC 6455 and a few edge inputs.
- `handshake.dfy` (module `Handshake`): `getAccept` and the response string
  of `Handshake`. SHA-1 and base64 are passed in as a pair of functions.
- `wrappers.dfy` (module `Wrappers`): `Option` and `Result`.

## Model

| member | source | states |
|---|---|---|
| Bytes.HeaderMasks | websocket.go:93 | The closed forms the decoder uses agree with Go's masks on every byte. `Low(b, 0x80) == b & 0x7F`, and `Low(b, 0x10) == b & 0x0F`, which is at most 0x0F. `HasFlag(b, 0x40)` and `HasFlag(b, 0x80)` hold exactly when `b & 0x40` and `b & 0x80` are non-zero. |
| Bytes.LowIsAnd | websocket.go:93 | For every k, masking with 2^k - 1 (bitwise AND) keeps exactly the value modulo 2^k. |
| Bytes.HasFlagIsAnd | websocket.go:129-131 | For every k, `a & 2^k` is non-zero exactly when bit k of `a` is set. |
| Bytes.XorTwice | websocket.go:153 | XOR with the same value twice restores the original value. |
| Bytes.XorBound | websocket.go:153 | The XOR of two numbers below 2^k is below 2^k, so XOR of two bytes is a byte. |
| Bytes.XorByte | websocket.go:153 | `a ^ b` on two bytes is a byte, and XOR with `b` again gives `a` back. |
| ByteReader.ShortReadError | websocket.go:97 | A read that stops short reports EOF exactly when it got no bytes, and UnexpectedEOF otherwise. |
| ByteReader.Reader.ReadByte | websocket.go:86 | With input left, it returns the next byte and advances by one. At the end of input it returns EOF and consumes nothing. |
| ByteReader.Reader.ReadFull | websocket.go:97 | It copies min(buffer length, remaining) bytes of input into the front of the buffer, leaves the rest of the buffer unchanged and advances past exactly those bytes. It fails with EOF or UnexpectedEOF exactly when the buffer could not be filled. |
| Frames.NamedOpcodesDistinct | frame.go:3-12 | The six named opcodes are 0x0, 0x1, 0x2, 0x8, 0x9 and 0xA. They are pairwise distinct and each fits in four bits. |
| Frames.Frame.constructor | frame.go:14-18 | `&Frame{}` has the Continuation opcode, a zero-length payload (Go's nil slice, modelled as a fresh empty array) and IsFinal false. |
| Frames.Frame.CopyOf | frame.go:20 | The copy Go makes of a value receiver: a new frame with the same opcode, IsFinal and the same (shared, not copied) payload slice. |
| Frames.Frame.SetOpcode | frame.go:20-22 | Any byte is accepted. The caller's frame, including its opcode, is unchanged after the call, because the assignment goes to a copy of the receiver. |
| Decoder.Pow256IsPow2 | websocket.go:104-114 | The byte weights of a big-endian number are powers of two: 256^n is 2^(8n), so `Pow256` and the bit weights `Pow2` agree. |
| Decoder.BigEndian | websocket.go:104-114 | `binary.BigEndian.Uint16`/`Uint64`: the value of `n` bytes, most significant first, is below 256^n. BigEndianRoundTrip and BigEndianFront pin it down. |
| Decoder.BigEndianRoundTrip | websocket.go:104 | Reading `w` big-endian bytes gives back any number below 256^w that they encode. |
| Decoder.BigEndianFront | websocket.go:114 | The first of `n` big-endian bytes weighs 256^(n-1). |
| Decoder.TopBitClearIff | websocket.go:114 | An 8-byte big-endian value is below 2^63 exactly when the top bit of its first byte is clear. |
| Decoder.GoInt | websocket.go:114 | Go's `int(u)` for a uint64 on a 64-bit platform lies in [-2^63, 2^63) and is congruent to u modulo 2^64, which fixes it: u itself when u < 2^63, u - 2^64 otherwise. It is non-negative exactly when u < 2^63. |
| Decoder.PayloadLength | websocket.go:85-118 | Reference definition of `getPayloadLength`: it consumes at most 9 bytes and never more than are left, and the length lies in [-2^63, 2^63). The lemmas below give each case. |
| Decoder.ShortLength | websocket.go:93-117 | A base length (low 7 bits) of 125 or less is itself the payload length, and nothing beyond the length byte is read. |
| Decoder.ExtendedLength16 | websocket.go:95-104 | A base length of 126 reads the next two bytes as a big-endian u16, so the length is in 0..65535, and three bytes are consumed. |
| Decoder.ExtendedLength64 | websocket.go:105-114 | A base length of 127 consumes nine bytes. The length is the big-endian u64 when that is non-negative as a Go int. It is non-negative exactly when the top bit of the first length byte is clear. |
| Decoder.TruncatedLengthIsZero | websocket.go:86-112 | A missing length byte or a short extended length yields length 0 and consumes everything that was left. |
| Decoder.GetPayloadLength | websocket.go:85-118 | Over the shared reader, it returns the length and advances the reader by the count that `PayloadLength` gives for the unconsumed input. |
| Decoder.Unmask | websocket.go:151-155 | Unmasking keeps the length, and XORing each result byte with key[i % 4] again gives back the input byte. |
| Decoder.UnmaskInvolution | websocket.go:151-155 | Unmasking keeps the length, and unmasking twice with the same key restores the payload. |
| Decoder.UnmaskInPlace | websocket.go:151-155 | Afterwards the payload array holds `old[i] ^ key[i % 4]` at every index i. |
| Decoder.LengthFitsIff | websocket.go:114-143 | The input avoids the negative-length panic of `make` exactly when the decoded length is non-negative, or the frame is masked and fewer than 4 key bytes follow the length, so the key read fails before `make`. |
| Decoder.Decode | websocket.go:120-160 | Reference definition of `readFrame`. Empty input fails with EOF, and a failure consumes everything. A decoded frame has opcode Continuation, IsFinal = bit 0x40 of the first byte, and a payload of the decoded length. Never more than the input is consumed. |
| Decoder.DecodeKey | websocket.go:135-155 | After the length, which may be negative only when the key read is bound to fail: a failure consumes everything. A decoded frame has opcode Continuation, the given IsFinal, and exactly `length` payload bytes. |
| Decoder.DecodePayload | websocket.go:143-155 | The payload read fails exactly when fewer than `length` bytes are left, with io.ReadFull's error, consuming everything. Otherwise it yields exactly `length` bytes with opcode Continuation and leaves `length` fewer bytes. |
| Decoder.ReadPayload | websocket.go:143-155 | Reads exactly `length` bytes into a fresh array, unmasked with the key when masked. On a short read it returns nil and the read error, having consumed the rest of the input. Agrees with `DecodePayload`. |
| Decoder.ReadKeyAndPayload | websocket.go:135-155 | The 4-byte key is read only when masked, and a short key read returns nil and its error, also for a negative length. Then it reads the payload. Agrees with `DecodeKey`. |
| Decoder.ReadLengthKeyAndPayload | websocket.go:133-155 | After the first byte, it reads the length, then the key and the payload. It consumes exactly what `Decode` consumes of the whole frame, returns nil plus the error exactly when `Decode` fails, and otherwise returns a fresh array holding `Decode`'s payload. |
| Decoder.ReadFrameFrom | websocket.go:120-160 | Over the shared reader, it consumes exactly what `Decode` consumes. It returns nil plus the error exactly when `Decode` fails. Otherwise the frame is freshly allocated, its payload is a fresh array, and its opcode, payload and IsFinal equal what `Decode` gives. |
| DecoderProperties.LengthConsumed | websocket.go:93-117 | With the whole header present, `getPayloadLength` consumes the length byte plus 0, 2 or 8 extended bytes. |
| DecoderProperties.DecodeRestIsSuffix | websocket.go:120-160 | What decoding leaves unconsumed is a suffix of its input. |
| DecoderProperties.FrameLayout | websocket.go:128-159 | With the whole header present, a decoded frame has IsFinal = bit 0x40 of the first byte and opcode Continuation. Its payload has the declared length. Exactly 2 + (0, 2 or 8) + (4 if masked) + length bytes are consumed. |
| DecoderProperties.FramePayload | websocket.go:135-157 | An unmasked payload is the wire bytes after the header, unchanged. A masked payload, masked again with the 4 bytes before it, gives the wire bytes. |
| DecoderProperties.MaskedLayout | websocket.go:135-155 | A masked frame that decodes has its key in the first four bytes after the length, and its payload masked with that key is the wire bytes after them. |
| DecoderProperties.FailsIffShort | websocket.go:121-149 | Decoding fails exactly when the input is empty or shorter than the header, key and declared payload together, a negative length counting as 0. An empty input fails with EOF, and a failure consumes all input. |
| DecoderProperties.NegativeLengthKeyFails | websocket.go:114-141 | A masked frame whose 64-bit length is negative as a Go int, with fewer than 4 key bytes after it, is admitted and fails at the key read with EOF or UnexpectedEOF, consuming everything. |
| DecoderProperties.TruncatedLengthSwallowed | websocket.go:86-112 | With the header cut short, an unmasked frame decodes to an empty payload instead of an error. A masked frame fails with EOF at its key. |
| DecoderProperties.PayloadLengthIgnoresTopBit | websocket.go:93 | The length depends only on the low seven bits of the length byte. |
| DecoderProperties.SecondByteTopBitIgnored | websocket.go:93-131 | Two inputs that differ only in the top bit of the second byte, where RFC 6455 puts MASK, decode to the same result. |
| DecoderProperties.FirstByteFields | websocket.go:129-131 | A first byte built from FIN, MASK and an opcode below 16 yields exactly those three fields back under the decoder's tests. |
| DecoderProperties.LengthRoundTrip | websocket.go:93-117 | The shortest 7-bit, 16-bit or 64-bit length field for any n < 2^63 decodes to n and is consumed exactly. |
| DecoderProperties.DecodeEncode | websocket.go:120-160 | Any frame laid out as this decoder reads it, followed by any bytes, decodes to its FIN flag and payload with opcode Continuation (the opcode is not recovered), and leaves the following bytes unconsumed. |
| DecoderProperties.BodyRoundTrip | websocket.go:135-155 | The part of the round trip after the length: key, masked payload, and unmasking. |
| DecoderProperties.RfcUnmaskedHelloFails | websocket.go:131-149 | The unmasked "Hello" frame of RFC 6455, `0x81 0x05 "Hello"`, counts as masked. "Hell" becomes the key, and the payload read fails with UnexpectedEOF. |
| DecoderProperties.RfcHelloUnmasks | websocket.go:151-155 | The masked payload of the RFC 6455 example unmasks to "Hello". |
| DecoderProperties.RfcMaskedHelloNotFinal | websocket.go:129-159 | The masked "Hello" frame of RFC 6455 decodes to "Hello", but as a non-final frame. |
| DecoderProperties.LoneFirstByte | websocket.go:86-159 | The one-byte input `0x40` decodes to an empty final frame. The one-byte input `0x80` fails with EOF reading the key. |
| DecoderProperties.NegativeLengthNoKey | websocket.go:105-141 | `0x80 0x7F 0x80 0 0 0 0 0 0 0` (masked, length 2^63) fails with EOF at the key read instead of panicking. |
| DecoderProperties.ExtendedLengthPayloadShort | websocket.go:95-149 | A 16-bit length of 256 followed by three payload bytes fails with UnexpectedEOF. |
| Handshake.TrimLeftEA | websocket.go:57 | `strings.TrimLeft(s, "ea")` returns a suffix of s. Everything it drops is 'e' or 'a', and the result does not start with either. |
| Handshake.GetAccept | websocket.go:52-58 | The token is a suffix of base64(SHA-1(key + GUID)) that does not start with 'e' or 'a'. Only 'e' and 'a' are dropped. It equals the full token exactly when that token is empty or starts with another character. |
| Handshake.HeaderGet | websocket.go:61 | `http.Header.Get`: a key stored with at least one value yields its first value, and any other key yields "". |
| Handshake.HandshakeResponse | websocket.go:60-72 | Nothing is written exactly when the `Sec-WebSocket-Key` value is empty or missing. |
| Handshake.ResponseCarriesAccept | websocket.go:66-70 | A written response is the 101 status line, the Upgrade, Connection and Sec-WebSocket-Accept headers, getAccept's token and the closing blank line, and the token is exactly what lies between the fixed head and tail. |
| Handshake.AcceptShortenedByLeadingEA | websocket.go:57 | When the full token starts with 'e' or 'a', the token sent is shorter than the one RFC 6455 asks for. |
| Handshake.RfcSampleKeyUntrimmed | websocket.go:52-58 | For the sample key of section 1.3 of RFC 6455, whose full token starts with 's', the token is sent unchanged. |

## Left out

- `NewWebsocket` (HTTP hijack) and the `Websocket` struct's connection,
  buffer and logger handles: foreign framework I/O.
- The exported `ReadFrame`, which wraps the connection in a fresh
  `bufio.Reader` on every call. The model reads from one reader whose whole
  input is given up front, so bytes buffered and then discarded by a fresh
  reader are not modelled.
- I/O errors other than end of input, blocking and deadlines. The reader
  only ever runs out of bytes.
- All `slog` logging: it does not affect results.
- `Handshake`'s `Write` and `Flush` calls and their error logging. Only the
  response string is modelled, as the value `HandshakeResponse` returns.
- SHA-1 (crypto/sha1) and base64 (encoding/base64): library code, passed in
  as the `Crypto` pair of functions and not interpreted.
- net/http's header canonicalisation. The header map is taken as already
  canonical, and the key is looked up as `Sec-Websocket-Key`, the canonical
  form of `Sec-WebSocket-Key`.
- Decoder.GoInt: Go's `int` is taken as 64 bits wide. On a 32-bit target, `int(uint64)` keeps only the low 32 bits, and that is not modelled.
- Decoder.LengthFitsIff: only the negative-length panic of `make` is captured. `make` also panics for a length above the runtime's allocation limit (2^48 on linux/amd64), for example a 127-form length of 2^50. Go panics there before reading the payload, while `Decode` reports a short read.
- Decoder.ReadFrameFrom: requires `LengthFits`. That excludes exactly the
  inputs on which `make` would receive a negative length: a 64-bit length of 2^63 or more, which
  Go's `int` conversion turns negative, in an unmasked frame or in a masked
  frame whose 4 key bytes are all present. The panic itself is not modelled.
  Masked frames whose key read fails first are admitted and return EOF or
  UnexpectedEOF (`NegativeLengthKeyFails`). Lengths above the allocation
  limit are admitted; see `Decoder.LengthFitsIff` above.
- The cost of `make` for huge lengths, such as allocation failure, is not
  modelled. Any length that fits is allocated.
- main.go's server start-up, routing and read loop. Only its `wsGuid`
  constant is used.
