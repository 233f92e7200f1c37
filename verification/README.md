# DHT API message codec

This project models the binary codec of the Chord-style DHT node in
`code/helpers/messageParser.py`. The node talks to API clients in frames. A frame starts
with a 2-byte big-endian size and a 2-byte big-endian command code from the
`DHTCommands` table (500 PUT, 501 GET, 502 TRACE, 503 GET_REPLY,
504 TRACE_REPLY, 505 ERROR). A command-specific body follows.

The model has four modules:

- `Results`: `Option` and `Result`. The Python code raises exceptions (`KeyError`, `TypeError`, `OverflowError`). The model returns those exceptions as values instead.
- `Bytes`: the byte type and two conversions. `BE` models `int.from_bytes(_, 'big')`. `ToBE` and `ToBytes` model `int.to_bytes(_, 'big')`, including the overflow error on a negative or too-large value. `PySlice` models Python slicing of a buffer. Slicing never fails: both bounds are clamped to the length, and the model computes that clamping (with `Min`). It does not assume it away with preconditions.
- `MessageParser`: `DHTMessage.parse` and `getSize`, plus the getters of `DHTMessagePUT`, `DHTMessageGET` and `DHTMessageTRACE`. A message keeps the whole received buffer and its header size, as `DHTMessageParent` does, and each getter reads a fixed slice of that buffer. `EncodePut` is a PUT encoder written as the inverse of these getters. The source has no such encoder.
- `TraceReply`: `DHTHop` (constructor and `as_bytes`) and the frame that `DHTMessageTRACE_REPLY.__init__` builds. The Python constructor builds the frame but never stores it, so the model returns the frame from a function. `DecodeTraceReply` is a reader for the corrected frame (see Findings). The source has no such reader.

The model follows the code as written, including these behaviours:

- PUT, GET and TRACE all read an 8-byte key from bytes 4..12, but a TRACE_REPLY carries a 32-byte key.
- Code 504 is parsed as a TRACE.
- A code missing from the table fails at the dictionary lookup, so the final `else` of `parse` can never run.
- The frame's declared size does not match its real length.
- PUT frames are not checked at all: any replication byte is accepted, and the declared size is never compared with the buffer length.

## Model

| member | source | states |
|---|---|---|
| `Bytes.BE` | code/helpers/messageParser.py:21 | the big-endian value of k bytes is below 256^k |
| `Bytes.ToBE` | code/helpers/messageParser.py:81 | `to_bytes` of a value that fits gives exactly k bytes whose big-endian value is that value |
| `Bytes.ToBEOfBE` | code/helpers/messageParser.py:81-84 | the other round-trip direction: re-encoding the value of k bytes in k bytes gives back the same bytes |
| `Bytes.ToBytes` | code/helpers/messageParser.py:94-95 | `to_bytes` succeeds exactly when 0 <= n < 256^k; on success the bytes read back as n |
| `Bytes.PySlice` | code/helpers/messageParser.py:59-60 | a Python slice clamps both bounds to the length, is empty when inverted, and equals the plain slice when in range |
| `MessageParser.GetSize` | code/helpers/messageParser.py:40-42 | the header size is always in [0, 65535] |
| `MessageParser.CommandNumber` | code/helpers/messageParser.py:21 | the command number is bytes 2..4 of the buffer read big-endian, with the slice clamped as in Python, and is always below 65536; `HeaderFields` gives its value byte by byte |
| `MessageParser.HeaderFields` | code/helpers/messageParser.py:21-42 | size = byte0 * 256 + byte1 and command = byte2 * 256 + byte3; a shorter buffer reads only the bytes that exist, and reads 0 when none exist |
| `MessageParser.Parse` | code/helpers/messageParser.py:20-38 | succeeds exactly for codes 500, 501, 502 and 504. Codes outside 500..505 fail as unknown (the lookup raises). Codes 503 and 505 fail because those classes take no constructor arguments. 500 gives PUT, 501 gives GET, and 502 and 504 give TRACE. Every message carries the original buffer and the header size |
| `MessageParser.GetKey` | code/helpers/messageParser.py:50-51 | the key of PUT, GET and TRACE is below 2^64 |
| `MessageParser.GetTtl` | code/helpers/messageParser.py:52-53 | the ttl is below 2^16 |
| `MessageParser.GetReplication` | code/helpers/messageParser.py:54-55 | the replication field is at most one raw byte |
| `MessageParser.GetReserved` | code/helpers/messageParser.py:56-57 | the reserved field is at most 5 bytes |
| `MessageParser.GetContent` | code/helpers/messageParser.py:58-60 | the content is never longer than the buffer, whatever the declared size |
| `MessageParser.KeyLayout` | code/helpers/messageParser.py:62-68 | GET, TRACE and PUT read the key the same way: re-encoding it in 8 bytes gives bytes 4..12; a buffer of 4 bytes or fewer gives key 0; a buffer of 5 to 11 bytes gives the value of the bytes from offset 4 on |
| `MessageParser.EncodePut` | code/helpers/messageParser.py:49-60 | a PUT frame laid out the way the getters read it is 20 + content bytes long, with the content starting at offset 20 |
| `MessageParser.PutRoundTrip` | code/helpers/messageParser.py:49-60 | an encoded PUT parses as a PUT that carries the frame and its length, and the getters return the key, ttl, replication byte, reserved bytes and content that were encoded |
| `MessageParser.PutReassemble` | code/helpers/messageParser.py:49-60 | the reverse direction: take a parsed PUT of at least 20 bytes whose header size equals its length; encoding the fields its getters return gives back the same buffer |
| `MessageParser.ParseIntended` | code/helpers/messageParser.py:33-36 | with working GET_REPLY and ERROR classes, every code in 500..505 parses and keeps the buffer and size |
| `MessageParser.GetReplyRejected` | code/helpers/messageParser.py:70-71 | the frame [0, 4, 0x01, 0xF7] (GET_REPLY) makes `parse` raise as written, but parses under the corrected dispatch |
| `TraceReply.NewHop` | code/helpers/messageParser.py:92-100 | building a hop succeeds exactly when 0 <= peerId < 2^256 and 0 <= kxPort < 2^16. peerId is checked first. On success the hop stores 32 + 2 bytes that read back as peerId and kxPort, two zero reserved bytes, and the packed addresses unchanged |
| `TraceReply.AsBytes` | code/helpers/messageParser.py:102-109 | a hop serialises to the sum of its field widths |
| `TraceReply.HopLayout` | code/helpers/messageParser.py:92-109 | a built hop serialises as peerId (32 B), kxPort (2 B), two zero bytes, the IPv4 address and the IPv6 address. The integer slices read back as peerId and kxPort. With a 4-byte and a 16-byte address the record is 56 bytes |
| `TraceReply.HopRoundTrip` | code/helpers/messageParser.py:102-109 | a serialised 56-byte hop record decodes back to the same hop |
| `TraceReply.HopRebuild` | code/helpers/messageParser.py:92-109 | the reverse direction: every 56-byte record with zero reserved bytes is what the constructor builds from the values read out of it |
| `TraceReply.HopsBytes` | code/helpers/messageParser.py:86-87 | with 56-byte records, the hop section is 56 bytes per hop |
| `TraceReply.HopsBytesAt` | code/helpers/messageParser.py:86-87 | hop i's record sits at offset 56 * i, so the hops appear in input order |
| `TraceReply.DecodeHopsRoundTrip` | code/helpers/messageParser.py:86-87 | splitting the hop section back into 56-byte records gives the original hops |
| `TraceReply.HopsBytesOfDecode` | code/helpers/messageParser.py:86-87 | the reverse direction: serialising the split records gives back the bytes |
| `TraceReply.DeclaredSize` | code/helpers/messageParser.py:77-78 | the bit count divided by 8 is exactly 34 + 52 * n bytes |
| `TraceReply.TraceReplyFrame` | code/helpers/messageParser.py:74-89 | building the frame succeeds exactly when there are fewer than 1260 hops and 0 <= key < 2^256. Too many hops is reported as the size overflowing, even if the key is also bad. The frame declares size 34 + 52 * n, has command 504 and carries the key in bytes 4..36, followed by the hop records |
| `TraceReply.TraceReplyLayout` | code/helpers/messageParser.py:77-87 | with 56-byte hops the frame is 36 + 56 * n bytes, record i is at offset 36 + 56 * i, and the declared size is 2 + 4 * n bytes short |
| `TraceReply.TraceReplyParsesAsTrace` | code/helpers/messageParser.py:29-32 | a TRACE_REPLY frame fed to `parse` comes back as a TRACE whose key is the top 64 bits of the 256-bit key |
| `TraceReply.EmptyTraceReplyUndercounts` | code/helpers/messageParser.py:77-81 | key 0 with no hops gives a 36-byte frame that declares 34 bytes |
| `TraceReply.AsWrittenFrameRejected` | code/helpers/messageParser.py:77-87 | no frame built from 56-byte hops passes a reader's size-equals-length check |
| `TraceReply.TraceReplyFrameCorrected` | code/helpers/messageParser.py:74-89 | the corrected frame declares its real length. It is built exactly when that length is below 65536 and the key fits. It has the same command, key and hop layout as the original |
| `TraceReply.CorrectedCapacity` | code/helpers/messageParser.py:81 | with 56-byte hops the corrected frame fits for fewer than 1170 hops |
| `TraceReply.TraceReplyRoundTrip` | code/helpers/messageParser.py:77-87 | the corrected frame decodes back to its key and hops |
| `TraceReply.TraceReplyReassemble` | code/helpers/messageParser.py:77-87 | the reverse direction: every frame the reader accepts is the corrected encoding of what it decodes to |

## Left out

- `DHTMessage.read_file` (code/helpers/messageParser.py:14-18): file I/O. `Parse` takes the bytes directly.
- `parse` stores its result in `self.message`. The model returns the message instead.
- Every `print` call: console output that does not affect any result.
- `ipaddress.ip_address(...).packed` (code/helpers/messageParser.py:97-98): address-string parsing by a library. `NewHop` takes the packed bytes. Either argument may pack to 4 or 16 bytes, so the model allows any length and states the 56-byte layout for a 4-byte IPv4 and a 16-byte IPv6 address.
- The `.decode("utf-8")` calls (code/helpers/messageParser.py:55, 60): Unicode decoding by a library. `GetReplication` and `GetContent` return the raw bytes, so the model never raises the `UnicodeDecodeError` that invalid UTF-8 causes (for the one-byte replication field, any byte of 0x80 or above).
- `int(size / 8)` (code/helpers/messageParser.py:78) is float division. The numerator is always a multiple of 8, and every hop count small enough to fit the size field is far below float precision limits, so `DeclaredSize` uses exact integer division.
- MessageParser.GetReplication: its own contract bounds only the length; the byte it returns is pinned down by `PutRoundTrip` and `PutReassemble`.
- MessageParser.GetReserved: its own contract bounds only the length; the bytes it returns are pinned down by `PutRoundTrip` and `PutReassemble`.
- MessageParser.GetContent: its own contract bounds only the length; the bytes it returns are pinned down by `PutRoundTrip` and `PutReassemble`.
- `DHTMessageGET_REPLY` and `DHTMessageERROR` have no getters in the source, so the model has none for them.
- `code/main.py` is not part of this model: configuration, logging, the actor container and the event loop.
- `code/agents_aiomas.py` is not part of this model: an actor bidding demo unrelated to the codec.
- Ring membership, finger tables, stabilisation and routing are not part of this model: no code for them appears in these files.

## Findings

| source | as written | input that shows it | evidently intended | confidence | as-written member | corrected member |
|---|---|---|---|---|---|---|
| code/helpers/messageParser.py:77-78 | the declared size is 34 + 52 * n: the bit count gives the header 16 bits instead of 32 and each 448-bit hop record 416 bits | key 0 with no hops gives a 36-byte frame that declares size 34 | the size field equals the frame length, 36 + 56 * n | high, not executed | `TraceReply.AsWrittenFrameRejected` | `TraceReply.TraceReplyFrameCorrected` |
| code/helpers/messageParser.py:33-36 | `DHTMessageGET_REPLY` and `DHTMessageERROR` are called with `(data, size)` but define no constructor, so `parse` raises TypeError for codes 503 and 505 | the frame [0, 4, 0x01, 0xF7] | both classes take `(data, size)` like the other message classes | medium, not executed | `MessageParser.GetReplyRejected` | `MessageParser.ParseIntended` |
