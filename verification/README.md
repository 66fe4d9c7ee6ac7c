# tftppp in Dafny

A model of `tftppp.py`, a small TFTP client for RFC 1350. The model covers the three parts of the
client that carry protocol logic:

- the **packet codec**: RRQ/WRQ, ACK and DATA builders, plus the big-endian field readers the
  client applies to incoming datagrams. The builders go through a model of Python's
  `struct.pack` with the `'>h'`, `'B'` and `'Ns'` formats.
- the **upload engine** (`tftp_put`): a pure fold over the file's 512-byte chunks and a sequence
  of reply events (a datagram or a timeout). The result is the DATA datagrams sent, how the loop
  ended and the final block counter.
- the **download engine** (the top-level `get` branch): a step function on the receiver state
  (expected block, bytes written, the last accepted payload `file_block`) folded over incoming
  datagrams. The result is the ACKs sent, the positions accepted and the outcome.

The modules follow that structure:

- `Wrappers`: `Option`, `Result`.
- `Bytes`: Python slicing with clamping, `int.from_bytes(..., 'big')`, UTF-8 encoding, concatenation.
- `Struct`: `struct.pack`, including its `struct.error` for a short outside -32768..32767.
- `Protocol`: the constants, the `OPCODE` and `ERROR_CODE` tables.
- `Packets`: the builders, the field readers, the round trips, and the filename finding below.
- `Upload`: `tftp_put`.
- `Download`: the `get` loop.
- `Transfer`: both engines together, the two upload findings below, and a corrected upload.

The source's exceptions become outcomes instead of preconditions:

- a timeout on the WRQ reply is `NoWrqReply`;
- `struct.error` past block 32767 is `BlockPackFailed` (upload) and `AckPackFailed` (download);
- `KeyError` on an error code outside 0..7 is `UnknownErrorCode`;
- the `NameError` of reading an unbound `file_block` is `NoBlockAccepted`;
- the silent `break` on an unknown opcode is `UnknownOpcode`.

The model follows the code where it departs from what a TFTP client is usually expected to do:

- Block numbers are signed 16-bit fields that make `pack` fail above 32767. They do not wrap
  modulo 65536.
- The request's `'Ns'` widths count characters, not UTF-8 bytes, so a non-ASCII filename is cut
  short. That is the first finding below.
- The upload stops at the first empty read, so a file whose size is a multiple of 512 ends without
  a short DATA. That is the second finding.
- The upload has no retransmission and no retry bound. On a timeout or a mismatched ACK it sends
  the next chunk. That is the third finding.

The error messages also keep the trailing periods of the `ERROR_CODE` table; that is only their
text, not a protocol difference.

## Model

| member | source | states |
|---|---|---|
| `Struct.PackField` | tftppp.py:37 | One `struct.pack` field succeeds exactly when its value fits the format. A `'>h'` field gives two big-endian bytes whose value is the number modulo 65536. `'B'` gives the byte itself. `'Ns'` truncates or NUL-pads to N bytes. |
| `Struct.Pack` | tftppp.py:24-25 | Packing a field list succeeds exactly when every field is packable, and the output length is the sum of the field widths. |
| `Struct.PackAppend` | tftppp.py:24-25 | Packing two field lists in turn is packing their concatenation: the bytes are joined, and the first failing field, left to right, decides the error. |
| `Bytes.FromBytesBETwo` | tftppp.py:70-71 | Two bytes read big-endian give high * 256 + low. |
| `Bytes.Utf8` | tftppp.py:25 | The UTF-8 encoding `bytes(s, 'utf-8')` of a string is never shorter than the string. |
| `Bytes.Utf8OfAscii` | tftppp.py:25 | On ASCII text the UTF-8 encoding is one byte per character, that character's code. |
| `Bytes.Utf8LengthIffAscii` | tftppp.py:24-25 | The encoding has exactly as many bytes as the string has characters if and only if the string is ASCII. |
| `Bytes.Utf8NulFree` | tftppp.py:25 | A string without NUL characters encodes to bytes without a zero byte, so the request's NUL separators stay unambiguous. |
| `Bytes.ConcatSnoc` | tftppp.py:122 | Writing payloads one after another builds their concatenation: one more part appends its bytes at the end. |
| `Protocol.OpcodeOf` | tftppp.py:9 | A numeric code names a datagram kind exactly when it is in 1..5. |
| `Protocol.CodeRoundTrip` | tftppp.py:9 | The `OPCODE` table is one-to-one onto 1..5: an opcode's code names it again, and each code 1..5 is the code of the kind it names. |
| `Protocol.ErrorMessage` | tftppp.py:12-21 | The `ERROR_CODE` lookup succeeds exactly for codes 0..7. |
| `Packets.EncodeRequest` | tftppp.py:23-33 | An RRQ/WRQ is opcode 1/2 as two bytes, then the first `len(filename)` bytes of the filename's UTF-8 encoding, a NUL, the first `len(mode)` bytes of the mode's, and a NUL. Its length is the filename length plus the mode length plus 4, in characters. |
| `Packets.RequestEncodersAgreeIffAscii` | tftppp.py:23-33 | The client's request equals the full-width one if and only if the filename and mode are ASCII. It is then opcode, filename bytes, NUL, mode bytes, NUL. |
| `Packets.RequestRoundTrip` | tftppp.py:23-33 | Reading a request back at its NUL separators recovers the opcode, the filename and the mode, for NUL-free ASCII names and modes. |
| `Packets.AsWrittenRequestCutsName` | tftppp.py:23-25 | For any filename with a non-ASCII character, the filename field of the request is shorter than the name's UTF-8 encoding. |
| `Packets.AsWrittenAccentedName` | tftppp.py:23-25 | The name "é" (bytes C3 A9) gives the WRQ 0 2 C3 0 "octet" 0, which a server reads as the one-byte name C3. |
| `Packets.EncodeRequestUtf8` | tftppp.py:23-31 | Corrected request: opcode, the full UTF-8 bytes of the filename, a NUL, those of the mode, and a NUL. |
| `Packets.RequestUtf8RoundTrip` | tftppp.py:23-33 | For NUL-free filename and mode, a server reading the corrected request at its NUL separators recovers the opcode and both strings' complete UTF-8 bytes. |
| `Packets.EncodeAck` | tftppp.py:35-37 | An ACK is 4 bytes and is built exactly for block numbers within -32768..32767. Outside that range it fails with the out-of-range error. |
| `Packets.AckRoundTrip` | tftppp.py:35-37 | For block n in 0..32767 the ACK is `[0, 4, n / 256, n % 256]`, and the opcode and number readers recover opcode 4 and n. |
| `Packets.EncodeData` | tftppp.py:62 | A DATA is built exactly for block numbers within the signed-short range, and it is 4 bytes longer than its payload. |
| `Packets.DataRoundTrip` | tftppp.py:114-121 | For block n in 0..32767, the download's readers recover opcode 3, block n and the payload unchanged from the DATA. |
| `Packets.HeaderFields` | tftppp.py:114-118 | For every opcode byte op and every 16-bit number n (0..65535), the opcode and block readers of a datagram with header `[0, op, n / 256, n % 256]` return op and n. |
| `Upload.ReplyReadersAgree` | tftppp.py:69-71 | The upload's readers of the 4-byte reply buffer give the same opcode and block number as the codec's readers, for datagrams of every length. |
| `Upload.NextBlockRule` | tftppp.py:73-79 | The counter rises by one exactly when the reply is a datagram with opcode 4 and the current block number. A timeout or any other datagram leaves it unchanged. |
| `Upload.CounterAfter` | tftppp.py:67-79 | The block counter never decreases over a run of replies, and it rises at most once per reply. |
| `Upload.AckAdvancesCounter` | tftppp.py:69-79 | The ACK of block n moves the counter on by one exactly when n is the current block. A timeout leaves the counter unchanged. |
| `Upload.CounterLockStep` | tftppp.py:73-74 | When each reply is the ACK of the current block, the counter rises by one per reply. |
| `Upload.CounterAllTimeouts` | tftppp.py:78-79 | When every reply is a timeout, the counter stays where it was. |
| `Upload.Chunks` | tftppp.py:53-59 | The file is read as ceil(size / 512) chunks. Each chunk is non-empty and at most 512 bytes, all but the last are full, and the chunks concatenate back to the file. An empty file has no chunks. |
| `Upload.PutLoop` | tftppp.py:53-79 | The send loop sends at most one DATA per chunk and never lowers the counter. It completes only after every chunk was sent, and fails packing only past block 32767. |
| `Upload.PutLoopPackets` | tftppp.py:61-74 | The k-th DATA is a DATA datagram carrying chunk k. Its block number is the counter after the first k replies: 1 plus the matching ACKs among them. |
| `Upload.PutLoopSendsEveryChunk` | tftppp.py:53-79 | While block numbers stay within range and a reply follows every DATA, the loop sends one DATA per chunk whatever the replies are, and completes. |
| `Upload.PutSendsWholeFile` | tftppp.py:53-65 | For a file that fits in 32767 blocks and enough replies, the upload sends ceil(size / 512) DATA datagrams. Their payloads concatenate to the file. |
| `Upload.Put` | tftppp.py:42-82 | An upload sends the WRQ for the file in octet mode. A timeout on the WRQ reply ends it with nothing sent. At most ceil(size / 512) DATA go out, and none for an empty file. |
| `Download.Received` | tftppp.py:113 | The receive buffer keeps at most 516 bytes of a datagram. |
| `Download.Classify` | tftppp.py:113-129 | A datagram is DATA or ERROR exactly when its first two bytes say so. The block number or error code, and the payload, are read from the buffered bytes, and a payload is at most 512 bytes. |
| `Download.ClassifyByOpcode` | tftppp.py:114-134 | The download treats a datagram as DATA or ERROR exactly when its opcode field names that kind in the `OPCODE` table. Every other value, whether RRQ, WRQ, ACK or outside 1..5, goes to the final `break`. |
| `Download.Step` | tftppp.py:117-126 | One iteration writes only a DATA whose block is the expected one. It then appends the payload and expects the next block. Anything else leaves the state unchanged. |
| `Download.StepRules` | tftppp.py:117-139 | Every in-range DATA is acknowledged with its own block number, whether or not it is accepted. ERROR and unknown opcodes end the loop with no ACK and no write. The loop ends after a DATA exactly when the last accepted payload is shorter than 512 bytes or no payload was ever accepted. |
| `Download.EndCheck` | tftppp.py:136-139 | The length test ends the loop exactly when no block has been accepted (unbound `file_block`) or the last accepted payload is shorter than 512 bytes. Only the latter is a completed download. |
| `Download.GetLoop` | tftppp.py:111-139 | The receive loop sends at most one ACK per datagram consumed, and accepts exactly as many blocks as the expected block number advanced. |
| `Download.Get` | tftppp.py:103-139 | A download sends the RRQ for the file in octet mode and runs the loop from block 1 with nothing written. |
| `Download.GetLoopWritesAcceptedInOrder` | tftppp.py:119-123 | The file written is the concatenation of the accepted payloads, in arrival order. Accepted datagrams carry blocks 1, 2, 3, ... consecutively, so no block is written twice. |
| `Download.GetLoopAcksEveryData` | tftppp.py:117-126 | Unless an ACK cannot be packed (block above 32767), the ACKs sent are exactly one per DATA consumed, in order, each carrying that DATA's block number. |
| `Download.GetLoopKeepsContinuing` | tftppp.py:136-139 | The loop only ends `Downloaded` after a short last accepted block. The file then holds 512 bytes per earlier block plus that block. The unbound `file_block` error can only happen before any block is accepted. |
| `Download.DuplicateDataIsHarmless` | tftppp.py:117-126 | Once a full block has been accepted, a DATA with any other block number changes nothing. Up to 32767 it is acknowledged and the loop continues. For 32768..65535 the ACK cannot be packed and the download stops with `AckPackFailed`. |
| `Download.ErrorReplyEndsDownload` | tftppp.py:128-131 | An ERROR with code 0..7 as the first reply ends the download with that code's table message. Nothing is written or acknowledged. |
| `Download.FileNotFoundScenario` | tftppp.py:128-131 | ERROR code 1 answering the RRQ reports "File not found." and writes no bytes. |
| `Transfer.RfcChunks` | tftppp.py:53-59 | Corrected chunking: size / 512 + 1 blocks, all full except a last one shorter than 512 (empty for a multiple of 512), concatenating to the file. |
| `Transfer.ChunksMissFinalEmptyBlock` | tftppp.py:53-59 | The client's chunks equal the RFC 1350 chunks unless the size is a multiple of 512. Then they lack exactly the final empty block. |
| `Transfer.DownloadOfStream` | tftppp.py:111-139 | Given a lossless DATA stream of full blocks and a last block, the download writes every payload once, in order, and consumes the whole stream. It completes exactly when the last block is short, and otherwise waits. |
| `Transfer.RetransmitLoop` | tftppp.py:67-79 | The corrected upload loop sends at most one DATA per reply it awaits, plus one. Its resend behaviour is stated by the two lemmas below. |
| `Transfer.RetransmitBlockNamesPayload` | tftppp.py:61-74 | In the corrected loop every DATA sent under block b carries chunk b - 1, so a block number never names two payloads. |
| `Transfer.RetransmitResends` | tftppp.py:76-79 | In the corrected loop, a timeout or mismatched ACK is followed by the very same DATA again. |
| `Transfer.RetransmitLockStep` | tftppp.py:73-74 | The corrected loop, answered in lock-step, sends exactly the lossless DATA stream and completes. |
| `Transfer.PutLockStep` | tftppp.py:53-79 | The client's upload loop, answered in lock-step, sends exactly the lossless DATA stream of its chunks and completes. |
| `Transfer.DownloadOfChunks` | tftppp.py:136-139 | The download of the client's own lossless upload stream writes the file. It completes exactly when the size is not a multiple of 512. |
| `Transfer.AsWrittenUploadCompletesOnlyOffBoundary` | tftppp.py:58-59 | Even with every DATA acknowledged, the client's upload is completed by an RFC 1350 receiver exactly when the file size is not a multiple of 512. |
| `Transfer.AsWrittenLostAckSkipsChunk` | tftppp.py:76-79 | The 513-byte file with the first ACK lost is sent as two DATA datagrams, both with block 1 and with different payloads, and the upload reports completion. The receiver keeps the first, waits on, and never writes the last byte. |
| `Transfer.CorrectedTransferDeliversFile` | tftppp.py:53-79 | The corrected upload, answered in lock-step, is completed by the download engine with exactly the file written, for every size below 32767 × 512 bytes. That includes the empty file and multiples of 512. |

## Left out

- Socket I/O (`socket`, `sendto`, `recvfrom`, `settimeout`, `close`): replies and datagrams are
  input sequences, and a timeout is a `TimedOut` event. The download branch sets no timeout, so
  its events are datagrams only.
- Peer address and transfer-ID tracking: the reply address is reassigned on each reply and never
  checked, so it is dropped.
- Argument parsing (`argparse`), the port option and the `get`/`put` dispatch.
- Printing, including `print(file_block.decode())`, which can raise on a payload that is not
  UTF-8. The model treats that line as a side effect and does not model the exception.
- Opening, writing and closing local files: the upload source is a `seq<byte>`, and the download
  sink is the accumulated `written` bytes.
- Strings Python can hold but UTF-8 cannot encode: a filename with a lone surrogate, which
  `bytes(filename, 'utf-8')` rejects with `UnicodeEncodeError`. Dafny characters are Unicode
  scalar values, so no such name can be written.
- Platform differences of `recvfrom(n)`: a datagram longer than the buffer is modelled as cut to
  its first n bytes, which is the POSIX behaviour. On Windows the call raises `OSError`
  (`WSAEMSGSIZE`) instead; that path is not modelled.
- The `MODE` table and `DEFAULT_PORT`: neither is used by the protocol logic.
- The text of an ERROR datagram's message: the client ignores it and prints its own table
  message.
- `RepliesExhausted` exists only in the model. The upload sets a 5-second timeout, so every
  `recvfrom(4)` either returns a datagram or raises `socket.timeout`, and each DATA is followed
  by exactly one reply event. A reply sequence is a finite prefix of that endless stream of
  datagram-or-timeout events; `RepliesExhausted` marks where the given prefix ends, not a state
  the client can reach.
- `AwaitingDatagram` exists only in the model. The download sets no timeout, so once the
  datagram sequence runs out the client would block in `recvfrom`.
- `Protocol.ErrorMessage`: the contract only says which codes have a message. The texts are the
  table's constant, and `Download.FileNotFoundScenario` checks one of them.

## Findings

| source | as written | input that shows it | evidently intended | confidence | as-written member | corrected member |
|---|---|---|---|---|---|---|
| tftppp.py:23-31 | The request format sizes the filename and mode fields with `len()` of the string, which counts characters. `bytes(..., 'utf-8')` takes more bytes than that for any non-ASCII character, and `'Ns'` cuts it. | The filename "é" (U+00E9, bytes C3 A9): the WRQ is 0 2 C3 0 "octet" 0, so the server is asked for a file named by the lone byte C3. | The code itself encodes the name with `bytes(filename, 'utf-8')` (line 25) before packing it, which only makes sense if the whole encoded name is meant to go out; the field width should be the length of those bytes. RFC 1350 section 5 asks for a netascii name, so a non-ASCII name lies outside that RFC, and the corrected request follows the code's own encoding. | medium; not executed | `Packets.AsWrittenRequestCutsName` | `Packets.EncodeRequestUtf8` |
| tftppp.py:58-59 | The read loop stops at the first empty read, so no final short DATA is sent when the size is a multiple of 512. An empty file sends no DATA at all. | A 512-byte file, every DATA acknowledged: one full DATA is sent and the upload reports completion. The receiver still waits for the block that ends the transfer. | RFC 1350 section 6: the transfer ends with a DATA of fewer than 512 bytes, an empty one when the size is a multiple of 512. | high; not executed | `Transfer.AsWrittenUploadCompletesOnlyOffBoundary` | `Transfer.RfcChunks` |
| tftppp.py:67-79 | After a timeout or a mismatched ACK the loop reads and sends the next chunk under the unchanged block number. The unacknowledged chunk is never resent. | 512 zero bytes followed by byte 1, with the ACK of block 1 lost: two DATA with block 1 go out carrying different payloads. The receiver discards the second as a duplicate, so the last byte is lost. | RFC 1350 section 2: on timeout the sender retransmits its last packet. Chunk k is only ever sent as block k + 1. | high; not executed | `Transfer.AsWrittenLostAckSkipsChunk` | `Transfer.RetransmitLoop` |
