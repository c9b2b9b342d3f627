# Verified model of the bundled WebRTC core

A Dafny 4.11 model of five pieces of the WebRTC sources that this repository bundles under
`FEC_Encode/include`, and proofs about it:

- **Bit codec** (`rtc_base/bit_buffer.*`, `rtc_base/bitstream_reader.*`). `BitBufferWriter` patches bit
  fields into a byte array; `BitstreamReader` walks a byte pointer driven by the number of bits left. Both are
  measured against one specification: a buffer is the sequence of its bits, most significant first.
  `Words.dfy` defines the machine operators on binary expansions, `BitStream.dfy` the specification,
  `Codes.dfy` the variable-length codes as codeword and parser, `BitBufferWriter.dfy` and
  `BitstreamReader.dfy` the two classes, `BitCodec.dfy` the theorems about them together.
- **Packet framing** (`rtc_base/async_tcp_socket.*`). `Framing.dfy` is the wire format, `AsyncTcpSocket.dfy`
  the class over a socket whose every answer is arbitrary, `TcpSession.dfy` sender, network and receiver
  under every sequence of events, proved against a model that only says where the bytes are.
- **RTP header extensions** (`api/rtp_parameters.cc`) in `RtpExtensions.dfy`.
- **Field-trial strings** (`api/field_trials.cc`) in `FieldTrials.dfy`.
- **Lifetimes**: `scoped_refptr` with its counted object in `RefPtr.dfy`, proved to delete what a model without
  counts finds unreferenced; objects that hold `scoped_refptr`s themselves, so that one deletion leads to others,
  in `RefGraph.dfy`; and the race between resolver threads and the destructor of `AsyncDnsResolver` in
  `DnsResolver.dfy`.

`dafny verify dfyconfig.toml` checks the whole project. Nothing in the project was executed.

How the model reads the source:

- Unsigned words are natural numbers with their width written out; `size_t` has 64 bits and `int` 32.
  Bytes are integers below 256, and a string that is written or read is a sequence of bytes.
- The clock, the network, `getaddrinfo` and the answers of the operating system are parameters. A socket
  call takes its answer from a list that the statement quantifies over, and would block once the list is used up.
- A failed `RTC_CHECK` is a value of the result; only the reader's constructor, whose checked cast to int ends the
  program for more than 2^28 - 1 bytes, has it as a precondition. An `RTC_DCHECK` on arguments is a precondition, since the
  source asks its callers for it; the one in `AppendToOutBuffer` is a result instead, since `Send` does not
  respect it for all packets it lets through.
- Where a comment and the code disagree, the model follows the code. The reader documents that an Exp-Golomb
  result is incremented (`bitstream_reader.h:95-96`), and the code decrements it; the writer speaks of
  bit_width(val+1) leading zeros (`bit_buffer.cc:189`), and the code writes one fewer.

Promises that the code does not keep for all inputs, with the exact condition:

- `ConsumeBytes` answers false when there are too few bytes, unless eight times the count wraps around 64 bits to
  a number that fits (`Writer.BitBufferWriter.ConsumeBytes`, `Writer.ConsumeBytesWraps`).
- `Send` lets packets of up to 65538 bytes through, but only sizes below 65536 survive the 16-bit length field
  (`Framing.FrameExact`, `Framing.OversizedExample`).
- `Send` throws away the rest of a frame when a write fails after some progress with an error other than
  EWOULDBLOCK, which is `CutOff` of the frame's size and the socket's answers. The stream stays a sequence of
  whole frames exactly when that does not happen (`TcpSession.SendKeepsFraming`, `AsyncTcp.CutFrameExample`).
- So the receiver ends up with exactly the accepted packets if and only if none of them has 65536 bytes or more
  and none was cut off (`TcpSession.DeliveryExact`, `TcpSession.Run`).
- `Send` respects the debug check on the size of the output buffer for packets of up to 65536 bytes, and not for
  the two sizes above that it lets through (`AsyncTcp.AsyncTcpSocket.Send`).
- `FindHeaderExtensionByUri` and `DeduplicateHeaderExtensions` agree except when encrypted extensions are preferred,
  the list has none for the URI, and the first and the last unencrypted one differ (`RtpExtensions.LookupAgrees`,
  `RtpExtensions.LookupDisagrees`).
- Assigning to a `scoped_refptr` writes into a destroyed object exactly when the object that holds it does not
  survive the release of the old reference; that takes a cycle that nothing outside holds, and never happens to a
  pointer reached through other pointers (`RefGraph.AssignExact`, `RefGraph.ReachableSafe`,
  `RefGraph.SelfCycleExample`). A move assignment is always safe (`RefGraph.MoveExact`).
- A callback gets the addresses of its own name if and only if no `Start` was made between the `Start` of the
  thread that resolved and the completion task. A `Start` can go wrong exactly when an earlier one has not yet
  called back (`DnsResolver.MatchExact`, `DnsResolver.StartExact`, `DnsResolver.AllMatchExact`).

## Model

| member | source | states |
|---|---|---|
| Writer.PartialByteBits | FEC_Encode/include/rtc_base/bit_buffer.cc:30-47 | Every bit of the patched byte: bits inside the window come from the source byte, all others keep the target bit unless the source has a stray bit below its window |
| Writer.HighestByteBit | FEC_Encode/include/rtc_base/bit_buffer.cc:23-25 | The byte taken for writing is bits 56 to 63 of the shift register |
| Writer.BitBufferWriter.constructor | FEC_Encode/include/rtc_base/bit_buffer.cc:53-60 | The writer starts at bit 0 of a buffer of at most 2^32 - 1 bytes, which may be the front of a longer array |
| Writer.BitBufferWriter.RemainingBitCount | FEC_Encode/include/rtc_base/bit_buffer.cc:62-64 | Cursor and remaining count always add up to the size of the buffer in bits |
| Writer.BitBufferWriter.ConsumeBits | FEC_Encode/include/rtc_base/bit_buffer.cc:70-78 | The cursor moves by the bit count iff that many bits remain, and not at all otherwise |
| Writer.BitBufferWriter.ConsumeBytes | FEC_Encode/include/rtc_base/bit_buffer.cc:66-68 | The documented answer is given iff eight times the count does not wrap 64 bits, or still exceeds what is left after wrapping |
| Writer.ConsumeBytesWraps | FEC_Encode/include/rtc_base/bit_buffer.cc:66-68 | An empty buffer reports success for 2^61 bytes |
| Writer.BitBufferWriter.Seek | FEC_Encode/include/rtc_base/bit_buffer.cc:88-96 | Seeking succeeds iff the bit offset is below 8 and the position is within the buffer, and leaves the cursor alone otherwise |
| Writer.BitBufferWriter.WriteBits | FEC_Encode/include/rtc_base/bit_buffer.cc:110-153 | Succeeds iff the bits fit; then exactly the next bits of the array become the low bits of the value, most significant first, every other bit is unchanged and the cursor advances; on failure nothing changes |
| Writer.BitBufferWriter.WriteFromByte | FEC_Encode/include/rtc_base/bit_buffer.cc:134-149 | The loop over whole bytes and the final partial byte finish writing a code whose first part is in place |
| Writer.BitBufferWriter.WriteUInt8 | FEC_Encode/include/rtc_base/bit_buffer.cc:98-100 | Writes the eight bits of a byte at any alignment, or nothing |
| Writer.BitBufferWriter.WriteUInt16 | FEC_Encode/include/rtc_base/bit_buffer.cc:102-104 | Writes 16 bits big-endian at any alignment, or nothing |
| Writer.BitBufferWriter.WriteUInt32 | FEC_Encode/include/rtc_base/bit_buffer.cc:106-108 | Writes 32 bits big-endian at any alignment, or nothing |
| Writer.BitBufferWriter.WriteNonSymmetric | FEC_Encode/include/rtc_base/bit_buffer.cc:155-169 | Writes the ns(n) codeword of the value, or nothing; a single possible value takes no bits |
| Writer.SizeNonSymmetricBits | FEC_Encode/include/rtc_base/bit_buffer.cc:171-179 | Returns the length of the codeword that WriteNonSymmetric writes |
| Writer.BitBufferWriter.WriteExponentialGolomb | FEC_Encode/include/rtc_base/bit_buffer.cc:181-193 | Writes the Exp-Golomb codeword, or nothing; refuses 2^32 - 1 without a trace |
| Writer.BitBufferWriter.WriteSignedExponentialGolomb | FEC_Encode/include/rtc_base/bit_buffer.cc:195-207 | Writes the codeword of the value's place in 0, 1, -1, 2, -2, ..., or nothing; refuses -2^31 without a trace |
| Writer.NextLebByte | FEC_Encode/include/rtc_base/bit_buffer.cc:212-216 | One round emits the first byte of the code of the value and leaves the value shifted by seven |
| Writer.BitBufferWriter.WriteLeb128 | FEC_Encode/include/rtc_base/bit_buffer.cc:209-220 | Succeeds iff all bytes of the LEB128 code fit; the bytes that fit are written in either case, since the loop goes on after a failed byte |
| Writer.BitBufferWriter.WriteString | FEC_Encode/include/rtc_base/bit_buffer.cc:222-228 | Succeeds iff all bytes fit; the bytes that fit are written in either case |
| Reader.BitstreamReader.constructor | FEC_Encode/include/rtc_base/bitstream_reader.h:126-132 | A new reader is Ok and has all bits of the bytes unread, for sizes whose bit count is an int |
| Reader.BitstreamReader.Invalidate | FEC_Encode/include/rtc_base/bitstream_reader.h:47-48 | The reader is in the failure state and its invariant holds |
| Reader.CursorExact | FEC_Encode/include/rtc_base/bitstream_reader.cc:90-93 | The reader's invariant pins the byte pointer to size - ceil(remaining / 8), and adding 7 to the remaining count stays within an int |
| Reader.BitstreamReader.ReadBits | FEC_Encode/include/rtc_base/bitstream_reader.cc:23-63 | Returns the next bits as a number and drops exactly those, fails iff there are too few, returns 0 in the failure state and never leaves it |
| Reader.BitstreamReader.ReadFromByte | FEC_Encode/include/rtc_base/bitstream_reader.cc:51-62 | The byte loop and the final partial byte assemble the number of all bits from the start of the field, and leave the pointer exact |
| Reader.BitstreamReader.ReadBit | FEC_Encode/include/rtc_base/bitstream_reader.cc:65-80 | Returns the next bit and drops it, fails iff there is none |
| Reader.BitstreamReader.ConsumeBits | FEC_Encode/include/rtc_base/bitstream_reader.cc:82-94 | Drops exactly the given number of bits, fails iff there are too few or the reader had failed |
| Reader.BitstreamReader.ReadUInt | FEC_Encode/include/rtc_base/bitstream_reader.h:66-68 | Reads an unsigned integer of the given width, within its range |
| Reader.BitstreamReader.ReadNonSymmetric | FEC_Encode/include/rtc_base/bitstream_reader.cc:96-108 | On every input, value, failure and unread rest are those of the ns(n) parser |
| Reader.BitstreamReader.ReadExponentialGolomb | FEC_Encode/include/rtc_base/bitstream_reader.cc:110-125 | On every input, including exhausted ones, value, failure and unread rest are those of the Exp-Golomb parser; the scan for the first one bit makes at most 32 reads |
| Reader.BitstreamReader.ReadSignedExponentialGolomb | FEC_Encode/include/rtc_base/bitstream_reader.cc:127-134 | The same through the signed order, and the result is above -2^31 and below 2^31 |
| Reader.BitstreamReader.ReadLeb128 | FEC_Encode/include/rtc_base/bitstream_reader.cc:136-156 | On every input, value, failure and unread rest are those of the LEB128 parser, whose value is an unbounded sum; 0 after a failure |
| Reader.LebFits | FEC_Encode/include/rtc_base/bitstream_reader.cc:149-153 | A group of at most ten bytes denotes a 64-bit number iff it is shorter than ten bytes or its tenth byte is at most 1 |
| Reader.LebSum | FEC_Encode/include/rtc_base/bitstream_reader.cc:143-145 | The running 64-bit sum equals the exact sum as long as the exact sum fits |
| Reader.BitstreamReader.ReadString | FEC_Encode/include/rtc_base/bitstream_reader.cc:158-166 | Returns exactly the next bytes, or fails and returns the empty string |
| Codes.TakeBitsExact | FEC_Encode/include/rtc_base/bitstream_reader.h:56-59 | A fixed-width read yields v and a rest iff v is below 2^n and the input is the n bits of v followed by the rest |
| Codes.NonSymmetricExact | FEC_Encode/include/rtc_base/bitstream_reader.h:78-87 | The parser accepts exactly the codewords: it yields v and a rest iff v is below num_values and the input is the codeword of v followed by the rest |
| Codes.NonSymmetricPrefixFree | FEC_Encode/include/rtc_base/bit_buffer.cc:163-168 | No codeword is a prefix of another one for the same num_values |
| Codes.NonSymmetricMeaning | FEC_Encode/include/rtc_base/bit_buffer.cc:155-169 | The number each codeword denotes: a value below 2^width - n is its own width - 1 bits, any other the width bits of the value plus that many |
| Codes.NonSymmetricSizes | FEC_Encode/include/rtc_base/bit_buffer.cc:163-164 | Below 2^31 the 32-bit shift is the power of two it stands for, and at least one value has the short code |
| Codes.NonSymmetricWidth | FEC_Encode/include/rtc_base/bitstream_reader.cc:97-101 | Of the sizes that pass the check, exactly 2^31 has a width of 32, by which a 32-bit word cannot be shifted |
| Codes.GolombExact | FEC_Encode/include/rtc_base/bitstream_reader.h:89-98 | The parser accepts exactly the codewords of the values below 2^32 - 1 |
| Codes.GolombField | FEC_Encode/include/rtc_base/bit_buffer.cc:189-192 | The single zero-padded field that is written is the codeword, and has 2 * bit_width(v + 1) - 1 bits |
| Codes.SignedGolombExact | FEC_Encode/include/rtc_base/bitstream_reader.h:100-105 | The signed parser accepts exactly the codewords of -(2^31 - 1) to 2^31 - 1 |
| Codes.SignedMagnitude | FEC_Encode/include/rtc_base/bit_buffer.cc:195-207 | Signed values are numbered by magnitude from 0 on, each positive value right before its negative |
| Codes.SignedSequence | FEC_Encode/include/rtc_base/bitstream_reader.cc:127-134 | Index by index the values read are 0, 1, -1, 2, -2 and so on |
| Codes.LebExact | FEC_Encode/include/rtc_base/bitstream_reader.h:107-109 | The parser yields v and a rest iff the input is some group of at most ten bytes of value v below 2^64, followed by the rest |
| Codes.LebRoundTrip | FEC_Encode/include/rtc_base/bit_buffer.cc:209-220 | Every 64-bit value is coded in 1 to 10 bytes and parsed back |
| Codes.LebDigits | FEC_Encode/include/rtc_base/bit_buffer.cc:209-220 | Byte i of a codeword holds bits 7i to 7i + 6 of the value, and its high bit says whether another follows |
| Codes.LebCodeShortest | FEC_Encode/include/rtc_base/bit_buffer.cc:211-218 | No other group of the same value is shorter than the one written |
| Codes.TakeBytesExact | FEC_Encode/include/rtc_base/bitstream_reader.cc:158-166 | A string read yields a text and a rest iff the input is the bits of the text followed by the rest |
| BitCodec.FieldRoundTrip | FEC_Encode/include/rtc_base/bit_buffer.h:22-23 | For each of the nine kinds of field, parsing its codeword gives the field back whatever follows |
| BitCodec.EncodeRoundTrip | FEC_Encode/include/rtc_base/bit_buffer.h:22-23 | Every list of fields is recovered from its concatenated codewords, whatever follows |
| BitCodec.WriteAll | FEC_Encode/include/rtc_base/bit_buffer.cc:98-228 | Writing fields one after the other succeeds iff all fit, and then overwrites exactly the next bits with their concatenated codewords |
| BitCodec.ReadAll | FEC_Encode/include/rtc_base/bitstream_reader.cc:23-166 | Reading fields one after the other gives what parsing the unread bits gives, or fails when it does |
| BitCodec.ReadBack | FEC_Encode/include/rtc_base/bitstream_reader.cc:23-166 | A reader that finds the codewords of a list of fields at any bit returns the fields and stops right behind them |
| BitCodec.RoundTrip | FEC_Encode/include/rtc_base/bit_buffer_unittest.cc:154-197 | Writer and reader starting at the same bit of one buffer: success iff the fields fit; then the buffer holds their codewords there and is otherwise unchanged, the reader returns the fields, and both stop right behind them |
| BitCodec.ReadBitByBit | FEC_Encode/include/rtc_base/bitstream_reader.cc:65-80 | As many single-bit reads, folded most significant first, have the value and end state of one wide read |
| BitCodec.ReadBitsThreeWays | FEC_Encode/include/rtc_base/bitstream_reader.cc:23-94 | ReadBits, repeated ReadBit and ConsumeBits lead from one state to one state, and the reads agree on the value |
| BitCodec.RunCalls | FEC_Encode/include/rtc_base/bitstream_reader.h:24-29 | Every run of reader calls keeps the cursor in the buffer and exact, leaves unread what the calls did not take, and stays failed once a call fails |
| Framing.UnframeConcat | FEC_Encode/include/rtc_base/async_tcp_socket.cc:214-225 | The packets and tail of a stream do not depend on where it was cut into chunks |
| Framing.UnframeTail | FEC_Encode/include/rtc_base/async_tcp_socket.cc:294-301 | The tail left by the parse holds no complete packet and is at most 65536 bytes |
| Framing.UnframeFrames | FEC_Encode/include/rtc_base/async_tcp_socket.cc:270-272 | The frames of packets below 65536 bytes parse back to these packets, whatever follows |
| Framing.UnframeInverse | FEC_Encode/include/rtc_base/async_tcp_socket.cc:290-309 | Any bytes are the frames of the packets parsed from them followed by the tail left |
| Framing.UnframeExact | FEC_Encode/include/rtc_base/async_tcp_socket.cc:258-309 | Bytes parse into exactly these packets, with nothing left, iff they are their frames and each size fits the length field |
| Framing.FrameExact | FEC_Encode/include/rtc_base/async_tcp_socket.cc:261-272 | Of the sizes that are let through, exactly those below 65536 reach the receiver unchanged |
| Framing.OversizedExample | FEC_Encode/include/rtc_base/async_tcp_socket.cc:261-272 | A packet of 65536 bytes is let through and not delivered |
| Framing.CutFrame | FEC_Encode/include/rtc_base/async_tcp_socket.cc:275-279 | After a frame that was cut off, the receiver has all earlier packets and waits inside the cut frame |
| Framing.CutFrameParse | FEC_Encode/include/rtc_base/async_tcp_socket.cc:290-309 | One byte of a lost frame makes the receiver deliver an empty packet and lose the next one |
| Framing.PrefixDelivers | FEC_Encode/include/rtc_base/async_tcp_socket.cc:290-309 | The packets parsed from any prefix of a framed stream are a prefix of the packets framed, and all of them when nothing is missing |
| AsyncTcp.LeftProgress | FEC_Encode/include/rtc_base/async_tcp_socket.cc:139-150 | A flush makes progress iff there are bytes and the socket takes the first write |
| AsyncTcp.CutOffLeaves | FEC_Encode/include/rtc_base/async_tcp_socket.cc:139-165 | Writes that were cut off have sent something and left something |
| AsyncTcp.LeftExact | FEC_Encode/include/rtc_base/async_tcp_socket.cc:139-150 | Over any number of writes, what is left is what the counts before the first refusal do not sum up to |
| AsyncTcp.StoppedExact | FEC_Encode/include/rtc_base/async_tcp_socket.cc:139-163 | Writes that do not reach the end stop at the first refusal, or would block when the answers run out |
| AsyncTcp.CutOffExact | FEC_Encode/include/rtc_base/async_tcp_socket.cc:139-163 | Writes are cut off iff some refusal other than EWOULDBLOCK follows accepted counts that sum to more than nothing and less than the whole |
| AsyncTcp.AsyncTcpSocket.FlushOutBuffer | FEC_Encode/include/rtc_base/async_tcp_socket.cc:135-171 | Bytes sent followed by bytes kept are the bytes buffered, for every pattern of partial writes and errors; how many are left, at which answer the writes stop and whether they were cut off follow from the answers; the result is the whole size, the progress before EWOULDBLOCK, or the refusing answer itself |
| AsyncTcp.AsyncTcpSocket.AppendToOutBuffer | FEC_Encode/include/rtc_base/async_tcp_socket.cc:173-176 | The bytes are added behind what is buffered, and the debug check holds iff they fit into the output buffer |
| AsyncTcp.AsyncTcpSocket.Send | FEC_Encode/include/rtc_base/async_tcp_socket.cc:258-288 | Packets above 65538 bytes are refused, packets behind a blocked one leave no byte; otherwise the part of the frame that the answers let through is sent, and the rest is kept unless nothing was sent or the writes were cut off, with the exact result in each case; the debug check fails exactly for 65537 and 65538 bytes |
| AsyncTcp.TwoWritesExample | FEC_Encode/include/rtc_base/async_tcp_socket.cc:139-150 | A frame that takes two writes goes out whole, as the bytes 0, 1, 7 for the packet 7 |
| AsyncTcp.CutFrameExample | FEC_Encode/include/rtc_base/async_tcp_socket.cc:275-279 | A run of Send against a connection reset after one byte, and a Send after it: the receiver parses an empty packet and loses the next |
| AsyncTcp.OverfullExample | FEC_Encode/include/rtc_base/async_tcp_socket.cc:173-176 | Any packet of 65537 bytes is sent although it breaks the debug check on the output buffer |
| AsyncTcp.AsyncTcpSocket.OnWriteEvent | FEC_Encode/include/rtc_base/async_tcp_socket.cc:228-238 | Conserves bytes, sends some iff some are buffered and the socket takes the first write, and signals ready exactly when nothing is left |
| AsyncTcp.AsyncTcpSocket.ProcessInput | FEC_Encode/include/rtc_base/async_tcp_socket.cc:290-309 | Delivers exactly the complete packets of the data and leaves exactly the tail of the framing parse |
| AsyncTcp.AsyncTcpSocket.EnsureRoom | FEC_Encode/include/rtc_base/async_tcp_socket.cc:187-191 | The buffer grows iff fewer than 128 bytes are free and it is below its limit of 65538, to twice its size or to the limit, and one that holds no complete packet always has room for a byte |
| AsyncTcp.IntakesProgress | FEC_Encode/include/rtc_base/async_tcp_socket.cc:187-193 | A buffer without a complete packet has room, so a read takes a byte when one has arrived and the socket hands it over |
| AsyncTcp.IntakesAll | FEC_Encode/include/rtc_base/async_tcp_socket.cc:185-208 | A socket that gives all it can is read until it is empty or the buffer has 65538 bytes |
| AsyncTcp.AsyncTcpSocket.ReceiveAll | FEC_Encode/include/rtc_base/async_tcp_socket.cc:185-208 | The receive loop ends because the buffer is bounded, moves a prefix of the arrived bytes into the buffer, and takes exactly what the answers and the growth rule allow |
| AsyncTcp.AsyncTcpSocket.OnReadEvent | FEC_Encode/include/rtc_base/async_tcp_socket.cc:182-226 | The packets delivered and the tail kept are those of the parse of the old tail and the bytes received, whatever the chunks |
| TcpSession.WireGrows | FEC_Encode/include/rtc_base/async_tcp_socket.cc:258-288 | Only an accepted packet adds bytes to the stream: its frame, or a proper part of it iff the writes were cut off |
| TcpSession.SendKeepsFraming | FEC_Encode/include/rtc_base/async_tcp_socket.cc:258-287 | From a stream of whole frames, whatever the socket answers, Send leaves a stream of whole frames iff it drops the packet behind a blocked one or its writes are not cut off |
| TcpSession.EventExact | FEC_Encode/include/rtc_base/async_tcp_socket.cc:258-288 | For packets of any size and any state of the sender, an event keeps the stream parsing into exactly the accepted packets iff it does not spoil one |
| TcpSession.WireExact | FEC_Encode/include/rtc_base/async_tcp_socket.cc:258-288 | In every run the stream is the frames of the accepted packets when no send was cut off, and strictly shorter otherwise |
| TcpSession.DeliveryExact | FEC_Encode/include/rtc_base/async_tcp_socket.cc:258-309 | Once nothing is under way the receiver has exactly the accepted packets, and no byte besides, iff no size exceeded the length field and no frame was cut off |
| TcpSession.DeliveredPrefix | FEC_Encode/include/rtc_base/async_tcp_socket.cc:290-309 | Unless a packet was spoilt, at any time the delivered packets are the first of the accepted ones, unchanged |
| TcpSession.CanDrain | FEC_Encode/include/rtc_base/async_tcp_socket.cc:182-238 | After any run, some further events without a send bring everything to the receiver, which then has the accepted packets iff none was spoilt |
| TcpSession.DistanceFalls | FEC_Encode/include/rtc_base/async_tcp_socket.cc:182-238 | Every event but an accepted send leaves each byte where it is or brings it nearer, and a write, transfer or read that can move a waiting byte does |
| TcpSession.AlwaysDrains | FEC_Encode/include/rtc_base/async_tcp_socket.cc:182-238 | Every continuation without an accepted send in which writer, network and reader keep getting their turn brings everything to the receiver, which then has the accepted packets iff none was spoilt |
| TcpSession.Session.SendStep | FEC_Encode/include/rtc_base/async_tcp_socket.cc:258-288 | A send is one step of the byte model; a packet is accepted iff its size passes, nothing is buffered and the socket takes a first byte |
| TcpSession.Session.WriteStep | FEC_Encode/include/rtc_base/async_tcp_socket.cc:228-238 | A write event is one step of the byte model: the bytes that the answers let through move on |
| TcpSession.Session.ReadStep | FEC_Encode/include/rtc_base/async_tcp_socket.cc:182-226 | A read event is one step of the byte model: delivered packets and tail are the parse of all bytes ever received |
| TcpSession.Run | FEC_Encode/include/rtc_base/async_tcp_socket.h:27-29 | For every sequence of sends of any size, partial and failed writes, write events, transfers and reads: which sends are accepted, what is delivered and how much is under way are those of the byte model; the delivered packets are a prefix of the accepted ones unless one was spoilt, and once nothing is under way they are all of them iff none was |
| RtpExtensions.HeaderExtensionWithUriExists | FEC_Encode/include/api/rtp_parameters.cc:217-226 | True iff some extension has the URI |
| RtpExtensions.FindHeaderExtensionByUri | FEC_Encode/include/api/rtp_parameters.cc:228-267 | Returns the first unencrypted, the first encrypted, or the first encrypted and else the last unencrypted match, by filter |
| RtpExtensions.FirstFound | FEC_Encode/include/api/rtp_parameters.cc:269-279 | A match that no earlier entry makes is the first match of the list |
| RtpExtensions.LastFound | FEC_Encode/include/api/rtp_parameters.cc:247-254 | A match that no later entry makes is the last match of the list, on which the preference falls back |
| RtpExtensions.FindHeaderExtensionByUriAndEncryption | FEC_Encode/include/api/rtp_parameters.cc:269-279 | Returns the first extension with the URI and encryption, or nothing when there is none |
| RtpExtensions.LookupExact | FEC_Encode/include/api/rtp_parameters.cc:228-267 | By position: the first unencrypted, the first encrypted, or the first encrypted and without any the last unencrypted match, by filter |
| RtpExtensions.DeduplicateHeaderExtensions | FEC_Encode/include/api/rtp_parameters.cc:281-320 | The result is strictly ascending by URI and its members are exactly the winners: the first encrypted extension the filter admits for a URI, or else the first unencrypted one |
| RtpExtensions.KeptExact | FEC_Encode/include/api/rtp_parameters.cc:281-320 | By position: an extension is kept iff it is the first with its URI and encryption, the filter admits it, and an unencrypted one does not yield to a preferred encrypted one |
| RtpExtensions.LessExact | FEC_Encode/include/api/rtp_parameters.cc:313-317 | A URI comes before another iff at the first place where they differ it has the smaller character or ends |
| RtpExtensions.BeforeOrder | FEC_Encode/include/api/rtp_parameters.cc:313-317 | The comparison is a strict total order by URI, then encryption, then id |
| RtpExtensions.SortAscending | FEC_Encode/include/api/rtp_parameters.cc:311-317 | Sorting by URI, encryption and id puts a list with distinct URIs in strictly ascending order |
| RtpExtensions.SortUnique | FEC_Encode/include/api/rtp_parameters.cc:311-317 | When the URIs differ, a permutation is sorted iff it is that list, so the sorting algorithm does not matter |
| RtpExtensions.DeduplicatedUris | FEC_Encode/include/api/rtp_parameters.cc:281-320 | The result has exactly the URIs of the extensions the filter admits |
| RtpExtensions.DeduplicatedUnique | FEC_Encode/include/api/rtp_parameters.cc:311-319 | The statement about the result leaves only one list |
| RtpExtensions.DeduplicatedIdempotent | FEC_Encode/include/api/rtp_parameters.cc:281-320 | Deduplicating again changes nothing |
| RtpExtensions.DeduplicatedPermutation | FEC_Encode/include/api/rtp_parameters.cc:311-312 | The order of the input does not matter when no pair of URI and encryption repeats |
| RtpExtensions.AmbiguousExact | FEC_Encode/include/api/rtp_parameters.cc:246-254 | The preference has an ambiguous fallback iff the list has no encrypted extension of the URI and the first and the last unencrypted one have different ids |
| RtpExtensions.LookupAgrees | FEC_Encode/include/api/rtp_parameters.cc:228-267 | The lookup finds a URI iff the deduplicated list has it, with the same encryption; it is another extension iff encrypted ones are preferred, the input has none, and its first and last unencrypted ones differ |
| RtpExtensions.LookupDisagrees | FEC_Encode/include/api/rtp_parameters.cc:252-253 | Two unencrypted extensions of one URI on which lookup and deduplication differ |
| FieldTrials.InsertIntoMap | FEC_Encode/include/api/field_trials.cc:26-59 | All checks pass iff the string is a sequence of non-empty key/value/ pairs, and then each key has its first value; otherwise the parser dies of a check iff that check names what is wrong behind some complete trials |
| FieldTrials.DiesOnce | FEC_Encode/include/api/field_trials.cc:26-59 | There is only one such check and one place, and such a string is no trial string |
| FieldTrials.RenderLaws | FEC_Encode/include/api/field_trials.cc:26-59 | A trial string is key, slash, value, slash, and trial after trial |
| FieldTrials.PassedExamples | FEC_Encode/include/api/field_trials.cc:26-59 | Two keys give two entries, and a repeated key keeps its first value |
| FieldTrials.DiedExamples | FEC_Encode/include/api/field_trials.cc:26-59 | One string for each check that can fail |
| FieldTrials.FirstWinsExact | FEC_Encode/include/api/field_trials.cc:48-51 | The map has exactly the keys given, each with its first value |
| FieldTrials.UniqueReading | FEC_Encode/include/api/field_trials.cc:29-52 | A string has at most one reading as groups |
| FieldTrials.NotTrials | FEC_Encode/include/api/field_trials.cc:30-44 | Where one of the searches fails to delimit a non-empty key or value, the whole string has no reading |
| RefPtr.RefCounted.AddRef | FEC_Encode/include/api/ref_counted_base.h:27 | Counts one reference more on an object that exists |
| RefPtr.RefCounted.Release | FEC_Encode/include/api/ref_counted_base.h:28-34 | Counts one less and deletes the object iff that was the last |
| RefPtr.ScopedRefptr.FromRaw | FEC_Encode/include/api/scoped_refptr.h:81-84 | Holds the object with one more reference |
| RefPtr.ScopedRefptr.Move | FEC_Encode/include/api/scoped_refptr.h:97-98 | Takes over the pointer, leaves null behind and touches no count |
| RefPtr.ScopedRefptr.Destroy | FEC_Encode/include/api/scoped_refptr.h:103-106 | Gives back one reference, deleting the object iff it was the last |
| RefPtr.ScopedRefptr.ReleasePtr | FEC_Encode/include/api/scoped_refptr.h:118-122 | Hands out the pointer and holds null, without touching the count |
| RefPtr.ScopedRefptr.AssignRaw | FEC_Encode/include/api/scoped_refptr.h:124-132 | One reference to the new object for one to the old; nothing changes for the object already held, even with its last reference |
| RefPtr.ScopedRefptr.AssignMove | FEC_Encode/include/api/scoped_refptr.h:143-146 | The pointer moves, the old object loses one reference, and a self-move keeps pointer and count |
| RefPtr.ScopedRefptr.Swap | FEC_Encode/include/api/scoped_refptr.h:154-160 | The two pointers change places, also with itself |
| RefPtr.ScopedRefptr.SwapRaw | FEC_Encode/include/api/scoped_refptr.h:154-158 | The pointer and the raw pointer change places, without touching a count |
| RefPtr.World.NothingDangles | FEC_Encode/include/api/scoped_refptr.h:78-163 | In every balanced state, no pointer and no handed-out reference is to a deleted object |
| RefPtr.World.ConstructCopy | FEC_Encode/include/api/scoped_refptr.h:86-89 | Copying adds one pointer to the same object and keeps the world balanced: each count is its holders plus the references held by hand, and deleted objects stay deleted |
| RefPtr.World.ConstructMove | FEC_Encode/include/api/scoped_refptr.h:97-101 | Moving keeps the world balanced |
| RefPtr.World.Destroy | FEC_Encode/include/api/scoped_refptr.h:103-106 | Destroying a pointer keeps the world balanced |
| RefPtr.World.Release | FEC_Encode/include/api/scoped_refptr.h:113-122 | The reference counted for the pointer is now one held by hand, and the world stays balanced |
| RefPtr.World.AssignCopy | FEC_Encode/include/api/scoped_refptr.h:134-141 | Copy assignment keeps the world balanced, also to itself |
| RefPtr.World.AssignMove | FEC_Encode/include/api/scoped_refptr.h:143-152 | Move assignment keeps the world balanced, also to itself |
| RefPtr.World.Swap | FEC_Encode/include/api/scoped_refptr.h:154-160 | Swapping keeps the world balanced |
| RefPtr.World.SwapRaw | FEC_Encode/include/api/scoped_refptr.h:154-158 | Swapping with a raw pointer that holds a reference exchanges the two references and keeps the world balanced |
| RefPtr.World.ReleaseByHand | FEC_Encode/include/api/scoped_refptr.h:113-117 | Returning a handed-out reference keeps the world balanced |
| RefPtr.MovedExact | FEC_Encode/include/api/scoped_refptr.h:78-163 | Pointer by pointer: what each operation of a run makes of the program's pointers |
| RefPtr.NamesMove | FEC_Encode/include/api/scoped_refptr.h:78-163 | Each operation moves pointers alike whether they are numbers in the count-free model or objects in memory |
| RefPtr.ReferencedCounts | FEC_Encode/include/api/ref_counted_base.h:27-34 | In a balanced world an object's count is positive iff some pointer or hand in the count-free model refers to it |
| RefPtr.Swept | FEC_Encode/include/api/ref_counted_base.h:28-34 | After any operation an object is deleted, once, iff tracing finds that it has lost its last reference, now or before |
| RefPtr.Step | FEC_Encode/include/api/scoped_refptr.h:78-163 | One operation on the counted classes is one step of the model that only knows who points where |
| RefPtr.Run | FEC_Encode/include/api/scoped_refptr.h:78-163 | In every run, counting has the effect of tracing: every pointer is where the count-free model puts it, and each object has been deleted, once, iff it has lost its last reference |
| RefGraph.ReleaseBalanced | FEC_Encode/include/api/ref_counted_base.h:28-34 | After a Release, whatever cascade of deletions it leads to, every count is the number of references and nothing refers to a deleted object |
| RefGraph.ReleaseExact | FEC_Encode/include/api/ref_counted_base.h:28-34 | An object survives a Release iff it belongs to a set of live objects each of which is held from outside or from within the set |
| RefGraph.AssignExact | FEC_Encode/include/api/scoped_refptr.h:124-132 | An assignment finds its own pointer still there iff the pointer is outside any object or its object survives the loss of the old reference; then every count is exact and exactly the objects so held are left |
| RefGraph.MoveExact | FEC_Encode/include/api/scoped_refptr.h:143-146 | A move assignment is safe in every heap, also onto itself and out of the object it lets go, and leaves exactly the objects still held |
| RefGraph.DropExact | FEC_Encode/include/api/scoped_refptr.h:103-106 | The end of a pointer outside any object leaves exactly the objects that the others hold |
| RefGraph.ApplyTargets | FEC_Encode/include/api/scoped_refptr.h:78-163 | Where every pointer points after each operation: only the pointers named change, and in the right direction |
| RefGraph.ReachableSafe | FEC_Encode/include/api/scoped_refptr.h:124-132 | A pointer that can be reached through pointers can be assigned safely, cycles or not |
| RefGraph.SelfCycleExample | FEC_Encode/include/api/scoped_refptr.h:124-132 | Clearing the pointer of an object that only holds itself writes into the deleted object |
| RefGraph.NoLeak | FEC_Encode/include/api/scoped_refptr.h:103-106 | Where live objects form no cycle, the live objects are exactly those that can be reached |
| RefGraph.RunBalanced | FEC_Encode/include/api/scoped_refptr.h:78-163 | In every run of creations, copies, destructions, assignments and moves, with cascades and cycles, counts are exact and nothing dangles, and a program that only assigns pointers it can reach never writes into a deleted object |
| DnsResolver.MutexStep | FEC_Encode/include/rtc_base/async_dns_resolver.cc:114-121 | Every step keeps the mutex held exactly by the one thread inside Finish |
| DnsResolver.InvStep | FEC_Encode/include/rtc_base/async_dns_resolver.cc:102-166 | Every step keeps status, mutex, owner, safety flag, queue and number of completions consistent |
| DnsResolver.RunInvariant | FEC_Encode/include/rtc_base/async_dns_resolver.cc:102-166 | The invariant holds in every state of every interleaving |
| DnsResolver.AtMostOnce | FEC_Encode/include/rtc_base/async_dns_resolver.cc:114-121 | At most one completion action and at most one callback run, however often Start is called |
| DnsResolver.NoPostAfterKill | FEC_Encode/include/rtc_base/async_dns_resolver.cc:122-136 | A completion action only ever runs before Kill has returned, so the caller's task queue still exists |
| DnsResolver.KillNotBlocked | FEC_Encode/include/rtc_base/async_dns_resolver.cc:122-136 | The destructor waits at most for one thread, which can always go on to leave Finish |
| DnsResolver.NoCallbackAfterDestruction | FEC_Encode/include/api/async_dns_resolver.h:54-58 | Once the destructor has begun no callback runs |
| DnsResolver.CompletesWhileAlive | FEC_Encode/include/rtc_base/async_dns_resolver.cc:150-166 | While the resolver lives, a finished thread means the completion action has run or is under way, and an idle state then has exactly one callback |
| DnsResolver.MatchExact | FEC_Encode/include/rtc_base/async_dns_resolver.cc:144-166 | The callback that runs is that of the last Start, and it gets the resolution of its own name iff no Start lies between the Start of the thread that resolved and the task |
| DnsResolver.ThreadWasStarted | FEC_Encode/include/rtc_base/async_dns_resolver.cc:144-166 | Every resolution that reaches a callback belongs to an earlier Start of the run and to the name given there |
| DnsResolver.ResultExact | FEC_Encode/include/rtc_base/async_dns_resolver.cc:150-166 | The error and addresses of a callback are what its thread's own resolution gave; that thread posted the task, and was the first of all to enter Finish |
| DnsResolver.StartExact | FEC_Encode/include/rtc_base/async_dns_resolver.cc:147-166 | After any run, a Start can lead to a callback with another Start's resolution, without any further Start, iff an earlier Start has not yet called back |
| DnsResolver.SomeMixUp | FEC_Encode/include/rtc_base/async_dns_resolver.cc:147-166 | For every list of at least two names there is an interleaving in which the last callback gets an earlier name's resolution |
| DnsResolver.AllMatchExact | FEC_Encode/include/rtc_base/async_dns_resolver.cc:144-166 | In every interleaving the callback gets its own resolution iff at most one Start precedes it |

## Left out

- Writer.BitBufferWriter.WriteNonSymmetric: stops at num_values below 2^31 although the source's check admits 2^31, because there the 32-bit shift by 32 has no defined result; the same holds for Writer.SizeNonSymmetricBits and Reader.BitstreamReader.ReadNonSymmetric.
- AsyncTcp.AsyncTcpSocket.ReceiveAll: bytes that arrive during a read event count as arrived before it; since each Recv may hand over as few as it likes, the same chunks are possible.
- AsyncTcp.AsyncTcpSocket.FlushOutBuffer: leaves out the branch for a socket that claims to have written more than it was offered, which the source marks as unreachable.
- Reader.BitstreamReader.constructor: holds the bytes as a value, so a buffer that changes while it is read is not modelled.
- RefPtr.Run: objects do not themselves hold scoped_refptrs; RefGraph has those. The counter's 32-bit width and use from several threads are not modelled.
- RefGraph.Run: the object graph is modelled on values and not as objects updated in place; members are listed in the order in which they are destroyed, and raw references held by hand are left to RefPtr.
- DnsResolver.InvStep: the resolver is modelled on values, one state per step of any thread, and not as an object updated in place.
- The debug bookkeeping of the reader (`last_read_is_verified_`), logging, signal dispatch, time stamps and socket options.
- `GetCurrentOffset` and the comparison operators of `scoped_refptr`, which would only add easy members.
- Hostname resolution itself, and `AsyncDnsResolverResultImpl::GetResolvedAddress`.
- The global field-trial string and the single-instance check around `InsertIntoMap`.
- The channel simulator's user interface and sockets, the FEC mask tables, and the other bundled WebRTC files.
