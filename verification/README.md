# A verified model of the Outline SDK's stream machinery

A Dafny model of the parts of the vendored Go library in which state, buffers and concurrency meet, with
proofs about every input, every fragmentation and every interleaving. `dafny verify dfyconfig.toml` checks it.

| module | models |
|---|---|
| `Io` | readers and writers: each carries a script of how much every call moves and when it fails, so a theorem over all scripts covers every fragmentation, short write and failure; a writer keeps its own record of the calls it saw and of how many it failed |
| `ShadowsocksWire` | the AEAD stream format: nonces, frames, a reference decoder, and what any cut of a stream decodes to |
| `ShadowsocksWriter` | the encrypting `Writer`: one buffer sealed in place, a delayed header, a timer that may flush at any moment |
| `SlicePool`, `ShadowsocksReader` | the pooled buffers and the decrypting reader on top of them |
| `TlsRecord` | record headers (section 5.1 of RFC 8446) and the images that the two fragmenters have to produce |
| `TlsRecordLenWriter`, `TlsHelloWriter` | the streaming and the buffering fragmenter |
| `StreamSplit` | the stream splitter |
| `HappyEyeballs`, `LookupFanOut` | the dialling loop as an event system (RFC 8305), and the parallel lookups that feed it |
| `DnsCache`, `TestRace` | the caching resolver with concurrent queries, and the bounded race of tests |
| `Socks5Address`, `Socks5Handshake`, `Socks5Udp` | the SOCKS5 client (RFC 1928, RFC 1929) |
| `Counting` | sums over sequences |

Classes carry the fields of the Go types and change them in place. Their methods are specified by what the
original promises: for the streams, that bytes sent, bytes buffered and bytes consumed fit together at all
times; for the event systems, an invariant kept by every event, from which the safety statements follow.
Concurrency is a schedule of atomic events (what happens between two lock or channel operations); an event
that is impossible where it stands is skipped, so that quantifying over schedules covers all interleavings.
In the Shadowsocks writer the timer may also fire between any two bytes of the one read that shares its buffer.

Encryption is any pair of functions in which opening inverts sealing and sealing adds a tag of fixed size.

## What the code does not do

Where the code does not meet the property one would expect, the model keeps the code, and the exact condition is
proved instead.

- **A late second header.** The streaming fragmenter bounds a resumed write by the size of the first record,
  not by what is left of it (record_len_writer.go:104). After a short write that ended strictly inside the first
  header, a call that brings more than the rest of the first record pushes the second header back by one to four
  bytes. `ResumedWriteRight` is the if-and-only-if, `LateHeaderIsWrong` shows that no payload makes up for it, and
  `TornHeaderExample` is a writer to which it happens. The `ReadFrom` path is right from the same states.
- **Failures of the base that are not reported.** `Writer.ReadFrom` and `Write` fold the base's error into the reader's,
  so a base that fails with `io.EOF` reads as success (stream.go:212-222, `EofReadsAsSuccess`). And a flush by the timer
  during the shared read reports its failure to the timer alone, although it has used up the delayed header
  (stream.go:146-152, `TimerFailureUnseen`). The contract of `Write` says that a
  failure is hidden exactly in these two cases, the second of which the state before the call decides (`TimerFaults`).
- **Counter period.** Nothing stops a stream after 2^95 frames; the next one repeats salt and nonces (`WireSaltTwice`).
- **A leftover that is empty.** `ensureLeftover` promises a non-empty leftover; it leaves none exactly when a peer has
  sealed an empty chunk (`EnsureLeftover`), and `Read` then returns no bytes and no error (`EmptyChunkRead`).
- **A torn end, asked again.** After an unexpected end of the stream the next read reports the source's own clean end.
- **Unexpected end inside the hello buffer.** A reader that itself fails with `io.ErrUnexpectedEOF` inside the header is
  taken for one that has ended (buffer.go:89).
- **Request size.** The 772 bytes reserved for a SOCKS5 request are not its maximum, which is 778; `append` then moves
  it to a new buffer (`RequestSize`).
- **UDP round trip.** Datagrams under 10 bytes, which `WriteTo` produces for names and payloads of less than three
  bytes together, are refused by `ReadFrom`, and longer ones than 16 KiB are cut (`UnwrapUndoesWrap`).
- **Readers that return nothing.** Two single-byte reads of a SOCKS5 address take a read of no bytes without an error for
  a byte (socks5.go:157 and 175). `StalledAddr` and `StalledVerdict` say exactly when this matters,
  `StalledType` and `StalledLength` are readers to which it happens.
- **Mapped addresses.** An IPv4-mapped IPv6 address is sent as IPv4 (`AddrRoundTrip`).
- **No room in the cache.** With capacity 0 adding an entry panics, so the cache is modelled from capacity 1.

## Model

| member | source | states |
|---|---|---|
| `ShadowsocksWire.IncrementedLittleEndian` | outline-sdk-main/outline-sdk-main/transport/shadowsocks/stream.go:425-433 | the carry rule is +1 on a little-endian number of any width, wrapping only when the width is exhausted |
| `ShadowsocksWire.CarriedTo` | outline-sdk-main/outline-sdk-main/transport/shadowsocks/stream.go:425-433 | whatever bytes a stopped carry loop leaves are that +1 |
| `ShadowsocksWire.LittleEndianInjective` | outline-sdk-main/outline-sdk-main/transport/shadowsocks/stream.go:57-58 | two counter values show the same bytes exactly when they agree modulo 256^n |
| `ShadowsocksWire.LittleEndianAt` | outline-sdk-main/outline-sdk-main/transport/shadowsocks/stream.go:425-433 | byte i of a counter value is its i-th digit to the base 256, the lowest first |
| `ShadowsocksWire.SaltDueIff` | outline-sdk-main/outline-sdk-main/transport/shadowsocks/stream.go:242-249 | the zero test of the counter puts the salt in front of frame k exactly when k is a multiple of 2^95 |
| `ShadowsocksWire.NoncesDistinct` | outline-sdk-main/outline-sdk-main/transport/shadowsocks/stream.go:102-108 | no two of the first 2^96 nonces are equal |
| `ShadowsocksWire.NoncesRepeat` | outline-sdk-main/outline-sdk-main/transport/shadowsocks/stream.go:425-433 | and the bound is sharp: the next ones repeat them |
| `ShadowsocksWire.WireSaltOnce` | outline-sdk-main/outline-sdk-main/transport/shadowsocks/stream.go:235-258 | up to 2^95 chunks the wire is empty, or the salt once followed by the frames |
| `ShadowsocksWire.WireSaltTwice` | outline-sdk-main/outline-sdk-main/transport/shadowsocks/stream.go:242-249 | after that the salt appears again, in front of a frame sealed under the first frame's nonces |
| `ShadowsocksWire.ReadParts` | outline-sdk-main/outline-sdk-main/transport/shadowsocks/stream.go:346-374 | a frame of any peer, in terms of the cipher alone: the low 14 bits of the two opened bytes are the size, and the payload is what opens |
| `ShadowsocksWire.ReadForged` | outline-sdk-main/outline-sdk-main/transport/shadowsocks/stream.go:326-337 | a size or a payload that does not open, or opens to the wrong length, ends the stream with a bad tag |
| `ShadowsocksWire.DecodeForged` | outline-sdk-main/outline-sdk-main/transport/shadowsocks/stream.go:326-374 | behind any number of good frames, exactly those are delivered, and then the bad tag |
| `ShadowsocksWire.ReadBody` | outline-sdk-main/outline-sdk-main/transport/shadowsocks/stream.go:346-374 | a frame followed by anything is read as its chunk, leaving exactly what follows |
| `ShadowsocksWire.ReadTornBody` | outline-sdk-main/outline-sdk-main/transport/shadowsocks/stream.go:349-372 | a proper prefix of a frame is a clean end only if it is empty, and an unexpected one otherwise |
| `ShadowsocksWire.WholeMeaning` | outline-sdk-main/outline-sdk-main/transport/shadowsocks/stream.go:339-374 | the number of delivered chunks is that of the frames wholly before the cut |
| `ShadowsocksWire.DecodeCutFrames` | outline-sdk-main/outline-sdk-main/transport/shadowsocks/stream.go:339-374 | the frames cut at any byte decode to those chunks, with a clean end exactly on a boundary |
| `ShadowsocksWire.DecodeCutWire` | outline-sdk-main/outline-sdk-main/transport/shadowsocks/stream.go:301-374 | the same for a writer's whole wire, salt included: clean at 0, after the salt, or between frames, and nowhere else |
| `ShadowsocksWire.DecodeWholeWire` | outline-sdk-main/outline-sdk-main/transport/shadowsocks/stream.go:301-374 | uncut, the chunks come back exactly |
| `ShadowsocksWriter.Increment` | outline-sdk-main/outline-sdk-main/transport/shadowsocks/stream.go:425-433 | the in-place loop is the little-endian +1 |
| `ShadowsocksWriter.IsZero` | outline-sdk-main/outline-sdk-main/transport/shadowsocks/stream.go:155-162 | true exactly of all-zero bytes |
| `ShadowsocksWriter.Writer.constructor` | outline-sdk-main/outline-sdk-main/transport/shadowsocks/stream.go:40-59 | a new writer has accepted nothing and is within its invariant |
| `ShadowsocksWriter.Writer.Init` | outline-sdk-main/outline-sdk-main/transport/shadowsocks/stream.go:79-100 | stores the salt once; accepted plaintext and sealed chunks are unchanged |
| `ShadowsocksWriter.Writer.EncryptBlock` | outline-sdk-main/outline-sdk-main/transport/shadowsocks/stream.go:102-108 | seals in place under nonce k, touches only the plaintext and its tag, and moves the counter to k+1 |
| `ShadowsocksWriter.Writer.Enqueue` | outline-sdk-main/outline-sdk-main/transport/shadowsocks/stream.go:226-233 | appends a prefix to the accepted plaintext, stopping only at a full chunk; safe when the bytes lie in the same array |
| `ShadowsocksWriter.Writer.SealPending` | outline-sdk-main/outline-sdk-main/transport/shadowsocks/stream.go:240-254 | the bytes handed to the base are frame k of the pending chunk, with the salt when due; nothing behind the payload's tag changes |
| `ShadowsocksWriter.Writer.FlushPending` | outline-sdk-main/outline-sdk-main/transport/shadowsocks/stream.go:235-258 | pending becomes one more sealed chunk, in one write; no accepted byte is lost, duplicated or reordered; bytes behind its tag stay; an error exactly if the base fails on a frame of that size, and otherwise the frame is taken whole |
| `ShadowsocksWriter.Writer.Flush` | outline-sdk-main/outline-sdk-main/transport/shadowsocks/stream.go:145-153 | does nothing at all unless flushing is allowed; else as a flush |
| `ShadowsocksWriter.Writer.LazyWrite` | outline-sdk-main/outline-sdk-main/transport/shadowsocks/stream.go:116-143 | without an error everything is queued and the base has not failed meanwhile; with one, the base failed and the prefix taken is reported; only chunks of exactly 16383 bytes are sealed, and what fits stays pending; terminates |
| `ShadowsocksWriter.Writer.Land` | outline-sdk-main/outline-sdk-main/transport/shadowsocks/stream.go:186-201 | while bytes land one at a time in the shared buffer and the timer fires before, between and after them, every landed byte keeps its value; the timer flushes exactly if something was pending and it fired, and fails exactly if the base would fail on that frame |
| `ShadowsocksWriter.Writer.SharedRead` | outline-sdk-main/outline-sdk-main/transport/shadowsocks/stream.go:186-208 | all bytes just read are enqueued whether or not a timer flush emptied pending, in one frame with what was pending or in one of their own; flushing is then disallowed; the base has failed as often as the timer was bound to, known beforehand, and once more exactly if that is reported |
| `ShadowsocksWriter.Writer.Pump` | outline-sdk-main/outline-sdk-main/transport/shadowsocks/stream.go:211-218 | one read of up to 16383 bytes, one frame of exactly those, none for an empty read, with a timer firing in between; a failed flush is its error |
| `ShadowsocksWriter.Writer.Transfer` | outline-sdk-main/outline-sdk-main/transport/shadowsocks/stream.go:211-218 | the main transfer loop: one frame for each non-empty read of a 16383-byte buffer, to the end of the source or the first failed flush, whose error it returns |
| `ShadowsocksWriter.Writer.ReadFrom` | outline-sdk-main/outline-sdk-main/transport/shadowsocks/stream.go:177-224 | accepts exactly the bytes it counts, in order, in exactly the frames that the timer and the reads determine; the failures of the base are those the timer was bound to see, known from the state before, and at most one more, which ends the transfer and is its error, where io.EOF reads as success |
| `ShadowsocksWriter.Writer.Write` | outline-sdk-main/outline-sdk-main/transport/shadowsocks/stream.go:110-114 | without a failing flush of its own all of p is taken, and unless the timer cuts in every new chunk but the last has exactly 16383 bytes; a failure is hidden exactly if it was io.EOF under its own flush, or the only one is the timer's, which the state before the call decides |
| `ShadowsocksWriter.WriteInBytes` | outline-sdk-main/outline-sdk-main/transport/shadowsocks/stream.go:110-258 | a first Write of 1 to 16383 bytes is one write of the base: salt, the length sealed under twelve zero bytes, the payload sealed under a one and eleven zero bytes |
| `ShadowsocksWriter.LazyThenWrite` | outline-sdk-main/outline-sdk-main/transport/shadowsocks/stream.go:116-224 | a delayed header and a first Write that fit together leave as one frame in one write, if the timer is idle |
| `ShadowsocksWriter.EofReadsAsSuccess` | outline-sdk-main/outline-sdk-main/transport/shadowsocks/stream.go:212-222 | a base failing with io.EOF: Write reports success and the base has less than the frames |
| `ShadowsocksWriter.TimerFailureUnseen` | outline-sdk-main/outline-sdk-main/transport/shadowsocks/stream.go:146-152 | a base failing once with another error, under the timer's flush beside a read: the header is lost, and Write reports success |
| `ShadowsocksWriter.Run` | outline-sdk-main/outline-sdk-main/transport/shadowsocks/stream.go:79-258 | any calls in any order with any timer over an accepting base: wire = encoding of the sealed chunks, one write per frame, chunks + pending = everything given, counter = twice the frames |
| `ShadowsocksWriter.RoundTrip` | outline-sdk-main/outline-sdk-main/transport/shadowsocks/stream.go:79-374 | a fresh reader of what any such run sent recovers everything but the pending bytes |
| `SlicePool.Pool.Get` | outline-sdk-main/outline-sdk-main/internal/slicepool/slicepool.go:49-51 | an idle buffer that is idle no more, or a new one, of the pool's length |
| `SlicePool.Pool.Put` | outline-sdk-main/outline-sdk-main/internal/slicepool/slicepool.go:53-58 | adds a buffer of the pool's length to the idle ones; a wrong length is a panic, and is excluded at every call |
| `SlicePool.LazySlice.Acquire` | outline-sdk-main/outline-sdk-main/internal/slicepool/slicepool.go:71-79 | fills an empty box; a full one is a panic, and is excluded at every call |
| `SlicePool.LazySlice.Release` | outline-sdk-main/outline-sdk-main/internal/slicepool/slicepool.go:81-88 | the held buffer, if any, is idle again, and the box is empty |
| `ShadowsocksReader.ChunkReader.Init` | outline-sdk-main/outline-sdk-main/transport/shadowsocks/stream.go:301-320 | reads the salt once; the rest of the stream is what the reference decoder sees after it |
| `ShadowsocksReader.ChunkReader.ReadMessage` | outline-sdk-main/outline-sdk-main/transport/shadowsocks/stream.go:322-337 | reads n bytes or reports the end; what the cipher opens to n - overhead bytes is handed out, anything else is a bad tag; the nonce moves on either way |
| `ShadowsocksReader.ChunkReader.ReadChunk` | outline-sdk-main/outline-sdk-main/transport/shadowsocks/stream.go:339-374 | the next chunk and the rest are what the reference decoder says, or its error; neither pool panic is reachable, after successes and failures alike; with a tag of at most 16 bytes the short-buffer branch is dead in every state, in step or not; at end of data a repeated call reports the source's own end |
| `ShadowsocksReader.ChunkReader.ReadFrameInto` | outline-sdk-main/outline-sdk-main/transport/shadowsocks/stream.go:346-374 | the part of it behind the salt |
| `ShadowsocksReader.Reader.EnsureLeftover` | outline-sdk-main/outline-sdk-main/transport/shadowsocks/stream.go:409-423 | changes nothing while something is left; otherwise leaves the next chunk, and leaves nothing exactly when a peer sealed an empty chunk; an error exactly when no chunk is left; leftover never lies in a buffer given back |
| `ShadowsocksReader.Reader.Read` | outline-sdk-main/outline-sdk-main/transport/shadowsocks/stream.go:383-390 | hands out a prefix of the stream still to come, and ends with its error only when nothing is left of it |
| `ShadowsocksReader.Reader.WriteTo` | outline-sdk-main/outline-sdk-main/transport/shadowsocks/stream.go:392-407 | delivers the whole stream and reports io.EOF as success, or stops at a failing writer keeping exactly what that writer did not take |
| `ShadowsocksReader.EmptyChunkRead` | outline-sdk-main/outline-sdk-main/transport/shadowsocks/stream.go:383-423 | a reader given an empty chunk: it returns neither a byte nor an error |
| `ShadowsocksReader.Perform` | outline-sdk-main/outline-sdk-main/transport/shadowsocks/stream.go:376-423 | one call of either kind: delivered + still to come is the stream |
| `ShadowsocksReader.Drain` | outline-sdk-main/outline-sdk-main/transport/shadowsocks/stream.go:376-423 | any mix of calls: delivered + still to come is the stream, and at the end everything has been delivered |
| `ShadowsocksReader.ReadBackCut` | outline-sdk-main/outline-sdk-main/transport/shadowsocks/stream.go:79-423 | end to end: any writer run, cut anywhere, any fragmentation, any calls; delivers the chunks wholly before the cut, and then the right end |
| `ShadowsocksReader.ReadBackForged` | outline-sdk-main/outline-sdk-main/transport/shadowsocks/stream.go:301-423 | any good frames, a message that does not open, and anything behind it, with any fragmentation and any calls: exactly the chunks in front of it are delivered, and the end is a bad tag |
| `TlsRecord.SetPayloadLen` | outline-sdk-main/outline-sdk-main/transport/tlsfrag/tls.go:83-89 | accepts 1 to 2^14, writes only the two length bytes, and then the header says that length |
| `TlsRecord.RefusedBytes` | outline-sdk-main/outline-sdk-main/transport/tlsfrag/tls.go:65-77 | Validate refuses exactly a type other than 22, a version other than 3.1 to 3.4, and a length of 0 or above 16384 |
| `TlsRecord.ImageBytes` | outline-sdk-main/outline-sdk-main/transport/tlsfrag/record_len_writer.go:78-141 | the streaming image in bytes: unchanged, or two headers in their places with the two lengths |
| `TlsRecord.BufferedBytes` | outline-sdk-main/outline-sdk-main/transport/tlsfrag/writer.go:80-184 | the buffering image in bytes, and when a record is held back |
| `TlsRecord.PiecesValid` | outline-sdk-main/outline-sdk-main/transport/tlsfrag/tls.go:58-89 | both headers of a split pass Validate, keep type and version, and their lengths add up |
| `TlsRecord.ImageExtends` | outline-sdk-main/outline-sdk-main/transport/tlsfrag/record_len_writer.go:125-140 | once the second header is placed the image grows by exactly what comes in |
| `TlsRecord.LateHeaderIsWrong` | outline-sdk-main/outline-sdk-main/transport/tlsfrag/record_len_writer.go:99-128 | a second header out of place by 1 to 4 bytes never yields the right stream, whatever the payload |
| `TlsRecord.BufferedBehindStreaming` | outline-sdk-main/outline-sdk-main/transport/tlsfrag/writer.go:80-184 | for a length-based split the buffering image is a prefix of the streaming one, equal exactly when nothing is held back |
| `TlsRecord.ImageOfRecord` | outline-sdk-main/outline-sdk-main/transport/tlsfrag/record_len_writer.go:78-141 | the image of one record and a rest is one or two records with the joined payload, and the rest |
| `TlsRecord.ImageOfRecords` | outline-sdk-main/outline-sdk-main/transport/tlsfrag/record_len_writer.go:78-141 | the same in front of any list of records: only the first is split |
| `TlsRecord.SplitFirstFlattens` | outline-sdk-main/outline-sdk-main/transport/tlsfrag/stream_dialer.go:108-129 | splitting the first of several payloads keeps what they join to |
| `TlsRecord.NestedSplit` | outline-sdk-main/outline-sdk-main/transport/tlsfrag/stream_dialer.go:108-129 | applying any stack of fragmenters yields non-empty records of the same type and version, at most 2^14 long, joining to the original payload (for running writers, TlsRecordLenWriter.RunNestedRecord) |
| `TlsRecord.FixedLenPieces` | outline-sdk-main/outline-sdk-main/transport/tlsfrag/stream_dialer.go:108-129 | a positive length is the first piece's, a negative one the second's; out of range leaves the record whole |
| `TlsRecordLenWriter.WriteBothN` | outline-sdk-main/outline-sdk-main/transport/tlsfrag/record_len_writer.go:296-332 | at most limit bytes of the two strings, in order, in one call of the base; the counts say which |
| `TlsRecordLenWriter.WriteN` | outline-sdk-main/outline-sdk-main/transport/tlsfrag/record_len_writer.go:277-286 | at most limit bytes |
| `TlsRecordLenWriter.RecordLenWriter.UpdateSplitRecordLens` | outline-sdk-main/outline-sdk-main/transport/tlsfrag/record_len_writer.go:259-275 | accepts exactly split points inside the payload; one call of the split function |
| `TlsRecordLenWriter.RecordLenWriter.Parse` | outline-sdk-main/outline-sdk-main/transport/tlsfrag/record_len_writer.go:89-97 | a complete header is due on the wire as the image says: rewritten if the record is to be split, unchanged if not |
| `TlsRecordLenWriter.RecordLenWriter.TakeHeader` | outline-sdk-main/outline-sdk-main/transport/tlsfrag/record_len_writer.go:80-98 | collects header bytes across calls; nothing reaches the base before the header is complete |
| `TlsRecordLenWriter.RecordLenWriter.Advance` | outline-sdk-main/outline-sdk-main/transport/tlsfrag/record_len_writer.go:105-118 | header and payload bytes that went out keep sent + due equal to the image, with the second header due exactly at the end of the first record |
| `TlsRecordLenWriter.RecordLenWriter.WriteFirst` | outline-sdk-main/outline-sdk-main/transport/tlsfrag/record_len_writer.go:100-122 | the image is kept unless a torn first header is resumed with more than the rest of the first record |
| `TlsRecordLenWriter.RecordLenWriter.WriteRest` | outline-sdk-main/outline-sdk-main/transport/tlsfrag/record_len_writer.go:125-140 | the pending header, then everything else unchanged |
| `TlsRecordLenWriter.RecordLenWriter.Write` | outline-sdk-main/outline-sdk-main/transport/tlsfrag/record_len_writer.go:78-141 | sent + due is the image of what was consumed, for any short writes and errors; in at most three calls of the base, an error exactly if one fails, and otherwise nothing is due; a first write that takes less than a header tears it; the second header is late only after that, and then by the stated number of bytes |
| `TlsRecordLenWriter.RecordLenWriter.FirstRead` | outline-sdk-main/outline-sdk-main/transport/tlsfrag/record_len_writer.go:171-219 | what it yields continues the image, for any buffer size and any state earlier writes left; its counter grows by the bytes taken from the source |
| `TlsRecordLenWriter.RecordLenWriter.RestRead` | outline-sdk-main/outline-sdk-main/transport/tlsfrag/record_len_writer.go:221-235 | the pending header and then the source; its counter grows by the bytes taken from the source |
| `TlsRecordLenWriter.RecordLenWriter.MultiRead` | outline-sdk-main/outline-sdk-main/transport/tlsfrag/record_len_writer.go:246-251 | the two readers in a row make progress on every call and end only with nothing due; their counters together grow by what was taken from the source |
| `TlsRecordLenWriter.RecordLenWriter.ReadFrom` | outline-sdk-main/outline-sdk-main/transport/tlsfrag/record_len_writer.go:246-257 | on any EOF-terminated source, any fragmentation and any positive buffer sizes: the base has the image of everything consumed, and the sum of the two counters is the number of source bytes |
| `TlsRecordLenWriter.ResumedWriteRight` | outline-sdk-main/outline-sdk-main/transport/tlsfrag/record_len_writer.go:100-122 | a resumed write leaves the right stream if and only if it is not resumed inside the first header with more than the rest of the first record in hand |
| `TlsRecordLenWriter.TornHeaderExample` | outline-sdk-main/outline-sdk-main/transport/tlsfrag/record_len_writer.go:102-105 | a writer over a base that takes two bytes and fails once, retried with the rest: what the base has received, and what it should have |
| `TlsRecordLenWriter.Run` | outline-sdk-main/outline-sdk-main/transport/tlsfrag/record_len_writer.go:78-257 | any cutting of the input into Write and ReadFrom calls over an accepting base: exactly the image of the input, and at most one call of the split function, counted by that function |
| `TlsRecordLenWriter.RunInBytes` | outline-sdk-main/outline-sdk-main/transport/tlsfrag/record_len_writer.go:78-257 | in bytes, for any calls: a first message that is no handshake record of TLS 1.0 to 1.3, or that the split function leaves whole, reaches the base as it is; any other as two records with the stated headers |
| `TlsRecordLenWriter.RunNested` | outline-sdk-main/outline-sdk-main/transport/tlsfrag/stream_dialer.go:117-129 | writers stacked on one another, with any cutting of the input and, level by level, of what each hands on: the last base has the image of the image of the input |
| `TlsRecordLenWriter.RunNestedRecord` | outline-sdk-main/outline-sdk-main/transport/tlsfrag/stream_dialer.go:117-129 | so a stack of running writers turns a record into valid ones that join to it, and leaves the rest alone |
| `TlsHelloWriter.HelloBuffer.ReadFrom` | outline-sdk-main/outline-sdk-main/transport/tlsfrag/buffer.go:82-134 | takes exactly the bytes of one record and stops; says which of complete, invalid, more or failed it is; no byte is lost |
| `TlsHelloWriter.HelloBuffer.FillHeader` | outline-sdk-main/outline-sdk-main/transport/tlsfrag/buffer.go:83-106 | a valid header gets a buffer of exactly 10 + payload bytes; an invalid one is kept as it came |
| `TlsHelloWriter.OpenGap` | outline-sdk-main/outline-sdk-main/transport/tlsfrag/writer.go:172-179 | the two overlapping copies move the tail up by five and put the first header in the gap |
| `TlsHelloWriter.SplitInPlace` | outline-sdk-main/outline-sdk-main/transport/tlsfrag/writer.go:150-184 | the in-place result is header 1, payload 1, header 2, payload 2, and fills the buffer exactly |
| `TlsHelloWriter.HelloWriter.SplitHelloBufToRecord` | outline-sdk-main/outline-sdk-main/transport/tlsfrag/writer.go:150-184 | what is to be flushed is the image of what was collected, split or not |
| `TlsHelloWriter.HelloWriter.CopyHelloBufToRecord` | outline-sdk-main/outline-sdk-main/transport/tlsfrag/writer.go:144-148 | what is to be flushed is what was collected |
| `TlsHelloWriter.HelloWriter.FlushRecord` | outline-sdk-main/outline-sdk-main/transport/tlsfrag/writer.go:186-194 | sent + unflushed is unchanged by any short write; done exactly when nothing is left |
| `TlsHelloWriter.HelloWriter.Write` | outline-sdk-main/outline-sdk-main/transport/tlsfrag/writer.go:78-107 | received + unflushed + collected is the image of the bytes reported consumed, whatever the base does; in at most two calls of the base, an error exactly if one fails, and otherwise nothing is unflushed |
| `TlsHelloWriter.HelloWriter.Collect` | outline-sdk-main/outline-sdk-main/transport/tlsfrag/writer.go:83-94 | what is collected, or set up for flushing, is the image of what was taken; it takes no byte beyond the record |
| `TlsHelloWriter.HelloWriter.ReadFrom` | outline-sdk-main/outline-sdk-main/transport/tlsfrag/writer.go:109-142 | any EOF-terminated source, after any earlier writes: all of it is consumed and counted, and the base has the image of everything consumed |
| `TlsHelloWriter.Run` | outline-sdk-main/outline-sdk-main/transport/tlsfrag/writer.go:78-142 | any list of Write and ReadFrom calls over an accepting base leaves it with the image of the input |
| `TlsHelloWriter.RunInBytes` | outline-sdk-main/outline-sdk-main/transport/tlsfrag/writer.go:78-184 | the same in bytes: what is no handshake record passes as it is from the fifth byte on; a record is held until complete, and then passes split where the split function says |
| `TlsHelloWriter.SendWithRetries` | outline-sdk-main/outline-sdk-main/transport/tlsfrag/writer.go:78-107 | a caller retrying from p[n:] over a failing base loses and repeats nothing |
| `TlsHelloWriter.BehindStreaming` | outline-sdk-main/outline-sdk-main/transport/tlsfrag/writer.go:78-107 | at every moment what this writer has sent is a prefix of what the streaming one sends on the same input; equal exactly when nothing is held or waiting |
| `StreamSplit.SplitIterator.constructor` | outline-sdk-main/outline-sdk-main/transport/split/writer.go:56-67 | dropping no-op entries does not change the segments |
| `StreamSplit.SplitIterator.Next` | outline-sdk-main/outline-sdk-main/transport/split/writer.go:68-78 | yields the segments one by one, then zeros for ever |
| `StreamSplit.RepeatedPoints` | outline-sdk-main/outline-sdk-main/transport/split/writer.go:50-79 | count segments of equal length give count points that far apart |
| `StreamSplit.PointsMeaning` | outline-sdk-main/outline-sdk-main/transport/split/writer.go:50-90 | the split points of a list of (count, bytes) pairs, pair by pair, where a pair with a number that is not positive gives none |
| `StreamSplit.SplitWriter.constructor` | outline-sdk-main/outline-sdk-main/transport/split/writer.go:81-90 | the split points are the prefix sums of the segments |
| `StreamSplit.SplitWriter.Advance` | outline-sdk-main/outline-sdk-main/transport/split/writer.go:114-125 | bytes accepted + nextSplitBytes stays the next split point, also after a short write |
| `StreamSplit.SplitWriter.Emit` | outline-sdk-main/outline-sdk-main/transport/split/writer.go:127-143 | one call of the base, which spans no split point |
| `StreamSplit.SplitWriter.Write` | outline-sdk-main/outline-sdk-main/transport/split/writer.go:127-143 | the stream is unchanged; no call of the base spans a split point; over an accepting base the calls it sees end at the points inside data and at its end |
| `StreamSplit.SplitWriter.ReadFrom` | outline-sdk-main/outline-sdk-main/transport/split/writer.go:92-112 | over any base, however it reads and fails: what it took is a prefix of the source, in calls that end at the points inside it and at its end; no error exactly at the source's clean end |
| `StreamSplit.Run` | outline-sdk-main/outline-sdk-main/transport/split/writer.go:59-143 | any list of Write and ReadFrom calls: same stream, and the calls the base sees end where the given ones do and at the split points before the end |
| `StreamSplit.SendWithRetries` | outline-sdk-main/outline-sdk-main/transport/split/writer.go:114-143 | a caller retrying over a failing base: every byte once and in order, and no call of the base spans a split point |
| `StreamSplit.RunNested` | outline-sdk-main/outline-sdk-main/transport/split/writer.go:81-143 | a splitter over a splitter cuts the calls of the last base at the union of the two sets |
| `HappyEyeballs.Dialer.LoopHead` | outline-sdk-main/outline-sdk-main/transport/happyeyeballs.go:165-184 | ends exactly when nothing is pending, else waits for nothing, the resolution delay, set once, or the last attempt, exactly as the queues, the last address and the resolution say |
| `HappyEyeballs.Dialer.ReceiveLookup` | outline-sdk-main/outline-sdk-main/transport/happyeyeballs.go:186-205 | arrived addresses join their family's queue in order; the count of pending operations stays right; work shrinks |
| `HappyEyeballs.Dialer.Choose` | outline-sdk-main/outline-sdk-main/transport/happyeyeballs.go:209-218 | one dial more, in arrival order per family, following the planned order; it goes on record with the queues, the resolution, the delay and the cancellation as they are, and that record obeys sections 4 and 8 of RFC 8305 |
| `HappyEyeballs.Dialer.PickNext` | outline-sdk-main/outline-sdk-main/transport/happyeyeballs.go:210-218 | takes the head of one queue; with both waiting the families alternate, IPv6 first |
| `HappyEyeballs.Dialer.StartDial` | outline-sdk-main/outline-sdk-main/transport/happyeyeballs.go:207-236 | starts one goroutine for the next planned address; after the first one only when the last is over or has had its time; work shrinks |
| `HappyEyeballs.Dialer.ReceiveDial` | outline-sdk-main/outline-sdk-main/transport/happyeyeballs.go:238-245 | a success is returned, a failure is recorded, the count stays right |
| `HappyEyeballs.Dialer.GiveUp` | outline-sdk-main/outline-sdk-main/transport/happyeyeballs.go:228-234 | a goroutine nobody listens to closes the connection it made, and only that one |
| `HappyEyeballs.Dialer.Step` | outline-sdk-main/outline-sdk-main/transport/happyeyeballs.go:166-251 | every event of every interleaving keeps all invariants, moves the goroutines and delays exactly as said, dials only when paced, and strictly lowers the work left unless it is a timer or the cancellation |
| `HappyEyeballs.Dialer.StepInFields` | outline-sdk-main/outline-sdk-main/transport/happyeyeballs.go:166-251 | each event takes effect exactly when the fields say so: a dial exactly when the loop waits for an attempt and there is none yet, its delay is over or the last one is over, or when it waits for the resolution delay and that is over or the caller has cancelled; what the loop waits for next, and that a running resolution delay is not set anew |
| `HappyEyeballs.Dialer.NeverStuck` | outline-sdk-main/outline-sdk-main/transport/happyeyeballs.go:185-250 | while the loop runs some event is possible |
| `HappyEyeballs.Dialer.FailureIsTotal` | outline-sdk-main/outline-sdk-main/transport/happyeyeballs.go:252-258 | an aggregate failure means: all results read, every address of an error-free result dialled exactly once in order, all failed; and which error it is |
| `HappyEyeballs.Dialer.NoConnectionLeaks` | outline-sdk-main/outline-sdk-main/transport/happyeyeballs.go:224-249 | each connection made is either the one returned or closed, never both, and at most one is returned |
| `HappyEyeballs.PlanInterleaves` | outline-sdk-main/outline-sdk-main/transport/happyeyeballs.go:209-218 | if nothing more arrives the dialling order is the interleaving of the two lists |
| `HappyEyeballs.OnlyMeans` | outline-sdk-main/outline-sdk-main/transport/happyeyeballs.go:196-205 | each address goes to the queue of its family, and none is lost |
| `HappyEyeballs.ArrivedMeans` | outline-sdk-main/outline-sdk-main/transport/happyeyeballs.go:187-205 | addresses count as arrived exactly if a result without an error brings them |
| `HappyEyeballs.Continue` | outline-sdk-main/outline-sdk-main/transport/happyeyeballs.go:121-259 | any schedule from any state: productive events so far + work left never grows, the order of dialling is fixed once resolution has closed, and an outcome stays |
| `HappyEyeballs.Run` | outline-sdk-main/outline-sdk-main/transport/happyeyeballs.go:121-259 | at the end of any schedule all invariants hold, and no more productive events have happened than one, one for each result and four for each address |
| `HappyEyeballs.RunToEnd` | outline-sdk-main/outline-sdk-main/transport/happyeyeballs.go:166-251 | from any reachable state the loop can be brought to its end |
| `HappyEyeballs.RunAfterResolution` | outline-sdk-main/outline-sdk-main/transport/happyeyeballs.go:121-259 | with all results in first, the dials are at all times a beginning of that interleaving |
| `LookupFanOut.FanOut.Step` | outline-sdk-main/outline-sdk-main/transport/happyeyeballs.go:84-101 | in every interleaving a sender finds room and an open channel, a closer finds it open with everything sent, and each event changes just what it says |
| `LookupFanOut.FanOut.StepInFields` | outline-sdk-main/outline-sdk-main/transport/happyeyeballs.go:84-101 | each event takes effect exactly when its goroutine is at that point |
| `LookupFanOut.FanOut.NeverStuck` | outline-sdk-main/outline-sdk-main/transport/happyeyeballs.go:84-101 | as long as a goroutine is not over, one can go on |
| `LookupFanOut.FanOut.UnsentCounted` | outline-sdk-main/outline-sdk-main/transport/happyeyeballs.go:94-99 | when the counter reaches zero every lookup has sent |
| `LookupFanOut.FanOut.ClosedOnce` | outline-sdk-main/outline-sdk-main/transport/happyeyeballs.go:84-101 | at the end each lookup has sent once and the channel was closed once, also for no lookups |
| `DnsCache.EqualASCIIName` | outline-sdk-main/outline-sdk-main/dns/resolver.go:133-145 | equal exactly when the names agree up to ASCII case |
| `DnsCache.CanonicalIffSameName` | outline-sdk-main/outline-sdk-main/x/smart/cache.go:27-37 | lower-casing identifies exactly the names the response check identifies by upper-casing |
| `DnsCache.FoldCaseBytes` | outline-sdk-main/outline-sdk-main/dns/resolver.go:125-131 | two bytes fold alike exactly if they are the same or one letter in both cases |
| `DnsCache.LastBar` | outline-sdk-main/outline-sdk-main/x/smart/cache.go:78-81 | the separator parses one way only, even if the name contains it |
| `DnsCache.SameKeyIff` | outline-sdk-main/outline-sdk-main/x/smart/cache.go:78-81 | two questions share a key exactly when name (up to case), type and class agree |
| `DnsCache.MoveToFront` | outline-sdk-main/outline-sdk-main/x/smart/slice_helper.go:17-23 | the overlapping copy rotates the prefix; an index out of range changes nothing |
| `DnsCache.PurgedExactly` | outline-sdk-main/outline-sdk-main/x/smart/cache.go:60-72 | a purge drops exactly what has expired |
| `DnsCache.PurgedGood` | outline-sdk-main/outline-sdk-main/x/smart/cache.go:60-72 | purging keeps the order of use, newest-first per key, and provenance |
| `DnsCache.FrontedGood` | outline-sdk-main/outline-sdk-main/x/smart/cache.go:83-95 | so does a hit, which becomes the most recently used |
| `DnsCache.PushedGood` | outline-sdk-main/outline-sdk-main/x/smart/cache.go:97-108 | so does an addition, which evicts the least recently used entry of a full array |
| `DnsCache.Cache.RemoveExpired` | outline-sdk-main/outline-sdk-main/x/smart/cache.go:60-72 | keeps exactly the entries that expire after now, in order, in place |
| `DnsCache.Cache.SearchCache` | outline-sdk-main/outline-sdk-main/x/smart/cache.go:83-95 | the first entry of the key moves to front and its message is returned; otherwise nothing changes |
| `DnsCache.Cache.AddToCache` | outline-sdk-main/outline-sdk-main/x/smart/cache.go:97-108 | the new entry in front, never more entries than the capacity |
| `DnsCache.Server.Step` | outline-sdk-main/outline-sdk-main/x/smart/cache.go:110-126 | any interleaving of the locked operations of any number of queries: a query drops exactly what has expired, is answered from the first entry of its key and asks if there is none; a success or name error goes to the front of the cache for sixty seconds, any other reply leaves the cache alone; an answer given is final |
| `DnsCache.Server.Search` | outline-sdk-main/outline-sdk-main/x/smart/cache.go:83-95 | a hit is the message of the first entry of the key, and keeps that entry's expiry |
| `DnsCache.Serve` | outline-sdk-main/outline-sdk-main/x/smart/cache.go:110-126 | each query's key and time are those of the event that began it; each answer is a reply of the inner resolver in the schedule, to a query of the same key; a hit was put in the cache less than 60 seconds before that query read the clock, and is a success or a name error, as is everything in the cache |
| `TestRace.Race.StartNext` | outline-sdk-main/outline-sdk-main/x/smart/racer.go:51-69 | in range, in order, once each; after the first only when the test before is over, its wait has expired or the caller has cancelled |
| `TestRace.Race.TakeResult` | outline-sdk-main/outline-sdk-main/x/smart/racer.go:71-77 | takes the result sent first; the first success received wins; the last failure ends the race |
| `TestRace.Race.Send` | outline-sdk-main/outline-sdk-main/x/smart/racer.go:65-69 | sending a result finds room in the channel |
| `TestRace.Race.Step` | outline-sdk-main/outline-sdk-main/x/smart/racer.go:44-79 | every event keeps all of it and changes tests, channel and wait exactly as said; the start rule; the outcome is final |
| `TestRace.Race.StepInFields` | outline-sdk-main/outline-sdk-main/x/smart/racer.go:44-79 | each event takes effect exactly when the fields say so: a start, a result, a cancellation; and each result received decides the race as stated |
| `TestRace.Race.FailureIsTotal` | outline-sdk-main/outline-sdk-main/x/smart/racer.go:80-81 | 'all tests failed' means every entry was tested and failed |
| `TestRace.Race.NeverStuck` | outline-sdk-main/outline-sdk-main/x/smart/racer.go:44-79 | while the race is on some event is possible |
| `Socks5Address.AppendAddress` | outline-sdk-main/outline-sdk-main/transport/socks5/socks5.go:112-151 | appends the wire form, or fails exactly for names over 255 bytes; an IPv4-mapped IPv6 address is written as IPv4 |
| `Socks5Address.AddrRoundTrip` | outline-sdk-main/outline-sdk-main/transport/socks5/socks5.go:112-195 | what is printed is parsed back, leaving exactly what follows; only the mapped form changes |
| `Socks5Address.AddrBytes` | outline-sdk-main/outline-sdk-main/transport/socks5/socks5.go:112-151 | the wire form in bytes, for each kind of address |
| `Socks5Address.ParsedBytes` | outline-sdk-main/outline-sdk-main/transport/socks5/socks5.go:153-195 | nothing but those bytes is taken for an address |
| `Socks5Address.ParseAddrPrefix` | outline-sdk-main/outline-sdk-main/transport/socks5/socks5.go:153-195 | a parse depends on nothing behind what it consumed |
| `Socks5Address.ReadAddr` | outline-sdk-main/outline-sdk-main/transport/socks5/socks5.go:153-195 | on every reader and fragmentation, succeeds exactly when there is an address to see, and consumes exactly that; which reads stall is read off the reader's script |
| `Socks5Address.StalledAddr` | outline-sdk-main/outline-sdk-main/transport/socks5/socks5.go:156-178 | an address that is there is seen right exactly if the read of its type does not stall, nor that of a name's length |
| `Socks5Address.StalledType` | outline-sdk-main/outline-sdk-main/transport/socks5/socks5.go:156-161 | a reader that starts by returning nothing: a good address is refused |
| `Socks5Address.StalledLength` | outline-sdk-main/outline-sdk-main/transport/socks5/socks5.go:174-182 | one that returns nothing for a name's length: a wrong name, without an error |
| `Socks5Handshake.Client.SetCredentials` | outline-sdk-main/outline-sdk-main/transport/socks5/stream_dialer.go:51-68 | accepts exactly 1 to 255 bytes each, and changes nothing otherwise |
| `Socks5Handshake.GreetingHeard` | outline-sdk-main/outline-sdk-main/transport/socks5/stream_dialer.go:88-112 | the greeting with or without credentials is read back by a server, leaving what follows |
| `Socks5Handshake.AskingBytes` | outline-sdk-main/outline-sdk-main/transport/socks5/stream_dialer.go:88-123 | the request in bytes, with and without credentials |
| `Socks5Handshake.AskingHeard` | outline-sdk-main/outline-sdk-main/transport/socks5/stream_dialer.go:77-134 | a server recovers credentials, command and address from the one merged write |
| `Socks5Handshake.Client.Request` | outline-sdk-main/outline-sdk-main/transport/socks5/stream_dialer.go:75-209 | the whole request in one write, or nothing for a name too long; then exactly the verdict of the reply for any reader, with the stream left just behind it; WriteFailed exactly if the base failed |
| `Socks5Handshake.ReadReply` | outline-sdk-main/outline-sdk-main/transport/socks5/stream_dialer.go:136-208 | the staged reads give the reference verdict for every server, reader and fragmentation; which address reads stall is read off the reader's script |
| `Socks5Handshake.VerdictBytes` | outline-sdk-main/outline-sdk-main/transport/socks5/stream_dialer.go:145-206 | in bytes, how every reply that grants nothing is taken: which version, method, status or code is reported, and when the reply is too short |
| `Socks5Handshake.GrantUnderstood` | outline-sdk-main/outline-sdk-main/transport/socks5/stream_dialer.go:136-208 | a granting reply is understood and consumed to its last byte and no further |
| `Socks5Handshake.OnlyGrants` | outline-sdk-main/outline-sdk-main/transport/socks5/stream_dialer.go:136-208 | nothing but a granting reply is taken for one, and its meaning does not depend on what follows |
| `Socks5Handshake.PromptReply` | outline-sdk-main/outline-sdk-main/transport/socks5/stream_dialer.go:136-208 | a reader that never returns nothing without an error does not stall over any reply |
| `Socks5Handshake.StalledVerdict` | outline-sdk-main/outline-sdk-main/transport/socks5/stream_dialer.go:202-208 | a grant is taken for what it is exactly if the reads of the address type and of a name's length do not stall |
| `Socks5Handshake.Converse` | outline-sdk-main/outline-sdk-main/transport/socks5/stream_dialer.go:75-209 | whole conversation: the server hears what was asked, the client learns the bound address, later bytes are untouched |
| `Socks5Handshake.RequestSize` | outline-sdk-main/outline-sdk-main/transport/socks5/stream_dialer.go:79-85 | at most 778 bytes; more than the 772 reserved exactly when user name, password and address exceed 763 |
| `Socks5Udp.WriteTo` | outline-sdk-main/outline-sdk-main/transport/socks5/packet_listener.go:120-141 | the datagram is the header and the payload, or none for a name too long |
| `Socks5Udp.ReadFrom` | outline-sdk-main/outline-sdk-main/transport/socks5/packet_listener.go:60-118 | gives the reference reading of the datagram cut at 16 KiB; the caller's slice gets the payload and is otherwise unchanged |
| `Socks5Udp.RefusedBytes` | outline-sdk-main/outline-sdk-main/transport/socks5/packet_listener.go:67-114 | in bytes, which datagrams are refused and why, and that only 16384 bytes are looked at |
| `Socks5Udp.UnwrapUndoesWrap` | outline-sdk-main/outline-sdk-main/transport/socks5/packet_listener.go:60-141 | undone exactly when the datagram has 10 bytes to 16 KiB and the payload fits; below 10 exactly for names and payloads of under three bytes together |

## Left out

- ShadowsocksWriter.Writer.constructor: allocates the buffer that the original allocates in `init`, and does not model a salt generator or key that fails; the salt is an arbitrary string of the right size.
- ShadowsocksWriter.Writer.ReadFrom: the reads it shares with the timer are split at byte stores and at the locks, not below; the Go memory model is not part of this model.
- ShadowsocksReader.Reader.WriteTo: after a message that failed to open the counter is out of step with the frames, and only validity and the pool's safety are stated from then on.
- TlsRecordLenWriter.RecordLenWriter.ReadFrom: for sources that end with `io.EOF` and a base that accepts; the original turns other reader errors inside the first header into an end of file.
- TlsRecordLenWriter.WriteBothN: the `writev` branch for TCP connections has the same effect and is not modelled separately.
- TlsHelloWriter.HelloWriter.ReadFrom: for sources that end with `io.EOF` and a base that accepts; on another reader error inside the record the original flushes what it has and reads on.
- TlsHelloWriter.HelloWriter.Write: a panic in the split function is not modelled.
- StreamSplit.SplitWriter.ReadFrom: the base is one that reports the bytes it took; `NewFixedSplitIterator` is the case of one segment.
- HappyEyeballs.Dialer.Step: delays are events that may fire at any time, not durations. Host and port parsing, and the shortcut for a host that is already an address, are left out.
- HappyEyeballs.Dialer.Choose: the rule about a first dial to IPv4 is about the very first dial; an unset address, which the original would dial like an IPv4 one, is allowed among the results.
- DnsCache.SameKeyIff: for ASCII names; the original also replaces invalid UTF-8 in others. Types and classes are assumed to print differently and without a bar.
- DnsCache.Server.Step: the clock is a counter of seconds that never goes back.
- Socks5Handshake.Converse: for readers that never return no bytes without an error.
- Socks5Address.AppendAddress: takes structured addresses; `net.SplitHostPort`, `net.ParseIP` and `netip` are left out.
- Socks5Handshake.Client.Request: the method the server picks is not compared with the one offered, as in the original; opening and closing the connection around it, and `ListenPacket`, are left out.
- Socks5Udp.ReadFrom: a failing read of the packet connection, the conversion to `net.Addr` and the pool of packet buffers are left out.
- Real cryptography, error texts and log messages.
- `network`, `x/psiphon`, `x/configurl`, the HTTP proxies, WebSocket and TLS transports, `dns` apart from name comparison, and the application around the library: wiring, user interface and network clients.
