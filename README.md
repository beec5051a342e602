# obs-virtual-background: the segmentation pipeline, modelled in Dafny

The OBS virtual-background plugin hands each video frame through several parts:

- **`ImageScaler`** (`src/scale.c`) shrinks the frame to at most 640 pixels wide, as BGR24.
- **`SegmentationThread`** (`src/segmentation_thread.c`) is a worker. It takes the newest frame and sends it over TCP to a local segmentation service.
- **`SegmentationClient`** (`src/segmentation_client.c`) does that sending: it writes a 24-byte `RequestPreamble` followed by the pixels, then reads back a magic header, an int32 length and the person mask.
- **The service** (`node_server/server.js`) uses the request's parameters to post-process the mask and publishes its port in `${TMPDIR}/.segmentation.port`.
- **`ImgArray`** (`src/imgarray.c`) is the owned byte buffer the thread uses for frames and masks.

Each file of that core has its own modules:

| file | module | content |
|---|---|---|
| `wrappers.dfy` | `Wrappers` | `Option`, C pointers as `Ptr`, and what a caller gets from a function that falls off its end without `return` |
| `bytes.dfy` | `Bytes` | bytes, the C integer widths with wrap-around and truncation, little-endian encodings |
| `protocol.dfy` | `Protocol` | the header's constants, the `RequestPreamble` record with its C layout and byte image, the magic headers, `strncmp`, the `SocketError` codes |
| `net.dfy` | `Net` | the operating system as a value (`Env`): scripted answers of `socket`/`setsockopt`/`connect`, `write` and `recv`; the files `fopen` can read; `TMPDIR`; the bytes sent on each descriptor; a log of calls |
| `client_spec.dfy` | `ClientSpec` | each client operation as a function of the client record and the `Env`, and the properties proved about them. The loops are modelled as written, with corrected variants beside them |
| `client.dfy` | `ClientImpl` | the client as a class whose methods update its fields in place, proved equal to the `ClientSpec` functions |
| `imgarray.dfy` | `ImgArrays` | `ImgArray` as a class over an `array`, with its value-level specification |
| `thread.dfy` | `Worker` | the shared record, the worker's `local_data`, one pass of the `run_thread` loop, and the producer step |
| `server.dfy` | `Server` | the service's request gathering and decoding, the post-processing parameter rules, the response frame and the port file |
| `scale.dfy` | `Scaler` | the pixel-format table, the output dimensions and the buffer-reuse rule of the scaler |
| `theorems.dfy` | `Theorems` | the client and the service against each other |

Inputs the code does not control become parameters of the model:

- what the allocator returns is `allocOk` (null on `false`);
- the clock value is `now` or `timestamp`;
- `getenv("TMPDIR")` is `Env.tmpdir`;
- the port file is `Env.files`;
- socket calls are the scripts in `Env`. An exhausted `write` or `recv` script answers -1: that is the one-second socket timeout of a peer that keeps the connection open but sends or accepts nothing more. A `recv` answer without bytes is the peer closing the connection. It is never used up: every later `recv` answers 0 as well, as on a real stream socket. Any other answer is exactly what one `recv` call returns: bytes beyond the count asked for are dropped, not kept for the next call (see "## Left out");
- libswscale's context, the scaled height of a wide frame and the scaled pixels are arguments of `ScaleImage`.

## Model

| member | source | states |
|---|---|---|
| Wrappers.MissingReturnResult | src/imgarray.c:6-14 | an allocation failure still yields NULL; otherwise the caller receives whatever value was left over, which need not be the block |
| Wrappers.MissingReturnLosesAllocation | src/imgarray.c:6-14 | a successful allocation can reach the caller as NULL or as another address |
| Bytes.TruncInt16 | src/segmentation_client.c:60-61 | the `(int16_t)` cast is congruent to its argument mod 2^16 and the identity on the int16 range |
| Bytes.WrapU64 | src/segmentation_thread.c:98 | uint64 arithmetic is congruent mod 2^64 and the identity in range |
| Bytes.SubU64 | src/segmentation_client.c:175 | unsigned subtraction of timestamps: a - b, plus 2^64 when b > a |
| Bytes.CharByte | src/segmentation_client.c:12-13 | a signed `char` occupies the byte congruent to it mod 256 |
| Bytes.Int16RoundTrip | node_server/server.js:118-124 | readInt16LE reads back the two little-endian bytes of an int16 |
| Bytes.Int32RoundTrip | node_server/server.js:57-61 | readInt32LE reads back writeInt32LE's four bytes |
| Bytes.UInt32ReadSigned | node_server/server.js:103 | the client's uint32 length field, read by the service as Int32LE, is the same number below 2^31 and wraps negative above |
| Protocol.CharBytes | src/segmentation_client.c:12-13 | each magic-header byte is the declared `char` value taken mod 256 |
| Protocol.HeaderLengthMatchesConstants | src/segmentation_client.h:8 | both magic constants are HEADER_LENGTH (8) long; the request and response magics differ |
| Protocol.IntervalsOrdered | src/segmentation_client.h:9-10 | MIN_RECONNECT_INTERVAL (5000) is shorter than CHECK_PORT_INTERVAL (10000) |
| Protocol.PreambleLayout | src/segmentation_client.h:15-23 | under the C alignment rules the members sit at offsets 0/8/12/16/18/20/22 and `sizeof` is 24, with no padding |
| Protocol.Serialize | src/segmentation_client.c:111 | the byte image written for the preamble is `sizeof(preamble)` = 24 bytes long |
| Protocol.SerializeFields | src/segmentation_client.h:15-23 | the header, LE length, threshold bytes and the four LE int16 members occupy bytes 0-8, 8-12, 12-16, 16-18, 18-20, 20-22 and 22-24 of the image |
| Protocol.SerializeFollowsLayout | src/segmentation_client.h:15-23 | every member occupies exactly the bytes its computed C offset and size assign it |
| Protocol.StrncmpBytewise | src/segmentation_client.c:137 | against a string with no NUL in its first n bytes, `strncmp` is 0 iff the first n bytes are equal |
| Protocol.StrncmpStopsAtNul | src/segmentation_client.c:137 | without that condition the equivalence fails: strncmp stops at a shared NUL |
| Protocol.ResponseHeaderHasNoNul | src/segmentation_client.c:13 | the response magic contains no zero byte |
| Protocol.ResponseHeaderCheck | src/segmentation_client.c:137-140 | the header check accepts an 8-byte header iff it equals the response magic |
| Protocol.Code | src/segmentation_client.h:38-48 | enumerator values run from 0 through 8, and only SOCK_SUCCESS is 0 |
| Protocol.CodeInjective | src/segmentation_client.h:38-48 | distinct errors have distinct codes |
| Net.OpenRead | src/segmentation_client.c:242-252 | fopen fails iff the file is missing; fread yields at most `count` leading bytes; the open is logged |
| Net.NextAttempt | src/segmentation_client.c:188-223 | the next scripted socket/setsockopt/connect outcome is consumed, or `socket()` fails with -1 when none is left; the `socket()` call is logged |
| Net.CloseFd | src/segmentation_client.c:274 | close only logs the call |
| Net.Write | src/segmentation_client.c:119 | write returns -1 or a count of 0 to the length offered; exactly that prefix is appended to the descriptor's bytes, and nothing else changes |
| Net.Recv | src/segmentation_client.c:162 | recv returns -1 with no bytes, or delivers at most `count` leading bytes of the next answer, with the count equal to the bytes delivered; on a closed stream it answers 0 and the stream stays closed |
| Net.Closed | src/segmentation_client.c:162 | the peer has closed its side: the next answer is the empty one, and it is never used up |
| ClientSpec.Initial | src/segmentation_client.c:25-44 | a fresh client has socket -1, port -1, no mask, mask size 0, threshold 0.5f and the request header |
| ClientSpec.Invalidate | src/segmentation_client.c:271-277 | afterwards the socket is -1; only the call log changes in the environment |
| ClientSpec.InvalidateIdempotent | src/segmentation_client.c:271-277 | invalidating twice equals invalidating once; an open socket is closed exactly once; a closed one changes nothing |
| ClientSpec.PortFilePath | src/segmentation_client.c:233-240 | defines the path the client opens: TMPDIR, or /tmp only when TMPDIR is unset, then `/.segmentation.port` |
| ClientSpec.PortStep | src/segmentation_client.c:228-257 | the cached port comes back untouched while it is fresh; otherwise the file is opened. A missing file gives -1 with the cache left alone; a file that was read is cached with the time, a short one as -1 |
| ClientSpec.GateStep | src/segmentation_client.c:170-225 | an open socket is reused; inside MIN_RECONNECT_INTERVAL the gate answers -1 and changes nothing; the attempt is stamped exactly when `socket()` is called; every non-connected outcome leaves socket -1 |
| ClientSpec.GateSocketCalls | src/segmentation_client.c:184-191 | one gate call adds exactly one `socket()` to the log when it attempts a connection, and none otherwise |
| ClientSpec.GateNoPort | src/segmentation_client.c:179-182 | with no port the gate returns 7, neither stamps the attempt nor calls `socket()`, and consumes no attempt |
| ClientSpec.ThrottleSpacing | src/segmentation_client.c:175-185 | over any run of gate calls at ascending times, with connections dropped at will, successive `socket()` calls are at least MIN_RECONNECT_INTERVAL apart, and so is the first from the previous stamp |
| ClientSpec.ThrottleBound | src/segmentation_client.c:175-185 | a run ending at time T creates at most (T - last stamp) / MIN_RECONNECT_INTERVAL sockets |
| ClientSpec.GetMaskSpec | src/segmentation_client.c:259-269 | the buffer is kept when it exists with the requested size; otherwise it is replaced by a zeroed one, or NULL on allocation failure; the size is set either way |
| ClientSpec.AdvanceWraps | src/segmentation_client.c:120 | `current_offset += written` is size_t addition: -1 at offset 0 wraps to SIZE_MAX |
| ClientSpec.PayloadLoop | src/segmentation_client.c:117-121 | the as-written loop always stops at or past the frame's end |
| ClientSpec.PayloadReachesEnd | src/segmentation_client.c:117-121 | when every write accepts at least one byte, the offset climbs strictly and ends exactly at `frame_total_size` |
| ClientSpec.PayloadSendsRest | src/segmentation_client.c:117-121 | with such writes the bytes on the wire are exactly the rest of the frame |
| ClientSpec.PayloadHonest | src/segmentation_client.c:117-121 | both together: the offset ends at the frame size and the frame's rest is on the wire |
| ClientSpec.Framed | src/segmentation_client.c:109 | only the length field changes, and it is 24 + payload size (mod 2^32) |
| ClientSpec.ShortPreambleWrite | src/segmentation_client.c:111-115 | a short preamble write answers SOCK_PREAMBLE_WRITE_FAILURE, leaves socket -1, keeps the mask and has already set the length |
| ClientSpec.WriteSpec | src/segmentation_client.c:105-123 | defines write_request as written: the length set, the preamble written (a short write fails with socket -1), then the unchecked payload loop, answering 0 |
| ClientSpec.WriteHonest | src/segmentation_client.c:105-123 | with honest writes the request returns 0, sets the length and puts exactly the framed preamble then the frame on the wire |
| ClientSpec.ReadLoop | src/segmentation_client.c:160-164 | the as-written mask loop keeps the buffer's length. It is defined only when it ends with total_read equal to the mask length. It spins only at a total in range on a closed stream, and then it is not defined |
| ClientSpec.ReadSteps | src/segmentation_client.c:161-164 | at most `fuel` iterations of the as-written loop body; the buffer stays its length and total_read never passes it |
| ClientSpec.ClosedNeverEnds | src/segmentation_client.c:161-164 | once the peer has closed, any number of iterations leaves the buffer, total_read and the stream unchanged, so the loop test `total_read < mask_length` holds for ever |
| ClientSpec.ReadLoopSpins | src/segmentation_client.c:161-164 | wherever `ReadLoop` reports spinning, no number of further iterations ends the loop |
| ClientSpec.ClosedRecv | src/segmentation_client.c:162 | on a closed stream recv answers 0, delivers nothing and leaves the stream closed |
| ClientSpec.SpliceNothing | src/segmentation_client.c:162 | a recv that delivers nothing leaves the mask as it was |
| ClientSpec.ReadLoopHonest | src/segmentation_client.c:160-164 | when recv answers deliver the rest in non-empty chunks, the loop ends at the mask length holding exactly those bytes and uses up exactly those answers |
| ClientSpec.ReadSpec | src/segmentation_client.c:125-166 | defines read_response as written: header, magic check, length, get_mask, the mask loop, each failure with its code and invalidation |
| ClientSpec.ReadFailure | src/segmentation_client.c:130-152 | a failed read answers its code and invalidates the socket; nothing else in the record changes |
| ClientSpec.ReadMask | src/segmentation_client.c:149-165 | a negative length gives SOCK_NEGATIVE_RESPONSE_SIZE and the mask is untouched; otherwise mask_size becomes the length |
| ClientSpec.BadHeaderKeepsMask | src/segmentation_client.c:137-140 | a header that is not the response magic answers SOCK_INVALID_RESPONSE_HEADER, drops the socket and keeps mask and mask_size |
| ClientSpec.ShortHeaderKeepsMask | src/segmentation_client.c:130-135 | a header recv that does not return exactly HEADER_LENGTH bytes answers SOCK_NO_HEADER_READ, drops the socket and keeps mask and mask_size |
| ClientSpec.ShortLengthKeepsMask | src/segmentation_client.c:142-147 | after a correct header, a length recv that does not return exactly four bytes answers SOCK_UNDERREAD_MASK, drops the socket and keeps mask and mask_size |
| ClientSpec.ReadSuccessNeedsFullResponse | src/segmentation_client.c:130-165 | a read returns 0 only if the header recv delivered exactly RESPONSE_HEADER and the length recv four bytes of a non-negative length, which becomes mask_size |
| ClientSpec.ReadMaskRoundTrip | src/segmentation_client.c:154-165 | a mask delivered in non-empty chunks is read back exactly; the buffer is reused when the size is unchanged |
| ClientSpec.ReadResponseRoundTrip | src/segmentation_client.c:125-166 | header + Int32LE(n) + n mask bytes in chunks: read_response returns 0 and the client holds exactly that mask with mask_size n |
| ClientSpec.RunSpec | src/segmentation_client.c:71-92 | defines run_segmentation as written: the gate, then write and read on whatever non-negative value it returned |
| ClientSpec.RoundKeepsMask | src/segmentation_client.c:71-92 | every round keeps the mask buffer mask_size bytes long, and a round returning 0 leaves a mask |
| ClientSpec.ReadKeepsMask | src/segmentation_client.c:125-166 | the same for read_response alone |
| ClientSpec.NoPortWritesToDescriptor7 | src/segmentation_client.c:75-80 | as written, with no port file, the round opens the file and then writes the request preamble to descriptor 7 |
| ClientSpec.SocketFailureWritesToDescriptor8 | src/segmentation_client.c:75-80 | as written, when `socket()` fails the round goes on to write to descriptor 8 |
| ClientSpec.PayloadTimeoutReportsSuccess | src/segmentation_client.c:117-122 | as written, a payload write that times out at offset 0 ends the loop, and write_request reports success with none of the frame sent |
| ClientSpec.PayloadErrorStepsBack | src/segmentation_client.c:117-121 | as written, an error after one byte moves the offset back, so that byte is sent twice |
| ClientSpec.ReadTimeoutUndefined | src/segmentation_client.c:160-164 | as written, a first mask recv that times out drives total_read to -1, so the next recv would write before the buffer |
| ClientSpec.ReadClosedHangs | src/segmentation_client.c:125-166 | as written, a response whose header and length arrive, after which the service closes the connection, makes read_response spin for ever (`Hangs`) |
| ClientSpec.RunGuarded | src/segmentation_client.c:75-78 | corrected round: unless the gate reused or established a socket, the round returns the gate's code with nothing more done |
| ClientSpec.GuardedNoPort | src/segmentation_client.c:75-78 | corrected round without a port file: it answers SOCK_NO_SEGMENTATION_PORT and has only tried to open the file |
| ClientSpec.GuardedSendsOnlyOnSocket | src/segmentation_client.c:75-91 | corrected round: no bytes go to any descriptor other than the socket the gate left |
| ClientSpec.PayloadChecked | src/segmentation_client.c:117-121 | corrected loop: the offset never passes the frame's end |
| ClientSpec.CheckedStep | src/segmentation_client.c:117-121 | one checked write either stops where it is or advances by what was sent, and those bytes are the frame's |
| ClientSpec.PayloadCheckedPrefix | src/segmentation_client.c:117-121 | whatever the writes answer, the corrected loop has sent exactly the frame's bytes up to its final offset |
| ClientSpec.WriteCheckedShort | src/segmentation_client.c:111-115 | corrected writer, short preamble: fails with socket -1, having sent a proper prefix of the preamble |
| ClientSpec.WriteCheckedPayload | src/segmentation_client.c:117-121 | corrected writer, full preamble: it sent the preamble and a frame prefix; it returns 0 iff that prefix is the whole frame |
| ClientSpec.WriteCheckedSends | src/segmentation_client.c:105-123 | the corrected writer always puts a prefix of the request on the wire, all of it iff it returns 0 |
| ClientSpec.WriteCheckedComplete | src/segmentation_client.c:105-123 | the corrected writer returns 0 iff the whole request reached the socket, and otherwise fails with socket -1 |
| ClientSpec.ReadLoopChecked | src/segmentation_client.c:160-164 | corrected mask loop: total stays within the buffer, and the loop succeeds iff it read the whole length |
| ClientSpec.CheckedChunkStep | src/segmentation_client.c:162-163 | one checked recv that delivers a chunk appends it to the buffer's filled prefix |
| ClientSpec.ReadLoopCheckedFills | src/segmentation_client.c:160-164 | on a well-formed stream the corrected loop fills the buffer with the bytes sent |
| ClientSpec.ReadLoopCheckedConsumes | src/segmentation_client.c:160-164 | on a well-formed stream the corrected loop uses up exactly the chunks and changes nothing else |
| ClientSpec.ReadLoopCheckedHonest | src/segmentation_client.c:160-164 | on a well-formed stream the corrected loop reads what the as-written one reads |
| ClientSpec.ReadMaskChecked | src/segmentation_client.c:149-165 | with the corrected loop the mask step always ends in a return code |
| ClientSpec.ReadCheckedDefined | src/segmentation_client.c:125-166 | whatever recv answers, including a close, the corrected reader ends with a return code, 0 only with a mask of mask_size bytes |
| ClientSpec.ReadCheckedRoundTrip | src/segmentation_client.c:125-166 | the corrected reader reads a well-formed response back exactly as the original does |
| ClientImpl.SegmentationClient.constructor | src/segmentation_client.c:25-44 | the record equals `Initial()`, with last_connect_timestamp zeroed by bzalloc |
| ClientImpl.SegmentationClient.SetDimensions | src/segmentation_client.c:58-62 | height and width are truncated to int16 and stored; no other field changes |
| ClientImpl.SegmentationClient.SetParameters | src/segmentation_client.c:64-69 | the threshold is stored as is, blur and growshrink truncated to int16; no other field changes |
| ClientImpl.SegmentationClient.GetMask | src/segmentation_client.c:94-97 | returns the mask buffer, NULL before any round |
| ClientImpl.SegmentationClient.GetMaskSize | src/segmentation_client.c:99-102 | returns mask_size |
| ClientImpl.SegmentationClient.InvalidateConnection | src/segmentation_client.c:271-277 | in-place version of `Invalidate` |
| ClientImpl.SegmentationClient.Destroy | src/segmentation_client.c:46-56 | the mask is released, then the connection is invalidated |
| ClientImpl.SegmentationClient.GetSegmentationPort | src/segmentation_client.c:228-257 | in-place version of `PortStep` |
| ClientImpl.SegmentationClient.GetClientSocket | src/segmentation_client.c:170-225 | in-place version of `GateStep`, returning the integer the C function returns |
| ClientImpl.SegmentationClient.GetMaskBuffer | src/segmentation_client.c:259-269 | in-place version of `GetMaskSpec`; a replaced buffer is a fresh allocation |
| ClientImpl.SegmentationClient.WriteRequest | src/segmentation_client.c:105-123 | writes the preamble, then offers the rest of the frame to each write; its loop is proved to agree with `WriteSpec` |
| ClientImpl.SegmentationClient.ReadResponse | src/segmentation_client.c:125-152 | in-place version of `ReadSpec` |
| ClientImpl.SegmentationClient.ReceiveMask | src/segmentation_client.c:149-165 | in-place version of `ReadMask` |
| ClientImpl.SegmentationClient.RunSegmentation | src/segmentation_client.c:71-92 | in-place version of `RunSpec`, the round as written |
| ClientImpl.FillMask | src/segmentation_client.c:160-164 | the while loop over the mask array agrees with `ReadLoop` in the bytes, the defined flag and the spin flag. It stops at a close instead of looping |
| ClientImpl.Deliver | src/segmentation_client.c:162 | recv's bytes land in the array from `mask + total_read` on, and nothing else changes |
| ImgArrays.EnsureSpec | src/imgarray.c:56-67 | defines the ensure rule: keep a buffer of the right size, otherwise a zeroed one or none |
| ImgArrays.CopyRawSpec | src/imgarray.c:28-36 | defines copy_from_raw_buffer: ensure, then copy the first n bytes, 1 when there is no buffer |
| ImgArrays.CopyArraySpec | src/imgarray.c:38-44 | defines copy_from_array: 1 for a source without a buffer, otherwise the raw copy of its buffer |
| ImgArrays.EnsureSized | src/imgarray.c:56-67 | afterwards the size is the request; there is no buffer iff nothing could be reused and allocation failed; a new buffer is zeroed |
| ImgArrays.CopyRawCopies | src/imgarray.c:28-36 | the copy returns 0 with exactly the source's first n bytes, or 1 with no buffer; 1 iff allocation was needed and failed |
| ImgArrays.CopyArrayReplicates | src/imgarray.c:38-44 | a source with no buffer gives 1 and nothing changes; otherwise the size follows the source, and 0 iff the result equals the source |
| ImgArrays.CopyArrayIntoSameSize | src/imgarray.c:38-44 | a copy into an array that already has the source's size cannot fail |
| ImgArrays.CopyArrayIdempotent | src/imgarray.c:38-44 | repeating a successful copy changes nothing and succeeds |
| ImgArrays.ImgArray.constructor | src/imgarray.c:6-14 | the intended result: no buffer, size 0 |
| ImgArrays.ImgArray.EnsureBuffer | src/imgarray.c:56-67 | in-place version of `EnsureSpec`: a reusable buffer is the same object; a replacement is fresh or NULL; the returned pointer is the buffer |
| ImgArrays.ImgArray.CopyFromRaw | src/imgarray.c:28-36 | in-place version of `CopyRawSpec` (the memcpy as an elementwise update) |
| ImgArrays.ImgArray.CopyFromArray | src/imgarray.c:38-44 | in-place version of `CopyArraySpec`; `other` is not modified; a source without a buffer leaves the target's buffer as it was |
| Worker.Admit | src/segmentation_thread.c:125-129 | the pass idles iff the remembered counter equals the one seen; as written the remembered counter is kept, as intended it becomes the one seen |
| Worker.AsWrittenNeverAdvances | src/segmentation_thread.c:125-129 | as written, the remembered counter never changes over any sequence of passes |
| Worker.AsWrittenIdlesOnlyAtZero | src/segmentation_thread.c:108-129 | as written, from the zero initialiser, a pass idles iff the shared counter is 0 |
| Worker.AsWrittenResends | src/segmentation_thread.c:125-129 | as written, two passes that see the same non-zero counter both go ahead |
| Worker.IntendedTracks | src/segmentation_thread.c:125-129 | with the intended assignment the remembered counter is the last one seen |
| Worker.IntendedIdlesUntilNewFrame | src/segmentation_thread.c:125-129 | with the intended assignment a pass idles iff the counter has not moved since the previous pass |
| Worker.FrontSpec | src/segmentation_thread.c:116-144 | a pass that reaches the client holds a replica of the shared frame and its timestamp |
| Worker.PublishSpec | src/segmentation_thread.c:152-166 | after a round the pass always counts as having called the client, and takes the client and environment from the round |
| Worker.BackSpec | src/segmentation_thread.c:146-166 | the round followed by the publish |
| Worker.FrontExitsWhenStopped | src/segmentation_thread.c:117-124 | a pass exits iff the running flag reads 0, and then it has only copied the flag and the counter |
| Worker.FrontFollowsAdmission | src/segmentation_thread.c:125-136 | a running pass idles iff the new-frame check says so, and sleeps without a frame iff the check passes and the shared buffer is NULL; the counters end as the check sets them |
| Worker.FrontCopyFails | src/segmentation_thread.c:138-141 | the local copy fails only when it needed a new allocation and the allocator failed |
| Worker.PublishSkipsFailedRound | src/segmentation_thread.c:152-155 | a non-zero result is a missed cycle with that code; a mask loop that ran off the buffer is undefined; a round that spins on a closed connection is a hung pass; in all these cases the shared mask is unchanged |
| Worker.PublishCopiesClientMask | src/segmentation_thread.c:157-166 | after a zero result the pass publishes iff the shared mask's size and bytes become the client's; a failed publish leaves no shared mask and ends the loop |
| Worker.PassSpec | src/segmentation_thread.c:116-169 | defines one pass of the loop: the front part, and when it goes on, the round on the copy and the publish |
| Worker.PassParts | src/segmentation_thread.c:116-169 | a pass is the front part, then, when it goes on, exactly the round and the publish |
| Worker.PassRunsOnCopy | src/segmentation_thread.c:116-169 | a pass calls the client iff the front goes on. It then runs on a replica of the shared frame with its timestamp. Shared frame, counter, flag and timestamp never change; a pass that does not call the client changes nothing shared |
| Worker.UpdateSpec | src/segmentation_thread.c:94-101 | defines update_buffer: timestamp set, counter up by one mod 2^64, the frame copied |
| Worker.UpdateWakesWorker | src/segmentation_thread.c:94-101 | an update keeps the record valid and always moves the counter (also through wrap-around); with the intended rule it wakes a worker that has caught up |
| Worker.AsWrittenPassResends | src/segmentation_thread.c:116-129 | as written, a pass that went ahead is followed by another that goes ahead on the same counter |
| Worker.IntendedPassIdlesOnSameFrame | src/segmentation_thread.c:116-129 | with the intended rule, the pass after one that went ahead idles while the counter is unchanged |
| Worker.LocalData.constructor | src/segmentation_thread.c:108-114 | zero timestamp and counters (last_buffer_counter as an omitted member), running, an empty local array |
| Worker.SegmentationThread.constructor | src/segmentation_thread.c:25-39 | an empty frame and mask, counter 0, running, a fresh client |
| Worker.SegmentationThread.UpdateBuffer | src/segmentation_thread.c:94-101 | in-place version of `UpdateSpec`: the timestamp is set, the counter goes up by one mod 2^64, and the frame is copied |
| Worker.SegmentationThread.SetDimensions | src/segmentation_thread.c:78-83 | the client's height and width are set; no other field changes |
| Worker.SegmentationThread.SetParameters | src/segmentation_thread.c:86-91 | the client's threshold, blur and growshrink are set; no other field changes |
| Worker.SegmentationThread.Stop | src/segmentation_thread.c:61-63 | only the running flag changes, to false |
| Worker.SegmentationThread.GetMask | src/segmentation_thread.c:178-184 | `CopyArraySpec` from the published mask into dst: 1 and dst unchanged before any publish; the record is unchanged |
| Worker.SegmentationThread.Iterate | src/segmentation_thread.c:116-169 | one pass of the loop body in place, equal to `PassSpec` |
| Worker.SegmentationThread.TakeFrame | src/segmentation_thread.c:117-144 | the loop body up to the client call, equal to `FrontSpec`; the shared record is untouched |
| Worker.SegmentationThread.RoundAndPublish | src/segmentation_thread.c:146-166 | the rest of the loop body, equal to `BackSpec`; only the client and the shared mask change |
| Worker.SegmentationThread.RunRound | src/segmentation_thread.c:146-151 | the client call on the local copy, equal to `RunSpec`; a zero result leaves a mask |
| Worker.SegmentationThread.PublishMask | src/segmentation_thread.c:157-166 | the client's mask is copied into the shared mask; the decision is Published iff the copy returned 0 |
| Server.HeadersMatchClient | node_server/server.js:13-14 | the service's magic bytes equal the client's signed-char constants mod 256 |
| Server.Fill | node_server/server.js:106-110 | when the await loop stops, it has taken enough chunks to reach the target |
| Server.FillIsFirst | node_server/server.js:106-110 | the loop stops at the first chunk count that reaches the target |
| Server.FillTakesAll | node_server/server.js:106-110 | with non-empty chunks and a target of all their bytes, every chunk is taken |
| Server.Live | node_server/server.js:98-100 | after the header check the socket still delivers every chunk when the header matched, and none after the first k when `socket.destroy()` ran |
| Server.GatherSpec | node_server/server.js:90-112 | defines the two loops: the first until 12 bytes, the header compared, the size read at offset 8, the second over the live chunks until the size; Stalled when an await never resolves |
| Server.AwaitChunks | node_server/server.js:106-110 | the await loop stops with the chunks `Fill` names, or reports that the socket runs dry first |
| Server.GatherRequest | node_server/server.js:90-112 | the two accumulation loops agree with `GatherSpec`; after a header mismatch the second loop sees only the chunks already taken |
| Server.FirstGather | node_server/server.js:90-100 | the first loop stops, and the chunks it took hold the buffer's header and size field |
| Server.GatherWhole | node_server/server.js:90-112 | whatever the chunking, a buffer that starts with the request magic and whose size field is its own length is gathered whole, with the header accepted |
| Server.WrongHeaderGather | node_server/server.js:95-110 | a buffer with another header is gathered iff the first loop already took every chunk, that is iff the chunks before the last hold fewer than 12 bytes; then it is gathered whole with the header rejected |
| Server.RequestFraming | node_server/server.js:96-103 | a client request starts with its preamble's header, and its Int32LE size at offset 8 is its own length |
| Server.ParseRequest | node_server/server.js:116-125 | defines the reads at offsets 12, 16, 18, 20 and 22 and the payload from 24; a buffer shorter than 24 bytes throws (None) |
| Server.HandleSpec | node_server/server.js:95-125 | defines what a gathered request leads to: the socket destroyed iff the header mismatched, and the decoded request |
| Server.ParsePreamble | node_server/server.js:116-125 | the reads at 12/16/18/20/22 give back every member the client serialised, and the payload from 24 on is the frame |
| Server.RequestRoundTrip | node_server/server.js:90-125 | the client's request, in any non-empty chunks, is gathered with the header accepted and decodes to the client's parameters and frame |
| Server.WrongHeaderStillDecoded | node_server/server.js:95-125 | a client request with a wrong header destroys the socket. It is decoded iff the chunks before the last hold fewer than 12 bytes, and then to the client's parameters and frame; otherwise the handler stalls |
| Server.WrongHeaderSeparateWritesStall | node_server/server.js:95-110 | a wrong-header request that arrives as the preamble write and then the frame write leaves the handler waiting for ever |
| Server.PrepareHolder | node_server/server.js:126-135 | defines the holder rule: a new holder of the request's size when there is none or its size differs |
| Server.PrepareHolderFits | node_server/server.js:127-136 | afterwards the holder has the request's dimensions, and it was reallocated iff it did not have them |
| Server.Morphology | node_server/server.js:155-159 | defines the choice of dilation, erosion or neither by the sign of growshrink |
| Server.MorphologyBySign | node_server/server.js:155-159 | growshrink > 0 dilates, < 0 erodes, 0 does neither; the kernel side is abs(growshrink) |
| Server.MorphologyMirror | node_server/server.js:155-159 | negating growshrink swaps dilation and erosion and keeps the kernel |
| Server.BlurKernel | node_server/server.js:160-163 | defines the blur kernel side 2*blur+1 when blur > 0 |
| Server.BlurKernelOdd | node_server/server.js:160-163 | a kernel exists iff blur > 0; its side 2*blur+1 is odd, at least 3, and gives back blur |
| Server.GetIntBuffer | node_server/server.js:57-61 | the buffer holds four bytes |
| Server.GetIntBufferReadsBack | node_server/server.js:57-61 | readInt32LE of the buffer is the value written |
| Server.EncodeResponse | node_server/server.js:167-171 | defines the three writes of a response: the magic, the Int32LE length, the mask |
| Server.NullImageResponse | node_server/server.js:142-145 | defines the two writes for an undecodable image: the magic and Int32LE(-1) |
| Server.EncodeResponseParts | node_server/server.js:167-171 | a response splits into the response magic, an Int32LE equal to the mask's length, and the mask |
| Server.PortFileBytes | node_server/server.js:197-200 | the port file is the four-byte buffer whose Int32LE reading is the port |
| Server.ServerPortPath | node_server/server.js:11 | defines the path the service writes: TMPDIR, or /tmp when TMPDIR is unset or empty, then `/.segmentation.port` |
| Theorems.ClientRequestDecodedByServer | src/segmentation_client.c:105-123 | with honest writes on a fresh socket, any non-empty chunking of what the client wrote is gathered and decoded to the client's parameters and frame |
| Theorems.WriteOnFreshSocket | src/segmentation_client.c:105-123 | with honest writes a fresh socket carries exactly the framed preamble then the frame |
| Theorems.FramedRequestDecoded | node_server/server.js:90-125 | a framed preamble plus frame is decoded whatever the chunking |
| Theorems.ServerResponseReadByClient | node_server/server.js:169-171 | the service's response, arriving as its header and length writes and then the mask in pieces, is read by the client as success with exactly the service's mask |
| Theorems.NullImageRejectedByClient | node_server/server.js:142-145 | the null-image reply (length -1) makes the client answer SOCK_NEGATIVE_RESPONSE_SIZE and drop the socket |
| Theorems.PortFileReadByClient | node_server/server.js:197-200 | the service's port file, at the path the client opens, is read back as the port and cached with the time |
| Theorems.PortPathsAgree | node_server/server.js:11 | once an empty TMPDIR counts as unset, the client's path equals the service's for every TMPDIR, and equals the as-written path for every non-empty one |
| Theorems.EmptyTmpdirMissesPortFile | src/segmentation_client.c:233-240 | with TMPDIR set to "", the client opens "/.segmentation.port" while the service writes "/tmp/.segmentation.port" |
| Scaler.FfmpegFormat | src/scale.c:8-46 | defines the table from OBS formats to FFmpeg pixel formats, with AV_PIX_FMT_NONE by default |
| Scaler.NewDimensions | src/scale.c:54-60 | defines the output dimensions: unchanged up to 640 wide, otherwise 640 and the scaled height |
| Scaler.ScaleSpec | src/scale.c:49-97 | defines scale_image: dimensions, the context stored, 1 on a NULL context, the buffer rule, the scaled pixels |
| Scaler.FormatTableOnto | src/scale.c:8-46 | every FFmpeg format in the table comes from the OBS format `ObsFormat` names |
| Scaler.FormatTableShape | src/scale.c:8-46 | exactly NONE, YVYU, AYUV and unlisted values map to AV_PIX_FMT_NONE; the table is one-to-one elsewhere except that BGRA and BGRX share BGRA; BGR3 maps to BGR24 |
| Scaler.ScaleDimensions | src/scale.c:54-60 | width ≤ 640 keeps both dimensions; a wider frame gets width 640 and the scaled height; the context is stored |
| Scaler.NullContextKeepsBuffer | src/scale.c:62-70 | a NULL context returns 1 before the buffer or its size is touched |
| Scaler.ScaleBufferRule | src/scale.c:72-82 | buffer_size = new_width * new_height * 3; the call fails iff the buffer needed replacing and allocation failed; on success the buffer holds the scaled pixels |
| Scaler.RescaleReusesBuffer | src/scale.c:73-82 | scaling the same frame size again reuses the buffer and cannot fail |
| Scaler.CreateLosesScaler | src/scale.c:120-133 | as written, a successful allocation can reach the caller as NULL or another address |
| Scaler.ImageScaler.constructor | src/scale.c:120-133 | the intended result: all fields zero or NULL |
| Scaler.ImageScaler.ScaleImage | src/scale.c:49-97 | in-place version of `ScaleSpec`, reusing the same array when the size matches; the old dimensions are untouched |
| Scaler.DestroyScaler | src/scale.c:135-148 | NULL is a no-op; otherwise the buffer and the context are released and nulled |

## Left out

- Memory release (`bfree`, `free`, `fclose`) has no counterpart under garbage collection. `ImgArray_destroy` (src/imgarray.c:17-26) is therefore not modelled: on NULL it does nothing, and otherwise it only frees. Nor is the final `bfree(self)` of the destroy functions.
- `SegmentationClient_create`, `SegmentationThread_create` and `ImageScaler_create`: the path where bzalloc fails is not modelled; the constructors model the successful initialisation.
- Threads and locking are not modelled: `pthread_create`, `pthread_join`, the mutex, `nanosleep`, and the start of the worker before `pthread_mutex_init` (src/segmentation_thread.c:40-47). Each call is modelled as running alone; a pass of `run_thread` is one call of `Iterate`. `SegmentationThread_destroy` is modelled only by the stop flag it sets (`Stop`).
- The worker's end label, where it destroys its local array, falls under memory release.
- The threshold is a `float`. It is modelled as its four bytes, which are passed through and never interpreted.
- The scaled height of a wide frame is computed in double precision. It is a parameter of `ScaleImage`, as are the context libswscale returns and the pixels `sws_scale` writes.
- `gethostbyname`, `SO_REUSEADDR` and `htons` are left out. They are folded into the scripted outcome of one connection attempt (`Net.Attempt`).
- The `fprintf` messages to stderr and the service's console output are not modelled.
- Service plumbing that is not modelled:
  - TensorFlow, body-pix and OpenCV calls: the model covers only the parameters of the post-processing;
  - the `NUM_FRAMES > 750` exit;
  - the port choice (3193 or `getRandomPort`) and the `EADDRINUSE` retry;
  - the `end` and `error` handlers and the `running` flag;
  - the asynchronous `fs.writeFile`.
- The as-written mask loop never returns once the peer has closed: every recv answers 0 and total_read stays where it is. `ReadLoop` and `ClientImpl.FillMask` stop at that point and report it (`Hangs` for the round, `Hung` for the worker's pass); `ClosedNeverEnds` proves that no number of further iterations changes the buffer, total_read or the stream. What never happens after the spin (the worker's later passes, the log of the endless recv calls) is not modelled.
- Net.Recv: one scripted answer is what one `recv` call returns. Bytes past the count asked for are dropped, where a TCP socket keeps them queued for the next call, and the header recv's `MSG_WAITALL` (src/segmentation_client.c:130), which would gather the eight bytes across segments, is not modelled either. A script therefore stands for a byte stream only when no answer is longer than the count of the call that reads it.
- A fresh `'data'` listener is attached for every awaited chunk, so a chunk that arrives while no promise is pending resolves an old promise and is lost. That event-loop behaviour is not modelled: `GatherRequest` receives the chunks the socket delivers, in order.
- Scaler.ImageScaler.ScaleImage: requires the frame to fit the `int` arithmetic (`width * height * 3 < 2^31`) and a scaled height no taller than the frame. The signed overflow the C code would hit beyond that is undefined behaviour and is not modelled.
- Worker.SegmentationThread.UpdateBuffer: requires `0 <= buffer_size <= |src|`. The conversion of a negative `int` to `size_t` in the call to `ImgArray_copy_from_raw_buffer` is not modelled.
- ImgArrays.ImgArray.CopyFromArray: requires the two arrays to be distinct objects with distinct buffers. Copying an array into itself is not modelled; it is an overlapping `memcpy`.
- Worker.SegmentationThread.GetMask: likewise requires `dst` to share no object or buffer with the record.
- The getters `ImgArray_get_buffer`, `ImgArray_get_size` and the four `ImageScaler_get_*` (src/scale.c:100-118) are plain field reads (`GetBuffer`, `GetSize`, `GetNewHeight`, …). They carry no contract of their own.

## Findings

| source | as written | input that shows it | evidently intended | confidence | as-written member | corrected member |
|---|---|---|---|---|---|---|
| src/imgarray.c:6-14 | `ImgArray_create` reaches its closing brace without `return arr` | any successful bzalloc: the caller receives an unspecified value | return the initialised array | high, not executed | Wrappers.MissingReturnLosesAllocation | ImgArrays.ImgArray.constructor |
| src/scale.c:120-133 | `ImageScaler_create` has no final `return result` | any successful bzalloc | return the zeroed scaler | high, not executed | Scaler.CreateLosesScaler | Scaler.ImageScaler.constructor |
| src/segmentation_client.c:75-78 | only `sock_fd < 0` is rejected, but `get_client_socket` also returns the positive codes 7 and 8 | no port file (7), or `socket()` failing (8): the preamble is written to descriptor 7 or 8 | reject every gate answer that is not a socket | high, not executed | ClientSpec.NoPortWritesToDescriptor7 | ClientSpec.GuardedNoPort |
| src/segmentation_client.c:188-191 | `SOCK_NO_SOCKET` (8) goes on to be used as a descriptor | `socket()` returns -1 | return without writing | high, not executed | ClientSpec.SocketFailureWritesToDescriptor8 | ClientSpec.GuardedSendsOnlyOnSocket |
| src/segmentation_client.c:117-121 | `current_offset += written` with no check of `written` | preamble written, then the first payload write times out (-1): the offset wraps to SIZE_MAX and 0 is returned with no pixels sent | fail on a return ≤ 0 | high, not executed | ClientSpec.PayloadTimeoutReportsSuccess | ClientSpec.WriteCheckedComplete |
| src/segmentation_client.c:119-120 | an error after partial progress moves the offset back one byte | writes answering 1, -1, n: the first byte is sent twice | fail on a return ≤ 0 | high, not executed | ClientSpec.PayloadErrorStepsBack | ClientSpec.WriteCheckedSends |
| src/segmentation_client.c:160-164 | `total_read += read_bytes` with no check | the first mask recv times out (-1): total_read is -1 and the next recv writes before the mask | fail with SOCK_UNDERREAD_MASK on a return ≤ 0 | high, not executed | ClientSpec.ReadTimeoutUndefined | ClientSpec.ReadCheckedDefined |
| src/segmentation_client.c:161-164 | a 0 from recv leaves total_read where it was | the service sends header and length, then closes: recv answers 0 for ever and run_segmentation never returns, which stalls the worker thread | fail with SOCK_UNDERREAD_MASK on a return ≤ 0 | high, not executed | ClientSpec.ReadClosedHangs | ClientSpec.ReadLoopChecked |
| src/segmentation_thread.c:129 | `buffer_counter = last_buffer_counter` assigns in the wrong direction | any counter above 0: the remembered counter stays 0, so every pass resends the same frame | `last_buffer_counter = buffer_counter` | high, not executed | Worker.AsWrittenIdlesOnlyAtZero | Worker.IntendedIdlesUntilNewFrame |
| src/segmentation_thread.c:125-129 | the loop never idles on an unchanged frame | two passes over the same non-zero counter | the second pass idles | high, not executed | Worker.AsWrittenPassResends | Worker.IntendedPassIdlesOnSameFrame |
| src/segmentation_client.c:233-240 | an empty TMPDIR is used as is | `TMPDIR=""`: the client opens "/.segmentation.port", while the service (`||` at node_server/server.js:11) writes "/tmp/.segmentation.port" | treat an empty TMPDIR as unset, like the service | medium, not executed | Theorems.EmptyTmpdirMissesPortFile | Theorems.PortPathsAgree |
