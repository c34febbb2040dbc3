# Verified models of the codecs and schedulers in Art-Project

The tree of the app carries the C code it links against. This project models the parts of it that
decide what happens to data and to work items, and proves what they promise.

- **nanopb** (`pb_encode.c`, `pb_decode.c`, `pb_common.c`): the Protocol Buffers wire format driven
  by descriptors. `Varint`, `Schema`, `EncodeSpec` and `DecodeSpec` define the format, descriptors,
  structs, the encoder and the decoder as functions. `RoundTrip`, `UnknownFields` and `Compatibility`
  prove what holds between them. `WireFormat` says what the wire format is, by numbers and lengths and
  without those functions; `EncodedForm` and `ReaderForm` prove that this is what is written, read and
  skipped, and `RecordLaws` what input does that the encoder never writes. `OStream`/`PbEncode` and `IStream`/`PbDecode` are the code itself over streams, with
  sizing passes, substreams, the circular field iterator (`FieldIter`) and the bitmap of required
  fields (`RequiredBits`), each method proved against those functions.
- **libuv thread pool** (`threadpool.c`): `ThreadPool` is the protocol as a state machine whose steps
  are what a thread does between taking and releasing a mutex, with any choice of the thread that a
  signal wakes and spurious wake-ups. `PoolScheduling` and `PoolConservation` prove invariants of
  every run, `PoolOrder` who goes first, `PoolShutdown` which slow work is lost at shutdown, `PoolProgress`
  what can still happen from a reachable state. `PoolCode` is the code of the critical sections over linked queues, proved
  to take exactly those steps.
- **libuv intrusive list** (`queue.h`, `uv_walk`): `Queue`, pointers against sequences of nodes.
- **libuv timers** (`heap-inl.h`, `timer.c`, the handle macros of `uv-common.h`): `Heap` is the
  pointer-linked complete binary heap, `Timers` the scheduler on it.
- **libuv IDNA** (`idna.c`): `PunycodeSpec` holds the decoder of section 6.2 of RFC 3492 and what the
  encoder writes, `Rfc3492` ties its parameters to the published text and samples, `Punycode` and
  `Idna` are the encoder's loops, `Utf8` the character reader.
- **libuv addresses** (`inet.c`, `strscpy.c`): `InetSpec` and `Inet6Spec` hold the printed forms and
  the parsers over characters, `Inet6Grammar` the grammar of the accepted IPv6 texts, `Inet` the
  loops over buffers.
- **GIF frame schedule** (`UIImage + Extension.swift`): `Gif`.

`Common` holds the types and constants they share, `Arithmetic` a few facts about division.

`dafny verify dfyconfig.toml` checks everything.

## How the model is made

Functions define what is printed, parsed, encoded, decoded or decided. Code that works by changing
things is a method or a class with the same loops, branches and error returns, and its contract ties
the new state to those functions. Theorems are about the functions, so they hold of the methods.

- Bit operations on unsigned words are written as the arithmetic they perform, with explicit
  truncation to 32 or 64 bits where a shift can lose bits.
- nanopb is modelled in the build this tree uses: static fields, 64-bit integers, 32-bit `pb_size_t`,
  so the checks against `PB_SIZE_MAX` never trigger and arrays have fewer than 2^32 entries. A descriptor is a finite tree of fields, a
  struct one slot for each field. Storage that carries no meaning (absent optionals, unused array
  entries, bytes behind a string's terminator) is ignored when structs are compared.
- A message survives encoding and decoding exactly when it is *decodable*: every string leaves room
  for its terminator, and no submessage or packed array is 2^32 bytes or longer, because lengths are
  written as 64-bit and read as 32-bit varints. The round trip fails on a string that fills its
  buffer (`UnterminatedStringLost`) and on an array of 2^30 fixed 32-bit numbers (`HugeArrayLost`).
- The 32-bit varint reader is meant to accept negative numbers written with sign extension. It lets
  through some other values too, such as 2^63 + 2^31; `Decode32OfEncode` says exactly which.
- The terminator of an empty descriptor answers to field number zero: such a record with a non-zero
  wire type is read as a bool into the placeholder member. The model does the same.
- A decoder for a single value does not look at the wire type of its record; the model neither.
- In the thread pool, cancelling a request twice moves it to the end of its loop queue again.
- Pending slow work can be lost at shutdown. Once the exit message stands in the queue with no
  slow-work message in front of it, nothing in the slow queue is ever run (`PendingNeverRuns`); in
  every other state each pending request still can be, if those in front of it are cancelled
  (`PendingRunsUnlessBarred`). Without a cancel only the first one can, once the exit message is
  queued: taking it puts the slow-work message for the others behind the exit message
  (`BehindNeverRuns`, `PendingRunsUncancelled`). `PendingLost` and `SecondLost` are runs that lose a
  request in these two ways.
- `uv__run_timers` need not end: a saturated deadline at the last moment of the clock (`EndlessRound`)
  and a callback that starts its timer with a delay of zero (`RestartingRound`) are due at once. Without
  these it ends (`RunTimers`, `RunTimersWith`).
- The UTF-8 reader tests the marks of continuation bytes only together, so it accepts some malformed
  bytes (`MalformedAccepted`); `ValueExact` says exactly which. Its switch is on a difference that is
  not positive inside the text, so it does not see the end: a character that is cut off there is
  completed from the memory behind and then dropped, not refused (`CutDropped`). At the very end the
  loop reads once more, with a difference of one, and discards what it read.
- The punycode encoder gives up when its counter passes 32 bits. That takes a label of more than 3853
  characters (`ShortLabelFits`), and 3856 can be enough (`LongLabelOverflows`).
- In `inet_ntop6` the embedded form for a run of seven words cannot be reached, since word 6 is then
  inside the run; in `heap_remove` the test against the root is always false, since unlinking the
  last node has already cleared the root pointer; in `pb_encode_submessage` the size check is never
  true. The first stands as it is in the condition, the other two are asserted.

## Model

| member | source | states |
|---|---|---|
| Varint.Decode64Inverts | Art-Project/Pods/nanopb/pb_encode.c:608-628 | the 64-bit reader applied to what the varint writer emits for any 64-bit value returns that value and exactly the bytes behind it |
| Varint.Decode32OfEncode | Art-Project/Pods/nanopb/pb_decode.c:187-247 | the 32-bit reader on every written 64-bit value: it accepts exactly the values below 2^32 and those that look like a sign-extended negative 32-bit number group by group, returns the low 32 bits and stops right behind; anything else is an overflow |
| Varint.ForeignSignAccepted | Art-Project/Pods/nanopb/pb_decode.c:206-229 | a value that is not a sign extension and is accepted: 2^63 + 2^31 is read as 2^31 |
| Varint.Decode32Range | Art-Project/Pods/nanopb/pb_decode.c:187-247 | whatever the 32-bit reader accepts, over-long forms included, its result is below 2^32 |
| ReaderForm.Decode64Exact | Art-Project/Pods/nanopb/pb_decode.c:255-275 | on any bytes, by the wire format alone: the 64-bit reader accepts exactly the varints of at most ten bytes, in shortest form or not, and returns their base-128 value cut to 64 bits |
| ReaderForm.Decode32Exactly | Art-Project/Pods/nanopb/pb_decode.c:187-252 | on any bytes: the 32-bit reader accepts a varint exactly if it has at most four groups, or a fifth group below 16 or that of a negative number, and then only groups of zeros or of its sign |
| Varint.ZigZagBijective | Art-Project/Pods/nanopb/pb_encode.c:630-639 | zigzag writing and reading are inverse bijections between the 64-bit signed and unsigned integers |
| WireFormat.VarintUnique | Art-Project/Pods/nanopb/pb_encode.c:608-628 | a number has one shortest varint |
| EncodedForm.ValueExact | Art-Project/Pods/nanopb/pb_encode.c:769-917 | what is written for a value is exactly its payload in the wire format: a base-128 number, four or eight bytes from the least significant on, or a length and that many bytes, stated by numbers and lengths alone, with the wire type that goes with it |
| EncodedForm.MessageExact | Art-Project/Pods/nanopb/pb_encode.c:528-550 | the encoding from any field on is s exactly when s is the records that the fields call for by their rules, in order |
| EncodedForm.EncodedExactly | Art-Project/Pods/nanopb/pb_encode.c:528-550 | pb_encode succeeds with s if and only if s is the records that the struct calls for by the wire format |
| EncodedForm.MessageRecords | Art-Project/Pods/nanopb/pb_encode.c:669-707 | everything that pb_encode writes is a sequence of records, each with the number of a field of the message and well formed by the wire format: 0 and a base-128 number, 1 and eight bytes, 2 and a length with that many bytes, 5 and four bytes |
| EncodedForm.ZeroExact | Art-Project/Pods/nanopb/pb_encode.c:240-337 | the values that a proto3 field leaves out: false and 0, empty bytes and strings; submessages are looked into and bytes of fixed length always written |
| RoundTrip.MessageRoundTrip | Art-Project/Pods/nanopb/pb_decode.c:934-1096 | for every valid descriptor tree and every struct of its layout whose encoding succeeds and is below 2^63 bytes, pb_decode accepts what pb_encode wrote if and only if the message is decodable, and then the struct equals the original up to storage without meaning |
| RoundTrip.LoopRoundTrip | Art-Project/Pods/nanopb/pb_encode.c:528-550 | from any field on: decoding the rest of an encoded message reaches the end with every field arrived, or fails exactly when a field is not decodable |
| RoundTrip.FieldRoundTrip | Art-Project/Pods/nanopb/pb_encode.c:341-426 | the record or records of one field, of any rule, bring exactly that slot up to date and leave the rest of the input |
| RoundTrip.PackedFieldRoundTrip | Art-Project/Pods/nanopb/pb_encode.c:162-205 | a packed array arrives in one record, unless its byte length needs more than 32 bits |
| RoundTrip.ItemsRoundTrip | Art-Project/Pods/nanopb/pb_encode.c:208-234 | an array that is not packed arrives element by element, across any number of records |
| RoundTrip.ValueRoundTrip | Art-Project/Pods/nanopb/pb_encode.c:769-910 | every kind of value, submessages included, comes back equal exactly when it is decodable, whatever follows it |
| RoundTrip.ZeroIsDefault | Art-Project/Pods/nanopb/pb_encode.c:240-337 | a proto3 value that the encoder leaves out is the one that initialisation puts there |
| RoundTrip.UnterminatedStringLost | Art-Project/Pods/nanopb/pb_decode.c:1487-1523 | a concrete message that is encoded but refused on decoding: a string that fills its buffer has no room for the terminator |
| RoundTrip.HugeArrayLost | Art-Project/Pods/nanopb/pb_decode.c:249-252 | every packed array of 2^30 to 2^32 - 1 fixed 32-bit numbers, in a field with room for it, is encoded with a length of 2^32 bytes or more, which the reader refuses |
| UnknownFields.UnknownFieldIgnored | Art-Project/Pods/nanopb/pb_decode.c:952-1030 | inserting any record with a field number that the descriptor does not have and a payload that the wire format calls for, behind any number of whole records and in front of any bytes, changes neither success nor the decoded struct |
| UnknownFields.UnknownExact | Art-Project/Pods/nanopb/pb_decode.c:952-1030 | a record with an unknown field number: decoding goes on right behind the payload that its wire type calls for, and fails if no such payload follows |
| ReaderForm.SkipExact | Art-Project/Pods/nanopb/pb_decode.c:278-331 | skipping succeeds behind the first m bytes if and only if these are the payload of the wire type, by the wire format: a base-128 number, eight bytes, a length readable in 32 bits and that many bytes, or four bytes |
| Compatibility.LackingFieldsRead | Art-Project/Pods/nanopb/pb_decode.c:952-1079 | a message written with more fields, read by a descriptor that lacks some of them: it is accepted if and only if the known fields are decodable and no skipped one has a length beyond 32 bits, and then the known fields are as they were written |
| UnknownFields.RecordLocal | Art-Project/Pods/nanopb/pb_decode.c:960-1030 | a record that decodes does so independently of the bytes behind it and consumes the same bytes |
| UnknownFields.RequiredFieldsChecked | Art-Project/Pods/nanopb/pb_decode.c:1021-1079 | without another error, decoding succeeds if and only if each of the first 64 required fields occurred in the input; the failure is the missing-field error |
| RecordLaws.IntegersExact | Art-Project/Pods/nanopb/pb_decode.c:1345-1428 | integers from any 64-bit number: as it is, zigzag, or two's complement of the low 64 or, for smaller fields, 32 bits; refused exactly when the bytes of the field cannot hold it |
| RecordLaws.BlobsExact | Art-Project/Pods/nanopb/pb_decode.c:1447-1571 | bytes and strings against their capacity, a string with its terminator; bytes of fixed length have their length, or none, which stands for zeros |
| RecordLaws.BoolExact | Art-Project/Pods/nanopb/pb_decode.c:1280-1283 | a bool is any number but zero |
| RecordLaws.FixedExact | Art-Project/Pods/nanopb/pb_decode.c:1299-1332 | a fixed number is four or eight bytes, the least significant first, or is refused |
| RecordLaws.EmptyInput | Art-Project/Pods/nanopb/pb_decode.c:845-931 | no input leaves nothing present and every value at its declared default |
| RecordLaws.ZeroKeyEnds | Art-Project/Pods/nanopb/pb_decode.c:952-975 | a zero key ends the message, whatever follows |
| RecordLaws.PackedAdds | Art-Project/Pods/nanopb/pb_decode.c:421-460 | a packed record adds its elements to those that are there, from any record before, and is refused exactly when they are too many |
| RecordLaws.UnpackedAdds | Art-Project/Pods/nanopb/pb_decode.c:461-474 | so does a record of its own for one element of an array that could have been packed |
| RecordLaws.PackedTwice | Art-Project/Pods/nanopb/pb_decode.c:421-460 | two packed records are read as one with the elements of both |
| RecordLaws.LastCounts | Art-Project/Pods/nanopb/pb_decode.c:406-420 | of two records for one value the later counts and the earlier leaves no trace |
| RecordLaws.LastMemberCounts | Art-Project/Pods/nanopb/pb_decode.c:475-488 | of two members of a union the later counts, and the earlier is no longer selected |
| RecordLaws.SubRecord | Art-Project/Pods/nanopb/pb_decode.c:1525-1547 | a record for a submessage is decoded into what is there already |
| RecordLaws.SubTwice | Art-Project/Pods/nanopb/pb_decode.c:1525-1547 | two records for one submessage are read as one with both payloads |
| RecordLaws.MergeConcatenates | Art-Project/Pods/nanopb/pb_decode.c:934-1082 | decoding two messages one after the other into one struct is decoding their concatenation, if nothing is required |
| RecordLaws.EntryAdds | Art-Project/Pods/nanopb/pb_decode.c:1525-1547 | a record for an array of submessages adds one that starts from its defaults, if there is room |
| RecordLaws.FixedAdds | Art-Project/Pods/nanopb/pb_decode.c:998-1018 | a packed record fills an array of fixed count further; it is refused exactly when that is too much or another such array is not complete |
| RecordLaws.FixedTwice | Art-Project/Pods/nanopb/pb_decode.c:998-1018 | two packed records for such an array are read as one with the elements of both |
| RecordLaws.SwitchRefused | Art-Project/Pods/nanopb/pb_decode.c:1003-1013 | an array of fixed count that is left incomplete for another one makes the message fail |
| RecordLaws.ShortArrayRefused | Art-Project/Pods/nanopb/pb_decode.c:1032-1042 | an array of fixed count that received fewer elements makes the message fail |
| OStream.EmitsThen | Art-Project/Pods/nanopb/pb_encode.c:103-124 | two writes that emit a and then b emit a followed by b: same success condition, same bytes, nothing else in the buffer touched |
| OStream.Stream.Write | Art-Project/Pods/nanopb/pb_encode.c:74-124 | a sizing stream counts; a buffer stream appends exactly the bytes if they fit in what is left of max_size and otherwise reports a full stream |
| OStream.Stream.CopyIn | Art-Project/Pods/nanopb/pb_encode.c:74-85 | the copy loop replaces exactly that part of the buffer |
| OStream.Stream.Varint | Art-Project/Pods/nanopb/pb_encode.c:608-628 | the varint loop emits the base-128 form of the value |
| OStream.VarintBytes | Art-Project/Pods/nanopb/pb_encode.c:619-627 | the buffer filled group by group, with the last mark cleared, is the base-128 form |
| PbEncode.PutSigned | Art-Project/Pods/nanopb/pb_encode.c:630-639 | emits the varint of the zigzag form of any 64-bit integer |
| PbEncode.PutString | Art-Project/Pods/nanopb/pb_encode.c:709-715 | emits the length and the bytes |
| PbEncode.StringLength | Art-Project/Pods/nanopb/pb_encode.c:873-897 | the bounded strnlen loop finds the C string within its buffer |
| PbEncode.WriteSub | Art-Project/Pods/nanopb/pb_encode.c:740-765 | the writing pass fills a substream of exactly the size that the sizing pass found, so that "submsg size changed" is never reported |
| PbEncode.EncodeSub | Art-Project/Pods/nanopb/pb_encode.c:717-765 | sizing and then writing a submessage emits its delimited form, on sizing and on buffer streams |
| PbEncode.PackedSize | Art-Project/Pods/nanopb/pb_encode.c:167-190 | the shortcut 4 * count or 8 * count and the sizing loop both find the byte length of the packed elements |
| PbEncode.PutArray | Art-Project/Pods/nanopb/pb_encode.c:147-236 | arrays are packed when their type allows it and are refused above their capacity |
| PbEncode.PutField | Art-Project/Pods/nanopb/pb_encode.c:341-426 | presence by rule: required, has_ flag, which_ member, count, or being non-zero |
| PbEncode.CheckZero | Art-Project/Pods/nanopb/pb_encode.c:240-337 | the recursive proto3 zero check decides whether a value equals zero throughout |
| PbEncode.CheckDefault | Art-Project/Pods/nanopb/pb_encode.c:240-275 | the same for a member of a submessage, by its rule |
| PbEncode.EncodeAll | Art-Project/Pods/nanopb/pb_encode.c:528-550 | pb_encode over any stream emits the encoding of the message |
| PbEncode.GetEncodedSize | Art-Project/Pods/nanopb/pb_encode.c:567-576 | the size of what the encoder writes, or its error |
| PbEncode.EncodeInto | Art-Project/Pods/nanopb/pb_encode.c:528-550 | encoding into an N-byte buffer succeeds if and only if the sizing pass does with n <= N, and then writes exactly those n bytes and nothing else |
| IStream.Stream.Read | Art-Project/Pods/nanopb/pb_decode.c:102-137 | reads exactly n bytes or fails; the end of the stream does not move |
| IStream.Stream.Varint64 | Art-Project/Pods/nanopb/pb_decode.c:255-275 | the shift-and-or loop reads the base-128 number, truncated to 64 bits, and stops right behind it |
| IStream.Stream.Varint32 | Art-Project/Pods/nanopb/pb_decode.c:187-247 | the 32-bit loop with its sign-extension and fifth-byte checks is the recursive 32-bit reader |
| IStream.Stream.SkipField | Art-Project/Pods/nanopb/pb_decode.c:278-331 | skipping consumes exactly the value of the wire type |
| IStream.Stream.MakeSubstream | Art-Project/Pods/nanopb/pb_decode.c:372-385 | the substream is the declared length, the parent keeps what follows it |
| IStream.Stream.CloseSubstream | Art-Project/Pods/nanopb/pb_decode.c:387-400 | however much of the substream was read, the parent continues exactly behind its declared length |
| FieldIter.Iterator.Next | Art-Project/Pods/nanopb/pb_common.c:29-82 | a circular step that keeps required_field_index equal to the number of required fields before the position |
| FieldIter.Iterator.Find | Art-Project/Pods/nanopb/pb_common.c:84-102 | starting anywhere and going round once, true exactly when some field has the tag, and then at that field; otherwise back where it started |
| FieldIter.Iterator.CountRequired | Art-Project/Pods/nanopb/pb_decode.c:1046-1058 | running on to the end of the array counts all required fields, the last one included |
| RequiredBits.Bitmap.Mark | Art-Project/Pods/nanopb/pb_decode.c:1021-1026 | setting one bit of the two words adds exactly that field to the set of seen ones |
| RequiredBits.Bitmap.AllSeen | Art-Project/Pods/nanopb/pb_decode.c:1060-1078 | comparing whole words with ~0 and the last with a shifted mask decides whether the first 64 required fields were all seen |
| RequiredBits.IsMask | Art-Project/Pods/nanopb/pb_decode.c:1070-1077 | a word without higher bits equals the mask of n bits exactly when it has each of them |
| PbDecode.SetToDefaults | Art-Project/Pods/nanopb/pb_decode.c:845-928 | the recursive initialisation of a struct |
| PbDecode.GetInteger | Art-Project/Pods/nanopb/pb_decode.c:1345-1428 | integers are cast to their size and refused if the cast changes them |
| PbDecode.GetBlob | Art-Project/Pods/nanopb/pb_decode.c:1447-1571 | bytes, strings and fixed-length bytes against their capacity, with the 32-bit wrap of size + 1 |
| PbDecode.GetSub | Art-Project/Pods/nanopb/pb_decode.c:1525-1547 | a submessage is decoded in a substream, array entries from their defaults and others into what is there, and the parent ends up behind it |
| PbDecode.GetPacked | Art-Project/Pods/nanopb/pb_decode.c:421-447 | the packed loop accepts exactly the inputs that hold whole elements and no more than fit |
| PbDecode.GetSlot | Art-Project/Pods/nanopb/pb_decode.c:406-483 | decode_static_field on one slot, by rule |
| PbDecode.Decoder.Record | Art-Project/Pods/nanopb/pb_decode.c:960-1030 | one record: find its field, skip it, or decode it with the fixed-count and required-field bookkeeping |
| PbDecode.Decoder.Records | Art-Project/Pods/nanopb/pb_decode.c:952-1031 | the loop until the input or a zero key ends the message |
| PbDecode.Decoder.Complete | Art-Project/Pods/nanopb/pb_decode.c:1033-1079 | the checks behind the loop: the last fixed-count array is complete and no required field is missing |
| PbDecode.DecodeNoInit | Art-Project/Pods/nanopb/pb_decode.c:934-1082 | pb_decode_noinit over a stream is the recursive decoder over the bytes left: same success, same struct |
| PbDecode.DecodeBytes | Art-Project/Pods/nanopb/pb_decode.c:1084-1096 | pb_decode of a buffer succeeds and fills the struct exactly as the decoder specifies |
| ThreadPool.Without | Art-Project/Pods/Libuv-gRPC/src/threadpool.c:275-277 | unlinking a request removes exactly one occurrence |
| PoolScheduling.StepKeeps | Art-Project/Pods/Libuv-gRPC/src/threadpool.c:57-160 | every step of every thread keeps the scheduling invariant |
| PoolScheduling.NoLostWakeup | Art-Project/Pods/Libuv-gRPC/src/threadpool.c:65-85 | in every reachable state in which the wait condition is false and some worker lives, some live worker is not asleep, and while anybody sleeps somebody is on the way to the mutex |
| PoolScheduling.AllAsleepMeansEmpty | Art-Project/Pods/Libuv-gRPC/src/threadpool.c:65-85 | in every reachable state in which all workers sleep, both queues are empty |
| PoolScheduling.SlowWorkBounded | Art-Project/Pods/Libuv-gRPC/src/threadpool.c:45-117 | in every reachable state slow_io_work_running counts the workers with slow work and is at most half of them rounded up, the slow-work message is queued at most once, and a non-empty slow queue implies that it is queued; idle_threads counts the waiting workers |
| PoolScheduling.WaitsAtLimit | Art-Project/Pods/Libuv-gRPC/src/threadpool.c:71-76 | in every reachable state, a worker whose section ends in a wait while slow work is pending waits because exactly (n + 1) / 2 of the n workers have slow work in hand |
| PoolScheduling.TakesBelowLimit | Art-Project/Pods/Libuv-gRPC/src/threadpool.c:88-117 | below that number a worker that finds the slow-work message at the head takes the first slow request |
| PoolScheduling.SectionExactly | Art-Project/Pods/Libuv-gRPC/src/threadpool.c:69-117 | in every reachable state, what a worker does by what stands in the queue: the first slow request if its message is at the head and fewer than (n + 1) / 2 of the n workers have slow work; otherwise it acts on the first entry that is not that message: leaves, runs the request or, if there is none, waits |
| PoolOrder.FirstInFirstOut | Art-Project/Pods/Libuv-gRPC/src/threadpool.c:57-131 | of two requests on the same global queue the one behind never leaves it before the one in front, in any run in which neither is cancelled |
| PoolOrder.JoinsBehind | Art-Project/Pods/Libuv-gRPC/src/threadpool.c:142-160 | a submitted request joins the end of its queue, behind all others, and so does the exit message |
| PoolOrder.MessageBehind | Art-Project/Pods/Libuv-gRPC/src/threadpool.c:142-160 | the slow-work message that announces the first slow request is queued behind everything else |
| PoolOrder.SlowStandsBack | Art-Project/Pods/Libuv-gRPC/src/threadpool.c:88-115 | a section that takes a slow request while more are pending, or passes the slow-work message over, puts that message behind all else that is queued |
| PoolOrder.LineOrder | Art-Project/Pods/Libuv-gRPC/src/threadpool.c:295-315 | requests are delivered in the order in which they finished or were cancelled: no step changes the order of two that wait, unless it cancels one of them |
| PoolScheduling.ShutdownCascades | Art-Project/Pods/Libuv-gRPC/src/threadpool.c:81-85 | once a worker has left, the exit message stays at the head, every section that is entered ends in leaving, and while anybody sleeps somebody is awake |
| PoolShutdown.BarredSection | Art-Project/Pods/Libuv-gRPC/src/threadpool.c:69-117 | with the exit message queued and no slow-work message in front of it, a section leaves or takes the ordinary request at the head, never slow work, and the order of the two messages stays |
| PoolShutdown.BarredMeans | Art-Project/Pods/Libuv-gRPC/src/threadpool.c:81-96 | the condition by position: the exit message is somewhere in the queue and no slow-work message precedes it |
| PoolShutdown.PendingNeverRuns | Art-Project/Pods/Libuv-gRPC/src/threadpool.c:81-117 | from such a state on, in every later state of every run, the exit message is still not preceded by a slow-work message and no request that was in the slow queue has had its function called; it is reported as cancelled or not at all |
| PoolProgress.PendingRunsUnlessBarred | Art-Project/Pods/Libuv-gRPC/src/threadpool.c:81-117 | in every reachable state and for every pending slow request: some continuation of the run calls its function if and only if the exit message does not stand in the queue without a slow-work message in front of it |
| PoolShutdown.BehindNeverRuns | Art-Project/Pods/Libuv-gRPC/src/threadpool.c:104-116 | once the exit message is queued, a request that waits behind another pending one never has its function called in any run without a cancel |
| PoolProgress.PendingRunsUncancelled | Art-Project/Pods/Libuv-gRPC/src/threadpool.c:81-117 | in every reachable state: some continuation without a cancel calls the function of the k-th pending slow request if and only if it is not barred and either it is the first or the exit message is not queued |
| PoolProgress.PendingLost | Art-Project/Pods/Libuv-gRPC/src/threadpool.c:88-96 | a concrete run of two workers that ends there: the slow-work message is put back behind the exit message and no continuation runs the pending request |
| PoolProgress.SecondLost | Art-Project/Pods/Libuv-gRPC/src/threadpool.c:104-116 | a concrete run that ends with the slow-work message in front of the exit message and two pending requests: the first can run, the second only if something is cancelled |
| PoolProgress.AttainableRuns | Art-Project/Pods/Libuv-gRPC/src/threadpool.c:57-131 | the pool by itself, without new requests, cancels or a shutdown, can get to call the function of every queued request while the exit message is not queued |
| PoolProgress.EveryRequestDelivered | Art-Project/Pods/Libuv-gRPC/src/threadpool.c:57-315 | from every reachable state in which the exit message is not queued, the pool and its loops by themselves can get to a state in which every request has been delivered |
| PoolProgress.EveryWorkerLeaves | Art-Project/Pods/Libuv-gRPC/src/threadpool.c:81-85 | from every reachable state in which the exit message is queued, the pool by itself can get to a state in which every worker has left |
| PoolConservation.StepConserves | Art-Project/Pods/Libuv-gRPC/src/threadpool.c:57-160 | every step keeps every request in exactly one place with fields that say so |
| PoolConservation.ExactlyOnePlace | Art-Project/Pods/Libuv-gRPC/src/threadpool.c:256-315 | in every interleaving a submitted request is in exactly one of: the queues, a worker before or after its function, a cancel under way, the queues of its loop, finished |
| PoolConservation.DoneOnce | Art-Project/Pods/Libuv-gRPC/src/threadpool.c:302-314 | the work function is called at most once and done at most once, with UV_ECANCELED exactly when the function never ran |
| PoolConservation.CancelExact | Art-Project/Pods/Libuv-gRPC/src/threadpool.c:269-292 | cancelling an outstanding request succeeds exactly when no worker holds it and its function has not run |
| PoolConservation.NeverStuck | Art-Project/Pods/Libuv-gRPC/src/threadpool.c:57-131 | a worker that is not asleep or gone always has a step, and so has a loop thread in the middle of a cancel or a delivery |
| PoolCode.Globals.RunSection | Art-Project/Pods/Libuv-gRPC/src/threadpool.c:69-117 | the worker loop over linked queues, from the wait test to the release of the mutex, leads to the state and outcome of the state machine and marks the taken request as not queued |
| PoolCode.Globals.PostWork | Art-Project/Pods/Libuv-gRPC/src/threadpool.c:142-160 | post over linked queues: the new state and whether to signal |
| PoolCode.Globals.CancelBegin | Art-Project/Pods/Libuv-gRPC/src/threadpool.c:269-280 | cancel succeeds, and unlinks the request from whichever queue holds it, exactly when it is on a global queue or already marked cancelled on a queue of its loop; a finished or running one is left alone |
| PoolCode.Globals.MustSleep | Art-Project/Pods/Libuv-gRPC/src/threadpool.c:71-76 | the pointer tests of the wait condition decide whether the queue is empty or holds only blocked slow work |
| PoolCode.SlowAtHead | Art-Project/Pods/Libuv-gRPC/src/threadpool.c:88-115 | a turn of the loop on the slow-work message starts over on an equivalent state of smaller rank or takes the first slow request |
| PoolCode.LoopQueue.Finish | Art-Project/Pods/Libuv-gRPC/src/threadpool.c:121-127 | a finished or cancelled request joins the end of its loop queue with its mark |
| PoolCode.LoopQueue.WorkDone | Art-Project/Pods/Libuv-gRPC/src/threadpool.c:295-315 | everything queued on the loop is reported in first-in first-out order with its code, and the queue is left empty |
| PoolCode.ReportsDelivery | Art-Project/Pods/Libuv-gRPC/src/threadpool.c:302-314 | the code reported for a request is the one that its delivery in the state machine records |
| Queue.InsertTail | Art-Project/Pods/Libuv-gRPC/src/queue.h:92-99 | the list of nodes grows by one at its end and stays a circular doubly linked list |
| Queue.InsertHead | Art-Project/Pods/Libuv-gRPC/src/queue.h:83-90 | the same at its front |
| Queue.Remove | Art-Project/Pods/Libuv-gRPC/src/queue.h:101-106 | the node leaves the list, wherever it was; its own links are left as they were |
| Queue.Split | Art-Project/Pods/Libuv-gRPC/src/queue.h:61-70 | the list is cut in two at a node, the second part on the other head |
| Queue.Move | Art-Project/Pods/Libuv-gRPC/src/queue.h:72-81 | all nodes pass to the other head and the first is left empty |
| Queue.Add | Art-Project/Pods/Libuv-gRPC/src/queue.h:52-59 | one list is appended to another, empty lists included |
| Queue.EmptyMeans | Art-Project/Pods/Libuv-gRPC/src/queue.h:39-43 | the head points to itself exactly when the list is empty, and otherwise to the first and last node |
| Queue.Walk | Art-Project/Pods/Libuv-gRPC/src/uv-common.c:456-472 | the callback sees each handle that is not internal, in order, and the list is the same as before |
| Queue.VisibleOnce | Art-Project/Pods/Libuv-gRPC/src/uv-common.c:456-472 | each handle is shown as often as it is listed, internal ones never |
| Heap.PathTo | Art-Project/Pods/Libuv-gRPC/src/heap-inl.h:119-124 | the bits collected by the loop lead from the root to level-order slot n, for every n |
| Heap.TimerHeap.FindPlace | Art-Project/Pods/Libuv-gRPC/src/heap-inl.h:126-136 | the walk along the path ends at the pointer that belongs to slot n |
| Heap.TimerHeap.Swap | Art-Project/Pods/Libuv-gRPC/src/heap-inl.h:72-104 | exchanging a parent with its child relinks all neighbours: the tree lists the same nodes with those two exchanged |
| Heap.TimerHeap.Insert | Art-Project/Pods/Libuv-gRPC/src/heap-inl.h:106-148 | the tree stays complete, with mutually inverse links and in min-heap order, and gains exactly the new node |
| Heap.TimerHeap.Remove | Art-Project/Pods/Libuv-gRPC/src/heap-inl.h:150-237 | removing any node keeps the same and loses exactly that node |
| Heap.TimerHeap.Dequeue | Art-Project/Pods/Libuv-gRPC/src/heap-inl.h:239-241 | removes the root |
| Heap.TimerHeap.Min | Art-Project/Pods/Libuv-gRPC/src/heap-inl.h:67-69 | the root is not larger than any node |
| Heap.RootIsLeast | Art-Project/Pods/Libuv-gRPC/src/heap-inl.h:33-39 | heap order makes the root least |
| Heap.StepUp | Art-Project/Pods/Libuv-gRPC/src/heap-inl.h:143-148 | a swap with a larger parent moves the only violation one level up |
| Heap.StepDown | Art-Project/Pods/Libuv-gRPC/src/heap-inl.h:220-229 | a swap with the smallest child moves the only violation one level down |
| Timers.Loop.Start | Art-Project/Pods/Libuv-gRPC/src/timer.c:66-94 | a timer gets the saturated deadline, the next start id and its place in the heap, or nothing changes on an invalid argument |
| Timers.Loop.StartTwo | Art-Project/Pods/Libuv-gRPC/src/timer.c:30-55 | of two timers started one after the other with the same deadline the first comes first, unless the counter of starts wraps |
| Timers.InOrderMeans | Art-Project/Pods/Libuv-gRPC/src/timer.c:30-55 | the order of firing in numbers: by deadline, and by start id where deadlines are equal |
| Timers.Loop.Init | Art-Project/Pods/Libuv-gRPC/src/timer.c:58-63 | a new handle joins the loop, not running, referenced and without callback or interval; the other handles are as before |
| Timers.Loop.Stop | Art-Project/Pods/Libuv-gRPC/src/timer.c:97-107 | the timer leaves the heap and stops counting; a timer is in the heap exactly when it is active |
| Timers.Loop.Again | Art-Project/Pods/Libuv-gRPC/src/timer.c:110-120 | a repeating timer is started again one interval from now |
| Timers.Loop.HandleStart | Art-Project/Pods/Libuv-gRPC/src/uv-common.h:241-247 | the active-handle counter counts the active referenced handles; nothing happens to a handle that is active |
| Timers.Loop.HandleStop | Art-Project/Pods/Libuv-gRPC/src/uv-common.h:249-255 | the same on stopping; nothing happens to a handle that is not active |
| Timers.Loop.HandleRef | Art-Project/Pods/Libuv-gRPC/src/uv-common.h:257-264 | the same on referencing |
| Timers.Loop.HandleUnref | Art-Project/Pods/Libuv-gRPC/src/uv-common.h:266-273 | the same on unreferencing |
| Timers.Loop.NextTimeout | Art-Project/Pods/Libuv-gRPC/src/timer.c:133-151 | the least waiting time over all active timers, cut to INT_MAX, or -1 if there is none |
| Timers.Loop.DueMeansNoWait | Art-Project/Pods/Libuv-gRPC/src/timer.c:133-151 | the timers that are due are those for which the loop does not wait |
| Timers.Loop.RunTimers | Art-Project/Pods/Libuv-gRPC/src/timer.c:154-171 | with callbacks that leave the timers alone: exactly the timers that are due fire, once each, in order of deadline and start id; repeating ones are armed at the saturated sum, the others keep their state, and no timer is left due |
| Timers.Loop.EndlessRound | Art-Project/Pods/Libuv-gRPC/src/timer.c:154-171 | where RunTimers is not claimed to end it does not: at time 2^64 - 1 with a repeating active timer every round fires one and leads to such a state again |
| Timers.Loop.RunTimersWith | Art-Project/Pods/Libuv-gRPC/src/timer.c:154-171 | with callbacks that start, restart, stop, reference or unreference any timers, without zero delays: the run ends, each timer fires at most once, only if due at the beginning and in order; one that no callback touched fires exactly if it was due; nothing is left due |
| Timers.Loop.RestartingRound | Art-Project/Pods/Libuv-gRPC/src/timer.c:154-171 | with zero delays the run need not end: a timer started that way by its own callback is due again behind the round |
| PunycodeSpec.DigitsRoundTrip | Art-Project/Pods/Libuv-gRPC/src/idna.c:192-218 | the digits written for any number under any bias are read back as that number, whatever follows |
| PunycodeSpec.LabelRoundTrip | Art-Project/Pods/Libuv-gRPC/src/idna.c:102-246 | the text written for a label, unless the encoder overflows, decodes by section 6.2 of RFC 3492 to exactly its code points |
| PunycodeSpec.ShortLabelFits | Art-Project/Pods/Libuv-gRPC/src/idna.c:166-243 | a label of at most 3853 characters, whatever they are, never makes the encoder overflow |
| PunycodeSpec.LongLabelOverflows | Art-Project/Pods/Libuv-gRPC/src/idna.c:174-180 | 3855 or more ASCII characters in front of the last code point do |
| PunycodeSpec.ScanRoundTrip | Art-Project/Pods/Libuv-gRPC/src/idna.c:183-242 | at every position of every pass the decoder has inserted exactly the code points handled so far |
| Punycode.WriteNumber | Art-Project/Pods/Libuv-gRPC/src/idna.c:192-218 | the digit loop terminates within eleven digits and writes the generalised variable-length integer, cut at the end of the buffer |
| Punycode.ElevenDigits | Art-Project/Pods/Libuv-gRPC/src/idna.c:192-218 | a number below 2^32 has at most eleven digits under any bias, so that the weight counter k stays at most 396 |
| Punycode.NextBias | Art-Project/Pods/Libuv-gRPC/src/idna.c:220-236 | the bias adaptation of section 6.1 of RFC 3492, in 32 bits without wrapping |
| Punycode.Passes | Art-Project/Pods/Libuv-gRPC/src/idna.c:166-243 | the outer loop with todo equal to the number of code points not below n writes all passes or reports the overflow |
| Punycode.ToAsciiLabel | Art-Project/Pods/Libuv-gRPC/src/idna.c:102-246 | the whole label: UV_EINVAL and nothing written for malformed text, UV_E2BIG for an overflow, otherwise plain text or xn-- and the encoding, cut at the end of the buffer; the length of a plain label is returned as an int, negative from 2^31 on |
| Punycode.OutputDecodes | Art-Project/Pods/Libuv-gRPC/src/idna.c:102-246 | if the buffer has room, what stands behind xn-- decodes to the label |
| Rfc3492.ThresholdExact | Art-Project/Pods/Libuv-gRPC/src/idna.c:192-200 | the threshold of section 6.2 of RFC 3492: 1 up to bias + 1, 26 from bias + 26 on, k - bias between |
| Rfc3492.AdaptExact | Art-Project/Pods/Libuv-gRPC/src/idna.c:220-236 | the bias is that of section 6.1 of RFC 3492, in closed form: with damp 700 and skew 38, and as many divisions by 35 as bring the increment to 455 or less |
| Rfc3492.DigitsExact | Art-Project/Pods/Libuv-gRPC/src/idna.c:213-218 | the digits of section 5 of RFC 3492: a to z are 0 to 25, 0 to 9 are 26 to 35, written in lower case |
| Rfc3492.LiteralFirst | Art-Project/Pods/Libuv-gRPC/src/idna.c:138-164 | behind the prefix stand the ASCII characters in order, a hyphen if there are any, and then no other hyphen |
| Rfc3492.SampleDecodes | Art-Project/Pods/Libuv-gRPC/src/idna.c:166-243 | the decoder of section 6.2, against which the encoder is proved, reads sample (R) of section 7.1 of RFC 3492 |
| Rfc3492.UmlautLabel | Art-Project/Pods/Libuv-gRPC/src/idna.c:102-246 | the label of the single code point FC is written as xn--tda |
| Rfc3492.TestLabel | Art-Project/Pods/Libuv-gRPC/src/idna.c:102-246 | the label 30C6 30B9 30C8, a top-level test domain, is written as xn--zckzah |
| Rfc3492.LabelsExact | Art-Project/Pods/Libuv-gRPC/src/idna.c:250-289 | a name is its labels with one of the four full stops of section 3.1 of RFC 3490 between each two of them, and none inside |
| Rfc3492.DomainDotted | Art-Project/Pods/Libuv-gRPC/src/idna.c:250-289 | what is written for a name is what is written for each label, with full stops between |
| Idna.ToAscii | Art-Project/Pods/Libuv-gRPC/src/idna.c:250-289 | the domain label by label, with any of the four full stops as separator, its terminator and the number of bytes written, or the error of the first label that is refused |
| Idna.DomainRefused | Art-Project/Pods/Libuv-gRPC/src/idna.c:250-289 | a domain is refused if and only if one of its labels is: malformed, overflowing, or plain with 2^31 characters or more |
| Idna.ShortLabelsWritten | Art-Project/Pods/Libuv-gRPC/src/idna.c:250-289 | a domain of well-formed labels of at most 3853 characters each is never refused |
| Idna.DomainRoundTrip | Art-Project/Pods/Libuv-gRPC/src/idna.c:250-289 | the written domain has one piece for each label, and every piece reads back as its label |
| Utf8.Decode1 | Art-Project/Pods/Libuv-gRPC/src/idna.c:24-97 | on any bytes, malformed ones included, the reader takes as many as the first one asks for and returns what their bits and its checks make of them |
| Utf8.ValueExact | Art-Project/Pods/Libuv-gRPC/src/idna.c:59-83 | the reader returns c if and only if the bytes, with the marks of their continuation bytes mended, are the encoding of the scalar value c and the joint test of those marks passes |
| Utf8.MarkedExact | Art-Project/Pods/Libuv-gRPC/src/idna.c:59-83 | on bytes with proper continuation marks it accepts exactly the encodings of RFC 3629: no overlong form, surrogate or value above 10FFFF |
| Utf8.Samples | Art-Project/Pods/Libuv-gRPC/src/idna.c:24-97 | the examples of section 7 of RFC 3629 |
| Utf8.MalformedAccepted | Art-Project/Pods/Libuv-gRPC/src/idna.c:59-60 | without them it accepts malformed bytes: any two last bytes of three with equal top bits, such as E1 41 41 |
| Utf8.ForEach | Art-Project/Pods/Libuv-gRPC/src/idna.c:99-100 | the loop over a text inside a larger memory, on any bytes: it runs once for each complete character, and what stands behind the end of the text makes no difference |
| Utf8.CutDropped | Art-Project/Pods/Libuv-gRPC/src/idna.c:99-100 | a well-formed text is read as the code points it was made of; a character cut off by the end of the text is dropped, not refused |
| InetSpec.Pton4Exact | Art-Project/Pods/Libuv-gRPC/src/inet.c:179-215 | the accepted texts are exactly the printed addresses: four decimals 0 to 255 without leading zeros, each read as the address it prints |
| Inet6Spec.Pton6OfNtop6 | Art-Project/Pods/Libuv-gRPC/src/inet.c:67-147 | for every address, whichever run of zeros is abbreviated and with either form of embedded IPv4, the parser returns the bytes that were printed |
| Inet6Grammar.Pton6Exact | Art-Project/Pods/Libuv-gRPC/src/inet.c:218-302 | inet_pton6 reads a text as sixteen bytes if and only if it is a way to write them: eight groups of one to four hex digits in either case and with leading zeros, each read as its value in base 16, the last two or not as an IPv4 address, or fewer with :: for at least one zero group |
| Inet6Grammar.BytesAt | Art-Project/Pods/Libuv-gRPC/src/inet.c:249-266 | each group takes two bytes, the more significant one first |
| Inet6Grammar.CaseIgnored | Art-Project/Pods/Libuv-gRPC/src/inet.c:233-246 | texts that differ only in the case of letters are read alike |
| Inet6Grammar.PrintedForm | Art-Project/Pods/Libuv-gRPC/src/inet.c:113-142 | the printed form: :: and an IPv4 address behind six zero words if the seventh is not zero, ::ffff: and one behind five, and otherwise groups with :: for the run of zeros |
| Inet6Grammar.HexShows | Art-Project/Pods/Libuv-gRPC/src/inet.c:136 | a group is printed in lower case without leading zeros |
| Inet6Grammar.DecShows | Art-Project/Pods/Libuv-gRPC/src/inet.c:53-64 | a decimal is printed without leading zeros |
| Inet.Ntop4 | Art-Project/Pods/Libuv-gRPC/src/inet.c:53-64 | the text and its terminator, or UV_ENOSPC and no change |
| Inet.PairBytes | Art-Project/Pods/Libuv-gRPC/src/inet.c:82-84 | the words of the address |
| Inet.FindRun | Art-Project/Pods/Libuv-gRPC/src/inet.c:85-111 | the run to abbreviate is the left-most of the longest runs of at least two zero words |
| Inet.CanonicalUnique | Art-Project/Pods/Libuv-gRPC/src/inet.c:85-111 | there is only one such run |
| Inet.Format | Art-Project/Pods/Libuv-gRPC/src/inet.c:113-142 | the formatting loop writes the text and it fits in the temporary buffer with its terminator |
| Inet.PrintedIsRead | Art-Project/Pods/Libuv-gRPC/src/inet.c:67-147 | a printed address reads back as itself |
| Inet.PrintedOnce | Art-Project/Pods/Libuv-gRPC/src/inet.c:67-147 | an address has only one printed form |
| Inet.Ntop6 | Art-Project/Pods/Libuv-gRPC/src/inet.c:67-147 | the first size characters of the destination hold the canonical text cut to size, the rest is untouched; UV_ENOSPC exactly when it was cut, and the text reads back as the address |
| Inet.Pton4At | Art-Project/Pods/Libuv-gRPC/src/inet.c:179-215 | the loop over a text decides the accepted addresses and writes four bytes only on success |
| Inet.ShiftToEnd | Art-Project/Pods/Libuv-gRPC/src/inet.c:283-297 | the overlapping shift by hand moves what followed :: to the end and zeroes the gap |
| Inet.Scan6 | Art-Project/Pods/Libuv-gRPC/src/inet.c:233-277 | the scanning loop, with its group, colon and embedded-IPv4 cases |
| Inet.Pton6To | Art-Project/Pods/Libuv-gRPC/src/inet.c:218-302 | sixteen bytes are written exactly when the text is accepted |
| Inet.CopyString | Art-Project/Pods/Libuv-gRPC/src/strscpy.c:4-17 | copies with a terminator and reports truncation, except for size zero |
| Gif.GcdForPair | Art-Project/Art-Project/Ulities/Extensions/UIImage + Extension.swift:75-105 | for all integers: the loop of Euclid divides by zero exactly when the smaller number is zero, and otherwise returns a number whose divisors are exactly the common divisors; a missing number is neutral |
| Gif.GcdForArray | Art-Project/Art-Project/Ulities/Extensions/UIImage + Extension.swift:107-119 | a greatest common divisor of all delays, positive if they are; it divides by zero only if some delay is zero, and always if besides none is negative; 1 for no delays |
| Gif.IsGcdMeans | Art-Project/Art-Project/Ulities/Extensions/UIImage + Extension.swift:107-119 | such a number divides all of them and is the greatest that does |
| Gif.Schedule | Art-Project/Art-Project/Ulities/Extensions/UIImage + Extension.swift:138-169 | the frames last duration / gcd entries, and at every millisecond the frame on screen is the image whose delay covers it |

## Left out

- nanopb callback and extension fields, pointer fields with `PB_ENABLE_MALLOC`, the build without
  64-bit integers, delimited and null-terminated entry points, struct offsets and padding.
- RoundTrip.MessageRoundTrip: stated for encodings below 2^63 bytes; `size_t` arithmetic does not wrap in the model.
- IStream.Stream.Varint32: the bit position is unbounded, while `uint_fast8_t` may wrap after 36 bytes of an over-long varint.
- PbDecode.DecodeNoInit: decoding methods report success or failure, not which error message is left in the stream.
- Thread creation, joining, fork handling, `UV_THREADPOOL_SIZE` and `uv_async_send`; each loop is used by one thread at a time.
- Heap.TimerHeap.Insert: the 32-bit width of `nelts` and of the path is not modelled; the order is fixed to that of timers.
- Timers.Loop.RunTimersWith: callbacks do not initialise or close timers.
- Closing a handle and `uv_timer_set_repeat`.
- Punycode.ToAsciiLabel: works on what the character reader returns, for labels of fewer than 2^32 - 1 characters; what is in the buffer after an overflow is not stated.
- Utf8.Decode1: the bytes that the first one asks for must be in memory, be they behind the end of the text; whether they are is up to the caller.
- PoolCode.Globals.CancelBegin: a request that was already reported as cancelled is left out; its link points at queues it has left, and the C code unlinks it all the same.
- The zone suffix behind `%` and the choice of address family in `uv_inet_pton` and `uv_inet_ntop`.
- Gif.Schedule: delays are positive integers; reading them from the image, rendering and 64-bit overflow are not modelled.
- Gif.GcdForArray: with a zero among negative delays it is not stated whether the division by zero happens.
- The rest of the app: views, view models, networking, keychain, localisation, and the other pods.
