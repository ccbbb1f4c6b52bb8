# sentinel-rt: the allocation table, the parsers and the adapters

This project models the stateful core of sentinel-rt and proves what it is for.

**The CUDA sanitizer.** `AllocationTable.dfy` describes a device as a value: the driver's live
allocations, the table of tracked regions, the running byte total and the last report, with one
function per operation. `Sanitizer.dfy` is the mutable class, every method tied to its function.
`Shadow.dfy` gives the table its meaning in byte-level shadow memory, and `Protocol.dfy` runs any
number of threads through the operations, with every driver call outside the mutex as its own step.
The driver is an environment: `cudaMalloc` may return any fresh interval apart from the live ones or
fail, `cudaFree` may refuse; its answers are arguments of the calls.

**The GGUF parser.** `GgufFormat.dfy` holds documents, an encoder as specification and the decoder;
`GgufBytes.dfy` says the same in bytes and numbers and gives every exception its cause; `GgufParser.dfy`
is the cursor parser proved against the decoder; `GgufAudit.dfy` and `Products.dfy` are the size audit. The format is the GGUF specification, section "File Structure", as the code reads
it.

**The ONNX auditor.** `Varint.dfy` is the base-128 arithmetic of shifts and ORs in a 64-bit word
(Protocol Buffers Encoding, section "Base 128 Varints"; `& 0x7F`, `>> 3` and `& 7` are written as
remainders and quotients), `OnnxRecords.dfy` the records and the header as a fold over them (sections
"Message Structure" and "Last One Wins"), `OnnxLoop.dfy` the record loop as the machine runs it, with
its wrapping length guards, against those records, `OnnxFields.dfy` the header and the status by field
number and wire type, and `OnnxParser.dfy` the cursor parser.

**The adapters.** `AdapterRuns.dfy` proves what every sequence of adapter calls on one sanitizer
keeps; `VllmAdapter.dfy`, `LibTorchAdapter.dfy` and `LlamaCppAdapter.dfy` are the classes, each proved
to take those steps, with the tiling, overflow-guard and lifecycle laws.

Machine words are integers below 2^64 with wrap-around written out (`Machine.dfy`).

## Where a property holds only under a condition

The code is kept as it is; each property below is false on some inputs, and the condition is proved.

- Tracking is sound exactly for requests whose padding does not wrap: `MallocKeepsInvExactly`,
  `AcquireKeepsInvExactly`; witnesses `WrappedRequestIsGranted`, `GuardIgnoresRedzones`. The runs of
  `Protocol.dfy` and `AdapterRuns.dfy` are over such requests.
- `check_bounds` is the byte test, for accesses inside the address space, exactly when no addressable
  payloads abut (`CheckRefinesShadowExactly`); an access whose end wraps is judged wrongly exactly when
  its first byte is addressable (`WrappedAccess`).
- `poison_region` and `unpoison_region` mark the `size` bytes they are documented to mark exactly when
  the bytes between the end of what they mark and that of the size have the mark already (`MarksAsDocumentedExactly`); between
  redzones, when the size is the region's own, or smaller and the region already so marked
  (`MarksRegionAsDocumentedExactly`).
- The ONNX loop reads a buffer as its records exactly when no length met along them wraps with the
  cursor (`FollowsSplitExactly`, `GuardAgreesExactly`), and returns exactly when no two iterations start
  at the same byte (`TerminatesExactly`); witnesses `WrappedIsAccepted`, `RewindingRecord`.
- The GGUF verdict is independent of the order of the dimensions exactly when none is zero or the
  non-zero ones fit together (`OrderIrrelevantExactly`); witness `ZeroDimensionOrderMatters`.
- A LibTorch view is judged wrongly exactly when its end wraps to at most the tensor's size and its
  start is any tenant's addressable byte (`ViewRightExactly`); witness `ViewOfAnotherTensor`.
- A llama.cpp context is planned rightly exactly when the product of context length and embedding
  dimension is outside 2^63 to 3 * 2^62 - 1 (`PlanExact`); witness `WrappedPlan`.
- All vLLM tokens of a block are accessible when the block size does not wrap. When it wraps the token
  at the end of the payload is refused, exactly unless it crosses the top of the address space
  (`LostTokenExactly`, `AllTokensExactlyWhenFits`); witnesses `TokensAroundTheTop`, `ZeroTokensExist`.

## Where code and documentation differ

- `poison_region` and `unpoison_region` are documented as marking `size` bytes from any address
  (include/sentinel/sanitizers/cuda_sanitizer.hpp:93-109). The code ignores the size and marks the
  whole region, and only when given its first payload byte. The model follows the code, and the section
  above says when the two agree.
- GGUF version 1 has 32-bit counts and lengths in its specification; the code reads 64 bits in every
  version, and so does the model.
- The redzones are never written with a pattern and never inspected on free, although the adapters
  document validated redzones (include/sentinel/adapters/libtorch_adapter.hpp:62). Only addresses are
  checked, and only that is modelled.

## Model

| member | source | states |
|---|---|---|
| Sanitizer.CUDASanitizer.AuditMalloc | src/sanitizers/cuda_sanitizer.cu:31-82 | All branches of the call: the pointer written, the status and the whole new state (driver, table, total, report), with the 64-bit size and address arithmetic of the source |
| Sanitizer.CUDASanitizer.AuditFree | src/sanitizers/cuda_sanitizer.cu:84-122 | Null, unknown and tracked pointers: status and whole new state; the entry is gone whether or not cudaFree succeeds |
| Sanitizer.CUDASanitizer.CheckBounds | src/sanitizers/cuda_sanitizer.cu:124-150 | The early-return loop, in any iteration order, answers the order-free question whether some region accepts the access |
| Sanitizer.CUDASanitizer.PoisonRegion | src/sanitizers/cuda_sanitizer.cu:152-167 | Only the flag of the region keyed by the pointer is set; unknown pointers are reported by status |
| Sanitizer.CUDASanitizer.UnpoisonRegion | src/sanitizers/cuda_sanitizer.cu:169-184 | Only the flag of the region keyed by the pointer is cleared; unknown pointers are reported by status |
| Sanitizer.CUDASanitizer.Reset | src/sanitizers/cuda_sanitizer.cu:191-202 | The freeing loop, in any iteration order, hands exactly the tracked raw bases to the driver and leaves an empty sanitizer |
| Sanitizer.Driver.CudaMalloc | src/sanitizers/cuda_sanitizer.cu:45 | The driver as an environment: a fresh disjoint interval or a failure |
| Sanitizer.Driver.CudaFree | src/sanitizers/cuda_sanitizer.cu:116 | The driver as an environment: success frees a live base, refusal leaves it live |
| Sanitizer.OneHit | src/sanitizers/cuda_sanitizer.cu:134-146 | At most one tracked payload contains an address, so the first hit decides check_bounds |
| AllocationTable.MallocKeepsInv | src/sanitizers/cuda_sanitizer.cu:41-79 | A granted request whose padding does not wrap keeps the table disjoint, backed by the driver and summed by the total; the key is new and the total does not wrap |
| AllocationTable.MallocKeepsInvExactly | src/sanitizers/cuda_sanitizer.cu:42 | A granted request keeps the invariant if and only if size + 2 * redzone does not wrap |
| AllocationTable.WrappedRequestIsGranted | src/sanitizers/cuda_sanitizer.cu:42 | A concrete request whose padded size wraps, is granted and breaks the invariant |
| AllocationTable.FreeKeepsInv | src/sanitizers/cuda_sanitizer.cu:92-121 | Freeing a tracked pointer keeps the invariant, names a live base, takes exactly its bytes from the total without underflow and changes no other entry |
| AllocationTable.SetPoisonKeepsInv | src/sanitizers/cuda_sanitizer.cu:152-184 | Poisoning and unpoisoning keep the invariant |
| AllocationTable.ResetKeepsInv | src/sanitizers/cuda_sanitizer.cu:191-202 | reset keeps the invariant whatever frees the driver refuses |
| AllocationTable.FreeUndoesMalloc | src/sanitizers/cuda_sanitizer.cu:41-121 | audit_free of a pointer just allocated restores the device exactly |
| AllocationTable.DoubleFreeIsReported | src/sanitizers/cuda_sanitizer.cu:95-105 | A second free of the same pointer is a boundary violation that changes only the report |
| AllocationTable.FreshRegion | src/sanitizers/cuda_sanitizer.cu:77-78 | A granted interval is apart from every tracked region and its key is new, so insert_or_assign never overwrites |
| AllocationTable.SumBelow | src/sanitizers/cuda_sanitizer.cu:78 | Disjoint payloads below a bound hold at most that many bytes, which is why the total cannot wrap |
| AllocationTable.MallocAnswers | src/sanitizers/cuda_sanitizer.cu:31-82 | audit_malloc case by case in plain arithmetic modulo 2^64: the pointer written, the status, every field of the device and the content of the report after a refusal |
| AllocationTable.FreeAnswers | src/sanitizers/cuda_sanitizer.cu:84-122 | audit_free of null, of an unknown and of a tracked pointer: status, every field, and address, size and kind of the report |
| AllocationTable.SetPoisonAnswers | src/sanitizers/cuda_sanitizer.cu:152-184 | poison_region and unpoison_region succeed if and only if the pointer is null, the size zero or the pointer tracked, else report a boundary violation and change nothing; only the flag of that one region changes |
| AllocationTable.ResetAnswers | src/sanitizers/cuda_sanitizer.cu:191-202 | reset empties table, total and report, and of the live allocations exactly the unrefused raw bases of tracked regions are gone |
| Shadow.MallocPaints | src/sanitizers/cuda_sanitizer.cu:41-77 | audit_malloc paints one redzone-payload-redzone strip and nothing else in byte-level shadow memory |
| Shadow.FreeUnmaps | src/sanitizers/cuda_sanitizer.cu:107-112 | audit_free unmaps the payload and both redzones and nothing else |
| Shadow.SetPoisonPaints | src/sanitizers/cuda_sanitizer.cu:157-183 | poison_region and unpoison_region repaint exactly the whole payload, whatever size they are given |
| Shadow.MarksAsDocumentedExactly | src/sanitizers/cuda_sanitizer.cu:152-184 | For every pointer, size and flag: the size bytes the documentation promises are marked, and nothing else, if and only if the bytes between the end of what the code marks and the end of the size have that mark already |
| Shadow.MarksRegionAsDocumentedExactly | src/sanitizers/cuda_sanitizer.cu:157-183 | For a region between redzones: as documented if and only if the size is the region's own, or smaller and the region already so marked |
| Shadow.ResetBlanks | src/sanitizers/cuda_sanitizer.cu:191-202 | reset leaves every byte unmapped, also those the driver refused to free |
| Shadow.CheckRefinesShadow | src/sanitizers/cuda_sanitizer.cu:124-150 | With redzones of at least one byte, check_bounds holds if and only if every byte of the access is addressable payload, for every access inside the address space |
| Shadow.CheckRefinesShadowExactly | src/sanitizers/cuda_sanitizer.cu:124-150 | For any table: check_bounds is the byte test for all such accesses if and only if no two addressable payloads abut |
| Shadow.AbuttingIsRefused | src/sanitizers/cuda_sanitizer.cu:139-144 | The refused access that spans two abutting payloads, for every such pair |
| Shadow.WrappedAccess | src/sanitizers/cuda_sanitizer.cu:130 | When address + length wraps, check_bounds accepts exactly when the first byte is addressable, although no such access is allowed byte by byte |
| Shadow.RedzoneIsRefused | src/sanitizers/cuda_sanitizer.cu:139-149 | Any access inside the address space that touches a redzone is refused |
| Protocol.Reachable | src/sanitizers/cuda_sanitizer.cu:31-202 | After any interleaving of threads the live driver allocations are exactly the disjoint union of tracked, pending, dying and leaked ones; with the mutex free the table is disjoint, keyed by address, backed by the driver and summed by the total |
| Protocol.RunKeepsInv | src/sanitizers/cuda_sanitizer.cu:31-202 | Every step of every run keeps the ownership partition, also from states inside a reset with stale entries |
| Protocol.FreeMutexInv | src/sanitizers/cuda_sanitizer.cu:66-113 | Whenever the mutex is free the sequential invariant holds |
| Protocol.TrackIsFresh | src/sanitizers/cuda_sanitizer.cu:66-79 | Registration never overwrites an entry and its addition to the total never wraps |
| Protocol.LookupIsCovered | src/sanitizers/cuda_sanitizer.cu:107-112 | The subtraction from the total never underflows |
| Protocol.FreeIsSafe | src/sanitizers/cuda_sanitizer.cu:115-116 | Every cudaFree, from audit_free or reset, names the base of a live allocation never passed to cudaFree before |
| Protocol.NoDoubleFree | src/sanitizers/cuda_sanitizer.cu:92-119 | Over any run no allocation is passed to cudaFree twice |
| Protocol.OneFreeWins | src/sanitizers/cuda_sanitizer.cu:92-105 | Of racing audit_free calls on one registered pointer exactly the first under the mutex finds it and all others are refused |
| Protocol.LoserIsReported | src/sanitizers/cuda_sanitizer.cu:95-105 | A refused audit_free returns the boundary violation, writes only the report and issues no cudaFree |
| Protocol.Linearised | src/sanitizers/cuda_sanitizer.cu:31-202 | Any interleaving leaves table, total and report as the sequential operations called in the order of their locked sections, and every call that returns from its locked section returns what the sequential one does |
| Protocol.FreeAnswer | src/sanitizers/cuda_sanitizer.cu:107-121 | Under any interleaving audit_free of a tracked pointer returns what the sequential call would have at its lookup |
| Protocol.AloneMalloc | src/sanitizers/cuda_sanitizer.cu:31-82 | A thread running audit_malloc alone leaves the device, the written pointer and the status of the sequential operation |
| Protocol.AloneFree | src/sanitizers/cuda_sanitizer.cu:84-122 | A thread running audit_free alone leaves the device and the status of the sequential operation |
| Protocol.AloneReset | src/sanitizers/cuda_sanitizer.cu:191-202 | An uninterrupted reset computes the sequential operation for every iteration order |
| Protocol.WaitsExactly | src/sanitizers/cuda_sanitizer.cu:45-116 | cudaMalloc and cudaFree run whoever holds the mutex; every locked section waits for it and for nothing else |
| Protocol.ResetProceeds | src/sanitizers/cuda_sanitizer.cu:191-202 | In no reachable state is a thread inside reset stuck |
| Protocol.GrantedAgainInsideReset | src/sanitizers/cuda_sanitizer.cu:191-202 | A concrete run in which a thread is granted, during another's reset, the base whose stale entry is still in the table |
| Protocol.TrackedAfterReset | src/sanitizers/cuda_sanitizer.cu:66-79 | The end of that run: exactly the new region is tracked |
| GgufFormat.RoundTrip | src/parsers/gguf_parser.cpp:26-123 | Every document within the caps, followed by any bytes, is decoded back with exactly those bytes left |
| GgufFormat.Sound | src/parsers/gguf_parser.cpp:26-123 | Whatever is decoded is within the caps and the bytes before the cursor are exactly its encoding |
| GgufFormat.AcceptedExactly | src/parsers/gguf_parser.cpp:26-123 | A buffer is decoded if and only if it starts with the encoding of a document within the caps |
| GgufFormat.Local | src/parsers/gguf_parser.cpp:26-123 | Changing or extending the bytes after the cursor changes nothing |
| GgufFormat.Truncated | src/parsers/gguf_parser.cpp:26-123 | Cutting a decoded buffer before the cursor makes parse throw instead of returning a status |
| GgufFormat.PrefixFree | src/parsers/gguf_parser.cpp:26-123 | No document's encoding is a proper prefix of another's |
| GgufBytes.RefusedByBytes | src/parsers/gguf_parser.cpp:32-44 | The two returned refusals, and exactly which first eight bytes get them |
| GgufBytes.HeaderByOffset | src/parsers/gguf_parser.cpp:26-57 | In a decoded buffer the letters GGUF, the version and both counts lie at bytes 0, 4, 8 and 16 |
| GgufBytes.DocOkExactly | src/parsers/gguf_parser.cpp:60-98 | The caps in numbers: versions 1 to 3, 65536 key/values, 1000000 tensors, 65536 string bytes, eight dimensions, and bits that fit their type |
| GgufBytes.ValueInBytes | src/parsers/gguf_parser.cpp:178-195 | Type tag, width and bits of each of the twelve value types, signed ones in two's complement |
| GgufBytes.SampleFile | src/parsers/gguf_parser.cpp:26-123 | A file with two key/values and a tensor written out byte for byte, and what is decoded from it |
| GgufBytes.ShortHeader | src/parsers/gguf_parser.cpp:28-57 | A buffer that ends inside an acceptable header throws ErrOutOfBoundsRead |
| GgufBytes.TooMany | src/parsers/gguf_parser.cpp:60-62 | Counts above the caps throw ErrMalformedHeader, whatever follows |
| GgufBytes.BrokenMetadata | src/parsers/gguf_parser.cpp:64-82 | Complete key/values and then none throw ErrMalformedHeader, and exactly those before are stored |
| GgufBytes.MalformedTensor | src/parsers/gguf_parser.cpp:84-100 | Complete tensors and then no name and dimension count within the caps throw ErrMalformedHeader, and exactly those before are stored |
| GgufBytes.ShortTensor | src/parsers/gguf_parser.cpp:102-123 | Complete tensors and then a name and count with fewer bytes than dimensions, type and offset need throw ErrOutOfBoundsRead, and exactly those before are stored |
| GgufFormat.ValueRoundTrip | src/parsers/gguf_parser.cpp:178-195 | Every typed value in range survives storing and reading, with two's complement for signed types |
| GgufFormat.StoredExactly | src/parsers/gguf_parser.cpp:187 | Reading determines the stored value except for the byte of a BOOL, where every non-zero byte is true |
| GgufFormat.LastWriteWins | src/parsers/gguf_parser.cpp:81 | The metadata map holds the last value stored under each key |
| GgufFormat.MetadataKeys | src/parsers/gguf_parser.cpp:81 | The metadata map holds no key that was not read |
| LittleEndian.DecEnc | src/parsers/gguf_parser.cpp:157-160 | Reading the little-endian bytes of a number gives the number |
| LittleEndian.EncDec | src/parsers/gguf_parser.cpp:157-160 | The bytes read are the little-endian bytes of the number they give |
| LittleEndian.Weights | src/parsers/gguf_parser.cpp:157-160 | The weight of every byte of a number of one, two, four or eight bytes, the first byte lowest |
| GgufAudit.AuditExact | src/parsers/gguf_parser.cpp:129-149 | The audit succeeds if and only if every partial product and every byte size fits in 64 bits, and it has only one possible outcome |
| GgufAudit.AuditTwice | src/parsers/gguf_parser.cpp:129-149 | A second audit after success changes nothing |
| GgufAudit.AuditShows | src/parsers/gguf_parser.cpp:84-149 | After any audit the stored tensors show name, dimension count, dimensions, type and offset of the descriptors read, one by one, and after success their sizes are the true ones |
| GgufAudit.OrderIrrelevantExactly | src/parsers/gguf_parser.cpp:133-144 | The verdict is the same for every order of the dimensions if and only if none is zero or the product of the non-zero ones is at most 2^64 - 1 |
| GgufAudit.ZeroDimensionOrderMatters | src/parsers/gguf_parser.cpp:133-144 | A concrete pair of permutations with a zero dimension and different verdicts |
| Products.GuardIsExact | src/parsers/gguf_parser.cpp:135 | The division guard is an exact test of whether the next product exceeds 2^64 - 1 |
| Products.ProductPermuted | src/parsers/gguf_parser.cpp:133-139 | The product of the dimensions does not depend on their order |
| GgufParser.GGUFParser.Parse | src/parsers/gguf_parser.cpp:23-127 | From any prior state: a refusal or an exception with what is stored by then, or the decoded header, last-write-wins metadata, the tensors field by field, audit verdict and cursor; the bytes before the cursor are the encoding of the stored tensors and of key/values behind the map |
| GgufParser.GGUFParser.ParseTables | src/parsers/gguf_parser.cpp:59-126 | The caps, both counted loops and the closing audit, with the tensors field by field and what an exception leaves in the tables |
| GgufParser.GGUFParser.ReadMetadata | src/parsers/gguf_parser.cpp:64-82 | The metadata loop reads exactly the stated number of key/values and stores them in order |
| GgufParser.GGUFParser.ReadKV | src/parsers/gguf_parser.cpp:66-79 | One key/value, with the status of each failure |
| GgufParser.GGUFParser.ReadTensors | src/parsers/gguf_parser.cpp:84-123 | The tensor loop reads exactly the stated number of descriptors in order |
| GgufParser.GGUFParser.ReadTensor | src/parsers/gguf_parser.cpp:87-122 | One descriptor, with the status of each failure |
| GgufParser.GGUFParser.ReadShape | src/parsers/gguf_parser.cpp:95-108 | The dimension count, capped at eight, and that many dimensions |
| GgufParser.GGUFParser.ReadDims | src/parsers/gguf_parser.cpp:102-108 | The dimension loop |
| GgufParser.GGUFParser.ReadTrailer | src/parsers/gguf_parser.cpp:110-120 | Type and offset of a descriptor |
| GgufParser.GGUFParser.ReadPod | src/parsers/gguf_parser.cpp:151-161 | A fixed-width little-endian read that advances the cursor by the width, or nothing and no movement |
| GgufParser.GGUFParser.ReadString | src/parsers/gguf_parser.cpp:163-176 | A length-prefixed string of at most 65536 bytes |
| GgufParser.GGUFParser.ReadValue | src/parsers/gguf_parser.cpp:178-195 | The value of each type tag; arrays are refused |
| GgufParser.GGUFParser.ValidateTensorMetadata | src/parsers/gguf_parser.cpp:129-149 | The in-place audit loop fills in sizes up to the first tensor that overflows |
| GgufParser.GGUFParser.TotalElements | src/parsers/gguf_parser.cpp:131-139 | The guarded product loop reports overflow exactly when a partial product exceeds 2^64 - 1 |
| GgufParser.GGUFParser.Reset | src/parsers/gguf_parser.cpp:16-21 | All fields return to their initial values |
| Varint.RoundTrip | src/parsers/onnx_parser.cpp:120-139 | Every 64-bit value's shortest encoding, followed by any bytes, is read back and consumed exactly |
| Varint.ReadExact | src/parsers/onnx_parser.cpp:124-136 | Any complete varint of one to ten bytes is consumed exactly, whatever follows |
| Varint.ReadSound | src/parsers/onnx_parser.cpp:124-138 | A varint is read if and only if the buffer starts with a complete one |
| Varint.FailedRead | src/parsers/onnx_parser.cpp:132-138 | A failed read consumes ten bytes or all that were left |
| Varint.ShiftOr | src/parsers/onnx_parser.cpp:126 | OR-ing seven bits shifted in a 64-bit word adds them modulo 2^64 |
| Varint.ShortestIsShortest | src/parsers/onnx_parser.cpp:120-139 | No accepted encoding is shorter than the shortest encoding of its sum |
| OnnxParser.ONNXParser.ReadVarint | src/parsers/onnx_parser.cpp:120-139 | The loop of shifts and ORs returns the sum of seven-bit groups modulo 2^64 and moves the cursor behind the bytes it looked at |
| OnnxParser.ONNXParser.ReadLengthDelimitedString | src/parsers/onnx_parser.cpp:141-154 | A length-prefixed string of at most 10485760 bytes |
| OnnxParser.ONNXParser.SkipDelimited | src/parsers/onnx_parser.cpp:61-68 | Length and skip of a length-delimited payload, with the guard and the new cursor on the wrapped 64-bit sum |
| OnnxParser.ONNXParser.ReadRecord | src/parsers/onnx_parser.cpp:37-89 | One record behind its tag: every branch of the dispatch, the field it sets, the cursor and the status it returns, for wrapping lengths too |
| OnnxParser.ONNXParser.Parse | src/parsers/onnx_parser.cpp:23-93 | From any prior state, on every buffer on which the source's loop ends: status, header and cursor are those of the machine run, and when no length wraps those of the buffer read as records |
| OnnxParser.ONNXParser.Reset | src/parsers/onnx_parser.cpp:16-21 | All fields return to their initial values |
| OnnxLoop.FollowsSplitExactly | src/parsers/onnx_parser.cpp:31-90 | The loop takes the records of the buffer one by one; in the iteration behind them it stops with their verdict if and only if no length wraps, and otherwise goes on from a byte before the payload of the wrapping length |
| OnnxLoop.TerminatesExactly | src/parsers/onnx_parser.cpp:31-90 | parse returns if and only if no two iterations start at the same byte, and then within as many iterations as the buffer has bytes, and one |
| OnnxLoop.ReadsAsRecords | src/parsers/onnx_parser.cpp:23-93 | When no length wraps parse returns, with the verdict, the header fold and the cursor of the records; unless one is broken their encoding is the buffer up to an unreadable tag |
| OnnxLoop.SucceedsExactly | src/parsers/onnx_parser.cpp:23-99 | When no length wraps parse succeeds if and only if the buffer is non-empty and is complete records followed by nothing or an unreadable tag, with at most 500000 graph records |
| OnnxLoop.GuardAgreesExactly | src/parsers/onnx_parser.cpp:62 | The source's wrapped comparison means len <= size - cursor if and only if cursor + len does not wrap; a wrapped sum always passes and moves the cursor back |
| OnnxLoop.WrappedIsAccepted | src/parsers/onnx_parser.cpp:60-69 | A concrete 19-byte buffer that parse accepts through a wrapped length although its only record is broken |
| OnnxLoop.RewindingRecord | src/parsers/onnx_parser.cpp:60-69 | A concrete eleven-byte record on which the loop is back at its first byte after every number of iterations, so that parse does not return |
| OnnxLoop.MergedHeaders | src/parsers/onnx_parser.cpp:31-90 | parse on two concatenated complete messages leaves the header it leaves on the first, overridden by what the second mentions, with node counts added |
| OnnxLoop.UnknownChangesNothing | src/parsers/onnx_parser.cpp:70-89 | A well-formed record of no recognised meaning at any boundary of a buffer without wrapping lengths leaves header and status of parse unchanged |
| OnnxLoop.CountFits | src/parsers/onnx_parser.cpp:67 | After n iterations node_count is at most n, so on a buffer on which parse returns the 64-bit counter does not wrap |
| OnnxFields.HeaderByFields | src/parsers/onnx_parser.cpp:31-90 | On every buffer without wrapping lengths: producer_name and producer_version are the data of the last record of field 2 and 3 with wire type 2, ir_version the two's complement reading of the last varint of field 1, node_count the number of field-7 records with wire type 2, and the other fields untouched |
| OnnxFields.MessageHeader | src/parsers/onnx_parser.cpp:41-69 | The same for a complete message in terms of its own records |
| OnnxFields.CompleteStatus | src/parsers/onnx_parser.cpp:93-99 | Complete records up to the end or an unreadable tag succeed with at most 500000 field-7 records and are malformed with more |
| OnnxFields.BrokenStatus | src/parsers/onnx_parser.cpp:37-89 | A tag without a complete body: wire types 3, 4, 6 and 7 are malformed, all others out of bounds |
| OnnxFields.EmptyStatus | src/parsers/onnx_parser.cpp:26-28 | The empty buffer is malformed |
| OnnxFields.RecordOkExactly | src/parsers/onnx_parser.cpp:37-89 | A well-formed record in numbers: its four wire types, and strings of fields 2 and 3 of at most 10485760 bytes |
| OnnxFields.SampleMessage | src/parsers/onnx_parser.cpp:23-93 | A message of eleven bytes and the header, cursor and status parse ends with |
| OnnxRecords.SplitsOneWay | src/parsers/onnx_parser.cpp:31-90 | A buffer splits into records in at most one way, and that is the one parse finds |
| OnnxRecords.GraphsCounted | src/parsers/onnx_parser.cpp:60-69 | node_count is the number of length-delimited field-7 records |
| OnnxRecords.FoldOverrides | src/parsers/onnx_parser.cpp:41-69 | Last one wins: records override exactly the header fields they mention |
| AdapterRuns.AdapterRun | src/adapters/vllm_adapter.cpp:13-79 | Over any sequence of adapter calls on one sanitizer every held pointer is tracked with the recorded size and held once, every tracked region has an owner, and every call does what it owes: records and bytes added or taken exactly, no free reported, single or inside a reset |
| AdapterRuns.RunKeepsInv | src/adapters/libtorch_adapter.cpp:19-99 | The same from any coupled state |
| AdapterRuns.AcquireKeepsCoupling | src/adapters/vllm_adapter.cpp:26-42 | A successful allocation records a pointer that was not tracked before and adds exactly its bytes to the total; a failed one changes neither records nor table |
| AdapterRuns.AcquireKeepsInvExactly | src/adapters/libtorch_adapter.cpp:40-49 | An adapter allocation keeps the invariant if and only if its two redzones of 256 bytes still fit |
| AdapterRuns.FreeHeld | src/adapters/libtorch_adapter.cpp:83-92 | Freeing a held record is never a boundary violation and takes exactly its bytes and its entry |
| AdapterRuns.AcquireAnswers | src/adapters/libtorch_adapter.cpp:46-63 | An adapter allocation succeeds if and only if it asks for nothing or the driver grants it; then one record is added, 256 bytes behind the granted base, with everything the sanitizer tracks for it |
| AdapterRuns.ReleaseAnswers | src/adapters/libtorch_adapter.cpp:83-92 | Freeing an unknown id is a boundary violation that changes nothing; a known one is forgotten and its pointer freed |
| AdapterRuns.ReleaseManyDrains | src/adapters/libtorch_adapter.cpp:94-99 | An adapter's reset removes exactly its own entries and bytes in every iteration order and reports nothing |
| AdapterRuns.ReleaseManyFrees | src/adapters/libtorch_adapter.cpp:94-99 | An adapter's reset hands exactly the raw bases of its records to the driver, in every order |
| AdapterRuns.StepsProject | src/adapters/vllm_adapter.cpp:13-72 | A step of one adapter is a step on its own records and leaves all other adapters' records alone |
| AdapterRuns.ResetProjects | src/adapters/vllm_adapter.cpp:74-79 | An adapter's reset is the release of its own slots |
| VllmAdapter.VLLMAdapter.AllocateKVBlock | src/adapters/vllm_adapter.cpp:13-43 | Duplicate ids change nothing; otherwise exactly one acquisition of the 64-bit block size and one new record |
| VllmAdapter.VLLMAdapter.ValidateTokenAccess | src/adapters/vllm_adapter.cpp:45-61 | Exactly the index test followed by the bounds check of the token's bytes |
| VllmAdapter.VLLMAdapter.FreeKVBlock | src/adapters/vllm_adapter.cpp:63-72 | Unknown ids are refused; otherwise one release and one record less |
| VllmAdapter.VLLMAdapter.Reset | src/adapters/vllm_adapter.cpp:74-79 | Every record is released once, in some order, and none is left |
| VllmAdapter.TokensExactly | src/adapters/vllm_adapter.cpp:45-61 | For a live block a token is accessible if and only if its index is below the block size |
| VllmAdapter.TokenAccessIsShadow | src/adapters/vllm_adapter.cpp:45-61 | For every block, live or not: a token that stays inside the address space is accessible if and only if the id is known, the index below the block size and every byte of it addressable payload |
| VllmAdapter.TokensTile | src/adapters/vllm_adapter.cpp:56-60 | Token ranges cover the payload exactly and do not overlap |
| VllmAdapter.BlocksApart | src/adapters/vllm_adapter.cpp:56-60 | Token ranges of different live blocks never meet |
| VllmAdapter.ProductIsExact | src/adapters/vllm_adapter.cpp:18-21 | When the product fits, the 64-bit size is the true size |
| VllmAdapter.SizesModulo | src/adapters/vllm_adapter.cpp:18-21 | For every shape the token and block sizes are those of four bytes per element, modulo 2^64 |
| VllmAdapter.CoupledBlocksAreLive | src/adapters/vllm_adapter.cpp:32-41 | Under the coupling every recorded block whose product fits is live unless poisoned, and ids never share a pointer |
| VllmAdapter.AllTokensExactlyWhenFits | src/adapters/vllm_adapter.cpp:18-60 | All tokens of a tracked block are accessible if the block size did not wrap and, unless a token crosses the top of the address space, only then |
| VllmAdapter.LostTokenExactly | src/adapters/vllm_adapter.cpp:18-60 | When the block size wrapped, the token at the end of the payload is refused if and only if it does not cross the top of the address space |
| VllmAdapter.TokensAroundTheTop | src/adapters/vllm_adapter.cpp:18-60 | A concrete block whose size wrapped and all of whose tokens are accessible all the same |
| VllmAdapter.ZeroTokensExist | src/adapters/vllm_adapter.cpp:18-21 | A concrete block shape whose per-token size wraps to zero |
| VllmAdapter.ZeroTokensAreRefused | src/adapters/vllm_adapter.cpp:57-60 | A per-token size that wraps to zero makes every token inaccessible |
| LibTorchAdapter.LibTorchAdapter.AllocateTensor | src/adapters/libtorch_adapter.cpp:19-66 | After the argument checks ErrIntegerOverflow is returned if and only if the true size exceeds 2^64 - 1; otherwise exactly that size, at least 1, is acquired and recorded |
| LibTorchAdapter.LibTorchAdapter.TotalElements | src/adapters/libtorch_adapter.cpp:29-38 | The guarded loop over positive dimensions is exact |
| LibTorchAdapter.LibTorchAdapter.ValidateViewAccess | src/adapters/libtorch_adapter.cpp:68-81 | Exactly the 64-bit slice test followed by the bounds check |
| LibTorchAdapter.LibTorchAdapter.FreeTensor | src/adapters/libtorch_adapter.cpp:83-92 | Unknown ids are refused; otherwise one release and one record less |
| LibTorchAdapter.LibTorchAdapter.Reset | src/adapters/libtorch_adapter.cpp:94-99 | Every record is released once, in some order, and none is left |
| LibTorchAdapter.ElementsPermuted | src/adapters/libtorch_adapter.cpp:29-38 | The element count does not depend on the order of the dimensions |
| LibTorchAdapter.GuardIgnoresRedzones | src/adapters/libtorch_adapter.cpp:40-49 | A size the guard lets through whose redzones wrap, and the broken invariant that follows |
| LibTorchAdapter.ViewExact | src/adapters/libtorch_adapter.cpp:75-80 | A view whose end does not wrap is accepted if and only if it is a non-empty part of the live tensor |
| LibTorchAdapter.ViewIsShadow | src/adapters/libtorch_adapter.cpp:68-81 | For every tensor, live or not: a view that stays inside the address space is accepted if and only if the id is known, it ends inside the recorded size and every byte of it is addressable payload |
| LibTorchAdapter.ViewRightExactly | src/adapters/libtorch_adapter.cpp:75-80 | For every offset and length: the verdict is wrong if and only if offset + length wraps to at most the tensor's size and the view starts, without wrapping itself, in any tenant's addressable payload |
| LibTorchAdapter.ViewOfAnotherTensor | src/adapters/libtorch_adapter.cpp:75-80 | A concrete view of one tensor that starts at another and is accepted |
| LlamaCppAdapter.LlamaCppAdapter.InitContext | src/adapters/llamacpp_adapter.cpp:18-56 | A release, then the planned acquisition; status, adapter fields and device after every branch |
| LlamaCppAdapter.LlamaCppAdapter.Plan | src/adapters/llamacpp_adapter.cpp:21-40 | The size computation with its exact first guard and its wrapping doubling |
| LlamaCppAdapter.LlamaCppAdapter.ReleaseContext | src/adapters/llamacpp_adapter.cpp:88-95 | The region is given back and the adapter is uninitialised and empty |
| LlamaCppAdapter.LlamaCppAdapter.AuditTokens | src/adapters/llamacpp_adapter.cpp:58-76 | Success if and only if initialised, within the context length and every id in the vocabulary |
| LlamaCppAdapter.PlanExact | src/adapters/llamacpp_adapter.cpp:31-40 | The planned size is the true size, and the refusal exact, if and only if the product of context length and embedding dimension is below 2^63 or at least 3 * 2^62 |
| LlamaCppAdapter.ZeroFieldIsMalformed | src/adapters/llamacpp_adapter.cpp:24-26 | The plan is ErrMalformedHeader if and only if context length, vocabulary or embedding dimension is zero |
| LlamaCppAdapter.WrappedPlan | src/adapters/llamacpp_adapter.cpp:35 | A concrete context whose doubling wraps to a size of zero |
| LlamaCppAdapter.InitKeeps | src/adapters/llamacpp_adapter.cpp:18-56 | init_context keeps the ownership of at most one region; any failure leaves the adapter uninitialised and empty |
| LlamaCppAdapter.InitHolds | src/adapters/llamacpp_adapter.cpp:18-56 | With layers to offload a granted init_context holds exactly the true size, 256 bytes behind the base, tracked and in the total, and a refused one reports ErrCUDAAllocation and is empty; without layers it only remembers the size |
| LlamaCppAdapter.InitRefuses | src/adapters/llamacpp_adapter.cpp:21-40 | A zero field is ErrMalformedHeader, a true size above 2^64 - 1 that the doubling does not hide ErrIntegerOverflow, both with an empty adapter and the old region given back |
| LlamaCppAdapter.ReleaseDrops | src/adapters/llamacpp_adapter.cpp:88-95 | release takes the region out of the table and its bytes off the total, reports nothing and leaves an empty adapter |
| LlamaCppAdapter.Lifecycle | src/adapters/llamacpp_adapter.cpp:18-95 | Over any sequence of init_context and release nothing but the adapter's current region is ever added to the table |

## Left out

- Driver internals, `cudaMemset`, error texts, labels and messages: foreign calls and text; a report keeps its address, size and status.
- A `cudaMalloc` of zero bytes, which only a wrapped request can issue, is taken to fail.
- Memory effects finer than a locked section: each section under the mutex and each driver call is one atomic step.
- Protocol.Reachable: requests whose padded size wraps are excluded from runs, because with them the property is false (MallocKeepsInvExactly).
- AdapterRuns.AdapterRun: runs contain no direct audit_free or reset on the sanitizer and no wrapped request, because with them the property is false; adapters are live and unmoved.
- OnnxParser.ONNXParser.Parse: is called on buffers on which the source's loop ends (Terminates); on the others, which TerminatesExactly describes, the source does not return. The loop of validate_graph_metadata over initializers, which parse never fills, runs zero times and is left out.
- GgufParser.GGUFParser.Parse: where the cursor stands after a thrown exception.
- VllmAdapter.AllTokensExactlyWhenFits: when the block size wrapped and a token crosses the top of the address space, whether every token is accessible depends on the regions of all tenants; only the token at the end of the payload is decided there.
- Buffers of 2^63 bytes or more, which no host provides, and big-endian hosts.
- Destructors and move operations; the singleton accessor; getters.
- `audit_prompt_string`: one comparison.
- The Safetensors parser, whose header is a library regex, the crash triage, the mutators, harnesses, scripts and build files.
