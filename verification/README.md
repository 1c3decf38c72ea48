# Verified model of the application manager, AOT loading and frame migration

A Dafny model of the parts of this WebAssembly runtime where most depends on state that is kept in step by hand: the
byte-at-a-time install path from the host link to the application queue, the packed attribute container, the layout of
an AOT instance, the module, resource and event registries, the request formats and URL matching, and the migration
image of interpreter frames. Code that updates state in place is modelled by classes and loops proved against
specification functions; what the code is for is proved about those functions, over all inputs and all runs.

`dafny verify dfyconfig.toml` checks the project.

How the modules fit together:

- `Bytes`: bytes, fixed-width integers, their memory images, `memcpy`.
- `Packets`, `Urls`: request and response packets; URL prefix matching; the `k=v&k=v` reader.
- `Install` is the install receiver, one byte at a time; `Reception` is what runs of bytes do to it; `Payloads` reads
  any bytes as a request, record by record, and proves that the receiver ends as they read. From that follow the two
  theorems about requests as they are meant: `Bytecode` for bytecode files, and `Streaming` for AOT files against the
  batch parser in `AotFile`. `Layout` says what both make of a file in terms of its offsets.
- `Link` is the framing machine for any installer; `HostLink` is its in-place form with the install receiver behind it,
  and the end-to-end theorems.
- `Attributes` is the flat buffer and its walkers; `Container` the class and its map meaning.
- `Memory`, `Tables`, `Globals`, `Symbols`: heap placement and growth, table records, global slots, the symbol table.
- `Modules`, `Resources`, `Events` are the three registries; `AppManager` is runs of all three; `Dispatching` is request
  dispatch against the history of registrations.
- `FrameImage` is the frame image and its reading back; `Migration` relates frames at addresses to what an image
  shows; `FrameStream` is the in-place writer and reader and the move from one address space to another.

Modelling assumptions. The host is little-endian, so network byte order is a byte swap. Memory allocation succeeds
except where an outcome is a parameter (attribute container, memory growth, queue post). Buffers given to the AOT loader
are 4-byte aligned. Wasm pages are 64 KiB. Strings are byte sequences without NUL. A linked list is a sequence, newest
first where the source pushes at the head; a record that the source identifies by pointer carries its address. Counts that
the source keeps in a signed `int` in the two receivers are unbounded; install payloads are below 2^31 where that matters.
Fixed-width arithmetic is written out wherever it can wrap. A store outside an allocated block, or a read behind one,
about which C says nothing, is an outcome of its own (`Install.Outside`, `Link.Outside`, `Packets.PastEnd`,
`Symbols.PastEnd`, `Globals.Spilled`), and nothing is promised after it.

Where the code and its own comments or names disagree, the code is followed:

- The AOT version accepted by the install receiver is 3: the initial value 2 of the version array is overwritten at
  module initialisation (core/app-mgr/app-manager/module_wasm_app.c:549-569).
- The read-only test of the attribute container uses the shift constant as a mask, so it looks at bit 1, while the
  serialiser sets bit 2 (core/app-framework/app-native-shared/attr_container.c:283-301, 708-728).
- The section type of an AOT file is compared as a signed number in the receiver and as an unsigned one in the batch
  parser.
- The check of a `get_global` initialiser looks at the mutability of the first imported global, whatever index is named
  (core/iwasm/aot/aot_runtime.c:58-83).
- A heap that gets pages of its own is given all of them less 1 KiB, not the size asked for
  (core/iwasm/aot/aot_runtime.c:453-461).

Properties that are false of the code in general. Each is followed by the members that give the exact condition under
which it holds and those that give an input for which it fails:

- Reception of an install request: `Bytecode.RebuiltExactlyWhen`, `Streaming.StreamRefinesBatch`,
  `Streaming.NativeSymbolsCase`; stores of the receiver inside their blocks, and with it resynchronisation of the link:
  `Payloads.ReadExactly`, `HostLink.AnyInstallPayload`. Inputs: `Payloads.ShortestStray`, and for files with native
  symbols `Streaming.PaddedText`.
- A section size that is the number its bytes stand for: `Payloads.SizeIsValue`. Input: `Payloads.OverlongSize`.
- The receiver hands over only what the batch parser accepts: `Streaming.HandedIsBatch`. Inputs: `Streaming.TopBitKind`,
  `Streaming.ShortCustom`.
- The link between frames after a frame: `Link.IdleAfterFrameExactlyWhen`. Inputs: `Link.RejectedRequestSpoilsNext`,
  `Packets.UnreadablePackets`.
- Repacking of a request: `Packets.RequestRepack`. Input: `Packets.TwoTerminators`.
- Lookup of a key that holds an equals sign: `Urls.LookupExactlyWhen`. Input: `Urls.DelimitedKeyFails`.
- The app heap inside the memory and initial pages within the maximum: `Memory.HeapPlacement`. Inputs:
  `Memory.WrappedPages`, `Memory.WrappedMaximum`.
- A failed grow that leaves nothing changed: `Memory.GrowKeeps`. Input: `Memory.FailedMigration`.
- Table sizes within their maximum: `Tables.FreshWithin`. Input: `Tables.StartsAbove`.
- Initialisers stored inside the global data: `Globals.Instantiate`, `Globals.NullFits`. Input: `Globals.NullSpills`.
- Unique module ids: `Modules.AddKeepsIdsUnique`; for runs of additions of every length, the failing ones included,
  `AppManager.IdsUniqueExactlyWhen`.

## Model

| member | source | states |
|---|---|---|
| `Install.StepKeepsWf` | core/app-mgr/app-manager/module_wasm_app.c:1062-1536 | every byte, in every phase, leaves the receive context well formed: the position is inside the field or block being filled, or at the end of a block whose announced length is zero |
| `Install.InstallReceiver.constructor` | core/app-mgr/app-manager/module_wasm_app.c:25-104 | the static context starts in the first phase with an empty message |
| `Install.InstallReceiver.ByteArrive` | core/app-mgr/app-manager/module_wasm_app.c:1062-1536 | the in-place receiver does exactly what the step function says: new context, returned flag, posted messages, reported byte count, and whether the byte is stored outside its block |
| `Install.InstallReceiver.HeaderByte` | core/app-mgr/app-manager/module_wasm_app.c:1070-1174 | request header, URL and magic: the in-place update equals the step function, nothing is posted; a URL byte past its block is told apart |
| `Install.InstallReceiver.WasmByte` | core/app-mgr/app-manager/module_wasm_app.c:1176-1316 | version, section type, LEB128 size and body of a bytecode file: the in-place update equals the step function; a body byte past its block is told apart |
| `Install.InstallReceiver.AotByte` | core/app-mgr/app-manager/module_wasm_app.c:1319-1507 | version, padded section id, size and body of an AOT file, with the PLT tail of the text section: the in-place update equals the step function; a byte for an empty section, which has no block, is told apart |
| `Reception.FeedConcat` | core/app-mgr/app-manager/module_wasm_app.c:1062-1536 | receiving a run of bytes in two parts is receiving it whole; once a byte of the first part is refused the second is not looked at |
| `Reception.FixedPartReaches` | core/app-mgr/app-manager/module_wasm_app.c:1043-1130 | the eighteen header bytes in network order leave exactly the described action, format, ids and lengths in the message |
| `Reception.NothingHandedYet` | core/app-mgr/app-manager/module_wasm_app.c:1278-1316 | as long as a run is accepted without handing over, every part of it is accepted and hands nothing over |
| `Reception.EmptyUrl` | core/app-mgr/app-manager/module_wasm_app.c:1103-1138 | with an announced URL length of zero the first byte fits the one-byte block and the second is stored outside it |
| `Reception.EmptyBody` | core/app-mgr/app-manager/module_wasm_app.c:1411-1465 | behind an empty section body the second byte of a bytecode section and the first of an AOT section are stored outside their block |
| `Reception.StepCounts` | core/app-mgr/app-manager/module_wasm_app.c:1062-1536 | one byte either is stored outside its block, or is refused and leaves the receiver idle, or hands a message over exactly on byte `total`, or leaves the count one higher |
| `Reception.NotBeforeLast` | core/app-mgr/app-manager/module_wasm_app.c:1278-1316 | whatever the bytes, nothing is handed over before the byte that completes the announced size |
| `Bytecode.SizeRead` | core/app-mgr/app-manager/module_wasm_app.c:1242-1277 | any LEB128 encoding of a size in one to five bytes, padded or not, is read as that size (section 5.2.2 of the WebAssembly Core Specification 1.0) |
| `Bytecode.ImageRead` | core/app-mgr/app-manager/module_wasm_app.c:1195-1316 | the image of any list of sections is read back as that list, in order, when none is empty; as a store outside its block when one before the last is empty; as unfinished otherwise |
| `Bytecode.RequestRead` | core/app-mgr/app-manager/module_wasm_app.c:1043-1316 | a whole request is read as the header, URL and sections that were laid out, or fails as its URL and sections say |
| `Bytecode.RebuiltExactlyWhen` | core/app-mgr/app-manager/module_wasm_app.c:1062-1316 | the exact conditions for every request: handed over as intended on the last byte if and only if the URL, the section list and every body are non-empty; a byte stored outside its block if and only if the URL or a section other than the last is empty; left inside the request in the remaining case |
| `Bytecode.IdsReceived` | core/app-mgr/app-manager/module_wasm_app.c:1195-1241 | section ids 0 to 11 are received, and 12 in a build with bulk memory; any other one makes the receiver drop the request; both if and only if |
| `AotFile.ResolveNativeSymbols` | core/iwasm/aot/aot_loader.c:2314-2349 | the scan for a native-symbol section gives the count found by the record-by-record reading, or the same failure |
| `AotFile.CreateSections` | core/iwasm/aot/aot_loader.c:2351-2463 | the cursor loop that builds the section list computes the record-by-record reading of the file: same types, bodies, padding, zero PLT tail and failures |
| `Payloads.SizeIsValue` | core/app-mgr/app-manager/module_wasm_app.c:1242-1277 | a section size that is read to its end takes at most five bytes and is the number they stand for modulo 2^32; it is that number itself if and only if a fifth byte is below 16 |
| `Payloads.OverlongSize` | core/app-mgr/app-manager/module_wasm_app.c:1242-1277 | the input: five bytes that section 5.2.2 of the WebAssembly Core Specification 1.0 does not allow are read as the size 1 |
| `Payloads.HeadDecides` | core/app-mgr/app-manager/module_wasm_app.c:1139-1194 | whatever the bytes, a magic and version are taken to the first section, or are cut off, or are refused, exactly as they read |
| `Payloads.SizeDecides` | core/app-mgr/app-manager/module_wasm_app.c:1242-1277 | whatever the bytes, a section size is read to its end, cut off, or refused on its sixth byte, exactly as it reads |
| `Payloads.BodyPasses` | core/app-mgr/app-manager/module_wasm_app.c:1278-1316 | a body that is all there is kept as sent, text with its PLT area, and ends the request on its last byte or leads to the next section |
| `Payloads.WasmDecides` | core/app-mgr/app-manager/module_wasm_app.c:1195-1316 | whatever the bytes, the receiver ends as the record-by-record reading of bytecode sections says: with exactly the sections read, cut off, refused, or outside a block |
| `Payloads.AotDecides` | core/app-mgr/app-manager/module_wasm_app.c:1338-1507 | whatever the bytes, the receiver ends as the record-by-record reading of AOT sections says: with exactly the sections read, cut off, refused, or outside a block |
| `Payloads.ReceivedAsRead` | core/app-mgr/app-manager/module_wasm_app.c:1062-1507 | for any bytes fed to an idle receiver as one request: it ends as reading header, URL, file and sections one after another says, whether or not the message can be posted |
| `Payloads.ReadExactly` | core/app-mgr/app-manager/module_wasm_app.c:1062-1507 | the four ways for any bytes to end, each an if and only if: a message is handed over, on the last byte and not before, exactly when it is what the bytes read as; the receiver is left inside the request, drops it, or stores a byte outside its block exactly when the reading is cut off, refused, or without room |
| `Payloads.ShortestStray` | core/app-mgr/app-manager/module_wasm_app.c:1103-1138 | the counterexample: twenty bytes, a header that announces no URL and two bytes more |
| `Streaming.RawRead` | core/app-mgr/app-manager/module_wasm_app.c:1338-1507 | a file that the batch parser can take apart is read by the receiver record by record alike, padding between records skipped; the first empty section or oversized text decides where it stops |
| `Streaming.StreamRefinesBatch` | core/app-mgr/app-manager/module_wasm_app.c:1319-1507 | the streaming receiver refines the batch parser: on every file without native symbols that the batch parser accepts it hands over exactly the batch list, on the last byte, if and only if the URL and all sections are non-empty; it stores a byte outside its block if and only if the URL or a section other than the last is empty; in the remaining case it is left inside the request |
| `Streaming.NativeSymbolsCase` | core/iwasm/aot/aot_loader.c:2392-2434 | for every accepted file with native symbols, whose text the batch parser leaves as it is: the receiver hands over the batch list if and only if URL and sections are non-empty and padding fits and changes nothing; it leaves a block, drops the request or is left inside it, each if and only if the stated empty section or oversized text comes first |
| `Streaming.PaddedText` | core/iwasm/aot/aot_loader.c:2392-2434 | the input: a file with five native symbols and one byte of text is accepted by the batch parser and never read by the receiver as the batch list, whatever the size of the PLT |
| `Streaming.RawFromRead` | core/iwasm/aot/aot_loader.c:2351-2463 | conversely, whatever file the receiver reads whole, the batch parser finds the same sections in it if and only if all their kinds are loadable |
| `Streaming.ScanFails` | core/iwasm/aot/aot_loader.c:2314-2349 | on a file that the receiver reads whole the scan for native symbols fails only if the last section is a custom one of less than eight bytes |
| `Streaming.HandedIsBatch` | core/iwasm/aot/aot_loader.c:2314-2463 | the receiver hands over nothing that the batch parser would not have built: a file that is handed over is accepted by the batch parser if and only if the scan for native symbols does not fail and no section kind has its top bit set; the message then holds the sections of the file, text padded, which is the batch list itself when there are no native symbols |
| `Streaming.TopBitKind` | core/app-mgr/app-manager/module_wasm_app.c:1377-1398 | the input: a file whose only section has the top bit of its kind set is read whole by the receiver and refused by the batch parser |
| `Streaming.ShortCustom` | core/iwasm/aot/aot_loader.c:2326-2336 | another input: a file whose only section is a custom one of one byte is read whole by the receiver and refused by the batch parser, which looks for a sub-type behind it |
| `Layout.CreatedExactly` | core/iwasm/aot/aot_loader.c:2351-2463 | the batch parser in terms of file offsets: a file is accepted if and only if the scan for native symbols does not fail and the file is aligned records from its head to its end, of kinds 0 to 5 or 100, text with room for its PLT; the list keeps the records in order, each body the bytes of the file, text followed by zeros up to the least multiple of four that leaves room for the PLT unless there are native symbols |
| `Layout.NativeExactly` | core/iwasm/aot/aot_loader.c:2314-2349 | the native symbol count is the word behind the sub-type in the first custom section of sub-type 1, and 0 without one; the scan fails exactly when that word, or a sub-type on the way, lies behind the file |
| `Layout.HandedExactly` | core/app-mgr/app-manager/module_wasm_app.c:1338-1507 | the receiver in terms of file offsets: a request is handed over if and only if there is a URL and the file is aligned non-empty records from its head to its end, of known kinds, text with room for its PLT; the message keeps the records in order, each body the bytes of the file, text followed by the zeros of its PLT area |
| `Link.ChunkingIrrelevant` | core/app-mgr/app-manager/app_manager_host.c:219-258 | however the byte stream is cut into callback chunks, the outcome is that of the whole stream |
| `Link.FrameReceived` | core/app-mgr/app-manager/app_manager_host.c:68-258 | one frame, from an idle link, yields exactly its message and its unpacked request, and the stated context afterwards; a request that is read beyond its end dispatches nothing that is promised |
| `Link.StreamReceived` | core/app-mgr/app-manager/app_manager_host.c:68-258 | any sequence of frames with stray bytes between them, its requests readable inside their packets, is received as exactly those messages, dispatches exactly the requests in them, in order, and leaves the link in its initial state |
| `Link.ChunkedStreamReceived` | core/app-mgr/app-manager/app_manager_host.c:68-258 | the framing round trip, messages and dispatched requests, for every way of cutting the stream into chunks |
| `Link.RequestDispatched` | core/app-mgr/app-manager/app_manager_host.c:228-255 | a request frame dispatches exactly one request if and only if its payload is neither refused nor read beyond its end: action, format, id, URL and payload are those bytes of the packet, and the sender is the host |
| `Link.PackedDispatched` | core/app-mgr/app-manager/app_manager_host.c:68-258 | from packer to dispatcher: every in-range request that is packed and framed is dispatched as it was, with the host as its sender, and the link is cleared |
| `Link.UnpackOutcome` | core/app-mgr/app-manager/app_manager_host.c:228-242 | a request payload is refused, or read beyond its end, exactly when its version, length fields and terminator say so |
| `Link.IdleAfterFrameExactlyWhen` | core/app-mgr/app-manager/app_manager_host.c:219-258 | the exact conditions on the payload bytes: a frame leaves the link between frames unless it is a non-empty request packet that is refused, which leaves it with a stale position, or one that is read beyond its end, after which nothing is promised |
| `Link.RejectedRequestSpoilsNext` | core/app-mgr/app-manager/app_manager_host.c:228-255 | the counterexample: after a request that is refused, the next frame comes out as a message nobody sent |
| `Link.InstallFrame` | core/app-mgr/app-manager/app_manager_host.c:157-214 | for every installer that reports its running byte count and stays inside its memory, whichever byte it rejects, the link consumes exactly the declared payload, reports no message for a rejected one, and is between frames again |
| `Link.HandledAsFromStart` | core/app-mgr/app-manager/app_manager_host.c:68-258 | contexts that differ only in fields the next frame overwrites first give the same messages for every continuation |
| `Link.ResynchronisedIsAlike` | core/app-mgr/app-manager/app_manager_host.c:157-214 | after an install payload the link is such a context, so what follows is handled as from the initial state |
| `Link.Resynchronises` | core/app-mgr/app-manager/app_manager_host.c:157-258 | resynchronisation as one statement: whatever follows an install frame is received and dispatched as from the initial state, whichever byte the installer rejected |
| `HostLink.SendMsg` | core/app-mgr/app-manager/app_manager_host.c:275-312 | what is written, with the size field swapped in place, is the frame the link reads |
| `HostLink.Exchange32` | core/app-mgr/app-manager/app_manager_host.c:53-62 | the four bytes are reversed in place |
| `HostLink.Host.constructor` | core/app-mgr/app-manager/app_manager_host.c:31-39 | the link starts cleared |
| `HostLink.Host.ByteArrive` | core/app-mgr/app-manager/app_manager_host.c:68-217 | the in-place byte machine, with the install receiver behind it, does exactly what the step function of the link says |
| `HostLink.Host.MsgCallback` | core/app-mgr/app-manager/app_manager_host.c:219-258 | the callback's loop over a chunk appends exactly the messages and dispatched requests of the whole-chunk function |
| `HostLink.AppReportsCount` | core/app-mgr/app-manager/module_wasm_app.c:1070-1077 | the application installer reports its running byte count for every byte it accepts, on every payload |
| `HostLink.AppFollowsFeed` | core/app-mgr/app-manager/app_manager_host.c:157-214 | driven through the link the installer goes through the same states, posts the same messages, accepts the same payloads and leaves its memory on the same ones as on its own |
| `HostLink.BytecodeInstalled` | core/app-mgr/app-manager/app_manager_host.c:68-258 | end to end: an install frame with a bytecode application puts exactly that application in the queue and leaves the link cleared |
| `HostLink.AotInstalled` | core/app-mgr/app-manager/app_manager_host.c:68-258 | end to end: an install frame with an AOT file puts the batch parser's section list in the queue |
| `HostLink.PackedLayout` | core/app-framework/app-native-shared/restful_utils.c:42-79 | a packed request is laid out as the install receiver reads it: header, URL with terminator, payload |
| `HostLink.PackedAotInstalled` | core/app-framework/app-native-shared/restful_utils.c:42-79 | from packer to queue: an AOT file packed as a request and sent as an install frame is installed with the batch section list |
| `HostLink.AnyInstallPayload` | core/app-mgr/app-manager/app_manager_host.c:157-214 | any bytes at all as install payload, each outcome an if and only if: exactly the application that the bytes read as is posted, with one completion and the link cleared; a payload that stops short leaves the installer inside the request; a refused one leaves it idle with nothing reported, the link between frames; where a byte has no room nothing is received and nothing is promised |
| `HostLink.InstallResynchronises` | core/app-mgr/app-manager/app_manager_host.c:157-258 | behind such an install frame everything is handled as from the initial state |
| `Packets.PackRequest` | core/app-framework/app-native-shared/restful_utils.c:42-79 | the buffer filled field by field is the packet image |
| `Packets.PackResponse` | core/app-framework/app-native-shared/restful_utils.c:137-168 | the buffer filled field by field is the packet image |
| `Packets.RequestBytes` | core/app-framework/app-native-shared/restful_utils.c:42-79 | the packet byte by byte: version, action, the four fields with their high bytes first, URL with terminator, payload |
| `Packets.ResponseBytes` | core/app-framework/app-native-shared/restful_utils.c:137-168 | the packet byte by byte: version, status, the four fields with their high bytes first, payload |
| `Packets.RequestRoundTrip` | core/app-framework/app-native-shared/restful_utils.c:42-135 | unpacking a packed in-range request returns it |
| `Packets.ResponseRoundTrip` | core/app-framework/app-native-shared/restful_utils.c:137-205 | unpacking a packed in-range response returns it |
| `Packets.AcceptedRequestTiles` | core/app-framework/app-native-shared/restful_utils.c:87-135 | which packets are accepted and for which the outcome is open, each if and only if: an accepted request tiles its packet; a length check that passes only modulo 2^32, or an empty URL field with no NUL behind it, is read beyond the packet |
| `Packets.UnreadablePackets` | core/app-framework/app-native-shared/restful_utils.c:100-125 | two such packets: a URL field longer than the packet, and a header with nothing behind it |
| `Packets.RequestRepack` | core/app-framework/app-native-shared/restful_utils.c:42-135 | the exact condition: an accepted packet repacks to the same bytes if and only if its URL field is one non-empty C string |
| `Packets.TwoTerminators` | core/app-framework/app-native-shared/restful_utils.c:42-135 | the input: an accepted packet whose URL field is two NULs does not repack to itself |
| `Packets.ResponseRepack` | core/app-framework/app-native-shared/restful_utils.c:137-205 | every accepted response packet repacks to itself |
| `Urls.CheckUrlStartCorrect` | core/app-framework/app-native-shared/restful_utils.c:345-386 | a match is exactly: the path, one leading and one trailing slash dropped, is a whole-segment prefix of the URL; the returned offset is a position of the URL just past the match |
| `Urls.FindKeyValue` | core/app-framework/app-native-shared/restful_utils.c:450-490 | the loop terminates, reports a value exactly when the scan has one, and leaves the buffer alone otherwise; byte by byte, the buffer gets the value as far as it leaves room for a terminator, and zeros behind it |
| `Urls.ScanPrinted` | core/app-framework/app-native-shared/restful_utils.c:450-490 | on every printed list of pairs, with any filler, the scan for a key without an equals sign returns the value of the first pair with the key |
| `Urls.LookupExactlyWhen` | core/app-framework/app-native-shared/restful_utils.c:450-490 | the exact condition over all keys: a key is served correctly in every printed list if and only if it does not hold an equals sign, or starts with filler, or with an equals sign behind it is not itself the text of a list |
| `Urls.CutItemised` | core/app-framework/app-native-shared/restful_utils.c:462-484 | cutting the text of a list behind any equals sign leaves the text of a list |
| `Urls.DelimitedKeyFails` | core/app-framework/app-native-shared/restful_utils.c:462-471 | the counterexample: the key `a=b&c` is found though no pair has it |
| `Attributes.LookupHolds` | core/app-framework/app-native-shared/attr_container.c:87-189 | reading a buffer gives, for every key, what the list of stored attributes means |
| `Attributes.WalkEnds` | core/app-framework/app-native-shared/attr_container.c:190-206 | the walk over all attributes ends exactly behind the last one, inside the stored total length |
| `Attributes.ScalarSizes` | core/app-framework/app-native-shared/attr_container.c:437-489 | a value of one of the eight scalar kinds can be stored if and only if it has the size of its type |
| `Attributes.OverwriteHolds` | core/app-framework/app-native-shared/attr_container.c:364-368 | same size: overwriting in place replaces one attribute and nothing else |
| `Attributes.CompactHolds` | core/app-framework/app-native-shared/attr_container.c:370-375 | another size that fits: moving the later attributes down and appending keeps all others |
| `Attributes.RegrowHolds` | core/app-framework/app-native-shared/attr_container.c:377-400 | a bigger block for an existing key holds all others and the new attribute |
| `Attributes.AppendHolds` | core/app-framework/app-native-shared/attr_container.c:403-408 | a new key that fits goes behind the others and the count goes up |
| `Attributes.ExtendHolds` | core/app-framework/app-native-shared/attr_container.c:410-431 | a bigger block for a new key holds all attributes and the new one |
| `Container.CountIsMapSize` | core/app-framework/app-native-shared/attr_container.c:214-226 | the stored attribute count is the size of the map |
| `Container.UpdatedMeaning` | core/app-framework/app-native-shared/attr_container.c:303-435 | a set keeps keys distinct and changes what its own key means and no other |
| `Container.UpdatedMap` | core/app-framework/app-native-shared/attr_container.c:303-435 | on every storage path the map after a set is the map before updated at the key |
| `Container.LookupIsMap` | core/app-framework/app-native-shared/attr_container.c:157-189 | what a reader gets for a key is what the map says |
| `Container.AttrContainer.constructor` | core/app-framework/app-native-shared/attr_container.c:243-275 | a new container is well formed, writable and empty, with 100 bytes reserved |
| `Container.AttrContainer.Find` | core/app-framework/app-native-shared/attr_container.c:157-188 | the loop finds what the walk over the buffer finds, with the test of the found key against the total length; a key that is found is there, with its terminator and inside the total length |
| `Container.AttrContainer.End` | core/app-framework/app-native-shared/attr_container.c:190-206 | the loop ends where the walk over the buffer ends |
| `Container.AttrContainer.SetAttr` | core/app-framework/app-native-shared/attr_container.c:303-435 | refines map update: succeeds exactly when the key is non-empty, the set is not refused and the allocations it needs succeed; then the map is updated at the key; a failed set changes no byte; the block is replaced, by one with 100 bytes to spare, exactly when the attribute does not fit |
| `Container.AttrContainer.Serialize` | core/app-framework/app-native-shared/attr_container.c:708-728 | the serialised copy carries the read-only bit and reads back as the same map, for every key; no other flag changes |
| `Memory.HeapPlacement` | core/iwasm/aot/aot_runtime.c:401-471 | whatever page counts the file gives: a placement keeps its promise (heap inside the memory, 32-bit page count the unbounded one, before `__heap_base` the heap from the old base to at or below the rewritten one with 1 KiB above) if and only if there are at most 65536 initial pages; past that the heap is outside but for one stated case; up to 65536 initial pages they stay within the maximum exactly when they did before and the raised maximum does not wrap, and past that exactly when they were within it before or the raised maximum does not wrap |
| `Memory.HeapAsked` | core/iwasm/aot/aot_runtime.c:401-408 | the heap size that comes of a request: rounded up to a multiple of 8, at most 512 MiB, none when rounding up wraps or the module has its own malloc and free |
| `Memory.PlacedExactly` | core/iwasm/aot/aot_runtime.c:401-497 | every placement in numbers, for all page counts and requests: page size, pages, maximum, heap offset, heap size and rewritten base, and exactly when it is refused |
| `Memory.HeapAtBase` | core/iwasm/aot/aot_runtime.c:422-471 | with the page count wrapped, a heap before `__heap_base` fits exactly in the one case where a page was added in vain |
| `Memory.WrappedPages` | core/iwasm/aot/aot_loader.c:555-560 | the counterexample: page counts as they may stand in a file put the heap outside the memory |
| `Memory.WrappedMaximum` | core/iwasm/aot/aot_runtime.c:462-470 | the counterexample for the maximum: two initial pages and the largest maximum end up with more pages than the maximum |
| `Memory.InstantiatedInv` | core/iwasm/aot/aot_runtime.c:472-573 | a fresh instance, with or without a heap, has all derived fields in step exactly when it is not empty, the page counts were in order and the maximum did not wrap; past 65536 initial pages exactly in the one stated case in which the heap fits, with the condition on the maximum decided |
| `Memory.GrowKeeps` | core/iwasm/aot/aot_runtime.c:2033-2127 | a grow succeeds exactly when nothing is asked, or the size is allowed, a block is found and the heap migrates; a success moves base, end and heap into the new block and keeps every derived field in step, heap offset and length, and old bytes, with zeros behind; a refusal changes nothing unless the migration failed, and then base, end and size are those of the new block, heap and bounds the old ones |
| `Memory.FailedMigration` | core/iwasm/aot/aot_runtime.c:2093-2106 | the input: a one-page memory with a heap, whose migration fails, is left changed and with its fields out of step |
| `Memory.RunKeeps` | core/iwasm/aot/aot_runtime.c:2033-2127 | over every run of grows the invariant holds, the heap stays where it was, old bytes are kept and all new ones are zero |
| `Memory.AddressChecks` | core/iwasm/aot/aot_runtime.c:1903-1982 | the app and native address checks hold exactly when offset plus size fits, translation is defined exactly on valid addresses and undone by its inverse, and each of the five bound constants decides its access width |
| `Memory.AotMemory.constructor` | core/iwasm/aot/aot_runtime.c:478-573 | the instance is filled in for a placement at its address: sizes, end, heap pointers, and zeros throughout |
| `Memory.AotMemory.Enlarge` | core/iwasm/aot/aot_runtime.c:2033-2127 | the in-place grow is the specified one: new state and result |
| `Tables.RegionSize` | core/iwasm/aot/aot_runtime.c:967-982 | the computed table size is where the walk past the last record ends |
| `Tables.Region.constructor` | core/iwasm/aot/aot_runtime.c:201-219 | after initialisation the region holds exactly the declared tables, all slots uninitialised, whatever sizes are declared; each has its initial size and as many slots as its declaration reserves |
| `Tables.Region.Find` | core/iwasm/aot/aot_runtime.c:171-192 | the record walk for an index lands on that table's own record, and past the last one at the end of the region; there its size, its slot count and its slots are read |
| `Tables.ReplacedRecord` | core/iwasm/aot/aot_runtime.c:171-192 | a write inside one record leaves every other record as it was |
| `Tables.Region.ApplySegments` | core/iwasm/aot/aot_runtime.c:221-309 | applying element segments in place gives the specified tables and stops at the first that does not fit the current size, or fits it but not the slots; slot by slot, what is left behind is what the last segment to write it wrote, or the old value |
| `Tables.AppliedMeaning` | core/iwasm/aot/aot_runtime.c:221-309 | slot by slot: after segments have been applied a slot holds the value of the last active segment that covers it, or its old value; when a segment stops the instantiation this holds of the segments before it, and the one that stops it is the first that fails a range test or goes past the slots |
| `Tables.OtherTablesUntouched` | core/iwasm/aot/aot_runtime.c:221-309 | segments never change a size, and a table no segment names is untouched |
| `Tables.FreshWithin` | core/iwasm/aot/aot_runtime.c:205-219 | after initialisation no current size exceeds its maximum if and only if no growable table is declared with an initial size above its maximum |
| `Tables.StartsAbove` | core/iwasm/aot/aot_loader.c:636-666 | the counterexample: a declaration as it may stand in a file |
| `Tables.SegmentsKeepWithin` | core/iwasm/aot/aot_runtime.c:221-309 | tables within their maximum stay so under any segments, and no segment that fits the current size goes past the slots |
| `Tables.Region.Grow` | core/iwasm/aot/aot_runtime.c:2807-2841 | grow by nothing returns the size; otherwise it returns the old size and appends the initial value, or returns -1 and changes nothing, exactly when the new size is within the maximum |
| `Tables.GrowsAppend` | core/iwasm/aot/aot_runtime.c:2807-2841 | over every run of grows the elements are the first ones followed by what each fitting grow added, the size stays within the unchanged maximum, and free slots are as they were |
| `Globals.AssignOffsets` | core/iwasm/aot/aot_loader.c:874-902 | the loop gives each global the prefix sum of the sizes before it and adds up the data size, both in 32-bit arithmetic |
| `Globals.LoadGlobals` | core/iwasm/aot/aot_loader.c:854-993 | loading fails exactly when a record array is too big to allocate; otherwise imported and defined globals together tile the recorded data size, imports first |
| `Globals.TotalFits` | core/iwasm/aot/aot_loader.c:193-207 | because the records are bigger than the slots, the data size of globals that can be loaded fits 32 bits |
| `Globals.SlotsDisjoint` | core/iwasm/aot/aot_loader.c:956-987 | each slot ends before any later one starts and inside the data |
| `Globals.NullFits` | core/iwasm/aot/aot_runtime.c:150-157 | a null reference, which is four bytes whatever the type, is stored inside the data unless neither its slot nor any later one has a width |
| `Globals.NullSpills` | core/iwasm/aot/aot_runtime.c:150-157 | the input: a null reference as the only global, of a type without a width |
| `Globals.Instantiate` | core/iwasm/aot/aot_runtime.c:114-169 | the three offset assertions never fail; it succeeds exactly when every initialiser is allowed and none is stored past the data, and then every slot holds its own initialiser, a null reference in a wider slot followed by zeros; otherwise the first slot at fault decides; an initialiser is refused for an index that is no import or because the first import is mutable |
| `Globals.SlotHoldsInitialiser` | core/iwasm/aot/aot_runtime.c:114-169 | the offset and size the loader recorded find each global's own initial bytes in the finished data |
| `Globals.SlotValues` | core/iwasm/aot/aot_runtime.c:86-169 | by recorded offset and size: a slot is 4, 8 or 16 bytes wide by its type; a constant has the first bytes of the constant, a global initialised from an import those of that import, and the same bytes as the slot of the import when their types agree |
| `Symbols.ValidateSymbolTable` | core/iwasm/aot/aot_loader.c:1763-1786 | the loop gives the specified verdict, with its 32-bit running offset, whatever length of the string area is announced |
| `Symbols.VerdictStands` | core/iwasm/aot/aot_loader.c:1802-1815 | the verdict does not depend on what lies behind the section, and is open only if the announced area reaches behind it |
| `Symbols.AcceptedExactlyWhen` | core/iwasm/aot/aot_loader.c:1763-1786 | accepted if and only if the string area is a list of 2-byte padded length-prefixed names that tile it completely and offset k is where name k starts |
| `Symbols.AddressIsCursor` | core/iwasm/aot/aot_loader.c:1773-1777 | the 32-bit running offset does not wrap while the cursor is inside the area, so it is the cursor |
| `Symbols.LookupReadsName` | core/iwasm/aot/aot_loader.c:1995-2003 | where names tile the area, a lookup through offset k stays inside it and reads exactly name k |
| `Symbols.AcceptedReadsNames` | core/iwasm/aot/aot_loader.c:1949-1957 | in an accepted table every lookup through a stored offset stays inside the area and reads its own name |
| `Symbols.LoadedExactlyWhen` | core/iwasm/aot/aot_loader.c:1802-1922 | loading goes on behind the table exactly when the area and the group count are inside the section and the names tile the area at the stored offsets, and then every lookup reads its own name |
| `Events.PairsOfUrl` | core/app-mgr/app-manager/event.c:155-178 | the pairs of a URL are exactly the subscribers its event lists, each once |
| `Events.SubscribeWf` | core/app-mgr/app-manager/event.c:61-107 | registering never repeats a URL or a subscriber and leaves no event without subscribers |
| `Events.SubscribeAddsPair` | core/app-mgr/app-manager/event.c:61-107 | registering adds exactly one (URL, subscriber) pair |
| `Events.SubscribeOthers` | core/app-mgr/app-manager/event.c:91-104 | only the registered URL's subscribers change, the newcomer going first |
| `Events.UnsubscribeWf` | core/app-mgr/app-manager/event.c:109-140 | unregistering keeps the registry well formed |
| `Events.UnsubscribeRemovesPairs` | core/app-mgr/app-manager/event.c:109-140 | unregistering removes the client's pair for the URL, or all its pairs when no URL is given, and no other pair |
| `Events.UnsubscribeOthers` | core/app-mgr/app-manager/event.c:109-140 | the client leaves the subscribers of a selected event, all others stay in their order; an event that is not selected keeps its subscribers |
| `Events.SubscribeUndone` | core/app-mgr/app-manager/event.c:61-140 | unregistering a fresh subscription restores the set of pairs |
| `Events.EventRegistry.FindSubscriber` | core/app-mgr/app-manager/event.c:27-51 | finds a client exactly when it is listed, and on request unlinks that occurrence and nothing else |
| `Events.EventRegistry.Register` | core/app-mgr/app-manager/event.c:61-107 | refuses exactly the empty URL; otherwise the specified registration |
| `Events.EventRegistry.Unregister` | core/app-mgr/app-manager/event.c:110-140 | unlinking while walking gives the specified registry |
| `Events.EventRegistry.IsRegistered` | core/app-mgr/app-manager/event.c:180-192 | true exactly when some pair has the URL |
| `Events.EventRegistry.Publish` | core/app-mgr/app-manager/event.c:155-178 | the clients handed the event, in list order |
| `Resources.RegisterWf` | core/app-mgr/app-manager/resource_reg.c:138-178 | URLs stay unique and within 256 bytes, and no owner has more than 16 entries |
| `Resources.AcceptsExactly` | core/app-mgr/app-manager/resource_reg.c:138-163 | accepted if and only if no entry has the URL, it is at most 256 bytes long and the owner has fewer than 16 entries |
| `Resources.WithoutKeepsOrder` | core/app-mgr/app-manager/resource_reg.c:180-204 | a clean-up removes all entries of the owner and keeps all others, in their order |
| `Resources.WithoutCount` | core/app-mgr/app-manager/resource_reg.c:180-204 | the owner is left with no entry and every other owner with as many as before |
| `Resources.WithoutWf` | core/app-mgr/app-manager/resource_reg.c:180-204 | a clean-up keeps the registry well formed |
| `Resources.DispatchFirst` | core/app-mgr/app-manager/resource_reg.c:124-136 | the first matching entry of the list is called; none only when none matches |
| `Resources.ResourceRegistry.RegisterResource` | core/app-mgr/app-manager/resource_reg.c:138-178 | accepted exactly when the URL is new, short enough and the owner has room; then it becomes the head |
| `Resources.ResourceRegistry.Cleanup` | core/app-mgr/app-manager/resource_reg.c:180-204 | unlinking while walking gives the specified list |
| `Resources.ResourceRegistry.DispatchRequest` | core/app-mgr/app-manager/resource_reg.c:124-136 | the loop finds the specified entry |
| `Modules.NextId` | core/app-mgr/app-manager/module_utils.c:41-51 | an id is in range and never one of the reserved ids |
| `Modules.AddKeepsIdsUnique` | core/app-mgr/app-manager/module_utils.c:41-60 | adding keeps ids unique exactly when the id given out is not in use |
| `Modules.RemoveMeaning` | core/app-mgr/app-manager/module_utils.c:62-78 | removing a record by address takes out that record and keeps the others in order |
| `Modules.ModuleList.Add` | core/app-mgr/app-manager/module_utils.c:41-60 | the record gets the next id and becomes the head; the counter restarts at its limit |
| `Modules.ModuleList.RemoveModule` | core/app-mgr/app-manager/module_utils.c:62-78 | the search for the predecessor unlinks the record, or does nothing when it is not listed |
| `Modules.ModuleList.LookupId` | core/app-mgr/app-manager/module_utils.c:100-118 | finds a module exactly when one is live with the id, and the only one when ids are unique |
| `Modules.ModuleList.LookupName` | core/app-mgr/app-manager/module_utils.c:80-98 | finds the most recently added module of the name |
| `AppManager.StepKeeps` | core/app-mgr/app-manager/module_wasm_app.c:496-544 | every allowed operation keeps the whole invariant of the three registries |
| `AppManager.RunKeeps` | core/app-mgr/app-manager/module_wasm_app.c:496-544 | referential integrity over every run: each owner in the resource and event lists is a live module or a reserved id, ids are in range and not reserved, both lists stay well formed |
| `AppManager.IdsUnique` | core/app-mgr/app-manager/module_utils.c:41-51 | over every run of at most 0xFFFFFFEF additions ids are unique |
| `AppManager.IdsUniqueExactlyWhen` | core/app-mgr/app-manager/module_utils.c:41-51 | the bound is sharp: modules that are only added have unique ids if and only if there are at most that many |
| `AppManager.CleanupLeavesOthers` | core/app-mgr/app-manager/module_wasm_app.c:496-544 | after a clean-up nothing is left under the id, and every other id keeps its resources and subscriptions in order; with unique ids the id is dead; the other modules stay in order |
| `AppManager.PublishedExactlyOnce` | core/app-mgr/app-manager/event.c:155-178 | an event reaches the host if it subscribed, every live module that subscribed, nothing else, and each of them once |
| `AppManager.Registries.constructor` | core/app-mgr/app-manager/module_utils.c:20-24 | the registries start empty |
| `AppManager.Registries.AddModule` | core/app-mgr/app-manager/module_utils.c:41-60 | is an addition step: the module becomes the head with the next id, which starts again at 1 behind 0xFFFFFFEF |
| `AppManager.Registries.RegisterResource` | core/app-mgr/app-manager/resource_reg.c:138-178 | is a registration step: an accepted resource becomes the head, a refused one changes nothing |
| `AppManager.Registries.HandleEvent` | core/app-mgr/app-manager/event.c:142-153 | is a subscription or an unsubscription step: exactly the pair of URL and client is added or removed; refused exactly for a registration of the empty URL |
| `AppManager.Registries.CleanupAppResource` | core/app-mgr/app-manager/module_wasm_app.c:496-544 | resources, subscriptions and the module record go in that order, and together are one clean-up step |
| `AppManager.Registries.PublishEvent` | core/app-mgr/app-manager/event.c:155-178 | the nested walk with its handlers reaches exactly the specified targets in order |
| `Dispatching.SurvivingStep` | core/app-mgr/app-manager/resource_reg.c:138-204 | a registration survives one more operation unless that operation cleans up its owner |
| `Dispatching.RunDated` | core/app-mgr/app-manager/resource_reg.c:138-204 | after every run the list is exactly the surviving registrations, newest first |
| `Dispatching.DispatchPicksNewest` | core/app-mgr/app-manager/resource_reg.c:124-136 | after every run dispatch picks the most recently registered surviving resource whose path is a whole-segment prefix of the URL, and none only when there is none |
| `FrameImage.BodyReadBack` | core/iwasm/common/wasm_dump.c:1576-1668 | a frame's body, followed by anything, reads back as the frame up to what the NULL marks hide, and leaves what follows |
| `FrameImage.RoundTripExactlyWhen` | core/iwasm/common/wasm_dump.c:54-65 | the exact condition: the body reads back as the same frame if and only if none of its offsets is the mark for NULL |
| `FrameImage.UniquelyDecodable` | core/iwasm/common/wasm_dump.c:1576-1668 | equal bodies show equal function, relative ip and sp, block stack, parameters, locals and operand cells, and no body is a proper prefix of another |
| `FrameImage.ImageReadBack` | core/iwasm/common/wasm_restore.c:208-238 | a whole image of frames reads back as those frames in their order |
| `FrameImage.RecordLaidOut` | core/iwasm/common/wasm_dump.c:1576-1668 | the record of a frame byte for byte: header, function, code position, stack top, block count, 28 bytes for each block, then parameter, local and operand cells, each at its offset |
| `Migration.ViewShown` | core/iwasm/common/wasm_dump.c:1576-1668 | the offsets taken when dumping stand for the frame they were taken from, all 64-bit wrap-around included |
| `Migration.DumpedBytes` | core/iwasm/common/wasm_dump.c:1576-1668 | what a dumped frame looks like in the file, in terms of its pointers: distances from pool, code and stack bottom at their offsets, -1 for NULL |
| `Migration.ClearExactlyWhen` | core/iwasm/common/wasm_dump.c:1576-1646 | the marks for NULL in the image of a frame are unambiguous if and only if no pointer of the frame gives one: its instance a byte before the pool, a code pointer a byte before the code, a stack pointer inside the cell below the bottom |
| `Migration.InsideClear` | core/iwasm/common/wasm_dump.c:1576-1646 | the marks never collide with an offset of a frame whose instance lies a whole number of cells into the pool and whose block pointers are NULL or in its code and stack |
| `Migration.SameViewIsMoved` | core/iwasm/common/wasm_restore.c:1805-1906 | a frame in another address space shows the same view if and only if it is the same frame with every pointer moved with what it points into |
| `Migration.PositionIndependent` | core/iwasm/common/wasm_dump.c:1576-1668 | moving pool, code and stack changes nothing in the view and so nothing in the body of the image |
| `FrameStream.Stream.DumpFrame` | core/iwasm/common/wasm_dump.c:26-31 | header and body are appended to the stream as the image of the frame's view |
| `FrameStream.Stream.DumpBlocks` | core/iwasm/common/wasm_dump.c:1612-1650 | the loop over the block stack appends the images of the blocks in order |
| `FrameStream.Stream.RestoreFrame` | core/iwasm/common/wasm_restore.c:1805-1906 | the frame read from the stream, at its new addresses, stands for what the bytes say, its stack and block-stack pointers lie behind its cells as laid out, and the stream is left behind it |
| `FrameStream.Stream.RestoreBlocks` | core/iwasm/common/wasm_restore.c:1857-1891 | the loop pushes blocks that stand for what the bytes say |
| `FrameStream.Stream.RestoreFrames` | core/iwasm/common/wasm_restore.c:208-238 | record after record until none can be read: each frame stands for the last record with its address; a frame that was not expected, as the address -1 never is, stops the restore; a running frame is laid out where the frame at its address was allocated |
| `FrameStream.Migrate` | core/iwasm/common/wasm_restore.c:208-238 | dumped in one address space and restored in another, every frame of the stack is the same frame moved there, its operand and block stacks laid out behind the cells where it was allocated and its stack pointer as far above the bottom as before; of frames with one address the last |

## Left out

- Applying relocations, PLT contents, memory mapping and protection, Windows unwind data, LLVM and JIT loading: foreign
  to the properties proved here.
- The hardware-trap build with its own `aot_enlarge_memory`, and shared memory: platform behaviour with other size
  bookkeeping.
- `aot_table_copy`, `aot_table_init`, `aot_table_fill`, `aot_set_aux_stack`: range checks that would only add easy members.
- The typed getters of the attribute container: each reads the bytes that `Container.LookupIsMap` speaks of.
- The block-address cache and the other `dump_*` and `restore_*` functions: straight field writes.
- Threads and locks: each operation is taken as one step, as the locks and the single manager queue make it.
- Watchdog state: a module being interrupted is skipped by the request handler; here every live module takes its event.
- Error responses sent to the host, logging, timers, loading and running the installed module.
- The destruction of section lists after loading: memory management only.
- Container.AttrContainer.SetAttr: asks for lengths within their stored fields and for less than 65535 attributes before
  a new key, because the source lets the 16-bit fields wrap silently.
- Memory.RunKeeps: speaks of runs in which the heap migrates; what a single failed migration leaves behind is in
  `Memory.GrowKeeps`.
- Tables.Region.constructor: asks that the region is below 4 GiB, as its allocation requires.
- Urls.FindKeyValue: the buffer is a C string of the given length, as all callers pass it.
- Packets.AcceptedRequestTiles: where the terminator or the URL would be read past the packet the outcome is `PastEnd`,
  since C says nothing about it; the URL is taken to be read, as it is once any resource is registered.
- Attributes.LookupHolds: reads outside the buffer, which C leaves undefined, end the walk in the model.
- FrameStream.Stream.RestoreFrame: an image that ends early, or holds more blocks than the frame has room for, gives no
  frame; the source notices neither.
- FrameStream.Stream.RestoreFrames: the links between frames, made when they are allocated, are not modelled; a record
  with address -1, for which the source follows NULL, stops the restore like one that is not expected.
- Globals.Instantiate: asks for data allocated with zeros, as `runtime_malloc` gives it; what a null reference stored past
  the data overwrites is not modelled.
- Tables.Region.ApplySegments: a segment past the slots ends in `Spills`; what the bounded copy then leaves in the slots
  is not modelled.
- Payloads.SizeDecides: on a sixth byte of a section size the source shifts a 32-bit value by 35 bits, which C leaves
  undefined, before it tests for overflow and drops everything; here the byte is refused.
- Memory.HeapPlacement: the page size that the file also gives is taken to be 64 KiB.
- FrameStream.Stream.DumpFrame: frames of native functions, which have no bytecode, are not modelled.
- Symbols.AcceptedExactlyWhen: string areas below 4 GiB, as the 32-bit length field of the section makes them.
