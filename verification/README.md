# Proofs about the iOS 27 bring-up tools

A Dafny model of the algorithmic parts of the repository, with the properties they are meant to have.
`dafny verify dfyconfig.toml` checks all of it.

## What is modelled

**Device tree** (`scripts/dt_fixup.py`). `DeviceTree` holds the binary codec on values: a property value is a Python
string or bytes, numbers are strings with a tag, and the decoder guesses. `DeviceTreeRoundTrip` finds the exact domain
on which encoding and decoding are inverse, `DeviceTreeReencode` says when re-encoding a decoded tree is stable and when
it restores the bytes, `DeviceTreeFormat` writes the format down byte by byte, `DeviceTreePasses` covers the DART
numbering and the muting pass, and `AdtNode` is the mutable object tree whose methods are proved to compute these functions. `Utf8` and `PyInt` model the text and number conversions the codec relies on.

**RTKit coprocessor** (`scripts/apple_rtkit.c`, `scripts/apple_dcp.c`). `RtkitProtocol` packs and unpacks management
words and endpoint maps. `RtkitDevice` states the device as a state machine and refines it by a class with the 64-slot
ring, the endpoint table and the buffer slots. `RtkitRuns` proves what every run keeps, `RtkitWire` states the device in
the guest's numbers, `AfkHandshake` composes the device with a guest. `Console` refines an unbounded console by the 256 x 128 grid.

**A64 programs and patchers.** `A64` decodes and executes the few instructions needed (DDI 0487, section C6.2).
`CtorRunner` runs the encoded constructor trampoline, `CallGuard` the null-guard trampoline, `StringPatch` the
return-0 stubs together with the searches that place them, `AdrpSearch` the three address searches, `Widening` the
32-to-64-bit edits.

**Graph and pointer walks.** `Reach` is the breadth-first call-graph search, `ChainedFixups` the fixup-chain walk,
`RegistrySeed` the per-thread registry page and its lookup.

Words are non-negative integers; shifts and masks are divisions and remainders, and bitwise OR is defined bit by bit
(`Words.Or`) so that "no field spills" is something proved. 32- and 64-bit wrap-around is written out.

## Where the code differs from what one might expect

- A name or `name` string counts code points where its padding needs bytes; the canonical domain says when that is harmless.
- A length word's top bit is dropped on decoding, so byte strings of 2 GiB and more do not come back.
- A DART id of 0x202020 reads back as three blanks, and the pass's decimal spelling comes back in hexadecimal
  (`DeviceTreePasses.NumberedTreeReturns` says exactly when the numbered tree returns).
- The endpoint map can be sent before HELLO (`RtkitRuns.EpmapBeforeHello`): in a run it is exactly when the guest sends
  HELLO_REPLY while the device has not said HELLO (`RtkitRuns.EpmapsFollowHello`). A HELLO sent into a full queue is
  lost (`RtkitRuns.HelloLost`), so for what arrives the condition is `RtkitRuns.EpmapsArriveAfterHello`.
- START_ACK is 0xa4 as in `scripts/apple_dcp.c:44`; `docs/DCP_IOMFB_buildplan.md:82` lists 0x86. `started` is set on any
  START_ACK (`RtkitRuns.StartWithoutBuffer`): it implies a granted buffer throughout a run exactly when the guest never
  sends START_ACK before GETBUF_ACK (`RtkitRuns.StartedAfterSetUp`).
- With 63 or 64 messages pending the AFK handshake can lose GETBUF and never finish.
- The null guard does not look at the target of the call it replaces.
- An empty registry list leaves the head pointing at an unwritten node.
- The address search for patching ignores whether the registers of the pair agree (`AdrpSearch.MismatchedPair`): an
  accepted pair computes the address exactly when they do (`AdrpSearch.PairComputes`). It does not look at the last eight bytes.
- Text that spells a tag is re-encoded as the number it names, so a first re-encoding can differ from its input
  (`DeviceTreeReencode.PropReproduced` says exactly when it does not).

## Model

| member | source | states |
|---|---|---|
| `DeviceTreeRoundTrip.RoundTrip` | scripts/dt_fixup.py:77-103 | for every tree of dicts and any trailing bytes, decoding the encoding gives the same tree and the exact encoded length if and only if the tree is canonical (short NUL-free names, values whose bytes read back as the same kind); the length is then a multiple of 4 |
| `DeviceTreeRoundTrip.HeadForward` | scripts/dt_fixup.py:444-459 | every canonical property is accepted by the encoder and read back with its name, value and size, whatever follows |
| `DeviceTreeRoundTrip.HeadBackward` | scripts/dt_fixup.py:86-94 | a property that reads back as itself was canonical: no other name or value survives, including masked lengths of 2 GiB and more |
| `DeviceTreeRoundTrip.ValueForward` | scripts/dt_fixup.py:414-438 | the padded bytes of a canonical string, tagged number or byte string decode to that value |
| `DeviceTreeRoundTrip.ValueBackward` | scripts/dt_fixup.py:66-75 | exact collisions of the guessing decoder: printable 4- and 8-byte numbers, tag-like strings, short or unpadded bytes are the values that do not come back |
| `DeviceTreeRoundTrip.ProbableText` | scripts/dt_fixup.py:45-64 | bytes that pass the string guess decode to their printable NUL-free prefix of at least three characters |
| `DeviceTreeFormat.TextIsRecognized` | scripts/dt_fixup.py:45-67 | at least three bytes in 32..126 with any number of zeros behind them decode to exactly that text, under every property name |
| `DeviceTreeFormat.OthersAreNoText` | scripts/dt_fixup.py:66-75 | under any name but `name`, bytes of no such form never decode to text: none is <NULL>, four and eight are the little-endian number in lower-case hexadecimal, any others are themselves |
| `DeviceTreeFormat.NameIsText` | scripts/dt_fixup.py:42-67 | the value of `name` is its UTF-8 text up to the first NUL, or a decoding error |
| `DeviceTreeFormat.PropertyBytes` | scripts/dt_fixup.py:414-459 | an encoded property is 32 bytes of zero-padded name, the little-endian length and the value zero-padded to whole words: bytes, text with NUL, the four or eight bytes of a tagged number, or nothing |
| `DeviceTreeFormat.PropertyAccepted` | scripts/dt_fixup.py:414-459 | exactly which names and values the encoder accepts |
| `DeviceTreeFormat.NodeBytes` | scripts/dt_fixup.py:440-463 | an encoded node is its two little-endian counts, properties first, then the properties and then the children |
| `DeviceTreeFormat.PropertyRead` | scripts/dt_fixup.py:86-94 | whatever the flag bit, a property takes its length rounded up to whole words, and its name ends at the first NUL |
| `DeviceTreeFormat.CutPropertyRead` | scripts/dt_fixup.py:86-94 | a value cut short by the end of the file is decoded from what is left, and its property still claims its full size |
| `DeviceTreeReencode.ReencodeOnce` | scripts/dt_fixup.py:414-463 | for every untruncated input that decodes, encoding and decoding again reproduces the first decoded tree if and only if it is re-encodable (names under 32 bytes, tag-like strings in the printed spelling, a name that fits its padding, sizes below 2 GiB) |
| `DeviceTreeReencode.NodeDecoded` | scripts/dt_fixup.py:77-103 | what decoding complete bytes guarantees of every property of the result, at every depth |
| `DeviceTreeReencode.NodeReproduced` | scripts/dt_fixup.py:414-463 | for every untruncated input that decodes, the very first encoding has the bytes of the input if and only if these are plain at every depth: no name twice in a node and every property plain |
| `DeviceTreeReencode.PropReproduced` | scripts/dt_fixup.py:440-459 | a decoded property is written back byte for byte if and only if its name field is zero behind its NUL, the flag bit is clear, text is zero-padded, spells no tag and is measured in code points plus NUL, and other bytes are measured in whole words |
| `DeviceTreeReencode.FlagBitIsDropped` | scripts/dt_fixup.py:88-90 | heads whose length words differ only in the top bit decode alike, though they are different bytes |
| `AdtNode.ADTNode.Decode` | scripts/dt_fixup.py:77-103 | filling a new node object from bytes builds exactly the decoded tree out of fresh objects, or fails with the decoder's error |
| `AdtNode.ADTNode.Encode` | scripts/dt_fixup.py:440-463 | walking the objects emits exactly the encoding of the tree they stand for, or the first error |
| `AdtNode.ADTNode.AssignDartIds` | scripts/dt_fixup.py:245-255 | the in-place numbering turns the tree of the objects into the numbered tree, continues the counter and touches no other object |
| `AdtNode.ADTNode.DelCompat` | scripts/dt_fixup.py:118-137 | the in-place muting pass turns the tree of the objects into the muted tree and touches no other object |
| `AdtNode.ADTNode.RemoveNamedChild` | scripts/dt_fixup.py:32-37 | removes the first child of that name and keeps the rest in order; on failure nothing changes |
| `DeviceTreePasses.AssignNumbers` | scripts/dt_fixup.py:245-255 | in preorder the i-th property list gets dart-id = number of DARTs before it exactly when it is a DART, every other list and the tree's shape are unchanged, and the counter ends at the number of DARTs |
| `DeviceTreePasses.DartExactly` | scripts/dt_fixup.py:246-250 | a node is numbered exactly when its `compatible`, text or bytes, has `dart,` somewhere in it |
| `DeviceTreePasses.DartIdsDistinct` | scripts/dt_fixup.py:240-244 | no two DART instances get the same id and all ids are below the count |
| `DeviceTreePasses.NumberedTreeReturns` | scripts/dt_fixup.py:245-255 | for every canonical tree and any trailing bytes, the numbered tree encoded and decoded comes back with every id in the decoder's spelling and nothing else changed if and only if it has at most 0x202020 DARTs and no DART without an id already has 2^32 - 1 properties |
| `DeviceTreePasses.IdsReturn` | scripts/dt_fixup.py:240-255 | then in the tree that comes back every DART of the original carries its preorder number, no two the same one, all other property lists are the original ones, and the shape is unchanged |
| `DeviceTreePasses.DartIdsSurvive` | scripts/dt_fixup.py:251-252 | written and read back as single values, the numbers 0..k-1 stay the same numbers if and only if k <= 0x202020; 0x202020 reads back as text |
| `DeviceTreePasses.DelCompatMutes` | scripts/dt_fixup.py:118-137 | every node keeps its path and its place in the tree; its property list is unchanged, or has only `compatible` removed, the latter exactly when neither a kept path nor a supported driver matches |
| `DeviceTreePasses.MutingByPath` | scripts/dt_fixup.py:118-137 | over the whole tree, node by node: the list stays when the node's path is a kept entry or ends in a slash and one, or a driver is supported, and otherwise loses just `compatible` |
| `DeviceTreePasses.PathsAreNames` | scripts/dt_fixup.py:106-121 | the path of a node is the names of its ancestors below the root, and its own, joined by slashes (empty names in front do not count) |
| `DeviceTreePasses.SupportedExactly` | scripts/dt_fixup.py:136-136 | a driver is supported exactly when one of the known names occurs in the bytes of `compatible` |
| `DeviceTreePasses.DelCompatIdempotent` | scripts/dt_fixup.py:118-137 | muting a muted tree changes nothing, because no node's path depends on what was removed |
| `Utf8.DecodeEncode` | scripts/dt_fixup.py:42-43 | strict UTF-8 decoding undoes encoding, whatever decodable bytes follow |
| `Utf8.EncodeDecode` | scripts/dt_fixup.py:42-43 | encoding the text of any bytes that decode gives back those bytes |
| `Utf8.DecodesExactly` | scripts/dt_fixup.py:42-43 | only encodings of texts decode |
| `Utf8.EncodedForm` | scripts/dt_fixup.py:42-43 | characters take one to four bytes by their size, with the bits of UTF-8 |
| `PyInt.ParseHex` | scripts/dt_fixup.py:72-74 | the hexadecimal form the decoder prints is read back as the same number by the encoder's int(text, 0) |
| `PyInt.ParseDec` | scripts/dt_fixup.py:251-251 | the decimal form of a DART id is read back as the same number |
| `PyInt.SignedLiterals` | scripts/dt_fixup.py:425-427 | binary, octal, decimal and hexadecimal literals are read, with either case of prefix and either sign |
| `PyInt.Alphabet` | scripts/dt_fixup.py:72-74 | numbers are printed in lower-case digits without leading zeros |
| `PyInt.DigitsRead` | scripts/dt_fixup.py:425-427 | letters in either case are digits of the bases they are small enough for |
| `RtkitProtocol.EpmapRoundTrip` | scripts/apple_rtkit.c:121-153 | for any set of endpoints below any limit up to 256: the burst's bases count up from 0, LAST is set on the final word only, and the words advertise exactly the present endpoints |
| `RtkitProtocol.EpmapFields` | scripts/apple_rtkit.c:142-150 | type, base, bitmap and LAST of an EPMAP word are all recovered: no field spills into another |
| `RtkitProtocol.MgmtFields` | scripts/apple_rtkit.c:90-93 | type and payload of a management word are recovered |
| `RtkitDevice.WindowPush` | scripts/apple_rtkit.c:83-86 | storing at (head + count) mod 64 appends to the queue the ring stands for and overwrites none of it |
| `RtkitDevice.WindowPop` | scripts/apple_rtkit.c:278-283 | advancing head mod 64 drops exactly the first message of the queue |
| `RtkitDevice.AppleRTKit.constructor` | scripts/apple_rtkit.c:351-374 | a new device is idle, not running, and advertises the five log endpoints only |
| `RtkitDevice.AppleRTKit.DcpAttach` | scripts/apple_dcp.c:363-377 | attaching puts the AFK handler on endpoints 0x23, 0x24 and 0x25 and changes no other endpoint |
| `RtkitDevice.AppleRTKit.Send` | scripts/apple_rtkit.c:77-88 | the ring behaves as a queue of 64: a send appends and raises the interrupt, with 64 pending it is lost |
| `RtkitDevice.AppleRTKit.SendEpmap` | scripts/apple_rtkit.c:122-153 | the two loops over the endpoint array send exactly the endpoint-map words of the present set, in order |
| `RtkitDevice.AppleRTKit.HandleLogEp` | scripts/apple_rtkit.c:211-237 | a buffer request fills the first free of eight slots and never overwrites a used one |
| `RtkitDevice.AppleRTKit.DcpEpHandler` | scripts/apple_dcp.c:89-173 | the AFK handler's state change and the messages it sends, in order, for every message type |
| `RtkitDevice.AppleRTKit.HandleA2I` | scripts/apple_rtkit.c:239-258 | a message reaches the management, log or AFK handler of its endpoint, or has no effect |
| `RtkitDevice.AppleRTKit.ReadRegister` | scripts/apple_rtkit.c:260-297 | value and effect of every register read: RECV0 shows the first message, RECV1 removes it and updates the interrupt, nothing else changes state |
| `RtkitDevice.AppleRTKit.WriteRegister` | scripts/apple_rtkit.c:299-328 | effect of every register write on the whole device state (which write boots it is RtkitRuns.HelloIffBooted, what messages do is RtkitWire) |
| `RtkitRuns.RunKeeps` | scripts/apple_rtkit.c:107-119 | in every run of register accesses and announcements: accepted = delivered + pending, at most 64 pending, interrupt = not empty, running = hello sent, HELLO sent at most once and accepted at most once, an endpoint is started exactly when advertised and asked for, the recorded buffers are the first eight requests in order, and the AFK state is started iff a START_ACK came on an AFK endpoint, set up iff a GETBUF_ACK came, and holds the address of the last one |
| `RtkitRuns.HelloIffBooted` | scripts/apple_rtkit.c:107-119 | in every run from a fresh device HELLO is sent, once, and the device runs, exactly when some step is an announcement or a write to 0x44 with bit 4 set |
| `RtkitRuns.QueueStep` | scripts/apple_rtkit.c:79-82 | one step keeps the queue invariant, and messages are lost only when the step leaves the queue full |
| `RtkitRuns.GuestReadsInOrder` | scripts/apple_rtkit.c:275-285 | after any run the guest's next read of RECV0 and RECV1 gives the next accepted message, and the queue is empty exactly when all accepted messages were delivered |
| `RtkitRuns.HelloReplyAdvertises` | scripts/apple_rtkit.c:160-168 | a HELLO_REPLY with queue room records the version and is answered by words from which the guest reads exactly the advertised endpoints |
| `RtkitRuns.StartRequest` | scripts/apple_rtkit.c:172-183 | a packed start request starts exactly the named endpoint, and only when it is advertised |
| `RtkitRuns.PowerAcknowledged` | scripts/apple_rtkit.c:184-195 | power requests are answered once with the requested state and the acknowledgement type of their kind |
| `RtkitRuns.BufferRequestFields` | scripts/apple_rtkit.c:216-226 | address and page count of a packed buffer request are recorded unmixed |
| `RtkitRuns.EmptyFlag` | scripts/apple_rtkit.c:269-271 | the guest sees the EMPTY flag exactly when nothing is pending |
| `RtkitRuns.EpmapBeforeHello` | scripts/apple_rtkit.c:160-168 | nothing enforces HELLO first: from any fresh device a HELLO_REPLY sent first is answered with the endpoint map |
| `RtkitRuns.EpmapsFollowHello` | scripts/apple_rtkit.c:107-168 | in every run from a fresh device, each endpoint map the device sends, lost or not, has a HELLO sent before it if and only if no step hands over a HELLO_REPLY while HELLO has not been sent |
| `RtkitRuns.EpmapsArriveAfterHello` | scripts/apple_rtkit.c:77-168 | in every run from a fresh device, each endpoint map that enters the queue, and so each one the guest reads, has a HELLO before it there if and only if no step hands over a HELLO_REPLY, with room for its answer, while no HELLO has got into the queue |
| `RtkitRuns.HelloLost` | scripts/apple_rtkit.c:77-119 | 64 power requests that are not read out lose HELLO: the two conditions differ, and endpoint maps arrive without it although it was sent first |
| `RtkitRuns.StartedAfterSetUp` | scripts/apple_dcp.c:114-141 | in every run from a fresh device, at each moment started implies a granted buffer if and only if no step hands over a START_ACK on an AFK endpoint before a GETBUF_ACK |
| `RtkitRuns.StartWithoutBuffer` | scripts/apple_dcp.c:135-141 | a fresh device that receives nothing but START_ACK is started without a buffer |
| `RtkitRuns.Drive` | scripts/apple_rtkit.c:260-341 | the device object driven by any list of accesses is in the state the run predicts, each register read returns the predicted value, and the messages read out through RECV0 and RECV1 are the delivered ones in order |
| `RtkitRuns.Session` | scripts/apple_rtkit.c:260-374 | a device created, given the display endpoints and driven by any list of accesses satisfies all invariants of runs, and what was read out of it followed by what is pending is what was accepted |
| `RtkitWire.Registers` | scripts/apple_rtkit.c:260-297 | what each register offset reads as, and that only reading 0x838 changes anything |
| `RtkitWire.PlainWrites` | scripts/apple_rtkit.c:299-328 | writes to other offsets do nothing, 0x800 stages, 0x44 reads back its low 32 bits |
| `RtkitWire.MessageWords` | scripts/apple_dcp.c:65-131 | HELLO and the AFK messages the device sends, as 64-bit numbers |
| `RtkitWire.HelloReplyAnswered` | scripts/apple_rtkit.c:122-168 | a HELLO_REPLY word sent through 0x800 and 0x808 to a device with the display endpoints puts exactly two known endpoint-map words into the queue |
| `RtkitWire.MgmtAnswered` | scripts/apple_rtkit.c:155-204 | by message number: power states are acknowledged with 7 and 0xb, 5 starts the advertised endpoint, and all but 2, 5, 6 and 0xb are ignored |
| `RtkitWire.LogAnswered` | scripts/apple_rtkit.c:211-237 | on a log endpoint exactly message 1 is recorded, address and pages, up to eight times |
| `RtkitWire.AfkAnswered` | scripts/apple_dcp.c:89-173 | by message number on an AFK endpoint: what 0x80, 0xa1 and 0xa4 send and change, and that no other one, 0x86 included, does anything but count |
| `AfkHandshake.HandshakeCompletes` | scripts/apple_dcp.c:89-141 | with at most 62 messages pending every interleaving of sends and pops takes exactly pending + 8 actions, is never stuck earlier, and ends started, with the granted address and the five AFK messages received in order |
| `AfkHandshake.HandshakeCertain` | scripts/apple_dcp.c:105-115 | the handshake is certain to finish if and only if at most 62 messages are pending when it opens |
| `AfkHandshake.Stalls` | scripts/apple_dcp.c:109-112 | with 63 or 64 pending there is a schedule in which GETBUF is lost and everything goes quiet before the transport has started |
| `AfkHandshake.Progress` | scripts/apple_dcp.c:104-141 | each enabled action lowers the number of remaining actions by exactly one |
| `AfkHandshake.Rings` | scripts/apple_dcp.c:121-131 | the rings decoded from INIT_TX and INIT_RX are adjacent, disjoint, in whole 64-byte blocks and exactly fill the requested buffer |
| `AfkHandshake.WordTypes` | scripts/apple_dcp.c:93-93 | every AFK word carries the intended type and the granted address comes back unmasked |
| `Console.DcpConsole.ConsoleFeed` | scripts/apple_dcp.c:219-233 | after any bytes the grid shows the last min(n, 256) rows of the unbounded console fed with the same bytes, with its column, stage and panic flag |
| `Console.DcpConsole.ConsNewline` | scripts/apple_dcp.c:207-217 | a newline judges the completed row, scrolls when the grid is full and clears the new row: one row is added to the unbounded console |
| `Console.DcpConsole.BootCheckStage` | scripts/apple_dcp.c:197-205 | the stage becomes the maximum of itself and the line's class, the panic flag only ever rises |
| `Console.FeedAppend` | scripts/apple_dcp.c:220-233 | how the stream is cut into calls makes no difference |
| `Console.FeedTracked` | scripts/apple_dcp.c:197-217 | one feed keeps stage and panic flag equal to the highest class and the disjunction over the completed rows and column 127 NUL; completed rows are never rewritten, stage and panic never fall |
| `Console.EveryStream` | scripts/apple_dcp.c:180-233 | for every byte stream from the empty console and every continuation of it: at both moments stage, panic and column 127 are as the completed rows say, and the later one keeps the completed rows, the stage and the panic flag of the earlier |
| `Console.ShowStream` | scripts/apple_dcp.c:219-233 | a new console fed any stream in any pieces shows the last rows of the unbounded console fed the whole stream, with the stage and panic flag its completed rows call for |
| `Console.StageByWords` | scripts/apple_dcp.c:197-205 | for every byte stream and every level, the stage has reached the level exactly when some complete row holds one of the keywords of that or a higher level; likewise for panics |
| `Console.EachByte` | scripts/apple_dcp.c:222-231 | bytes outside 32..126 other than tab, newline and carriage return do nothing, a printable one is stored at the column and moves it, and from column 127 it goes to a new row |
| `Console.ConsoleShowsText` | scripts/apple_dcp.c:222-231 | printable text with newlines appears split at its newlines and cut after every 127 characters |
| `Console.CutPieces` | scripts/apple_dcp.c:227-230 | the pieces of a line are full rows of 127 bytes and a rest, and together the line |
| `Console.ControlBytes` | scripts/apple_dcp.c:225-226 | tab stops are multiples of eight and wrap from column 120 on; a carriage return goes back on the same row |
| `CtorRunner.RunsConstructors` | experiments/cl4-ctor-runner/gen_trampoline.py:51-81 | for any array and any callees that, entered from the blob on the scratch stack, keep the call standard and the blob and array, the encoded blob calls every pointer once, in order, with SP at the scratch stack, and reaches the entry point with the original x0 and x1 and SP = 0 after exactly 5n + 14 instructions |
| `CtorRunner.StackUsersBehave` | experiments/cl4-ctor-runner/gen_trampoline.py:42-43 | constructors that push to the stack are such callees whenever their frame below the scratch stack's top, and what else they write, lie apart from the blob and the array |
| `CtorRunner.DecodedCode` | experiments/cl4-ctor-runner/trampoline.hex:1-1 | the 18 encoded words are the instructions of the assembly listing, with the displacements of its labels and literals |
| `A64.RegisterWords` | experiments/cl4-ctor-runner/gen_trampoline.py:51-81 | register moves and comparisons of any registers decode as such |
| `A64.LiteralWord` | experiments/cl4-ctor-runner/gen_trampoline.py:51-81 | literal loads decode with their signed distance, whatever the register |
| `A64.PostIndexWord` | experiments/cl4-ctor-runner/gen_trampoline.py:60-65 | post-indexed loads of any two different registers decode with their signed step |
| `A64.JumpWords` | experiments/cl4-ctor-runner/gen_trampoline.py:60-74 | register jumps, calls and returns decode with their register |
| `CtorRunner.LoopRound` | experiments/cl4-ctor-runner/gen_trampoline.py:60-65 | one round calls the pointer under the cursor and is back at the loop head with the cursor advanced, whatever the callee did to other registers and memory |
| `CtorRunner.LoopTest` | experiments/cl4-ctor-runner/gen_trampoline.py:61-62 | the unsigned comparison leaves the loop exactly when all pointers were used |
| `A64.ConditionsMean` | experiments/cl4-ctor-runner/gen_trampoline.py:61-62 | after a comparison every condition code says what it is named for, signed or unsigned |
| `CtorRunner.CountWhole` | experiments/cl4-ctor-runner/gen_trampoline.py:78-79 | when the end is the start plus 8n the number of calls is n |
| `Reach.CallGraph.Reachable` | experiments/cl4-ctor-ordering/reach.py:34-46 | the result is that of the expansions in order of discovery up to the first moment at which nothing is left or more than maxnodes nodes are known: the reported number is that of the known nodes, a target has a path exactly when it is one of them and the path is shortest, all of them are reachable and none is farther than anything that is not known, and without the cut None means that no call path exists |
| `Reach.KnownMeans` | experiments/cl4-ctor-ordering/reach.py:35-41 | at any moment of the search the known nodes are reachable, at most as far away as any other node, and all there is when the queue is empty |
| `Reach.CallGraph.PathTo` | experiments/cl4-ctor-ordering/reach.py:42-45 | following parents ends at the start and gives a call path as long as the node's depth |
| `Reach.CallGraph.Expand` | experiments/cl4-ctor-ordering/reach.py:37-40 | the inner loop makes all callees known and keeps the queue ordered by depth |
| `Reach.CallGraph.GetCallees` | experiments/cl4-ctor-ordering/reach.py:12-33 | with or without the cache the callees of an address are those of its scan |
| `Reach.CalleesExactly` | experiments/cl4-ctor-ordering/reach.py:15-31 | an address is a callee if and only if it lies in the text and some instruction the scan reaches calls it or leaves the function for it |
| `Reach.DepthIsDistance` | experiments/cl4-ctor-ordering/reach.py:35-41 | at any moment of the search the depth of a known node is at most the length of every call path to it |
| `StringPatch.PatchByString` | scripts/darwinvm/darwinvm_patch_img4_magazine.py:235-274 | succeeds if and only if both segments exist, the string occurs, some scanned pair forms its address and walking back from the first such pair hits an entry; then exactly that entry is overwritten with the stub of its convention, and otherwise nothing changes |
| `StringPatch.LocatedOnce` | scripts/darwinvm/darwinvm_patch_img4_magazine.py:253-264 | string start, pair and entry are determined by the file: at most one place is located |
| `StringPatch.LocatedEntry` | scripts/darwinvm/darwinvm_patch_img4_magazine.py:261-274 | a located entry is an accepted prologue strictly below the pair with no PACIBSP between, so the stub is never refused and fits below the end of the pair |
| `StringPatch.FindStringInSection` | scripts/darwinvm/darwinvm_patch_img4_magazine.py:106-121 | returns the start of the NUL-delimited string around the first occurrence, -1 exactly when there is none |
| `StringPatch.WalkBackToPrologue` | scripts/darwinvm/darwinvm_patch_img4_magazine.py:179-201 | returns the nearest entry at or before the reference within 4096 bytes, -1 exactly when no scanned offset gives one (what an entry is: PrologueExactly and NearestExactly) |
| `StringPatch.PrologueExactly` | scripts/darwinvm/darwinvm_patch_img4_magazine.py:161-176 | the accepted first words are exactly PACIBSP, a store of two registers on SP in any of three modes and both widths, and a subtraction from SP, by their instruction fields |
| `StringPatch.NearestExactly` | scripts/darwinvm/darwinvm_patch_img4_magazine.py:190-201 | the walk ends at the nearest word, within 4096 bytes and above offset zero, that is PACIBSP or a RET or RETAB with such a word directly behind it |
| `StringPatch.EntryBelowXref` | scripts/darwinvm/darwinvm_patch_img4_magazine.py:179-201 | from an ADRP the walk returns an accepted prologue word strictly below it with no PACIBSP in between, so the stub is never refused |
| `StringPatch.StubFunction` | scripts/darwinvm/darwinvm_patch_img4_magazine.py:204-232 | writes the stub of the entry's convention, 12 or 8 bytes, exactly when the entry is a prologue; only those words change |
| `StringPatch.ChangesAreLocal` | scripts/darwinvm/darwinvm_patch_img4_magazine.py:219-227 | a patch changes at most 12 bytes and ends at or before the end of the pair |
| `StringPatch.StubReturnsZero` | scripts/darwinvm/darwinvm_patch_img4_magazine.py:204-227 | executing either stub returns to the caller with x0 = 0; nothing else changes, except that the PAC form leaves x30 signed |
| `StringPatch.PatchedEntryReturnsZero` | scripts/darwinvm/darwinvm_patch_img4_magazine.py:204-274 | after a successful patch, with the entry in memory at the address the script computes for it, calling it returns to the caller with x0 = 0 and, but for the signed x30 of the PAC form, nothing else changed |
| `AdrpSearch.FindAdrpAddXref` | scripts/darwinvm/darwinvm_patch_img4_magazine.py:124-155 | returns the first scanned pair whose page plus offset is the address, -1 only if no scanned pair forms it |
| `AdrpSearch.PairExactly` | scripts/darwinvm/darwinvm_patch_img4_magazine.py:134-153 | a pair is accepted exactly when the machine would execute an ADRP and an unshifted ADD (immediate) whose page and offset sum up to the address |
| `AdrpSearch.PairExecutes` | scripts/darwinvm/darwinvm_patch_img4_magazine.py:134-153 | executing an accepted pair leaves the address in the ADD's destination when the ADD reads what the ADRP wrote, and otherwise its base register plus the offset |
| `AdrpSearch.PairComputes` | scripts/darwinvm/darwinvm_patch_img4_magazine.py:134-153 | an accepted pair computes the string address for all register contents if and only if its registers agree |
| `AdrpSearch.MismatchedPair` | scripts/darwinvm/darwinvm_patch_img4_magazine.py:134-153 | there is an accepted pair whose registers do not agree |
| `AdrpSearch.DecodersAgree` | experiments/md0-size/scripts/xref_fast.py:9-11 | on every 32-bit word the three hand-written displacement decoders agree with each other and with the architecture |
| `AdrpSearch.AdrWordRead` | experiments/md0-size/scripts/xref_fast.py:30-36 | every ADRP and ADR, put together from its fields, is recognized with its register and signed distance |
| `AdrpSearch.AddWordRead` | experiments/md0-size/scripts/xref_fast.py:37-46 | so is every ADD (immediate), with its shift |
| `AdrpSearch.MemWordRead` | experiments/md0-size/scripts/xref_fast.py:54-63 | so is every load or store with an unsigned offset, with its scale |
| `AdrpSearch.WordsExactly` | experiments/md0-size/scripts/xref_fast.py:30-63 | and no other word is taken for one of them |
| `AdrpSearch.FindXrefs` | experiments/md0-size/scripts/xref_fast.py:18-64 | the word loop with its 32-entry page table reports exactly the references of the word-by-word definition, in order |
| `AdrpSearch.PagesExactly` | experiments/md0-size/scripts/xref_fast.py:30-36 | the page table holds a page for a register if and only if the last ADRP or ADR to that register was an ADRP of that page |
| `AdrpSearch.XrefsExactly` | experiments/md0-size/scripts/xref_fast.py:18-64 | of all three kinds, a reference is reported if and only if its target is requested and some scanned word makes it: an ADD or a load or store completing the page its base register last got from an ADRP, or an ADR naming it |
| `AdrpSearch.PairIsReported` | experiments/md0-size/scripts/xref_fast.py:30-46 | a pair accepted by the string patcher is also reported by the scanner when its registers agree |
| `AdrpSearch.FindAdrpTo` | experiments/cl4-perthread-registry/scripts/cl4dis.py:79-92 | lists exactly the ADRP sites of the page, in order, with their registers |
| `AdrpSearch.PageSitesExactly` | experiments/cl4-perthread-registry/scripts/cl4dis.py:79-92 | a site is listed exactly when its word is an ADRP of the page the address lies in |
| `AdrpSearch.PairStartsAtSite` | experiments/cl4-perthread-registry/scripts/cl4dis.py:79-92 | every pair forming an address starts at a site listed for that address's page |
| `AdrpSearch.FindBl` | experiments/cl4-perthread-registry/scripts/cl4dis.py:66-76 | lists exactly the sites at which the machine would execute a BL to the target, in order |
| `AdrpSearch.CallSitesExactly` | experiments/cl4-perthread-registry/scripts/cl4dis.py:66-76 | a call site is listed exactly when its word is a BL whose distance leads to the target |
| `ChainedFixups.FixupWalk.WalkAll` | experiments/appledcp-crashA/scripts/chained.py:36-48 | found, total and index describe exactly the slots visited by all chains in order; running off the file is reported |
| `ChainedFixups.FixupWalk.WalkChain` | experiments/appledcp-crashA/scripts/chained.py:39-48 | one chain walk terminates and visits exactly the slots of its chain |
| `ChainedFixups.ChainMovesForward` | experiments/appledcp-crashA/scripts/chained.py:46-48 | a chain moves forward by the stored positive multiple of four until the first zero distance, inside the file |
| `ChainedFixups.WalkVisitsSlots` | experiments/appledcp-crashA/scripts/chained.py:40-48 | the walk of a chain laid out by the matching encoder visits exactly its slots, in order, with their targets and auth bits |
| `ChainedFixups.HitsAreMatching` | experiments/appledcp-crashA/scripts/chained.py:44-45 | what is reported for visits of given slots is exactly the slots whose target is the requested address, in order, with offset, address, auth bit and target bits |
| `ChainedFixups.IndexHolds` | experiments/appledcp-crashA/scripts/chained.py:40-43 | the index has exactly the addresses of the visited slots, and at each the target and auth bit of the last slot there, so of every slot when the addresses differ |
| `ChainedFixups.ChainsVisitSlots` | experiments/appledcp-crashA/scripts/chained.py:36-48 | the walk over any number of laid-out chains whose slots do not overlap visits exactly all their slots, chain by chain in order, with their targets and auth bits |
| `ChainedFixups.WalkLaidOut` | experiments/appledcp-crashA/scripts/chained.py:30-48 | in a file whose page tables name the starts of laid-out chains the walk succeeds, counts every slot, reports exactly the slots that point at the address, in order and with their addresses and auth bits, and indexes all pointers by address |
| `ChainedFixups.StartsByPages` | experiments/appledcp-crashA/scripts/chained.py:30-38 | chains start in every page whose table entry is not 0xFFFF and nowhere else, in order of segments and pages, at the page's place in the file plus the entry |
| `ChainedFixups.StoredPointer` | experiments/appledcp-crashA/scripts/chained.py:41-46 | 30 bits of target, 12 bits of distance from bit 51 on and the auth bit on top are read as such |
| `ChainedFixups.F2vExactly` | experiments/appledcp-crashA/scripts/chained.py:16-19 | an offset's address is that of the first segment it lies in |
| `ChainedFixups.EncodeFields` | experiments/appledcp-crashA/scripts/chained.py:41-46 | target, distance and auth bit of a packed pointer are recovered |
| `RegistrySeed.QueryAnswers` | experiments/cl4-perthread-registry/scripts/gen_perthread_seed.py:42-72 | in a page seeded from a non-empty node list the lookup of any two keys ends within the list's length and returns the value of the first matching entry or nothing |
| `RegistrySeed.AnswersIffNonEmpty` | experiments/cl4-perthread-registry/scripts/gen_perthread_seed.py:64-66 | over a zeroed page the seed answers like its list for all keys if and only if the list is not empty |
| `RegistrySeed.EmptySeedIsNotEmpty` | experiments/cl4-perthread-registry/scripts/gen_perthread_seed.py:66-66 | with no nodes the head still points at the first cell, so keys (0, 0) are found |
| `RegistrySeed.StoresApart` | experiments/cl4-perthread-registry/scripts/gen_perthread_seed.py:65-72 | no two emitted stores touch the same byte |
| `RegistrySeed.Build` | experiments/cl4-perthread-registry/scripts/gen_perthread_seed.py:51-72 | the two loops emit the two head stores and the four stores of every node, linked in list order |
| `RegistrySeed.SeededPage` | experiments/cl4-perthread-registry/scripts/gen_perthread_seed.py:21-72 | head, links, keys and physical values of the seeded page at their offsets |
| `RegistrySeed.FirstMatchMeans` | experiments/cl4-perthread-registry/scripts/gen_perthread_seed.py:51-57 | the list's answer is that of its first entry with the two keys, taken as 32-bit numbers |
| `Widening.WideningPreserves` | experiments/md0-size/scripts/patch_md0_size.py:87-118 | w-to-x edits leave registers and memory after any straight-line block, stores included, unchanged when each edited operation has zero upper halves and an exact result below 2^32 where it executes |
| `Widening.PlanPreserves` | experiments/md0-size/scripts/patch_md0_size.py:87-118 | any straight-line stretch of the code as the script's own plan widens it does what it did before, when every planned instruction in it fits where it executes |
| `Widening.PagesToBytes` | experiments/md0-size/scripts/patch_md0_size.py:44-47 | for every 32-bit page count the widened shift gives exactly count * 4096 and the w-form gives it modulo 2^32 |
| `Widening.TruncationPoint` | experiments/md0-size/scripts/patch_md0_size.py:44-47 | the two forms agree if and only if there are fewer than 2^20 pages |
| `Widening.PagesAdded` | experiments/md0-size/scripts/patch_md0_size.py:69-72 | the widened block-count form adds exactly count * 4096 |
| `Widening.FindSites` | experiments/md0-size/scripts/patch_md0_size.py:60-84 | finds exactly the conversions whose register was loaded from the size field at most four instructions before, in order |
| `Widening.BuildPlan` | experiments/md0-size/scripts/patch_md0_size.py:87-101 | plans exactly the sites and the dependent operations behind add sites, immediate, shifted and extended (but not neg), each as its own x-form, and fails exactly when a word it must read does not decode |
| `Widening.PlannableByText` | experiments/md0-size/scripts/patch_md0_size.py:94-98 | planning fails exactly when one of the two words behind an add site is missing or does not decode |
| `Widening.SitesByText` | experiments/md0-size/scripts/patch_md0_size.py:60-84 | a site is exactly `lsl ws, ws, #12` or `add ws, wn, ws, lsl #12` with `ldr ws, [xb, #8]` at most four instructions before |
| `Widening.DependentsWidened` | experiments/md0-size/scripts/patch_md0_size.py:94-101 | behind an add site every form of 32-bit sub and udiv is widened, neg and what has no w are not |
| `Widening.BlockCount` | experiments/md0-size/scripts/patch_md0_size.py:87-101 | the widened block count leaves exactly (n + pages * 4096 - 1) / v in the 64-bit register, at any site, with any registers and from any 32-bit page count, when the sum is positive and below 2^64 |
| `Widening.BlockCountFromMemory` | experiments/md0-size/scripts/patch_md0_size.py:44-101 | the same from the load on, with the page count the 32-bit word in memory |
| `Widening.ByteCount` | experiments/md0-size/scripts/patch_md0_size.py:44-47 | the widened byte count leaves pages * 4096 in the 64-bit register from any 32-bit page count |
| `Widening.ApplyPlan` | experiments/md0-size/scripts/patch_md0_size.py:110-118 | the edit loop replaces exactly the planned instructions, and fails exactly when the assembler refuses one of the texts |
| `CallGuard.PatchGuard` | scripts/patch_rtbuddy_secureproxy_v2.py:99-151 | writes both edits exactly when all anchors match and the branches reach, and otherwise, or in a dry run, leaves the file alone |
| `CallGuard.AnchoredExactly` | scripts/patch_rtbuddy_secureproxy_v2.py:99-113 | the three things that must be found before anything is written, byte by byte |
| `CallGuard.PatchBytes` | scripts/patch_rtbuddy_secureproxy_v2.py:118-125 | the bytes that are written, for every pair of reachable branches |
| `CallGuard.EditsAreDisjoint` | scripts/patch_rtbuddy_secureproxy_v2.py:103-113 | the anchor checks imply that the edits do not overlap: exactly the 12 trampoline bytes and 4 site bytes are replaced |
| `CallGuard.GuardedCall` | scripts/patch_rtbuddy_secureproxy_v2.py:118-124 | executing the patched call enters the real function like a direct call when x0 is non-zero, and otherwise returns at once with only x30 and the PC changed |
| `CallGuard.KeepsOriginalCall` | scripts/patch_rtbuddy_secureproxy_v2.py:103-106 | the script does not check the target of the call it replaces: the original call is preserved if and only if it went to the assumed function |
| `A64.DecodeBranch` | scripts/patch_rtbuddy_secureproxy_v2.py:118-124 | the assembled direct branches decode to the same displacement over the whole +-128 MB range |
| `A64.BranchWords` | scripts/patch_rtbuddy_secureproxy_v2.py:118-125 | direct branches are opcode and word distance in two's complement |

## Left out

- PyInt.ParseInt: Unicode digits and Unicode white space, which Python's int also accepts, are not read.
- DeviceTreePasses.NodeName: how undecodable bytes of a name are replaced is a parameter (`lossy`), because only the resulting text matters to the paths.
- Strings holding lone surrogates, which Python can hold but UTF-8 cannot encode, are not values of the model.
- The constant assignments in `fixup`, apart from the DART and muting passes: one-branch facts.
- RtkitDevice.AppleRTKit.WriteRegister: trace budgets, printing and timers are left out; a timer announcement is the step `Announce` of a run.
- AfkHandshake.HandshakeCompletes: one AppleDCPState serves three endpoints, so the guest of this statement uses one of them and sends nothing else meanwhile.
- RBEP_RECV in `scripts/apple_dcp.c`: it only dumps memory.
- Painting the panel (`dcp_paint` and below): floating-point drawing.
- CtorRunner.RunsConstructors: a callee is a function from the state at its entry to the state at its return; callees that do not return, interrupts and exceptions are not modelled.
- RtkitRuns.EpmapsFollowHello: counts what the device sends, a HELLO lost to a full queue included; what arrives is the subject of RtkitRuns.EpmapsArriveAfterHello.
- A64.Decode: words outside the modelled instructions decode to nothing; keystone and capstone are represented by the encodings themselves.
- StringPatch.PatchByString: the Mach-O load commands that give the segments are inputs; a stub's effect is stated for any pointer authentication functions that undo each other.
- CallGuard.PatchGuard: the segment tables that translate addresses to file offsets are inputs, and an offset outside the file counts as a failed anchor.
- Reach.CallGraph.Reachable: the disassembler is a function from addresses to the few instruction kinds the search looks at.
- ChainedFixups.FixupWalk.WalkAll: the page tables are inputs, not parsed from the fixup header.
- Widening.BuildPlan: instructions are the disassembled forms, one code segment at a time.
- Widening.ApplyPlan: which texts the assembler accepts is a parameter.
- AdrpSearch.FindXrefs: one executable segment at a time; registers overwritten by other instructions keep their page, as in the script.
- Scripts tied to fixed addresses, heuristic scanners, trust-cache listing and segment mapping: single edits, searches without a specification, or easy.
