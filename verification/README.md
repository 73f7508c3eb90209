# Verification of the audio studio's protocol, configuration and topology code

This Dafny project models the parts of the repository whose behaviour is decided by code rather than by
hardware or user interface, and proves what that code is relied on for. `dafny verify dfyconfig.toml` checks all of it.

| files | subject |
|---|---|
| `KconfigExpr`, `KconfigModel`, `KconfigSettle`, `KconfigGraph`, `KconfigCache`, `Kconfig`, `KconfigLaws` | the tristate evaluator: which reads return, dependency graph, loop search, cached values and their selective invalidation, and what the values mean |
| `KconfigPrintParse`, `KconfigGrammar` | printing an expression and parsing it back; the grammar the parser accepts |
| `Wrappers`, `Bytes`, `Crc32`, `DatalinkFrame`, `DatalinkStream`, `DatalinkResync` | checksums, datalink frames, the reader that finds frames in a byte stream, and what it does behind damaged frames and other bytes |
| `DatalinkPacket`, `DatalinkArq`, `DatalinkOnce`, `DatalinkLink`, `DatalinkLossy`, `DatalinkReceive`, `DatalinkDelivery` | fragments, the stop-and-wait protocol as a state machine of two stations and a bad wire, how often a packet is delivered, the send and receive loops as runs of it, when a send over a lossy wire succeeds and a receive call delivers, and the stream reader underneath |
| `Transport`, `TransportRing`, `TransportChannels`, `TransportClose`, `TransportReopen` | transport frames from end to end; channel queues shared by a dispatcher and worker threads, one memory access at a time; closing and reopening channels |
| `SofRoutes`, `SofCompIds`, `SofInstall` | route search through virtual widgets, component ids, all-or-nothing installation |
| `TopologyHeap`, `TopologyData`, `TopologyBlocks`, `TopologyText`, `TopologyParser`, `TopologyWriter`, `TopologyFile` | the topology parser: what a file says, what the counts mean and who owns each block of memory; topology files written field by field and read back |
| `Json`, `JsonTree`, `JsonGrammar`, `JsonParser` | JSON text, its grammar and its parser |
| `RpcBinary`, `RpcFraming`, `RpcExact`, `RpcReader` | two framings on one byte stream, exactly which bytes are messages, and the loop that tells them apart |
| `AudioStream` | transfer loops over a stream that moves as much as it likes |

Code that changes things step by step is a class with methods and loops; each method is proved against a function or
a predicate on values, and the theorems are about those. A device, a peer, an allocator or the firmware is a script of
arbitrary answers or an arbitrary choice of steps.

## Results worth knowing

- The dependency-loop search does not see that every `m` asks for the modules symbol, because that edge is not in the
  `_dependents` graph. `modules` with `default FOO`, and a tristate `FOO` with `default m`, pass the search and ask for
  each other for ever (`LoopSearchMissesModules`). After a passed search every read of every symbol returns exactly if
  reading the modules symbol does, for each choice of user values (`AllSettleIfModulesDo`); that is so if that symbol
  depends on no tristate symbol (`IndependentSettles`), but that is not necessary: with `default y` the same two symbols
  return (`DependentModulesMaySettle`). A read returns exactly if the symbol settles, that is, if its nested reads are
  no deeper than there are symbols (`ReturnsIfSettled`). The caches are proved right without assuming that reads return
  or that the graph has no cycle; only the reads themselves are required to be ones that return (`Run`).
- `assignable` lists exactly the values that a visible symbol would read back if they were assigned, unless the symbol is
  visible as m and selected as m while an imply raises it to y: then every assignment reads y, and `assignable` still
  lists m (`AssignableExactly`, `AssignableMisleads`).
- The stream reader tests four bytes for the magic word even when fewer are buffered. For a new reader all frames come
  out exactly if the first read that delivers anything delivers at least four bytes; later reads may be cut anywhere,
  because removing a frame leaves its magic word in memory (`FirstReadDecides`). From such bytes a receive call hands
  over only packets of the peer, whatever the cuts and time-outs (`ReceiveFrom`), and it does hand over the packet if no
  read of the device times out or fails (`DeliverBytes`).
- Behind a damaged frame, or any other bytes, the next complete frame is the one returned exactly if no position before
  it passes for a frame or for the start of one (`FindsFrame`). A damaged payload is always passed over; damaged header
  fields are if the magic word is, or if all that the header announces now is there (`DamagedPayloadIsFruitless`,
  `DamagedFieldsCases`). A frame at the front whose header-size byte is damaged, or that announces more than 2048 bytes,
  is neither passed over nor ever complete: the reader returns no frame again, however often it is called (`ReadForEver`).
- The datalink never mixes packets and never reports a success the peer did not earn, but it may deliver one packet
  twice. In every run a packet is delivered at most as often as receive calls stored all of it, and so at most as often
  as its first fragment was read; if no ACK write fails, exactly as often (`DeliveredAsStored`). It is delivered at most
  once if the wire repeats nothing and no send had to repeat its first fragment (`DeliveredOnce`). Neither condition is
  enough alone (`RepeatingWireDeliversTwice`, `RetryDeliversTwice`).
- A send returns 0 exactly if each fragment in turn is acknowledged by one of at most four reads and every write up to
  that one goes out (`SendSucceedsExactly`). If the acknowledgement of a fragment other than the last is lost, the
  repeated fragment ends the receive call (`LostAckEndsCall`), and no later call can begin with it unless it is the
  first one (`RepeatOpensNothing`).
- A receive call delivers exactly if what it reads, behind frames without data, is one first fragment and all that belong
  to it, in order, and each acknowledgement goes out; the packet is what their payloads leave in the caller's buffer, for
  frames of any sender (`ReceivesExactly`).
- A channel's mutex is destroyed by the first close and never created again, so a channel that is opened again has its
  queue changed by two threads at once. A session of a channel goes right in every interleaving exactly if the channel
  has its mutex when it is opened (`SessionFaultlessExactly`), that is, if the driver has mutexes and no close of the
  channel got past joining its worker (`MutexExactly`). Up to there each accepted request is handled once and in order
  (`ExactlyOnce`). `ReopenHandlesTwice` is a run in which a reopened channel handles a request of its first session again.
- A close of a channel that has its mutex may leave an accepted request unhandled exactly if, when it begins, the
  transport thread has found the channel for a request and the worker may still leave before that request is queued
  (`CloseLosesExactly`, where `Endangered` says when that is). Closing all channels after that thread was joined, as
  `ac_transport_deinit` does, leaves none unhandled, however often channels are opened and closed (`DeinitHandlesAll`).
- The frame decoder does not look at the version byte: it accepts exactly the encodings under any version byte, and of
  these exactly those with the current one are what the encoder writes (`DecodeAcceptsEncodings`).
- A topology parse loses a block exactly if it fails with an error about a widget's vendor tuples, or about storing its
  pipeline, after at least one token of that widget was stored; then it loses that widget's token array and nothing
  else. While memory lasts, the bytes of the file decide: it is accepted exactly if every block can be read, and a block
  is lost exactly if the first widget that cannot be read has malformed tuples behind a token (`Parse`,
  `ParseAndClear`). `LosingFileLoses` gives such a file. Every file written with the layout of the format is accepted and
  gives back, by field, what was written (`ParseWritten`).
- The JSON parser accepts exactly the texts of the grammar, with vertical tab and form feed as white space too, and of
  fields with one key keeps the first (`JsonGrammar.ParsesExactly`). It does not join surrogate pairs: two escapes that
  stand for one character beyond 65535 become six octets instead of four (`SurrogatesStayApart`).
- An audio transfer fails only if the stream leaves it no choice: a position that cannot be polled, a move that reports an
  error, more than was offered or a broken frame, or a 5001st wait in a row (`WriteStream`, `ReadStream`).

## Assumptions

- A frame that passes both checksums was written by the peer's encoder and is at most 1024 bytes long. What the
  checksums guarantee by themselves is `BurstDetected` and the two lemmas on damaged frames.
- The device's `read` returns at most as many bytes as it was asked for.
- A link sequence is not used again while its packet may be on the wire (fewer than 2^32 packets in a run).
- Widgets whose source and sink lists are compared have names of their own, and not empty ones.
- Opens and closes of one channel do not overlap; a driver has threads for all channels or for none. That its driver has
  mutexes if it has threads is assumed only where it is stated (`ExactlyOnce`, `DeinitHandlesAll`).
- `size_t` has 64 bits.
- A topology file is shorter than 4 GiB, so that the 32-bit sum of a header's sizes does not wrap.
- Memory is exhausted, a firmware call fails or a write fails whenever it likes; the models take every such outcome.

## Model

| member | source | states |
|---|---|---|
| KconfigExpr.ShortCircuitIsExact | scripts/kconfig/kconfiglib.py:5486-5530 | expr_value, which skips operands, equals min, max and 2-x over all operands under every valuation |
| KconfigExpr.ReadsDetermine | scripts/kconfig/kconfiglib.py:5486-5530 | the value depends only on the symbols the short-circuit evaluation reads |
| KconfigModel.ReadsFeed | scripts/kconfig/kconfiglib.py:4061-4138 | every symbol that tri_value reads, other than for a warning, is one its definition mentions, or the modules symbol |
| KconfigModel.TriDetermined | scripts/kconfig/kconfiglib.py:4061-4138 | tri_value and visibility depend only on the values read and the symbol's own user value |
| KconfigSettle.SettlesIfAsked | scripts/kconfig/kconfiglib.py:4061-4138 | a symbol returns exactly if everything it asks for does, and its value is then the one its definition gives |
| KconfigSettle.ReturnsIfSettled | scripts/kconfig/kconfiglib.py:4061-4138 | from a symbol that settles calls nest no deeper than there are symbols; from one that does not, to any depth, whatever values the others have |
| KconfigSettle.AlikeSettles | scripts/kconfig/kconfiglib.py:4061-4138 | what returns under one set of rules returns, with the same value, under another that asks and computes the same wherever the first returns |
| KconfigSettle.SolutionExists | scripts/kconfig/kconfiglib.py:4061-4138 | if all symbols return, their values satisfy all definitions at once |
| KconfigSettle.SolutionUnique | scripts/kconfig/kconfiglib.py:4061-4138 | any values that satisfy all definitions are the computed ones wherever the computation returns |
| KconfigSettle.RankSettles | scripts/kconfig/kconfiglib.py:4061-4138 | symbols with an evaluation order return for all user values |
| KconfigGraph.FinishedHasNoCycle | scripts/kconfig/kconfiglib.py:6053-6125 | a graph whose nodes finish after their successors has no cycle |
| KconfigGraph.RankFromFinish | scripts/kconfig/kconfiglib.py:998-1000 | a finished search over the graph gives an evaluation order, if modules comes first |
| KconfigGraph.RankGivesOrder | scripts/kconfig/kconfiglib.py:998-1000 | an evaluation order exists only if the graph has no cycle and modules is independent |
| KconfigGraph.AllSettleIfModulesDo | scripts/kconfig/kconfiglib.py:998-1000 | after a passed search all symbols return exactly if the modules symbol does |
| KconfigGraph.IndependentSettles | scripts/kconfig/kconfiglib.py:998-1000 | which it does, whatever the user values, if it depends on no tristate symbol |
| KconfigGraph.LoopSearchMissesModules | scripts/kconfig/kconfiglib.py:5775-5801 | a parsed configuration without cycle in the graph whose two symbols ask for each other under all values, so that neither returns |
| KconfigGraph.DependentModulesMaySettle | scripts/kconfig/kconfiglib.py:4061-4138 | one whose modules symbol depends on a tristate symbol and all of whose symbols return |
| KconfigCache.AssignmentKeepsCoherence | scripts/kconfig/kconfiglib.py:4475-4526 | after an assignment, what the pruned invalidation leaves cached is right for the new user values, on every graph |
| KconfigCache.PromptlessAssignment | scripts/kconfig/kconfiglib.py:4506-4526 | an assignment to a symbol without prompt changes no value, so nothing need be invalidated |
| Kconfig.Kconfig.BuildDep | scripts/kconfig/kconfiglib.py:3106-3165 | the graph has exactly the edges from each mentioned symbol to the symbols that mention it |
| Kconfig.Kconfig.CheckDepLoopSym | scripts/kconfig/kconfiglib.py:6053-6125 | three-colour search: returns normally, with a partial loop through the stack, or raises a real simple cycle |
| Kconfig.Kconfig.FoundDepLoop | scripts/kconfig/kconfiglib.py:6160-6206 | a partial loop is passed up until it closes; then the tuple raised is a cycle |
| Kconfig.Kconfig.CheckDepLoops | scripts/kconfig/kconfiglib.py:998-1000 | the pass finishes normally exactly if the graph has no cycle, and never with a partial loop |
| Kconfig.Kconfig.Finalize | scripts/kconfig/kconfiglib.py:990-1000 | after a passed search every read returns exactly if reading modules does, and always if modules depends on no tristate symbol; a raised loop is a cycle |
| Kconfig.Kconfig.ExprValue | scripts/kconfig/kconfiglib.py:5486-5530 | evaluation through the caches gives the clean value and keeps the caches coherent |
| Kconfig.Kconfig.Visibility | scripts/kconfig/kconfiglib.py:4151-4158 | a visibility read through the cache is the clean visibility |
| Kconfig.Kconfig.TriValue | scripts/kconfig/kconfiglib.py:4061-4138 | a tri_value read through the cache, of a symbol for which it returns, is the clean value |
| Kconfig.Kconfig.ReadAssignable | scripts/kconfig/kconfiglib.py:4140-4148 | `assignable` read through its cache is what it is without caches |
| Kconfig.Kconfig.RecInvalidate | scripts/kconfig/kconfiglib.py:4475-4505 | terminates on every graph, empties what the symbol feeds, and stops only where nothing fed is cached |
| Kconfig.Kconfig.SetValue | scripts/kconfig/kconfiglib.py:4186-4269 | assigns or ignores the value, and the caches are coherent with the new user values, whether or not reads return under them |
| Kconfig.Kconfig.UnsetValue | scripts/kconfig/kconfiglib.py:4271-4285 | removes the user value, and the caches are coherent |
| Kconfig.Kconfig.Run | scripts/kconfig/kconfiglib.py:4061-4285 | every sequence of assignments and of reads of `tri_value`, `visibility` and `assignable` that return answers what a configuration without caches answers |
| Kconfig.AlwaysAnswerable | scripts/kconfig/kconfiglib.py:998-1000 | where all symbols return for all user values, so does every read of every such sequence |
| KconfigLaws.ConnectiveLaws | scripts/kconfig/kconfiglib.py:5486-5530 | and, or and not obey the laws of the order n < m < y |
| KconfigLaws.RelationLaws | scripts/kconfig/kconfiglib.py:5486-5530 | the six relations are y or n; less is the order, and the others follow from it by exchange and negation |
| KconfigLaws.VisibilityLaw | scripts/kconfig/kconfiglib.py:5775-5802 | a symbol is visible exactly if a prompt's condition is not n, and as y exactly if one is y or m cannot be told from y |
| KconfigLaws.DefaultLaw | scripts/kconfig/kconfiglib.py:4097-4104 | the first default whose condition is not n decides, cut to that condition; without one the default is n |
| KconfigLaws.ValueIsBestOffer | scripts/kconfig/kconfiglib.py:4061-4138 | the value is the best offer: the user's cut to the visibility, or else a default and, with the direct dependencies met, an imply; and in any case a select; m becomes y without modules or under an imply of y |
| KconfigLaws.CleanValueIsBestOffer | scripts/kconfig/kconfiglib.py:4061-4138 | the values of all symbols that return satisfy this law together |
| KconfigLaws.NeverBelowSelects | scripts/kconfig/kconfiglib.py:4112-4119 | a value is never below what selects the symbol |
| KconfigLaws.BoolIsNeverM | scripts/kconfig/kconfiglib.py:4121-4125 | a bool symbol is never m, nor is any symbol without modules |
| KconfigLaws.AssignedIsRead | scripts/kconfig/kconfiglib.py:4089-4091 | while nothing selects it, a visible symbol has the value assigned, cut to its visibility, but for m that cannot stay |
| KconfigLaws.DefaultIsRead | scripts/kconfig/kconfiglib.py:4097-4104 | a symbol without user value, select and imply in force has the value of the first default that applies |
| KconfigLaws.InvisibleAssignment | scripts/kconfig/kconfiglib.py:4186-4269 | a user value of an invisible symbol changes the value of no symbol |
| KconfigLaws.SetIsRead | scripts/kconfig/kconfiglib.py:4186-4269 | an assigned value is read back from a visible, unselected symbol, cut to its visibility |
| KconfigLaws.SetThenRead | scripts/kconfig/kconfiglib.py:4186-4269 | so it is at the end of any session of assignments and reads |
| KconfigLaws.SetAndRead | scripts/kconfig/kconfiglib.py:4186-4269 | and through the caches: `set_value` followed by `tri_value` |
| KconfigLaws.AssignableAscends | scripts/kconfig/kconfiglib.py:4422-4467 | `assignable` ascends, and is empty exactly for an invisible symbol |
| KconfigLaws.AssignableIfReadBack | scripts/kconfig/kconfiglib.py:4422-4467 | for a visible symbol a user value is assignable exactly if it is the value then computed, unless an imply overrules it |
| KconfigLaws.AssignableExactly | scripts/kconfig/kconfiglib.py:4422-4467 | where symbols have an evaluation order, `assignable` before the assignment lists exactly the values read back after it, unless an imply overrules them |
| KconfigLaws.AssignableMisleads | scripts/kconfig/kconfiglib.py:4454-4467 | a configuration in which `assignable` lists m and the symbol assigned m reads y |
| KconfigPrintParse.TokenParser.ReadExpr | scripts/kconfig/kconfiglib.py:3014-3055 | the parser that advances over tokens is the recursive specification |
| KconfigPrintParse.TokenParser.ReadFactor | scripts/kconfig/kconfiglib.py:3066-3100 | likewise for factors: negation, parentheses, relations and symbols |
| KconfigPrintParse.ExprBack | scripts/kconfig/kconfiglib.py:5555-5600 | parsing the printed tokens yields the right-associated form and leaves what follows |
| KconfigPrintParse.RightFormIsNormal | scripts/kconfig/kconfiglib.py:3014-3064 | the form the parser yields has no conjunction or disjunction as a left operand of its own kind |
| KconfigPrintParse.PrintParseKeepsValue | scripts/kconfig/kconfiglib.py:5555-5600 | and its value is that of the original under every valuation |
| KconfigGrammar.ParsesExactly | scripts/kconfig/kconfiglib.py:3014-3100 | the parser accepts exactly the sentences of the documented grammar, each for what it means |
| KconfigGrammar.AndBindsTighter | scripts/kconfig/kconfiglib.py:3014-3064 | what stands in front of the first bar, with all its ands, is one operand of the disjunction |
| Crc32.AcCrc32 | audio_controller/src/ac_datalink.c:51-68 | the branching loop computes the checksum |
| Crc32.RpcCrc32 | rpc/src/rpc_framing.cpp:131-141 | the masking loop computes the same checksum on every input |
| Crc32.BurstDetected | audio_controller/src/ac_datalink.c:51-68 | two byte strings that differ only within four consecutive bytes have different checksums |
| Crc32.Generator | audio_controller/src/ac_datalink.c:51-68 | the polynomial is the generator of section 3.2.9 of IEEE 802.3 |
| Crc32.EmptyChecksum | audio_controller/src/ac_datalink.c:51-68 | the checksum of no bytes is 0 |
| Crc32.CheckValue | audio_controller/src/ac_datalink.c:51-68 | the register after the text "12" is that of its published checksum |
| DatalinkFrame.DecodeEncode | audio_controller/src/ac_datalink.c:90-196 | decoding an encoded frame gives all its fields and its payload back |
| DatalinkFrame.WireLayout | audio_controller/src/ac_datalink.c:90-130 | every field of a decoded frame stands at its place in the bytes, in little-endian order, and both checksums fit |
| DatalinkFrame.DecodeAnyVersion | audio_controller/src/ac_datalink.c:90-130 | a frame encoded under any version byte is decoded to itself |
| DatalinkFrame.DecodeAcceptsEncodings | audio_controller/src/ac_datalink.c:90-130 | exactly the encodings under any version byte are accepted, and an accepted one is the encoder's exactly if its version byte is current |
| DatalinkFrame.DamagedPayloadRejected | audio_controller/src/ac_datalink.c:114-118 | damage within four bytes of the payload is rejected |
| DatalinkFrame.DamagedFieldsRejected | audio_controller/src/ac_datalink.c:107-112 | damage within four bytes of the header fields is rejected |
| DatalinkFrame.EncodeInto | audio_controller/src/ac_datalink.c:151-196 | writes exactly the encoding into a buffer, and refuses one that is too small |
| DatalinkStream.StreamReader.Resynchronise | audio_controller/src/ac_datalink.c:242-247 | what is shifted out and what stays are what was buffered, and of what is shifted out only the last three bytes might have begun a frame |
| DatalinkStream.StreamReader.ReadFrame | audio_controller/src/ac_datalink.c:224-285 | on every input no byte appears or vanishes, and no position that begins a frame, or may begin one, is dropped unless a read ended within three bytes behind it; on a stream of frames the next frame is returned, nothing dropped and no read refused |
| DatalinkStream.StreamReader.ReadAll | audio_controller/src/ac_datalink.c:224-285 | successive calls return the frames of the stream, all of them and in order |
| DatalinkStream.FirstReadDecides | audio_controller/src/ac_datalink.c:242-247 | a new reader is safe for all later cuts exactly if the first read that delivers anything, after any number that deliver nothing, delivers at least four bytes |
| DatalinkStream.FruitlessHasNoFrame | audio_controller/src/ac_datalink.c:242-261 | from a position that is passed over no number of bytes is a frame |
| DatalinkResync.FindsFrame | audio_controller/src/ac_datalink.c:242-261 | behind other bytes the next complete frame is returned, exactly if no position before it passes for a frame or the start of one |
| DatalinkResync.DamagedPayloadIsFruitless | audio_controller/src/ac_datalink.c:255-261 | a frame whose payload is damaged within four bytes is passed over, whatever follows |
| DatalinkResync.DamagedFieldsCases | audio_controller/src/ac_datalink.c:242-261 | one whose header fields are damaged is passed over exactly if its magic word is damaged, or all it announces now is there and fits |
| DatalinkResync.FrontCases | audio_controller/src/ac_datalink.c:242-261 | what stands at the front is passed over, is a frame, is waited for, or never ends |
| DatalinkResync.DamagedSizeIsStuck | audio_controller/src/ac_datalink.c:77-88 | a frame whose header-size byte is changed never ends |
| DatalinkResync.StaysStuck | audio_controller/src/ac_datalink.c:224-285 | then a call returns no frame, drops nothing and leaves the same for the next |
| DatalinkResync.ReadForEver | audio_controller/src/ac_datalink.c:224-285 | so however often the reader is called, it returns no frame again |
| DatalinkPacket.CountIsExact | audio_controller/src/ac_datalink.c:354-363 | as many fragments as needed and no more |
| DatalinkPacket.PacketTiled | audio_controller/src/ac_datalink.c:366-383 | the fragments side by side are the packet, without gap or overlap |
| DatalinkPacket.StoreNext | audio_controller/src/ac_datalink.c:470-473 | storing the next fragment extends the part of the buffer that equals the packet |
| DatalinkArq.Integrity | audio_controller/src/ac_datalink.c:365-383 | in every run, each delivered packet is byte for byte one that the peer submitted under that link sequence |
| DatalinkArq.Agreement | audio_controller/src/ac_datalink.c:366-411 | if a send returned 0, one receive call of the peer stored exactly all its fragments, in order |
| DatalinkArq.AckIsEarned | audio_controller/src/ac_datalink.c:198-222 | an ACK is on the wire only after one receive call stored that fragment and all before it |
| DatalinkArq.NothingExcluded | audio_controller/src/ac_datalink.c:435-476 | in a reachable world the guards of the steps leave out nothing but the reuse of a link sequence |
| DatalinkArq.RunSound | audio_controller/src/ac_datalink.c:324-481 | every step of either station keeps the protocol's invariant |
| DatalinkOnce.DeliveredAsStored | audio_controller/src/ac_datalink.c:435-480 | in every run a packet is delivered at most as often as receive calls stored all its fragments, hence as its first fragment was read; exactly so often if every ACK was written |
| DatalinkOnce.DeliveredOnce | audio_controller/src/ac_datalink.c:385-407 | in a run in which the wire repeats no data frame and no first fragment was written twice, the sequences delivered are distinct |
| DatalinkOnce.RepeatingWireDeliversTwice | audio_controller/src/ac_datalink.c:435-480 | a run that delivers a packet twice though its only fragment was written once |
| DatalinkOnce.RetryDeliversTwice | audio_controller/src/ac_datalink.c:385-407 | a run that delivers a packet twice though the wire repeated nothing |
| DatalinkLink.Link.SendFragment | audio_controller/src/ac_datalink.c:385-407 | at most four copies of one fragment are written, and success means its acknowledgement was read |
| DatalinkLink.Link.SendPacket | audio_controller/src/ac_datalink.c:324-412 | the send loops are the station's run, and return 0 exactly if that run acknowledged the whole packet |
| DatalinkLink.Link.ReceivePacket | audio_controller/src/ac_datalink.c:414-481 | the receive loop is the station's run, and leaves in the caller's buffer what the station delivers |
| DatalinkLink.DriveReaches | audio_controller/src/ac_datalink.c:324-481 | driving a call inside a reachable world leads to a reachable world |
| DatalinkLink.ReceiveIntegrity | audio_controller/src/ac_datalink.c:435-480 | what a receive call hands over is one packet of the peer, unmixed and complete |
| DatalinkLink.CleanReceive | audio_controller/src/ac_datalink.c:435-480 | fragments arriving in order are delivered as their packet, and nothing behind them is consumed |
| DatalinkLink.CleanSend | audio_controller/src/ac_datalink.c:365-411 | if every fragment is acknowledged at once, each is written exactly once, in order |
| DatalinkLossy.SendSucceedsExactly | audio_controller/src/ac_datalink.c:385-411 | a send returns 0 exactly if for each fragment in turn all writes up to the acknowledging attempt go out and one of at most four reads is its acknowledgement |
| DatalinkLossy.LostAckEndsCall | audio_controller/src/ac_datalink.c:456-469 | a fragment repeated because its acknowledgement was lost ends the receive call with a NAK and without a packet, unless it was the last |
| DatalinkLossy.RepeatOpensNothing | audio_controller/src/ac_datalink.c:443-451 | nor does it begin a packet in a later call, unless it is the first |
| DatalinkReceive.ReceivesExactly | audio_controller/src/ac_datalink.c:414-481 | a receive call delivers exactly if it reads, behind frames without data, a first fragment and all that belong to it, and every acknowledgement goes out; it delivers what they leave in the buffer and reads nothing behind them |
| DatalinkReceive.LaidAt | audio_controller/src/ac_datalink.c:446-473 | that is, each byte is that of the last payload laid over it, or what was there before |
| DatalinkDelivery.ReadScript | audio_controller/src/ac_datalink.c:224-285 | the reads of a stream find its frames in order, however it is cut and whenever the device times out or fails; none is in vain if every read of the device delivers |
| DatalinkDelivery.ReceiveFrom | audio_controller/src/ac_datalink.c:414-481 | from the bytes of frames the peer wrote, a receive call hands over nothing but a packet of the peer, byte for byte |
| DatalinkDelivery.DeliverFrom | audio_controller/src/ac_datalink.c:414-481 | from the bytes of a packet's fragments and of frames behind them, a receive call delivers that packet and leaves the frames behind it |
| DatalinkDelivery.DeliverBytes | audio_controller/src/ac_datalink.c:414-481 | the same for a new reader, if its first read delivers at least four bytes |
| Transport.DecodePack | audio_controller/src/ac_transport.c:61-144 | decoding an encoded message gives all its fields and its payload back |
| Transport.WireLayout | audio_controller/src/ac_transport.c:76-144 | every field of a decoded message stands at its place in the bytes |
| Transport.EndToEnd | audio_controller/src/ac_transport.c:487-507 | a response of up to 4060 bytes survives packing, fragmenting, framing, reassembly and unpacking for every MTU from 37 to 1024, and has the request's channel, command, sequence and session ids, its version (1 for 0), the flags and the payload |
| Transport.EncodeInto | audio_controller/src/ac_transport.c:103-144 | writes exactly the packet, which decodes field by field to the answer to the request, and refuses what does not fit |
| TransportRing.PushQueues | audio_controller/src/ac_transport.c:239-246 | a request put into the ring is queued behind the others |
| TransportRing.ChannelRuntime.QueueRequest | audio_controller/src/ac_transport.c:223-249 | the ring in place: refuses when full or too large, otherwise queues behind the others |
| TransportRing.ChannelRuntime.PopRequest | audio_controller/src/ac_transport.c:202-221 | takes the oldest request, if there is one |
| TransportRing.ChannelRuntime.Work | audio_controller/src/ac_transport.c:251-272 | whatever is queued meanwhile under the mutex, the worker leaves only after a stop was requested, and has then handled everything queued before and during its loop, once and in order |
| TransportChannels.StoreKeeps | audio_controller/src/ac_transport.c:239-247 | under the mutex the last step of queueing, whatever the worker did since the first, puts the request behind the others |
| TransportChannels.UnstoreKeeps | audio_controller/src/ac_transport.c:210-217 | under the mutex the last step of taking puts the oldest request into the worker's hand |
| TransportChannels.ExactlyOnce | audio_controller/src/ac_transport.c:202-296 | for a driver with mutexes, in every interleaving of single memory accesses and until a close of the channel has joined its worker, the ring is well formed and each accepted request is handled, in hand or queued exactly once, in order; without threads for ever |
| TransportClose.DeinitHandlesAll | audio_controller/src/ac_transport.c:457-475 | for a driver with mutexes, when closes come after the transport thread was joined, every channel without a running worker has handled every accepted request once, in order, also when it was opened again |
| TransportClose.CalmCloseKeepsAll | audio_controller/src/ac_transport.c:407-433 | a close of a channel with its mutex has handled everything accepted, in any interleaving, unless the channel is endangered: the dispatcher has found it for a request and the worker may leave before that is queued |
| TransportClose.CloseLosesExactly | audio_controller/src/ac_transport.c:407-433 | and if it is endangered, some interleaving of that close leaves an accepted request unhandled |
| TransportReopen.CloseMayLose | audio_controller/src/ac_transport.c:407-433 | a run in which a close loses an accepted request |
| TransportReopen.SessionFaultlessExactly | audio_controller/src/ac_transport.c:383-405 | what is accepted after opening a channel at rest is handled once and in order in every run up to the end of its next close exactly if the channel has its mutex when it is opened |
| TransportReopen.MutexExactly | audio_controller/src/ac_transport.c:424-429 | which it has exactly if the driver has mutexes and no close of it got past joining the worker |
| TransportReopen.ReopenHandlesTwice | audio_controller/src/ac_transport.c:383-405 | a run in which a channel is closed and opened again and handles a request twice |
| SofRoutes.AddUniqueId | audio_controller/src/ac_sof_loader.c:264-282 | zero and known ids are passed over, a ninth is refused |
| SofRoutes.CollectRouteIds | audio_controller/src/ac_sof_loader.c:284-340 | on success the ids of exactly the components reached were added, on failure there are too many or a chain is too deep |
| SofRoutes.Collect | audio_controller/src/ac_sof_loader.c:738-743 | the search succeeds exactly if at most eight ids are reached and no loop of virtual widgets is, and finds exactly those ids, each once |
| SofRoutes.Pigeonhole | audio_controller/src/ac_sof_loader.c:301-302 | a chain longer than the number of widgets repeats one |
| SofRoutes.SourceSinkDuality | audio_controller/src/ac_sof_loader.c:304-336 | v is a sink of u exactly if u is a source of v |
| SofRoutes.RoutesRunDown | audio_controller/src/ac_sof_loader.c:304-336 | v is a sink of u, and u a source of v, exactly if routes lead from u to v, the sink of each the source of the next, through virtual widgets |
| SofCompIds.FillCompIds | audio_controller/src/ac_sof_loader.c:644-662 | succeeds exactly if all ids stay below 65535, and numbers the typed widgets consecutively |
| SofCompIds.AllocatedIdsOk | audio_controller/src/ac_sof_loader.c:645-662 | within a pipeline the ids are non-zero and distinct |
| SofCompIds.DisjointAcrossPipelines | audio_controller/src/ac_sof_loader.c:645-650 | for pipelines of at most 256 components the ids are disjoint exactly if the pipeline ids differ in their low 24 bits or one has no component |
| SofInstall.AddComponents | audio_controller/src/ac_sof_loader.c:721-771 | one component per typed widget, in order, wired to exactly the components reached |
| SofInstall.InstallOne | audio_controller/src/ac_sof_loader.c:676-795 | a live, wired and installed pipe, or no trace of one; the component ids are freed on every path |
| SofInstall.CleanUp | audio_controller/src/ac_sof_loader.c:797-811 | removes exactly the pipes installed so far |
| SofInstall.InstallAll | audio_controller/src/ac_sof_loader.c:859-895 | one live pipe per pipeline with only the last flagged, or none; without failures from outside it succeeds exactly if every pipeline can be installed |
| SofInstall.InstalledDuality | audio_controller/src/ac_sof_loader.c:721-771 | in every pipe that InstallAll leaves, the component of v is a sink of that of u, and that of u a source of that of v, exactly if routes lead from u to v |
| TopologyHeap.Reserve | audio_controller/src/ac_topology_parser.c:141-174 | the items are kept, the capacity suffices, and exactly the old block is given up for the new one |
| TopologyBlocks.ParseVendorArrays | audio_controller/src/ac_topology_parser.c:377-460 | appends exactly the tokens of all tuple arrays, reading only within the block |
| TopologyBlocks.ParseControl | audio_controller/src/ac_topology_parser.c:479-538 | reads the control the file gives, with the bytes of the private data it keeps, which get a block of their own |
| TopologyBlocks.ParseRoutes | audio_controller/src/ac_topology_parser.c:686-726 | appends exactly the routes of the block; while memory lasts it succeeds exactly if the block is long enough for all of them |
| TopologyWriter.RoutesBack | audio_controller/src/ac_topology_uapi.h:157-161 | routes written as sink, control and source in fields of 44 bytes are read back by name |
| TopologyWriter.ArraysBack | audio_controller/src/ac_topology_parser.c:377-460 | the tokens of written vendor arrays are read back, all and in order |
| TopologyWriter.ControlsBack | audio_controller/src/ac_topology_parser.c:479-538 | written controls are read back: name, kind and the private data that is kept; and the end of each is found |
| TopologyWriter.WidgetsBack | audio_controller/src/ac_topology_uapi.h:163-180 | written widgets are read back: name, id, tokens and controls |
| TopologyFile.ItemsBack | audio_controller/src/ac_topology_parser.c:1100-1145 | the items of a written block of any kind are read back, whatever stands behind them in the block |
| TopologyFile.BlockBack | audio_controller/src/ac_topology_uapi.h:74-84 | a written block is found by its header, read back, and followed where it ends |
| TopologyFile.FileBack | audio_controller/src/ac_topology_parser.c:1046-1153 | a written file says what its blocks say, in order |
| TopologyFile.ParseWritten | audio_controller/src/ac_topology_parser.c:1046-1153 | with memory to spare the parser accepts every written file shorter than 4 GiB, and the topology holds what was written |
| TopologyData.Conservation | audio_controller/src/ac_topology_parser.c:997-1014 | pipeline widget counts sum to the widgets, and route counts to the routes with both ends found |
| TopologyParser.Topology.AddPipeline | audio_controller/src/ac_topology_parser.c:231-261 | pipeline ids stay distinct, indices stay positions, counts stay right |
| TopologyParser.Topology.BeginWidget | audio_controller/src/ac_topology_parser.c:619-639 | the widget is counted by its pipeline, or exactly its tokens are lost |
| TopologyParser.Topology.ParseWidget | audio_controller/src/ac_topology_parser.c:591-681 | adds the widget as the file gives it; a block is lost exactly if it had tokens and failed before its controls were read; while memory lasts, the bytes decide both: a readable widget is added, and exactly the tokens in front of malformed tuples are lost |
| TopologyParser.Topology.ParseWidgets | audio_controller/src/ac_topology_parser.c:572-684 | likewise for as many widgets as the block announces, the first unreadable one deciding |
| TopologyParser.Topology.ReleaseWidget | audio_controller/src/ac_topology_parser.c:128-139 | frees every block of the widget exactly once |
| TopologyParser.Topology.CountRoutes | audio_controller/src/ac_topology_parser.c:997-1014 | afterwards each pipeline counts its widgets and exactly the resolved routes into it |
| TopologyParser.Topology.Parse | audio_controller/src/ac_topology_parser.c:1046-1153 | on success the topology holds what the file says, all counts agree and every live block has exactly one owner; a block is lost exactly if a widget had tokens and failed before its controls were read; while memory lasts, a file is accepted exactly if it can be read, and loses a block exactly if its first unreadable widget has malformed tuples behind a token |
| TopologyParser.Topology.ParseControls | audio_controller/src/ac_topology_parser.c:540-570 | lists the controls of the block under its kind; while memory lasts it succeeds exactly if all of them can be read |
| TopologyParser.Topology.ParseRecords | audio_controller/src/ac_topology_parser.c:747-899 | a PCM, DAI or link block is accepted exactly if as many records as announced lie within it |
| TopologyParser.ParseAndClear | audio_controller/src/ac_topology_parser.c:619-626 | a file parsed with memory to spare and cleared: one block stays live exactly if the first widget that cannot be read has malformed tuples behind a token, otherwise none does |
| TopologyParser.LosingFileLoses | audio_controller/src/ac_topology_parser.c:377-460 | a file of 189 bytes that loses one token |
| TopologyParser.Topology.Clear | audio_controller/src/ac_topology_parser.c:1022-1044 | frees every block the topology owns exactly once, and nothing else |
| Json.StringBack | rpc/src/json_value.cpp:47-78 | a printed string of arbitrary bytes is read back |
| Json.NumberBack | rpc/src/json_value.cpp:142-162 | a number of the grammar of RFC 8259, section 6, is read back as it stands |
| Json.NumberIs | rpc/src/json_value.cpp:142-162 | the parser accepts nothing else as a number |
| JsonTree.EmplaceSorted | rpc/src/json_value.cpp:134 | an object stays ordered by its keys, and a repeated key keeps its first value |
| JsonTree.ValueBack | rpc/src/json_value.cpp:373-407 | parsing a printed value gives it back and leaves what follows untouched |
| JsonTree.RoundTripExactly | rpc/src/json_value.cpp:373-411 | printing and parsing give a value back exactly if its numbers follow the grammar and its keys are ordered |
| JsonGrammar.Utf8Exactly | rpc/src/json_value.cpp:94-108 | the octets of an escaped character are those of section 3 of RFC 3629, and no others |
| JsonGrammar.UnicodeExactly | rpc/src/json_value.cpp:80-92 | four hexadecimal digits of either case give exactly the octets of the character they number |
| JsonGrammar.SurrogatesStayApart | rpc/src/json_value.cpp:80-108 | the two halves of a surrogate pair become six octets, although the character has four |
| JsonGrammar.ParsesExactly | rpc/src/json_value.cpp:19-138 | a text is parsed to a value exactly if it is a text of the value, with any white space and any escapes |
| JsonParser.Parser.ParseAny | rpc/src/json_value.cpp:25-38 | the parser that moves its position over the text is the specification |
| JsonParser.Parser.ParseText | rpc/src/json_value.cpp:47-78 | likewise for strings with all escapes |
| JsonParser.Parser.ParseFieldList | rpc/src/json_value.cpp:123-140 | likewise for objects |
| JsonParser.Parse | rpc/src/json_value.cpp:409-411 | the parser returns a value exactly on its texts, hence what was printed on the print of a well-formed value |
| RpcBinary.DecodeEncodeBinary | rpc/src/rpc_framing.cpp:143-182 | decoding an encoded binary frame gives all its fields and its payload back |
| RpcBinary.WireLayout | rpc/src/rpc_framing.cpp:52-91 | every field of a decoded frame stands at its place in the bytes, and both checksums fit |
| RpcExact.DecodesExactly | rpc/src/rpc_framing.cpp:143-184 | exactly the encoding of a frame is decoded to it |
| RpcExact.DamageRefused | rpc/src/rpc_framing.cpp:178-182 | a frame whose payload is damaged within four bytes is refused |
| RpcExact.HeaderDamageRefused | rpc/src/rpc_framing.cpp:173-176 | so is one whose header is damaged within four bytes in front of its checksum |
| RpcFraming.ContentBack | rpc/src/rpc_framing.cpp:94-124 | a Content-Length frame is read back for every text up to 16 MiB, and nothing behind it is consumed |
| RpcFraming.MessageBack | rpc/src/rpc_pipe_server.cpp:77-104 | the four-byte test sends each message to its reader, which reads it back and stops at its end |
| RpcFraming.MixedStream | rpc/src/rpc_pipe_server.cpp:77-104 | any mixture of JSON messages and binary frames is read back as it was written |
| RpcExact.BinaryExactly | rpc/src/rpc_framing.cpp:188-204 | the binary reader takes exactly the encodings of frames within its limit |
| RpcExact.LengthExactly | rpc/src/rpc_framing.cpp:16-26 | the length is the value of the digits behind the first key and white space |
| RpcExact.ContentExactly | rpc/src/rpc_framing.cpp:104-124 | content is taken exactly if it stands, with the length announced, behind a header that ends with its first blank line within 4096 bytes |
| RpcExact.MessageExactly | rpc/src/rpc_pipe_server.cpp:77-104 | the loop takes exactly binary frames, and content whose header does not begin like one |
| RpcReader.ParseLength | rpc/src/rpc_framing.cpp:16-26 | the scanning loops find the length the specification finds |
| RpcReader.ByteReader.ReadContentWithPrefix | rpc/src/rpc_framing.cpp:104-124 | the reader that takes one byte at a time is the specification, for every prefix |
| RpcReader.ByteReader.ReadBinaryWithPrefix | rpc/src/rpc_framing.cpp:188-204 | likewise for binary frames |
| RpcReader.ByteReader.TakeMessages | rpc/src/rpc_pipe_server.cpp:76-104 | the server's loop takes exactly the messages the specification takes |
| AudioStream.Slot.WriteStream | audio_controller/src/ac_audio.c:483-548 | asks the stream only what its earlier answers call for, and fails exactly if these leave no choice: a poll fails, a move reports an error, too much or a broken frame, or a 5001st wait in a row would be due; ends within a bounded number of turns; success moves every byte once and in order, failure a prefix, and the counter matches the whole frames moved |
| AudioStream.Slot.ReadStream | audio_controller/src/ac_audio.c:550-622 | likewise for reading, and bytes of the buffer beyond what was given are unchanged |
| AudioStream.Slot.WaitProgress | audio_controller/src/ac_audio.c:309-322 | a wait is granted exactly if fewer than 5000 were granted in a row and the position can be polled |

## Left out

- Kconfig choices, int, hex and string values, symbols that are referenced but not defined, comparisons other than of tristate values, string caches, menus, macros and tokenising.
- KconfigModel.ReadsFeed: without the reads made for a warning. When a selected symbol has unsatisfied dependencies, `_warn_select_unsatisfied_deps` evaluates every select condition and reads each selecting symbol's string value and direct dependencies inside `tri_value`; those reads are left out, here and in `KconfigSettle`, as are all other warnings.
- `modules` as anything but a symbol of the configuration. Conditions are arbitrary expressions, of which the parser, which turns `m` into `m && MODULES`, leaves only some.
- Kconfig.Kconfig.Run: for reads that return; what Python leaves behind when one recurses until it raises is not modelled.
- DatalinkResync.FindsFrame: for a frame behind whose start no read ended within three bytes; the reader may drop those, as `FirstReadDecides` says.
- Corrupt frames that both checksums accept, the wrap-around of link sequences, the `retries` and packet counters as 32-bit numbers, and time-outs in milliseconds.
- DatalinkLink.Link.ReadFrame: takes frames from a script of arbitrary outcomes; `DatalinkDelivery` fills the script from the bytes, with all reads made before the call instead of within it.
- The datalink's read loop is modelled with the buffer of `rx_stream` in place; `frame_copy` and the view that points into it are values.
- Several transports on one device, and the I/O mutex (a station performs one call at a time).
- TransportChannels.ExactlyOnce: for the time after the first close of a channel nothing is claimed but `DeinitHandlesAll`, because the property is then false; `SessionFaultlessExactly` says exactly when. Copying a request, moving `head` or `tail`, testing the count together with what follows under the mutex, and starting a thread together with its flag are one step each.
- TransportClose.CloseLosesExactly: for a close of a channel that has its mutex, hence for its first close.
- Widget types, tokens and controls beyond what the route search, the ids and the installer look at; `ac_fill_comp_config` and `ac_apply_widget_controls` are calls that may fail.
- SofRoutes.SourceSinkDuality: for components that their own names resolve to, because the search goes by name and an unnamed or shadowed widget is never found.
- TopologyParser.Topology.ParseRecords: PCM, DAI and link blocks are checked, but not stored; they go into arrays with one count each, whose memory is not modelled. Pipeline names and capabilities, the formatted listing, and error texts.
- TopologyParser.Topology.Parse: for files shorter than 4 GiB; beyond that the header's 32-bit sum may wrap.
- JSON error positions and the conversions to C++ numbers; `JsonValue(double)` prints through the C++ library.
- `ac_audio_configure`, opening and closing of slots, and the frame counters' width; a failed configuration is not claimed to leave a consistent slot.
- Sockets, pipes, HTTP, command lines, dashboards and mock data.
