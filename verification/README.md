# Proofs about the panel test box

The box is driven over one TCP connection: commands arrive in frames, a synchronisation keeps its files
in step with the server, and worker threads, message queues and timers carry the work. This project
models the parts of that firmware whose correctness depends on more than one function, and proves what
they promise. `dafny verify dfyconfig.toml` checks all of it.

## What is modelled

**Packet transport** (`Bytes`, `Crc`, `CrcDivision`, `Frame`, `CmdFifo`, `Pending`, `RecvList`, `PackSocket`,
`Reassembly`, `Transfers`, `Stall`, `Interleaved`). The encoder, the byte ring, the linked list of pending fragments and the
decoder are methods and classes over arrays and nodes. Each is tied to a function on byte sequences, and
the functions compose: whatever is sent, however TCP cuts it, comes out once, whole and in order. The CRC
is proved to be the remainder of a division of polynomials, linear, and injective in its state, which gives
the detection of short damage; the frame is fixed byte by byte. What the
code does not do is stated as exactly as what it does: a fragment between two others is freed without being
unlinked, and then, and only then, the next frame reads it;
a zero checksum field switches the check off, a connection is dead exactly if the front of its ring can be
no frame, and 65536 packet lengths are too many for the fragment count.

**JSON** (`JsonString`, `Json`, `JsonGrammar`, `JsonRoundTrip`, `JsonParser`, `JsonMinify`, `JsonPieces`,
`JsonBuffer`, `Bits`). The texts of RFC 8259 are a datatype of their own, with their blanks and their meaning:
each of them is read as what it means, and each tree is printed as one of them. The simple
printer and the parser are recursive functions, and parsing undoes printing, formatted or not. Beside them
stand the programs as they run: a parser over positions with its loops, a printer into one growing buffer,
and a minifier that works in place, each equal to its specification.

**Thread pool** (`ThreadPool`, `PoolProtocol`, `PoolShutdown`, `PoolFreed`). The critical sections are methods of a
class with the linked job list; their effect on the abstract state is the step relation of a state machine
with explicit wait sets, in which any number of workers, producers and destroyers interleave, wake up for
no reason, and wait. No wake-up is lost, no job is lost or run twice, and shutting down ends in every run;
the pool is then freed, and it is safe to do so exactly if every call has returned.

**Message queue and apartment calls** (`MsgQueue`, `QueueProtocol`, `ApartmentRpc`, `ApartmentQueue`). The
two node lists are a class; the protocol around them interleaves any number of senders and receivers between
the semaphore operations. The call protocol stands on an ideal first-in first-out queue, and callers and
server over the node queue refine it: every caller gets its own answer, and nothing comes to a halt.

**File synchronisation** (`LocalDb`, `SyncProtocol`, `SyncClient`, `SyncSets`, `SyncService`). The table and its ring of records in
memory are a class whose invariant says that the ring is always the last 999 rows of the table. The
synchronisation is a state machine over messages, refined by a client object, and compared with a plan: a
one-pass description of which files are requested and what the table holds in the end. Above it, any number
of synchronisations share the table, and the ring of ten slots in which each message has to find its set.

**Ring, dictionary, ini files, timers, clock** (`LoopList`, `RingHistory`, `Dictionary`, `IniLine`,
`IniLayout`, `IniFile`, `IniBare`, `IniErrors`, `Timer`, `Clock`). The deque with its overwriting pushes and its removal across the end of the
ring; the hashed dictionary, which stays a map through growth and deletion; writing a dictionary to an ini
file and reading it back, and what a line in any layout and any case is read as; the timer list with its 32-bit clock, and how late a callback can be; the
divider arithmetic and the packing of its parts into registers that share bits.

## Where the code differs from what one would expect

- `_destoryRecvList2` (packsocket/packsocket.c:190-214) is a filter only as long as no fragment of the
  command lies between fragments of other commands (`Pending.DestroyedIsOthers`). Such a fragment is freed and
  stays linked, and the next frame reads it; two fragmented commands on one connection bring this about
  (`Reassembly.CrashIff`, `Interleaved.SandwichReached`).
- Ring and pending list outlive a connection, so a stalled front is not cured by connecting anew
  (packsocket/packsocket.c:237-249; `Stall.DeadForAll`).
- A producer that `threadpool_destroy` has woken may take the mutex after it has been destroyed and the pool
  freed (threadpool/threadpool.c:166-181; `PoolFreed.FreedTooEarly`, `PoolFreed.UsedAfterFreeIff`).
- `MsOS_SendToQueue` gives back the node of an over-long message but not its token
  (pgos/MsOS_queue.c:223-231), so the queue shrinks by one for good (`QueueProtocol.CapacityLeft`).
- The size test for a received part is unsigned (clirecvcmd5srv.c:234-235), so a negative size in the manifest
  lets every part through to a buffer that is not there (`SyncProtocol.NegativeSizeBreaks`).
- The start of a file without a text that parses makes the client follow a null pointer, although the text is not used
  (clirecvcmd5srv.c:223-226; `SyncProtocol.BreaksIff`).
- The ring of sets holds nine: a tenth manifest drops the oldest set under way, and the answer to its request
  crashes the client (client.c:110-118; `SyncSets.AllAnswerableIff`, `SyncSets.TenManifests`). The set of an
  UPDATEFILE never gets into the ring, so the answer to its request always does (clirecvcmd5srv.c:380-412).
- A manifest of 1000 files or more is never completely fresh, because the ring keeps 999 records
  (`SyncProtocol.SecondSyncSilentIff`, `SyncProtocol.PlanIsStaleIff`).
- A callback can be late by as much as a whole scan gap, not by less: a timer with no first delay that is
  started in the very millisecond of a scan is called one gap after its deadline (`Timer.WholeGapLate`).
- `iniparser_load` forgets a syntax error as soon as a later line is stored (ini/iniparser.c:617-637;
  `IniErrors.LoadFailsIff`, `IniErrors.ErrorForgotten`).
- `iniparser_load` puts section and key together in a buffer made for one line (ini/iniparser.c:549, 627), so
  two lines that fit can overrun it (`IniErrors.LoadFailsIff`, `IniFile.LoadAfterDump`).
- A dictionary without any section is written in a form that does not read back (ini/iniparser.c:228-235;
  `IniBare.BareComesBackIff`, `IniBare.ColonAdded`), to a file that is not closed (`IniFile.DumpIni`).
- `clock_5338_setFreq` computes a sound divider exactly from 1449 to 607500: an int overflows below, and a
  part gets negative above (`Clock.NoOverflowIff`, `Clock.RegStore.SetFreq`).

## Model

| member | source | states |
|---|---|---|
| Bytes.Short2Buffer | packsocket/packsocket.c:15-21 | writes sixteen bits most significant byte first, and nothing else in the buffer |
| Bytes.Int2Buffer | packsocket/packsocket.c:5-13 | writes thirty-two bits most significant byte first, and nothing else in the buffer |
| Bytes.ShortRoundTrip | packsocket/packsocket.c:357-362 | the decoder's shifts read back the sixteen bits that were written |
| Bytes.IntRoundTrip | packsocket/packsocket.c:358-364 | the decoder's shifts read back the thirty-two bits that were written |
| CrcDivision.CrcIsRemainder | util/util.c:249-258 | for every register and text, the result is the remainder of the text, taken bit by bit from the lowest of each byte, modulo x^32+x^26+x^23+x^22+x^16+x^12+x^11+x^10+x^8+x^7+x^5+x^4+x^2+x+1 over the field of two elements, the register added in front |
| CrcDivision.CrcIsTheRemainder | util/util.c:249-258 | no other register is that remainder, so this settles the result |
| CrcDivision.Crc32Le | util/util.c:249-258 | the nested loop over bytes and bits leaves that remainder in the register |
| CrcDivision.ChecksumIsTheRemainder | packsocket/packsocket.c:52-57 | the same for the checksum on the wire, which starts from the constant 0xEDB88320 |
| Crc.Crc32Linear | util/util.c:249-258 | the CRC is linear: the xor of two states and two texts of one length gives the xor of the CRCs |
| Crc.Crc32StateInjective | util/util.c:249-258 | over any text, different states give different CRCs |
| Crc.Crc32Word | util/util.c:249-258 | up to four bytes act on the state as one xor and thirty-two (or fewer) rounds |
| Crc.RoundsInjective | util/util.c:254-255 | any number of shift-and-feedback rounds loses no information |
| Crc.BurstDetected | util/util.c:249-258 | texts that differ only inside a window of at most four bytes have different CRCs |
| Crc.ZeroChecksumExists | packsocket/packsocket.c:365-366 | there is a payload whose CRC is zero, the value by which the decoder means "not checked" |
| Frame.SendSocketCmd | packsocket/packsocket.c:28-85 | the buffer built for send() is the frame of the packet: header, payload cut to a sixteen-bit length, CRC |
| Frame.FrameLayout | packsocket/packsocket.c:59-84 | every byte of the frame: two bytes 0x47, then command, ipnum, numbers, type and length, each highest byte first, the data, and the checksum |
| Frame.DecodedFields | packsocket/packsocket.c:280-305 | which bytes at the front of a buffer are a frame, and which number the decoder makes of each byte of it |
| Frame.EncodeDecode | packsocket/packsocket.c:357-392 | every field handed to the sender comes back from the frame, and the frame passes the CRC test |
| Frame.FrameFirst | packsocket/packsocket.c:280-308 | a frame at the front of a longer buffer is recognised with exactly its length |
| Frame.PrefixNotReady | packsocket/packsocket.c:280-308 | a proper prefix of a frame is not taken for a frame |
| Frame.DamageNoticed | packsocket/packsocket.c:363-398 | damage within four consecutive payload bytes is rejected if and only if the CRC field is not zero |
| CmdFifo.Fifo.WriteCmdFifo | packsocket/packsocket.c:251-278 | a chunk is refused exactly when it does not fit, otherwise appended as a whole, across the end of the ring too |
| CmdFifo.Fifo.ReadCmdTryRead | packsocket/packsocket.c:280-308 | tells the length of a whole frame at the front, through a wrapped header, without consuming |
| CmdFifo.Fifo.ReadCmdFifo | packsocket/packsocket.c:310-325 | takes exactly the oldest bytes out, across the end of the ring too |
| RecvList.CmdList.AddRecvList | packsocket/packsocket.c:105-124 | the fragment goes to the end of the linked list |
| RecvList.CmdList.CheckRecvList2 | packsocket/packsocket.c:127-158 | true exactly when the first fragment's lastNo + 1 fragments of the command have arrived |
| RecvList.CmdList.Collect | packsocket/packsocket.c:405-422 | the payloads of the command's fragments, in arrival order |
| RecvList.CmdList.DestroyRecvList2 | packsocket/packsocket.c:180-222 | what stays on the chain: the list without its leading and its trailing run of the command; every node of the command is freed, so the chain is dangling exactly if one of them stays on it |
| Pending.CompleteIff | packsocket/packsocket.c:127-158 | a command is complete if and only if its first fragment announces no more fragments than the list has |
| Pending.DestroyedIsOthers | packsocket/packsocket.c:190-214 | the removal is the filter it is meant to be if and only if no fragment of the command lies between two of other commands |
| PackSocket.SocketCmdClass.RecvSocketCmd | packsocket/packsocket.c:327-336 | the chunk is appended or dropped as a whole |
| PackSocket.SocketCmdClass.ParseSocketCmd | packsocket/packsocket.c:338-430 | ring, pending list and returned command are those of the specification, frame by frame until a command is complete, and it crashes exactly if a freed node is read |
| PackSocket.SocketCmdClass.DrainRing | client.c:1415-1439 | the inner loop hands out every command the ring holds, in order, up to the frame that reads a freed node |
| PackSocket.SocketCmdClass.ServerStart | client.c:1403-1441 | the receive loop gives the commands of the specification for any sequence of recv() results, and crashes exactly where the specification does |
| PackSocket.DrainByParse | client.c:1415-1439 | calling parseSocketCmd until it returns nothing handles every whole frame in the ring, in order |
| PackSocket.DrainSplit | client.c:1403-1441 | draining after each chunk or once after both gives the same commands and the same state |
| Reassembly.RunKeeps | packsocket/packsocket.c:345-427 | with one multi-fragment command at a time, at most one command is pending and never completely |
| Reassembly.CrashIff | packsocket/packsocket.c:180-225 | over any frames whatever, a freed node is read if and only if some frame completed a command with a fragment between two others, and another frame followed |
| Reassembly.StepKeeps | packsocket/packsocket.c:345-427 | one frame keeps that, whether it is a fragment, a single-frame command or corrupted |
| Reassembly.StepSingle | packsocket/packsocket.c:392-426 | a single-frame command of another id passes through at once and leaves the pending list as it was |
| Reassembly.StepCorrupt | packsocket/packsocket.c:365-403 | a frame failing its CRC changes nothing and delivers nothing |
| Reassembly.DamagedFrameIgnored | packsocket/packsocket.c:363-427 | a damaged frame with a CRC field leaves the pending list alone and delivers nothing |
| Reassembly.DamageUnnoticed | packsocket/packsocket.c:365-366 | a damaged frame whose original CRC happens to be zero is delivered with the damaged bytes |
| Reassembly.DrainWire | packsocket/packsocket.c:338-430 | the bytes of any list of packets decode to exactly those packets |
| Reassembly.LeftoverBound | packsocket/packsocket.c:345-355 | after draining, less than one frame is left in the ring |
| Reassembly.ServeWire | client.c:1403-1441 | for every split into chunks of at most half the ring no chunk is refused, nothing is left, and the frames are handled as if they had come one by one |
| Stall.StalledForever | packsocket/packsocket.c:280-308 | a wrong sync word, or a length the ring cannot hold, at the front is never skipped: no command comes out whatever arrives |
| Stall.DeadIff | packsocket/packsocket.c:280-308 | between two calls of recv() the connection is dead if and only if its front is such a one or a freed node hangs on its list; otherwise commands can come out again whatever fragments are pending |
| Stall.AcceptIsServe | client.c:1388-1451 | ring and list outlive a connection: what one client after the other sends is handled as if one had sent it all |
| Stall.DeadForAll | client.c:1388-1451 | so a dead connection gives no command to any later client either |
| Stall.ServeIsDrain | client.c:1403-1441 | while the ring has room, serving chunks is draining all that has come |
| Interleaved.SandwichReached | packsocket/packsocket.c:190-214 | two fragmented commands interleaved: the second is delivered whole, but its first fragment is freed while the list still leads to it, and the next frame, whichever it is, reads it |
| Interleaved.DanglingExample | packsocket/packsocket.c:190-225 | four concrete frames on the wire that deliver "AB" and leave the list so |
| Transfers.EndToEnd | client.c:1403-1441 | any sequence of commands, fragmented or not, with single-frame commands between fragments, sent and cut anywhere, comes out as exactly those commands in order |
| Transfers.SinglesRoundTrip | client.c:1403-1441 | the same for single-frame commands only |
| Transfers.ClientRebackMipiCode | client.c:691-723 | the loop sends the specified fragments, and none for an empty code |
| Transfers.MipiReassembled | client.c:691-723 | the fragments, the empty last one included, form one well-formed transfer that carries the whole code |
| Transfers.MipiRoundTripIff | client.c:691-723 | the receiver gets the code as one command if and only if it has less than 65536 packet lengths |
| Transfers.MipiEndToEnd | client.c:691-723 | fragmented, mixed with single-frame commands, cut anywhere and served, the code comes out whole behind the singles sent before its last fragment |
| Json.StringRoundTrip | json/cJSON.c:254-309 | every string without a zero byte is printed to a literal that reads back as that string |
| Json.NumberRoundTrip | json/cJSON.c:149-177 | every 32-bit integer is printed to digits that read back as that integer |
| JsonString.Utf8RoundTrip | json/cJSON.c:231-239 | what parse_string writes for a code point decodes, by RFC 3629 section 3, to that code point |
| JsonString.LiteralMeaning | json/cJSON.c:204-250 | every well-formed literal, escapes and surrogate pairs included, is read as the UTF-8 text it means by RFC 8259 section 7, up to its closing quote; the code units are given as numbers |
| JsonString.SpellRead | json/cJSON.c:179-191 | four hexadecimal digits, each letter in either case, are read as the number below 65536 that they spell |
| JsonString.LoneDropped | json/cJSON.c:215-222 | the escape of zero, of a low surrogate, and of a high one without another escape behind it is left out |
| JsonString.HalfPairDropped | json/cJSON.c:219-224 | a high surrogate is left out together with an escape behind it that is no low one |
| JsonString.NoHexDropped | json/cJSON.c:215-217 | so are four characters that are not all hexadecimal digits |
| JsonString.LooseEscape | json/cJSON.c:206-246 | a backslash in front of any other character stands for that character |
| JsonString.OpenString | json/cJSON.c:194-250 | a literal without its closing quote goes on to the end of the text |
| JsonString.StringMeaning | json/cJSON.c:194-251 | the same for parse_string as a whole |
| JsonString.AllocationSuffices | json/cJSON.c:196-201 | a well-formed literal never yields more bytes than the first pass counted |
| JsonString.DecodePair | json/cJSON.c:218-229 | a surrogate pair becomes the code point of RFC 2781 section 2.2 |
| JsonRoundTrip.ValueRoundTrip | json/cJSON.c:378-409 | any value printed at any depth, formatted or not, and followed by more text, parses to itself and leaves that text |
| JsonRoundTrip.ItemsRoundTrip | json/cJSON.c:440-517 | the same for the elements of an array |
| JsonRoundTrip.MembersRoundTrip | json/cJSON.c:556-664 | the same for the members of an object |
| JsonRoundTrip.RoundTrip | json/cJSON.c:325-349 | parsing the formatted or the unformatted text of a tree gives the tree back and consumes all of the text |
| JsonParser.ParseValueAt | json/cJSON.c:363-375 | the parser running over positions gives the value and the rest of the specification, for every text |
| JsonParser.ParseStrAt | json/cJSON.c:204-250 | the copying loop of parse_string gives the string and the rest of the specification |
| JsonParser.ParseNumberAt | json/cJSON.c:96-117 | the number and the rest of the specification, for integers |
| JsonParser.ParseItemsAt | json/cJSON.c:421-437 | the loop over an array equals its recursive specification, failures included |
| JsonParser.ParseMembersAt | json/cJSON.c:529-553 | the loop over an object equals its recursive specification, failures included |
| JsonParser.ParseText | json/cJSON.c:325-339 | cJSON_ParseWithOpts, with and without the demand for a finished text |
| JsonMinify.MinifyFormatted | json/cJSON.c:741-756 | minifying the formatted text of any tree gives its unformatted text |
| JsonMinify.MinifyInPlace | json/cJSON.c:741-756 | the read and write pointers over one buffer leave the minified text at its front, terminated |
| Bits.Pow2GtIsPower | json/cJSON.c:119 | the shift-and-or lines give the least power of two that is not below x |
| Bits.Doubles | json/cJSON.c:119 | each of them doubles the run of leading ones |
| JsonBuffer.PrintBuffer.Ensure | json/cJSON.c:123-138 | afterwards the buffer has the room asked for and still holds what was written |
| JsonBuffer.PrintBuffer.Update | json/cJSON.c:140-146 | the offset moves to the end of the text just written |
| JsonBuffer.PrintBuffer.PrintStringPtr | json/cJSON.c:254-309 | both branches, with and without escapes, append the literal of the string |
| JsonBuffer.PrintBuffer.PrintValue | json/cJSON.c:378-409 | appends the text of the value at the offset; the room asked for always suffices |
| JsonBuffer.PrintBuffer.PrintItemList | json/cJSON.c:464-471 | the loop over an array appends the text of its elements |
| JsonBuffer.PrintBuffer.PrintMemberList | json/cJSON.c:582-608 | the loop over an object appends the text of its members |
| JsonBuffer.PrintBuffered | json/cJSON.c:351-359 | for every tree and every size of the first buffer, the buffered printer gives the text of the simple one |
| JsonBuffer.PlainRoomSuffices | json/cJSON.c:476-515 | the sizes the allocating printers compute beforehand are large enough for their texts |
| JsonGrammar.DocReads | json/cJSON.c:363-375 | every JSON text of RFC 8259, with blanks wherever its grammar allows them and numbers of 32 bits, is read as the tree it means, whatever follows it |
| JsonGrammar.TextReads | json/cJSON.c:325-337 | the same for the whole text, with and without the demand for its end |
| JsonGrammar.PrintIsDoc | json/cJSON.c:378-409 | what is printed for a tree is such a JSON text that means the tree, without a blank or laid out with line feeds and tabs |
| JsonGrammar.LooseNumbers | json/cJSON.c:96-117 | one leading zero is passed over, a second one ends the number, and a lone sign is zero |
| JsonGrammar.NoValueRefused | json/cJSON.c:363-374 | a value starts with a word, a quote, a sign or digit, or a bracket, or is refused |
| JsonGrammar.NoItemRefused | json/cJSON.c:421-437 | behind the opening bracket or a comma of an array, anything that is no value is refused, a closing bracket too |
| JsonGrammar.ItemRefused | json/cJSON.c:427-437 | an item without a comma or closing bracket behind it is refused |
| JsonGrammar.MemberRefused | json/cJSON.c:534-540 | a member without a name or without a colon is refused |
| JsonGrammar.ValueOfMemberRefused | json/cJSON.c:537-553 | so is one without a value, or without a comma or closing bracket behind it |
| JsonGrammar.MoreBehindRefused | json/cJSON.c:325-337 | anything but blanks behind the value is refused if the end is demanded, and left over if not |
| JsonPieces.PiecesMinified | json/cJSON.c:741-756 | of a text made of blanks, comments of both kinds, string literals and other characters, exactly the literals and the other characters are left, in order |
| ThreadPool.Pool.AddJob | threadpool/threadpool.c:60-98 | one pass of threadpool_add_job under the mutex: wait, refuse, or append, with the wake-up it sends |
| ThreadPool.Pool.TakeJob | threadpool/threadpool.c:100-140 | one pass of threadpool_function under the mutex: wait, exit, or take the head, with the wake-ups it sends |
| ThreadPool.Pool.DestroyWait | threadpool/threadpool.c:144-158 | the first part of threadpool_destroy: refused, waiting for the queue to drain, or closing |
| ThreadPool.Pool.Destroy | threadpool/threadpool.c:141-181 | sets queue_close once and then behaves as the loop around the drain condition |
| PoolProtocol.RunInv | threadpool/threadpool.c:60-181 | accounting of jobs, closing order and wake-ups hold after every step of every interleaving |
| PoolProtocol.WaitingIsJustified | threadpool/threadpool.c:66-165 | no lost wake-up: whoever waits, waits for a condition that does not hold or a broadcast still to come |
| PoolProtocol.QueueOrder | threadpool/threadpool.c:60-135 | jobs start in the order in which they were accepted, and the queue keeps its bound |
| PoolProtocol.OpenPoolAccepts | threadpool/threadpool.c:60-98 | on an open pool that is not full the job goes to the end of the queue and is accepted, and an empty queue wakes every waiting worker; on a full one the call waits |
| PoolProtocol.ClosedPoolRefuses | threadpool/threadpool.c:71-75 | on a closed pool the call is refused and changes nothing else |
| PoolProtocol.RefusedOnlyIfClosed | threadpool/threadpool.c:66-75 | over every interleaving, a job is refused only after threadpool_destroy has been called and has closed the queue |
| PoolProtocol.WorkerTakesFirst | threadpool/threadpool.c:100-140 | in every state that can be reached, a worker takes the first job and wakes every producer that waits; without a job it waits, or leaves if the pool is closed |
| PoolProtocol.DestroyCloses | threadpool/threadpool.c:144-158 | threadpool_destroy closes the queue of an open pool, waits while it holds jobs, and then closes the pool; a second call is refused |
| PoolProtocol.ClosedStaysClosed | threadpool/threadpool.c:71-75 | nothing is accepted once the queue is closed |
| PoolProtocol.DestroyedAfterAllJobs | threadpool/threadpool.c:141-181 | when threadpool_destroy has joined the workers, the list is empty and every accepted job has run exactly once |
| PoolProtocol.NoDeadlock | threadpool/threadpool.c:60-181 | while anything is left to do inside the pool, some thread inside it can move |
| PoolShutdown.MeasureDrops | threadpool/threadpool.c:100-181 | every step of a thread inside the pool brings a measure down |
| PoolShutdown.WorkIsBounded | threadpool/threadpool.c:60-181 | in any run from a closed pool, the steps of the threads inside are bounded by the measure plus one for each spurious wake-up and a fixed number for each new call; nothing new is accepted |
| PoolShutdown.ShutdownCompletes | threadpool/threadpool.c:141-181 | whenever such a run has come to a point at which no thread inside can move, all calls have returned, the workers are joined and every accepted job has run exactly once |
| PoolFreed.UsedAfterFreeIff | threadpool/threadpool.c:166-181 | once threadpool_destroy has freed the pool, a thread goes on to use it if and only if some call of threadpool_add_job or threadpool_destroy has not returned |
| PoolFreed.InsideAfterFree | threadpool/threadpool.c:166-181 | whoever is still inside then is about to take the mutex; nobody waits on a condition |
| PoolFreed.QuietCallers | threadpool/threadpool.c:141-181 | if no other call is open when threadpool_destroy runs, and none begins later, nobody uses the freed pool |
| PoolFreed.FreedTooEarly | threadpool/threadpool.c:66-181 | a concrete run in which a producer that waited for room is woken and takes the mutex after the pool has been freed |
| MsgQueue.Queue.constructor | pgos/MsOS_queue.c:141-170 | all nodes start on the free list |
| MsgQueue.Queue.AddToListTail | pgos/MsOS_queue.c:42-81 | the node becomes the last of the chosen list; the list stays closed backwards from head to tail |
| MsgQueue.Queue.RemoveFromListHead | pgos/MsOS_queue.c:83-104 | the first node leaves the chosen list, or none if it is empty |
| QueueProtocol.RunInv | pgos/MsOS_queue.c:173-300 | partition of the nodes, token accounting and message order hold after every step of every interleaving |
| QueueProtocol.PartitionStep | pgos/MsOS_queue.c:173-277 | free list, used list and nodes in flight always partition the pool |
| QueueProtocol.TokensStep | pgos/MsOS_queue.c:173-300 | each list is as long as its semaphore plus the calls that are past it and not done |
| QueueProtocol.NotEmpty | pgos/MsOS_queue.c:181-258 | a call past its semaphore never finds its list empty |
| QueueProtocol.Delivery | pgos/MsOS_queue.c:209-300 | messages are received in the order of their enqueuing, each by one call, cut to the size it asked for |
| QueueProtocol.SentMessages | pgos/MsOS_queue.c:209-240 | call t of MsOS_SendToQueue is about the t-th message handed in and succeeds exactly if that message fits; the messages put on the queue are those of the calls that succeed, each once |
| QueueProtocol.EnabledIff | pgos/MsOS_queue.c:173-277 | a call goes on unless it has returned or waits for a semaphore without a token |
| QueueProtocol.TokensAtRest | pgos/MsOS_queue.c:173-300 | at rest the free list is as long as its semaphore plus the number of over-long messages, so the two agree if and only if every message that was not given up for lack of time fits |
| QueueProtocol.NothingLost | pgos/MsOS_queue.c:173-300 | as long as every message handed in fits maxSizeOfMsg, each list is at all times as long as its semaphore plus the calls past it, so no token is lost |
| QueueProtocol.CapacityLeft | pgos/MsOS_queue.c:217-231 | an empty queue at rest can take its number of nodes less one for every over-long message ever accepted by the semaphore |
| QueueProtocol.LeakExample | pgos/MsOS_queue.c:217-231 | one over-long message to a queue of one node: the node is free, but no token for it is left |
| ApartmentRpc.SendMessageResult | pgos/MsOS_queue.c:344-365 | over all interleavings, each blocking call returns the answer of the handler to its own message |
| ApartmentRpc.HandledInOrder | pgos/MsOS_control.c:11-25 | messages are handled in queue order, each at most once |
| ApartmentRpc.ReplyBeforeRelease | pgos/MsOS_control.c:15-24 | slot and semaphore are touched only while their caller waits, and the slot is written before the release |
| ApartmentRpc.NoCallerHangs | pgos/MsOS_control.c:11-25 | once the server is idle with an empty queue, every waiting caller can return |
| ApartmentQueue.Refines | pgos/MsOS_queue.c:173-365 | over the node queue, down to its semaphores, callers and server follow the call protocol, and the handler gets the message of the call it answers |
| ApartmentQueue.EachItsOwnAnswer | pgos/MsOS_queue.c:344-365 | so over that queue too each blocking call returns the answer to its own message |
| ApartmentQueue.NoDeadlock | pgos/MsOS_queue.c:173-365 | while a call has not returned somebody can move, however few nodes the queue has |
| LocalDb.Database.constructor | pgDB/pgLocalDB.c:33-114 | after loading, the ring holds the last 999 rows of the table in order |
| LocalDb.Database.Add | pgDB/pgLocalDB.c:116-168 | the row is inserted or updated; the ring stays in step if and only if it had no record of that name, or this very one |
| LocalDb.Database.Record | clipg.c:138-148 | the bookkeeping of a stored file keeps the ring equal to the last 999 rows |
| LocalDb.Database.Update | pgDB/pgLocalDB.c:170-186 | on its own, updating the table leaves it in step with the ring if and only if the ring has no record of that name, or this very one |
| LocalDb.Database.GetRec | pgDB/pgLocalDB.c:234-245 | the record in the ring, if there is one |
| LocalDb.Database.DelAll | pgDB/pgLocalDB.c:213-232 | empties table and ring alike |
| LocalDb.RecordedLookup | pgDB/pgLocalDB.c:116-168 | a recorded file is found with what was recorded, all others as before |
| SyncClient.Client.FindFileFromLocalDb | client.c:227-252 | true exactly when the ring has the file with this time and this size |
| SyncClient.Client.GetFileFromSet | client.c:254-277 | passes the fresh files and requests the first stale one, or finishes |
| SyncClient.Client.OnSendFile | clirecvcmd5srv.c:211-267 | for a set that has been found, begin, body and end of a file have the specified effect on buffer, disk, database and index; the client crashes exactly where the specification breaks |
| SyncClient.Client.SyncFile | clipg.c:92-180 | stores and records the received file and goes on to the next stale one |
| SyncProtocol.AnyRun | clirecvcmd5srv.c:211-267 | whatever is sent for one set, in whatever order, unless it breaks the client: the requests are a prefix of the plan, and at the end requests and table are the plan's |
| SyncProtocol.StepAdvances | clipg.c:158-160 | the index advances exactly at the end of a file that was received in full, and never goes back |
| SyncProtocol.BreaksIff | clirecvcmd5srv.c:214-248 | a set that is found breaks the client exactly on a message after its end, on a start without a text that cJSON_Parse takes, on content for an empty file, on a part before the buffer is there, and on any part of a file of negative size |
| SyncProtocol.PartsCollect | clirecvcmd5srv.c:217-246 | a start empties the buffer, and a part is added to it exactly if the announced size is not passed |
| SyncProtocol.NegativeSizeBreaks | clirecvcmd5srv.c:228-238 | a manifest entry of size -1: the unsigned size test lets its first part through to a null buffer |
| SyncProtocol.PlanAsksOnce | client.c:254-277 | no file is requested twice, and none outside the manifest |
| SyncProtocol.PlanRecords | clipg.c:138-148 | in the end the table holds time and size of every manifest entry, and other rows are untouched |
| SyncProtocol.PlanIsStaleIff | client.c:227-277 | exactly the missing or different files are requested if and only if no unchanged one is pushed out of the ring by the new files in front of it |
| SyncProtocol.PlanIsStale | client.c:227-277 | in particular as long as all records fit the ring |
| SyncProtocol.FileArrives | clirecvcmd5srv.c:211-267 | parts of any number and length are stored as their concatenation |
| SyncProtocol.ServeCompletes | clipg.c:92-180 | a server that answers every request brings the synchronisation to its end |
| SyncProtocol.SyncCompletes | clipg.c:92-180 | the whole exchange: each stale file requested and stored as sent, and table and ring holding the manifest |
| SyncProtocol.SecondSyncSilentIff | clirecvcmd5srv.c:415-478 | after a complete synchronisation, repeating the manifest requests nothing if and only if it has at most 999 files |
| SyncSets.HandleCrashes | clirecvcmd5srv.c:211-248 | with any number of sets under way, the client crashes exactly on a SENDFILE for a set that the ring does not hold, or one that this set does not survive |
| SyncSets.LostWhen | client.c:110-118 | the ring loses a set under way exactly as the oldest of nine when a manifest arrives, or because an UPDATEFILE never puts its set in |
| SyncSets.LostStays | client.c:141-145 | a lost set is never found again |
| SyncSets.AllAnswerableIff | clirecvcmd5srv.c:133-478 | from any table, over all events: every open request can still be answered if and only if no manifest arrived while nine sets were under way, and no UPDATEFILE came |
| SyncSets.LostIsFatal | clirecvcmd5srv.c:214-215 | any message for a lost set, whatever has come in between, crashes the client |
| SyncSets.AnswerTakenIff | clirecvcmd5srv.c:211-267 | an answer of the announced size to an open request is stored, recorded and followed up, in this set alone, if and only if the ring still has the set |
| SyncSets.SendAll | clirecvcmd5srv.c:211-267 | a stretch of messages for one set acts on it and on the shared table as the one-set protocol says, and ends in a crash exactly where that breaks |
| SyncSets.OneByItself | clirecvcmd5srv.c:133-267 | a manifest followed by messages for its own set alone is a run of the one-set protocol, crashes included |
| SyncSets.EachOrderly | clirecvcmd5srv.c:211-267 | whatever arrives in whatever order, each set requests no file twice and only files it has come to, and has stored exactly the answered ones with their announced sizes |
| SyncSets.TenManifests | client.c:110-118 | of n manifests of an unknown file, the ring keeps the last nine; the first is lost exactly from the tenth on |
| SyncService.Service.OnSyncFile | clirecvcmd5srv.c:133-209 | a new set goes to the tail of the ring, evicting the oldest of nine, before its first stale file is requested; it leaves the ring if there is none |
| SyncService.Service.OnCompleteSync | clirecvcmd5srv.c:415-478 | the same with the database emptied first |
| SyncService.Service.OnUpdateFile | clirecvcmd5srv.c:380-412 | a set for the file is requested that the ring does not get |
| SyncService.Service.OnSendFile | clirecvcmd5srv.c:211-267 | the message goes to the set that its address names in the ring, beside the shared database; the client crashes exactly where the specification of all sets does |
| LoopList.Loop.PushToTail | loop/loop.c:38-51 | appends; a full ring gives up exactly its oldest item, to del_func if there is one |
| LoopList.Loop.PushToHead | loop/loop.c:54-69 | prepends; a full ring gives up exactly its newest item |
| LoopList.Loop.PopFromHead | loop/loop.c:71-82 | takes the first item, or nothing |
| LoopList.Loop.PopFromTail | loop/loop.c:84-95 | takes the last item, or nothing |
| LoopList.Loop.Remove | loop/loop.c:106-131 | removes exactly the first occurrence and keeps the order, across the end of the ring too |
| LoopList.Loop.Search | loop/loop.c:133-150 | the first item that satisfies the search, if any does |
| LoopList.Loop.Clear | loop/loop.c:163-172 | empties the ring, handing every item to del_func in order |
| LoopList.Loop.IsEmpty | loop/loop.c:174-177 | true exactly for an empty ring |
| LoopList.Loop.IsFull | loop/loop.c:180-183 | true exactly for a ring with one slot left |
| LoopList.RemoveFirstCounts | loop/loop.c:106-131 | a removal takes one occurrence of the item and nothing else |
| RingHistory.HistoryConserved | loop/loop.c:38-172 | over any operations, every pushed item is in the ring, was handed out, or went to del_func, exactly once |
| RingHistory.PerformOn | loop/loop.c:38-172 | the operations on the ring itself follow that history |
| RingHistory.RemovalCutsFirst | loop/loop.c:106-131 | the removal cuts at the first position of the item |
| Dictionary.DictionaryHash | ini/dictionary.c:94-110 | the loop computes the hash of the whole key |
| Dictionary.HashExamples | ini/dictionary.c:94-110 | the hashes of "a" and "abc" in full |
| Dictionary.Dict.Get | ini/dictionary.c:181-199 | the value of the key or the default; comparing hashes first never changes the answer |
| Dictionary.Dict.Set | ini/dictionary.c:227-282 | the map with the key set, through growth of the arrays; a NULL key is refused |
| Dictionary.Dict.Unset | ini/dictionary.c:295-330 | the map without the key |
| Dictionary.Dict.Grow | ini/dictionary.c:254-267 | doubling the arrays keeps the map |
| Dictionary.MemDouble | ini/dictionary.c:44-55 | the old contents in front, and an empty half behind |
| IniLine.PairIsRead | ini/iniparser.c:468-526 | a padded key in any case, an equals sign and a value are read as the key with A to Z turned into a to z, and that value |
| IniLine.SectionIsRead | ini/iniparser.c:468-526 | a bracketed name in any case is read as the section with A to Z turned into a to z |
| IniLayout.LayoutIsRead | ini/iniparser.c:468-526 | so is a pair with blanks anywhere, its value plain, in either quotes, or missing, and a comment behind it |
| IniLayout.SectionLayoutIsRead | ini/iniparser.c:468-526 | and a section with blanks inside and around its brackets |
| IniLayout.OpenQuoteIsRead | ini/iniparser.c:468-526 | a quote that is not closed opens a value up to the end of the line |
| IniLayout.EmptyBracketsAreRead | ini/iniparser.c:476-480 | empty brackets stand for the section that was read last |
| IniLayout.NothingIsRead | ini/iniparser.c:468-526 | blank lines and comments put nothing into the dictionary |
| IniLayout.NoPairIsError | ini/iniparser.c:468-526 | any other line without a key and an equals sign is an error |
| IniFile.GetNSec | ini/iniparser.c:119-134 | counts the keys without a colon |
| IniFile.GetSecName | ini/iniparser.c:150-170 | the n-th key without a colon, in slot order |
| IniFile.DumpIni | ini/iniparser.c:213-257 | writes the blocks of all sections, or the bare keys when there is none; the file is closed only if there is a section |
| IniFile.WrittenText | ini/iniparser.c:239-253 | the characters of each line: an empty one, a name in brackets, a key filled up with blanks to 30 places, "=" and the value |
| IniFile.BlockText | ini/iniparser.c:236-252 | a section is written behind an empty line and before its pairs |
| IniFile.PairsWritten | ini/iniparser.c:241-251 | the pairs of a section are exactly those of the keys that start with its name and a colon |
| IniFile.DumpText | ini/iniparser.c:255-256 | an empty line ends a file with sections |
| IniFile.BareText | ini/iniparser.c:228-235 | without sections a key is written as it is, and a missing value as "(null)" |
| IniFile.LoadIni | ini/iniparser.c:542-662 | line splitting, continuation lines and error counting as specified, into a dictionary; crashes exactly where the specification overruns the buffer tmp |
| IniFile.AllLoaded | ini/iniparser.c:573-650 | any list of written lines, in either case, is read back line by line, whatever follows, up to the first key too long for tmp with its section |
| IniFile.CaseIgnored | ini/iniparser.c:482-500 | a file is read as the same file with its keys and sections in lower case |
| IniFile.LoadAfterDump | ini/iniparser.c:213-662 | for clean names and values under declared sections, loading the written file gives the same map, whatever the slots were, if no "section:key" is longer than 4096 characters, and otherwise overruns tmp |
| IniFile.FitIff | ini/iniparser.c:625-628 | lines overrun tmp exactly if one of the keys they put into the dictionary is longer than 4096 characters |
| IniBare.BareComesBackIff | ini/iniparser.c:227-235 | a dictionary without sections comes back from its file if and only if it is empty, whatever its keys and values are |
| IniBare.ColonAdded | ini/iniparser.c:227-235 | the key ":a" comes back as "::a", once the file, which is not closed, has been flushed |
| IniErrors.LoadFailsIff | ini/iniparser.c:613-655 | a file of lines that fit overruns tmp if and only if some key does with the section in force; any other is refused if and only if the last line that is neither blank nor a comment is an error |
| IniErrors.TwoLines | ini/iniparser.c:619-628 | a pair is stored under the section in front of it, a colon and its key |
| IniErrors.TooLongRefused | ini/iniparser.c:578-590 | a line of 4095 characters or more ends the reading |
| IniErrors.LinesJoined | ini/iniparser.c:600-610 | a backslash at the end of a line joins it to the next one |
| IniErrors.ErrorForgotten | ini/iniparser.c:613-655 | a bad line alone is refused; with a good line behind it the file is accepted |
| Timer.TimerNode.Process | pgos/MsOS_timer.c:50-95 | one visit of a timer: whether it is called, and its count afterwards, in 32-bit arithmetic |
| Timer.TimerList.ScanAll | pgos/MsOS_timer.c:47-98 | one pass visits every timer once, in list order, and makes exactly the due calls |
| Timer.TimerList.CreateTimer | pgos/MsOS_timer.c:104-147 | the new timer goes behind the others, which are unchanged |
| Timer.TimerList.DeleteTimer | pgos/MsOS_timer.c:149-168 | exactly that timer leaves the list |
| Timer.TimerList.StartTimer | pgos/MsOS_timer.c:170-187 | restarts the timer if it is in the list |
| Timer.TimerList.StopTimer | pgos/MsOS_timer.c:189-206 | stops the timer if it is in the list |
| Timer.TimerList.ResetTimer | pgos/MsOS_timer.c:208-231 | gives the timer new times if it is in the list |
| Timer.DueIff | pgos/MsOS_timer.c:56-75 | the 32-bit comparison is right for every clock reading if and only if the deadline is below 2^32 |
| Timer.NeverEarly | pgos/MsOS_timer.c:37-102 | over any scans, starts, stops and resets, times counts the callbacks since the last start and none is before its deadline |
| Timer.LatenessDoesNotAccumulate | pgos/MsOS_timer.c:37-102 | with scans at most gap apart and gap at most the period, every callback is within gap of its own deadline, strictly if there is a first delay, and none due before the last scan is missing |
| Timer.StoppedIsSilent | pgos/MsOS_timer.c:189-206 | after a stop no scan calls the timer, whatever its state was, until something starts it |
| Timer.ResetIsSilent | pgos/MsOS_timer.c:208-231 | the same after a reset without the wish to start |
| Timer.NotBeforeFirst | pgos/MsOS_timer.c:170-235 | after a start at now, with whatever clock readings, callback k comes no earlier than now + first + k * period |
| Timer.StartedOnTime | pgos/MsOS_timer.c:170-235 | and with scans at most gap apart, and gap at most the period, within gap of that, none missing |
| Timer.OneShot | pgos/MsOS_timer.c:54-68 | a timer without a period is called once, by the first scan not before its delay |
| Timer.WholeGapLate | pgos/MsOS_timer.c:54-68 | without a first delay, a timer whose first scan comes a whole gap after its start is called exactly that late |
| Timer.SlowScansFallBehind | pgos/MsOS_timer.c:70-87 | with a period shorter than the gap of regular scans, callback k is late by k times the difference more |
| Clock.DividerAccuracy | hw/clk/clk.c:344-349 | the four-digit divider is at or below the exact one, by less than 1/10000 |
| Clock.PartsAreExact | hw/clk/clk.c:258-273 | p1, p2 and p3 stand for the divider without loss |
| Clock.NoOverflowIff | hw/clk/clk.c:258-262 | no int overflows if and only if the frequency is at least 1449 |
| Clock.PartsFitIff | hw/clk/clk.c:258-262 | p1 is not negative, and fits its registers, if and only if the frequency is at most 607500 |
| Clock.RegStore.SetFreq | hw/clk/clk.c:342-370 | whatever registers 86 to 95 held, they then stand for the divider if and only if the frequency is at most 607500; no other register changes |
| Clock.Unpacks | hw/clk/clk.c:275-323 | register 88, shared by p1 and p2, and its neighbours unpack to p1 in eighteen bits, p2 and p3 |

## Left out

- Sockets, threads, files, SQLite and the system clock: their results are parameters or steps of the environment; the table is a sequence of rows, SQL statements are functions on it, and their text and its quoting are not modelled.
- Allocation failures; and addresses are never used again. Of the freeing of memory, what matters to the pending list and to the pool is modelled: reading a freed node ends the model (`Crashed`).
- The field `curNo` of a frame is decoded but, as in the code, not used: payloads are joined in arrival order.
- Transfers.EndToEnd: two commands in several fragments each are not interleaved, because a freed node may be read then; `Reassembly.CrashIff` has the exact condition.
- Json.NumberRoundTrip: 32-bit integers only.
- JsonParser.ParseNumberAt: a fraction, an exponent or a number beyond 32 bits makes the model fail, where the code goes on in floating point.
- JsonParser.ParseValueAt: the same for a number anywhere in the value.
- JsonParser.ParseText: the same for a number anywhere in the text.
- JsonString.AllocationSuffices: for well-formed literals; a malformed escape at the end of a text can make the code run past its terminator, where the model stops.
- JsonParser.ParseStrAt: the bytes are collected in a sequence; that the counted buffer holds them is `JsonString.AllocationSuffices`.
- JsonMinify.MinifyInPlace: not for a text with an unterminated string or comment, on which the code reads past the terminator.
- JsonBuffer.PrintBuffered: for texts below 2^30 bytes, so that no size overflows an int.
- JsonBuffer.PlainRoomSuffices: the allocating printers are the function `Json.Print` and the sizes they compute; their copying into the allocated arrays is not repeated.
- JSON trees are values with their child chains: no `prev` pointers, no reference nodes, no case-insensitive lookup.
- Job callbacks return. After the pool has been freed its state is kept, so that `PoolFreed.UsedAfterFreeIff` can say who would still use it.
- ApartmentRpc.SendMessageResult: over an ideal queue; `ApartmentQueue.EachItsOwnAnswer` is the same over the node queue.
- ApartmentQueue.Refines: messages have the size the queue was made for, and neither side gives up waiting, as in the code.
- QueueProtocol.RunInv: each section under the lock semaphore is one step; `MsOS_PeekFromQueue`, which reads without the lock, and `MsOS_DeleteQueue` are left out, and so are the argument tests of `MsOS_CreateQueue`.
- SyncProtocol.AnyRun: one synchronisation that the ring holds, with the database to itself; with others `SyncSets.EachOrderly` and `SyncSets.AllAnswerableIff` hold. Names are distinct and short enough for their buffers; malloc of a negative size is taken to fail; the progress file, the status messages and the pattern conversion of images are left out.
- SyncService.Service.OnSyncFile: the manifest is given as parsed; one that does not parse crashes the client.
- SyncService.Service.OnSendFile: of the content of a start message, only whether cJSON_Parse takes it; for a set of an UPDATEFILE, no message ever gets further than the search in the ring.
- SyncProtocol.PlanIsStale: a sufficient condition; `SyncProtocol.PlanIsStaleIff` has the exact one.
- `localDBDelete` deletes nothing and is left out; `loop_get_from_head` works only for a ring that does not wrap and is left out, and so are rings of fewer than two slots.
- Dictionary.DictionaryHash: characters are unsigned, as on the target; the contents do not depend on the hash.
- IniFile.LoadIni: the file is a text without zero bytes; on a blank line the code looks at the byte in front of its buffer, which is taken not to be a backslash.
- IniFile.DumpIni: written to a text; a section name is taken to fit its buffer of 4096 characters with the colon behind it, and what is left in the stdio buffer of a file that is not closed is taken to be flushed before it is read.
- Timer.NeverEarly: as long as the deadlines stay below 2^32; `Timer.DueIff` says what happens at the limit. The start time of a timer created stopped, which the code leaves undefined, is zero.
- Clock.RegStore.SetFreq: not below 1449, where an int overflows.
- Clock.DividerAccuracy: the quotient is an exact fraction, without the rounding of a double.
- The register table is an array by register address; writing it to the device is left out.
- XML parsing, event groups, bitmaps, the device control and everything else the box does besides: left out, because nothing there spans more than one function or the code is not shown.
