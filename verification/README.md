# A verified model of the AESD character device and its socket server

The character driver keeps the last ten newline-terminated writes in a circular
buffer and shows them to readers as one flat byte string; the socket server lets
many clients append lines to it, read everything back, or seek. This project
models both in Dafny and proves, for every ring of 1 to 255 slots (the program
uses 10), that the indexed, wrapping, allocating structure behaves like simple
things: a list of lines, a flat string, a sequential server.

## How it is built

| file | content |
|---|---|
| ByteStrings | byte strings, their concatenation, the byte at a flat index |
| RingModel | the ring as a value, one `add_entry`, and the window (a plain list) it refines |
| RingRuns | runs of adds under any pattern of allocation failures, and when readers lose sight of what is stored |
| DeviceModel | write, read, llseek, ioctl as functions of the device value |
| DeviceRuns | runs of writes under any failures: messages, conservation, what is kept |
| Chunking | when it matters how a stream is cut into writes |
| DeviceReads | reads, draining, the three seeks |
| SeekCommand | the seek of the ioctl, and when it is the promised one |
| UnmovedReaders | a position that stays while others write |
| Memory | machine integers, and the allocator: live blocks, any unused address, bounded capacity |
| CircularBuffer, TemporaryBuffer, CharDevice | the program's own form: classes over arrays, pointers, 8-bit offsets and `size_t`, each method proved equal to a step of the value model |
| CommandParser, ParsedValues | `strtoul`, `strstr` and the seek command; what its numbers are for any spaces, signs and digits |
| ClientFraming | how one client's received chunks become flushes |
| FramingRuns | the flushes of a whole run as groups of chunks, and when they are the messages |
| Exchange | what one transaction does to the device and sends back, as a function; the seek end to end |
| Transaction | the same on the driver classes; the device's life from loading to unloading |
| Server | any number of clients interleaved over one device; a transaction in one piece is an exchange |
| ServerEvents | the effect of each event, and the whole service of one line |
| Literals | the constants, against the characters and numbers of the source |
| Shutdown | the token pipe, the mutex and the joins at the end of the process |

The classes use `newtype`s of the machine's ranges, so that their verification
is also the proof that no 8-bit offset and no `size_t` sum or difference in the
ring, its lookups, the pending buffer or a read leaves its range: the allocator
never hands out 2^63 bytes, and the byte count never exceeds what is allocated.
`CharDevice.CharDevice.Valid` is the ownership statement: between calls the live
blocks are exactly the non-NULL slot pointers and the pending pointer, all
distinct. Since `Heap.Free` demands a live block, no call frees one twice.

A step fails for one of two reasons: the environment is unwilling (the `Whim` of
a call), or there is no memory for it at that moment. `DeviceModel.FaultsOf`
computes from both which steps of a write fail, and the classes are proved to
follow it exactly. So every result about runs of writes is a result about the
classes, and with a kind environment and three times the stream in memory
nothing fails at all (`DeviceRuns.KindRun`, `Transaction.KindLifetime`).

## What the code does that its comments do not say

- A newline anywhere in a chunk commits the whole chunk, with the bytes behind the newline (`Chunking.ChunkingExactly`, `Chunking.ChunkingMatters`).
- A failed allocation in `add_entry` on a full ring has already evicted an entry and leaves `full` set. When k such failures in a row, from a ring of n entries, are followed by a successful add, the entry just stored is hidden from readers iff k is at least n and k + 1 is not a multiple of n (`RingRuns.VisibleExactly`; `RingRuns.StarvedRingHidesData` is such a run).
- The write that lost its entry this way still returns its length (`DeviceRuns.ReportedAndKept`).
- The seek command checks its bound on the physical slot but moves to the logical one. `SeekCommand.SeekMeetsExactly` and `SeekCommand.SeekAlwaysMeetsExactly` say exactly when this is the promised seek, in every state: while the ring shows entries, iff physical and logical slots agree on the sizes; when it shows nothing, iff it counts no byte. `SeekCommand.SeekMisreadsAfterWrap` shows a run without failures after which it is not, `SeekCommand.SeekMisleadsBehindGap` one with failures after which the sizes agree and the seek is wrong all the same.
- SEEK_END goes by the byte count, also when an empty slot hides counted bytes (`DeviceReads.SeekEndThenDrain`).
- SEEK_END has no check against a negative position: it leaves one when the offset goes back past the start, and when size plus offset passes 2^63 - 1 (`DeviceReads.SeekEndUnchecked`).
- The server looks for the newline only in as many bytes of the accumulated string as the last chunk had (`ClientFraming.FlushExactly`, `ClientFraming.LineHeldBack`); `FramingRuns.FramingExactly` says for which streams of chunks this is harmless.

## Model

| member | source | states |
|---|---|---|
| RingModel.AddEntryRefines | aesd-char-driver/aesd_circular_buffer.c:136-172 | one add, with its allocation granted or not, does to the wrapped slots what a list operation does: drop the first slot when flagged full, put the new string last |
| RingModel.FailedAdd | aesd-char-driver/aesd_circular_buffer.c:147-164 | a failed add leaves the ring unchanged iff it was not flagged full (or has one empty slot), and leaves a set flag set |
| RingModel.InputSlotIsFree | aesd-char-driver/aesd_circular_buffer.c:147-159 | the slot about to be filled holds no pointer, in every state reachable under any failures, so no unfreed slot is overwritten |
| RingModel.AddEntryCounts | aesd-char-driver/aesd_circular_buffer.c:151-168 | `size` stays the sum of all slot sizes, and the eviction's subtraction never underflows |
| RingModel.VisibleWindow | aesd-char-driver/aesd_circular_buffer.c:45-74 | readers meet all live strings in order iff no empty slot precedes them (or none is live), and otherwise nothing |
| RingModel.InitRepresents | aesd-char-driver/aesd_circular_buffer.c:177-186 | the zeroed buffer stands for the empty list |
| RingRuns.RunRefines | aesd-char-driver/aesd_circular_buffer.c:136-172 | every run of adds, from any state and under any failures, refines the list run and keeps `size` the sum of the slots |
| RingRuns.GrantedRing | aesd-char-driver/aesd_circular_buffer.c:129-135 | when no allocation fails, the ring read from `out_offs` is exactly the last min(n, added) strings, `size` is their length, and it is full iff n were added |
| RingRuns.LiveIsSuffix | aesd-char-driver/aesd_circular_buffer.c:147-171 | whatever fails, the live strings are a suffix of the strings stored |
| RingRuns.VisibleExactly | aesd-char-driver/aesd_circular_buffer.c:45-74 | for every run of adds: readers see all live strings at every point iff no successful add directly follows k failures that began with n live strings, with k >= n and k + 1 no multiple of n |
| RingRuns.StarvedRingHidesData | aesd-char-driver/aesd_circular_buffer.c:147-171 | a concrete run after which the ring counts bytes that no reader can reach |
| RingRuns.RunShifts | aesd-char-driver/aesd_circular_buffer.c:147-171 | a run of adds turns flat string s into s ++ stored with exactly the evicted bytes cut from the front |
| UnmovedReaders.UnmovedReader | aesd-char-driver/aesd_circular_buffer.c:147-171 | after any run of adds that leaves the entries visible, position p of the flat string denotes the byte that stood at p plus the evicted count |
| UnmovedReaders.UnmovedRead | aesd-char-driver/main.c:47-72 | between two reads at one position any writes happen, under any failures: the second reads what a read further on by the evicted bytes would have read before them, and nothing when the device shows nothing |
| DeviceRuns.SplitIsGrouping | aesd-char-driver/main.c:96-137 | the messages of a list of chunks: consecutive chunks, a newline only in the last chunk of each, none in the rest |
| DeviceRuns.GroupingUnique | aesd-char-driver/main.c:96-137 | there is no other way to group the chunks so |
| DeviceRuns.MessagesConserve | aesd-char-driver/main.c:96-137 | for arbitrary chunks, messages ++ rest are all bytes, in order |
| DeviceRuns.MessagesEnd | aesd-char-driver/main.c:96-137 | the rest holds no newline, each message holds one |
| DeviceRuns.DeviceRefines | aesd-char-driver/main.c:74-141 | after any writes under any failures the ring is the one built from the messages of the accepted chunks, and the pending bytes are their rest |
| DeviceRuns.WriteAccounts | aesd-char-driver/main.c:83-140 | a write that returns an error changes nothing; it returns the length of the chunk iff each allocation and copy it needs is granted, and then the whole chunk is accepted |
| DeviceRuns.WriteReturns | aesd-char-driver/main.c:83-140 | which error each refused step returns, that it leaves the device as it was, and what an accepted chunk leaves pending and in the ring |
| DeviceRuns.ReportedAndKept | aesd-char-driver/main.c:105-140 | the bytes of successful writes are all stored or pending iff no entry allocation failed; a lost entry is not reported |
| DeviceRuns.PlainRun | aesd-char-driver/main.c:96-140 | with nothing failing: visible entries are the last min(n, committed) messages, `size` is their length, pending holds no newline, all committed bytes ++ pending are all bytes written |
| DeviceRuns.KindRun | aesd-char-driver/main.c:74-141 | with a kind environment and room for three times the stream, no step of any write of a run fails |
| Chunking.PendingPointer | aesd-char-driver/aesd_temperaty_buffer.c:43-85 | the pending pointer is NULL iff no bytes are pending, when no write is empty |
| Chunking.AlignedAsSingles | aesd-char-driver/main.c:98-137 | chunks with a newline only as last byte, empty ones among them, leave the messages and the rest of their bytes written one at a time |
| Chunking.ChunkingExactly | aesd-char-driver/main.c:98-137 | and only such chunks do: for all lists of chunks, iff no chunk has a newline before its last byte |
| Chunking.ChunkingInvariance | aesd-char-driver/main.c:98-137 | two aligned ways of cutting one stream leave equal slots, offsets, flag, size and pending bytes, and the same device when no write is empty |
| Chunking.ChunkingMatters | aesd-char-driver/main.c:98-111 | for every stream and every cut: entries and pending bytes are those of the stream written byte by byte iff the last n messages are lines (newline only as last byte) and the message just before them, if any, ends in a newline |
| Chunking.ChunkingMattersEarly | aesd-char-driver/main.c:98-111 | while the ring still holds every message, that is alignment: every unaligned cut shows |
| DeviceReads.ReadExact | aesd-char-driver/main.c:47-72 | a read returns the flat string from its position, at most to the end of one entry, more than nothing inside it; every position outside, negative ones included, reads 0 bytes; a failed copy moves nothing |
| DeviceReads.ReadAmount | aesd-char-driver/main.c:62-71 | inside the flat string a read with a good copy returns the bytes of one entry: exactly as many as asked for, or up to that entry's end when there are fewer |
| DeviceReads.DrainExact | aesd-char-driver/main.c:47-72 | reads with any positive counts return exactly the flat string from p on, never pass its end, and reach it within size - p reads |
| DeviceReads.SeekEndThenDrain | aesd-char-driver/main.c:166-168 | SEEK_END by -k, for 0 <= k <= size, and draining yields the last k bytes iff k is 0 or readers see all bytes the ring counts, and fewer than k bytes otherwise |
| DeviceReads.SeekKeepsSign | aesd-char-driver/main.c:152-165 | SEEK_SET and SEEK_CUR never leave a negative position, and change nothing when they fail; they succeed iff the 64-bit sum is not negative, and leave it |
| DeviceReads.SeekEndUnchecked | aesd-char-driver/main.c:166-168 | SEEK_END always succeeds, leaves a negative position iff size plus offset is negative or at least 2^63, and such a position reads nothing |
| DeviceReads.SeekElse | aesd-char-driver/main.c:170-174 | any other whence changes nothing and reports the position |
| ByteStrings.LocateExact | aesd-char-driver/aesd_circular_buffer.c:35-75 | the lookup by flat index finds (k, offset) iff that index is the length of the first k strings plus offset, with offset inside string k |
| DeviceReads.LookupsInverse | aesd-char-driver/aesd_circular_buffer.c:35-127 | the two lookups are inverse both ways, and no index at or past the end is found |
| SeekCommand.IoctlDispatch | aesd-char-driver/main.c:186-232 | the word `_IOWR(0x16, 1, 8 bytes)`, composed from its fields, passes the tests on type and number, and of all command words only it has any effect |
| SeekCommand.SeekOutcome | aesd-char-driver/main.c:203-228 | for all arguments in every state: success is 0 and decided by the physical slot; it moves to the byte named among the visible entries, to 0 when there is none; a refusal moves nothing |
| SeekCommand.SeekMeetsExactly | aesd-char-driver/main.c:203-228 | for one pair of arguments, in every state: while the ring shows entries the command seeks as promised iff the physical and the logical slot agree on the bound; when it shows nothing, iff the physical slot refuses |
| SeekCommand.SeekAlwaysMeetsExactly | aesd-char-driver/main.c:203-228 | for all 32-bit arguments, in every state: iff rotating the slots by `out_offs` leaves the sizes alone while the ring shows entries, and iff `size` is 0 when it shows nothing |
| SeekCommand.SizesAgreeWhen | aesd-char-driver/main.c:203-228 | the sizes agree while `out_offs` is 0, and for a full ring of equally long entries; with no empty slot in front of the entries the seek is then the promised one |
| SeekCommand.UnwrappedOffset | aesd-char-driver/aesd_circular_buffer.c:147-156 | `out_offs` is 0 until more than n entries have been added |
| SeekCommand.SeekMisreadsAfterWrap | aesd-char-driver/main.c:208-228 | for every n > 1 a run after which one seek wrongly succeeds at position 0 and one is wrongly refused |
| SeekCommand.SeekMisleadsBehindGap | aesd-char-driver/main.c:208-228 | a run of writes with failed allocations after which `out_offs` is 0 and the sizes agree, readers see nothing, and a seek succeeds at position 0 |
| Memory.Heap.Alloc | aesd-char-driver/common.c:19-26 | any unused address with any contents, or NULL; no other block changes |
| Memory.Heap.Free | aesd-char-driver/common.c:28-35 | NULL or a live block; exactly that block goes |
| TemporaryBuffer.TemporaryBuffer.Add | aesd-char-driver/aesd_temperaty_buffer.c:43-75 | appends the bytes, frees the old block and touches no other; a refused allocation changes nothing at all |
| TemporaryBuffer.TemporaryBuffer.Clean | aesd-char-driver/aesd_temperaty_buffer.c:22-36 | frees the block it owns, if any, and is empty afterwards; the same code serves as delete (lines 77-85) |
| TemporaryBuffer.TemporaryBuffer.IsEmpty | aesd-char-driver/aesd_temperaty_buffer.c:38-41 | true iff no bytes are held, also for a zero-length block |
| CircularBuffer.CircularBuffer.AddEntry | aesd-char-driver/aesd_circular_buffer.c:136-172 | on the array of slots and 8-bit offsets: the new state is the ring value's, the string is stored iff the allocator is willing and has room after the eviction, the blocks freed and allocated are exactly those that left and joined the slots, the caller's block stays the caller's |
| CircularBuffer.CircularBuffer.EvictOldest | aesd-char-driver/aesd_circular_buffer.c:147-156 | frees the oldest slot's block and no other, and subtracts its size without underflow |
| CircularBuffer.CircularBuffer.FindEntryOffsetForFpos | aesd-char-driver/aesd_circular_buffer.c:35-75 | the loop returns the physical slot and offset of the byte at a flat index, NULL iff the index is at or past the visible length, and writes its out-parameter only on success |
| CircularBuffer.CircularBuffer.FindEntryForIoctl | aesd-char-driver/aesd_circular_buffer.c:77-127 | the loop returns the prefix sum plus offset of a visible byte and its physical slot, NULL iff there is no such byte |
| CircularBuffer.CircularBuffer.VisibleSizes | aesd-char-driver/aesd_circular_buffer.c:56-66 | the sums the lookups form stay within `size`, below 2^63 |
| CircularBuffer.CircularBuffer.Cleanup | aesd-char-driver/aesd_circular_buffer.c:191-201 | frees every block of the ring once |
| CharDevice.CharDevice.FlatStringFits | aesd-char-driver/main.c:55-71 | in every valid state the flat string is shorter than 2^63 bytes, and as long as `size` unless an empty slot hides it |
| CharDevice.CharDevice.Write | aesd-char-driver/main.c:74-141 | result and new state are the value model's write, where each step fails iff the environment refuses it or the memory free at that step is too small; ownership holds under all failures, and the kernel copy is freed once |
| CharDevice.CharDevice.AcceptChunk | aesd-char-driver/main.c:96-137 | the three branches, each allocation granted iff the environment and the free memory allow it, with the kernel copy still owned by the caller at the end of each |
| CharDevice.CharDevice.HoldsNewline | aesd-char-driver/main.c:96-103 | the scan is exact |
| CharDevice.CharDevice.Read | aesd-char-driver/main.c:47-72 | equals the value model's read, with 64-bit positions |
| CharDevice.CharDevice.Llseek | aesd-char-driver/main.c:143-175 | equals the value model's seek, with 64-bit positions |
| CharDevice.CharDevice.Ioctl | aesd-char-driver/main.c:177-233 | equals the value model's ioctl for every command word |
| CharDevice.CharDevice.Cleanup | aesd-char-driver/main.c:300-319 | leaves no data block allocated |
| CharDevice.WriteAll | aesd-char-driver/main.c:74-141 | from a new device, any writes under any whims leave the state and return the results of the pure run that chunks, whims and memory determine |
| CommandParser.StrtoulReads | server/src/aesdsocket.c:243-252 | the conversion moves iff spaces, at most one sign and a digit follow |
| CommandParser.CheckForCommandInString | server/src/aesdsocket.c:220-278 | the chain of checks accepts exactly the commands of the parse function and writes its out-parameter only then |
| CommandParser.AcceptsExactly | server/src/aesdsocket.c:220-278 | accepted iff the prefix stands first, a number can be read behind it, and a number can be read behind the first comma, wherever that is |
| ParsedValues.ParseValues | server/src/aesdsocket.c:243-273 | with a numeral (any spaces, at most one sign, any digits) behind the prefix and one behind the first comma, the two fields are the numerals in 32 bits: modulo 2^32, negated for a minus, 2^32 - 1 beyond an unsigned long |
| ParsedValues.ParsedHasNumerals | server/src/aesdsocket.c:220-278 | and every accepted command has such numerals |
| ParsedValues.DigitsArePrinted | server/src/aesdsocket.c:246-264 | any digits are zeros in front of the printed form of their value |
| CommandParser.DecimalValue | server/src/aesdsocket.c:246-264 | printed numbers have their value |
| CommandParser.CommandRoundTrip | server/src/aesdsocket.c:220-278 | for all X, Y below 2^32 the printed command parses to (X, Y), whatever bytes lie behind its newline |
| Literals.Constants | server/src/aesdsocket.c:21-26 | newline, separators, prefix, buffer size and the seek constants are the characters and numbers of the source |
| Literals.Classes | server/src/aesdsocket.c:246-264 | spaces, digits and signs are those of the C locale |
| ClientFraming.FramingConserves | server/src/aesdsocket.c:422-468 | at every loop head the flushes in order ++ the buffer are all bytes received, and each flush holds a newline |
| ClientFraming.FlushExactly | server/src/aesdsocket.c:460-461 | a flush happens iff the first newline of the accumulated bytes stands before the last chunk's length |
| ClientFraming.FlushOnChunk | server/src/aesdsocket.c:460-461 | exact on an empty buffer; behind b newline-free bytes a newline at i of the chunk flushes iff b + i is below the chunk's length |
| FramingRuns.FramingExactly | server/src/aesdsocket.c:428-468 | for every list of chunks: at every loop head the flushes are the messages and the buffer the rest, iff the first newline of each chunk, with the unfinished line before it, stands within the chunk's own length; and the same iff no complete line is ever held |
| FramingRuns.FlushesAreGroups | server/src/aesdsocket.c:422-468 | group the chunks so that the last of each group, and no earlier one, makes the server see a newline: the flushes are the groups, each as one string, and the buffer is the rest |
| FramingRuns.FlushGroups | server/src/aesdsocket.c:422-468 | every list of chunks can be grouped so |
| ClientFraming.LineHeldBack | server/src/aesdsocket.c:460-461 | a complete line that is not flushed |
| ClientFraming.CheckForNewlineCharInString | server/src/aesdsocket.c:198-218 | reports the first newline within len bytes; a NULL string or non-positive length counts as found |
| ClientFraming.ReceiveLoop | server/src/aesdsocket.c:386-449 | the loop over received chunks computes the framing of those before the first that is refused for want of will or memory, stops exactly there, and holds no block but its buffer |
| ClientFraming.EnoughMemory | server/src/aesdsocket.c:386-449 | with a willing allocator and 512 bytes plus twice the stream free, no chunk is refused |
| Transaction.SendRest | server/src/aesdsocket.c:547-563 | the send loop sends exactly what lies behind the file position, and ends at the end |
| Transaction.Transact | server/src/aesdsocket.c:464-568 | for every buffer and environment, the device left, the bytes sent and the end of the process are those of the exchange function, with the failures that whim and memory decide |
| Exchange.AppendServes | server/src/aesdsocket.c:507-563 | whatever fails in the write of a buffer that is no command, the process lives on and sends the whole flat string of the device it leaves, which is the old device when the write is refused |
| Exchange.CommandServes | server/src/aesdsocket.c:468-505 | any buffer that parses as a command leaves the device alone and is answered by the tail from the byte named, by everything, or by the end of the process |
| Transaction.Lifetime | aesd-char-driver/main.c:259-322 | load, any writes under any failures, a client that reads everything, unload: the results and the bytes read are those of the pure run, and no block is leaked or freed twice |
| Transaction.KindLifetime | aesd-char-driver/main.c:259-322 | the same with a kind environment and room for three times the stream: every write reports its length and the client reads exactly the last n messages |
| Exchange.SeekEndToEnd | server/src/aesdsocket.c:468-505 | a printed command of a live byte is served exactly the tail from it iff the physical slot is long enough; of a byte that is not live, everything or nothing |
| Exchange.SeekEndToEndExact | server/src/aesdsocket.c:468-505 | in every state: all printed commands are served as promised (the tail for a live byte, refusal for any other) iff the condition of `SeekCommand.SeekAlwaysMeetsExactly` holds |
| Exchange.SeekEndToEndWhen | server/src/aesdsocket.c:468-505 | so it is with no empty slot in front of the entries and `out_offs` 0 or equally long entries in a full ring |
| Server.StepKeeps | server/src/aesdsocket.c:404-571 | each atomic step of each client keeps the invariant over device, lock, log, clients and replies |
| Server.Linearizable | server/src/aesdsocket.c:461-568 | in every interleaving of any number of clients the device is the one a sequential server leaves that executes the transactions in lock order, nothing is pending, every transaction but one still being answered has its reply, and the i-th reply went to the i-th transaction's client and is that server's answer |
| Server.AllReplies | server/src/aesdsocket.c:534-563 | the i-th reply goes to the client of the i-th transaction: to an append the last min(n, appended) messages, whole, ending in the client's own; to a seek the tail of those messages from the named byte, or all of them |
| Server.TransactionIsExchange | server/src/aesdsocket.c:464-568 | a transaction step, any positive reads enough to reach the end, and the unlock are together the exchange that `Transaction.Transact` is proved to compute on the driver |
| Server.TransactionOnMemory | server/src/aesdsocket.c:464-568 | with room for twice what the device shows and three times the message it is the exchange under the failures that this memory decides, so none |
| Server.RunIsGranted | server/src/aesdsocket.c:507-531 | in every interleaving, memory for 2n + 3 messages of the longest length makes every allocation of an append succeed |
| ServerEvents.EventEffects | server/src/aesdsocket.c:386-571 | where accept, recv, hang-up, lock or unlock can happen, what it does to its client and the lock, and that it touches nothing else |
| ServerEvents.ImpossibleIsNothing | server/src/aesdsocket.c:386-571 | where an event cannot happen nothing does, and nothing after the process has ended |
| ServerEvents.TransactLogs | server/src/aesdsocket.c:464-533 | a transaction is logged once, under its client, with the whole buffer |
| ServerEvents.ReadEffects | server/src/aesdsocket.c:547-563 | each read of the answer is sent on, and the first empty one ends it |
| ServerEvents.LineServed | server/src/aesdsocket.c:421-571 | with the lock free, the chunk that completes a line, lock, transaction, any sufficient reads and unlock are one exchange on all received since the last flush, and the client polls again |
| Server.MutualExclusion | server/src/aesdsocket.c:464-567 | at most one client is inside a transaction |
| Server.ChunksAreDelivered | server/src/aesdsocket.c:421-428 | the chunks on record for a client are the ones its recv events delivered, whole and in order |
| Server.ClientConservation | server/src/aesdsocket.c:428-568 | in every interleaving, a client's logged transactions are exactly the flushes of the chunks delivered to it (the last not yet logged while it waits for the lock), and with its buffer they are all bytes delivered |
| Shutdown.RunKeeps | server/src/aesdsocket.c:675-704 | the invariant over tokens, lock and joins holds after every run |
| Shutdown.EndsExactly | server/src/aesdsocket.c:404-449 | a thread ends by taking a token, by its peer closing or by a failing poll, and by nothing else |
| Shutdown.RunAccounts | server/src/aesdsocket.c:151-166 | in every run: threads ended are tokens read plus peers closed plus polls failed, tokens written are those in the pipe plus those read, and one token per thread is written or to be written |
| Shutdown.ServesAgain | server/src/aesdsocket.c:567-571 | with the pipe empty and the lock free a polling thread can serve any number of lines, and polls again after each |
| Shutdown.CanGoOn | server/src/aesdsocket.c:404-464 | each thread can do what its place in the program waits for exactly when that is there |
| Shutdown.MainCanGoOn | server/src/aesdsocket.c:151-166 | the same for the main thread: spawn and stop, then tokens, then joins in order |
| Shutdown.AnyThreads | server/src/aesdsocket.c:151-158 | any number of accepted clients is left polling, with a token to write for each |
| Shutdown.TokensSuffice | server/src/aesdsocket.c:151-158 | once accepting has ended, tokens to write plus tokens in the pipe are at least the live threads; after the last write no thread that saw a token stays blocked in read |
| Shutdown.Progress | server/src/aesdsocket.c:151-166 | until all threads are joined some step is possible: no deadlock on pipe, mutex or joins |
| Shutdown.StepDecreases | server/src/aesdsocket.c:404-417 | after the last token every step of any thread, a failing poll included, decreases an explicit measure |
| Shutdown.RunsAreBounded | server/src/aesdsocket.c:404-417 | so no run from there is longer than the measure |
| Shutdown.StuckMeansFinished | server/src/aesdsocket.c:160-166 | and a run that cannot continue has joined every thread |
| Shutdown.OneTokenShort | server/src/aesdsocket.c:151-158 | the protocol reaches two threads with two tokens to write; with one token there is a run from there to a state in which nothing is possible any more and a thread is never joined |

## Left out

- Server.Linearizable: allocations succeed, which `Server.RunIsGranted` shows they do on enough memory, and one `fwrite` with its `fclose` is one write of the driver; stdio splits larger ones.
- Server.AllReplies: covers processes that use the device only under `fileMutex`; the driver itself takes no lock.
- Server.StepKeeps: a refused ioctl is a state in which nothing more happens; the exit path through `logAndExit` is not modelled. File positions are unbounded there; their 64-bit range is proved on the classes.
- CommandParser.CheckForCommandInString: memory ends at a NUL; the server's buffer has none of its own, and what lies behind it is not part of the model.
- ClientFraming.ReceiveLoop: a failed allocation ends the process; the 512-byte block that is not freed when the thread ends on a token or a poll error is outside the loop that is modelled.
- Memory.Heap.Alloc: a zero-length allocation is an empty block of its own rather than the kernel's shared sentinel; free does nothing to either.
- CharDevice.CharDevice.Llseek: a sum beyond 64 bits wraps, as the kernel is compiled; ISO C leaves it undefined.
- Transaction.Lifetime: the blocks of the two buffer structs, and module loading that fails half-way, are not modelled.
- Shutdown.RunsAreBounded: a transaction in progress is assumed to finish; the program's `send` to a client that does not read blocks for ever. Before the last token is written threads may go on serving clients for as long as the scheduler lets them; the main thread can always write. The pipe holds a token for every thread.
- Copies to and from user space either succeed or fail as a whole; NULL buffer arguments are not modelled.
- Module registration, open and release, logging, daemonising, signals, the 128-entry thread array, and the accept error path.
- The disabled timestamp thread, the unused packet helpers and the iteration macro.
- `finder-app`, `examples`, `student-test` and the scripts: thin wrappers.
