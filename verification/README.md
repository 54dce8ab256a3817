# Verification models of xboot

xboot is an embedded boot and driver tree. These files model the parts of it that hold real
algorithms over state, in Dafny, and prove what those parts are for. Where the source changes things
step by step the model does too: classes with the source's fields, loops with invariants, methods
proved against a specification function, and then lemmas about that function over all inputs and all
runs.

- `RbTree`, `RbErase`, `RbTraversal`, `RbRotate`, `RbColour`, `RbRebalance`: deletion from an augmented
  red-black tree with parent pointers, cached values and a cached leftmost node, up to and including
  the rebalancing. A tree is seen as the in-order sequence of its nodes together with the interval of
  the sequence that each subtree occupies, so every fact is about one node and its neighbours.
- `List`, `HList`: intrusive circular lists and hash lists as sequences.
- `Medium`, `SpiNor`, `Block`: a SPI NOR flash chip that needs erasing and write enables, the block driver
  on top of it, and partitions.
- `Sdcard`, `SdcardRegister`: byte access to a card whose commands may fail at any time; which ones do is a
  parameter, and what a failing command does to the card is an assumption of the model.
- `I2cBus`, `I2cAlgoBit`, `I2cMessage`, `I2cTransfer`, `I2cDecode`: the bit-banging I2C master as a trace of two
  lines, from single bytes to whole transfers, and a slave that decodes it.
- `SpiGpio`: the bit-banging SPI master in its four modes.
- `Kvdb`, `Nvmem`: the persistent key/value store.
- `Clocksource`, `Seqlock`, `ClockScale`: timekeeping with a wrapping counter, its readers among writers
  in every interleaving, the choice of the scale factors and the clock events.
- `Rtc`: the calendar.
- `Clk`: reference counts in a tree of clocks; power supplies use the same algorithm.
- `Wifi`, `Gnss`: receivers that keep their state across reads.
- `Rotary`: the rotary encoder.
- `Arith`, `BitWords`, `Sequences`, `Wrappers`: helpers.

Where the code does less than one would wish, the model keeps the code, a theorem gives the exact
condition, and a lemma an input that fails it:

- `Clk.DisableKeepsExactly`, `Clk.HarmlessIsCovered` and `Clk.DisabledUnderChild`;
- `ClockScale.CalcIsAccurate` and `ClockScale.NoFactors`;
- `ClockScale.EventRoundTrip` and `ClockScale.EventFallsShort`;
- `ClockScale.ProgrammedExactly` and `ClockScale.EventOverflows`;
- `Nvmem.FlushThenLoad` and `Nvmem.UntrimmedIsLost`;
- `Block.AvailableStaysInside`, `Block.WriteIsIsolated` and `Block.PastTheEnd`;
- `Seqlock.ReadersSeeOneWriter` and `Seqlock.OvertakenReaderIsWrong`;
- `Wifi.WaitsAfterStreams` and `Wifi.StrayPlus`;
- `Wifi.ReportedExactly` and `Wifi.StrayIsMissed`;
- `Gnss.DigitsAccepted` and `Gnss.NineDigitsAt`;
- `Rotary.FullIsOffByStray` and `Rotary.FullCanStray`.

## Model

| member | source | states |
|---|---|---|
| RbTree.RbRoot.Next | src/lib/libx/rbtree.c:438-456 | the node returned is the in-order successor, null at the end |
| RbTraversal.InorderIsOrder | src/lib/libx/rbtree.c:438-456 | the in-order sequence kept with a tree is what following child links from the root visits, each node once |
| RbTraversal.PathBlacks | src/include/rbtree_augmented.h:97-203 | on every path from a node to an empty slot the number of black nodes is the height the model gives the node, one fewer on paths that end in the gap; ties the local colour rules to whole paths |
| RbTraversal.EqualBlackDepth | src/include/rbtree_augmented.h:97-203 | no two root paths to empty slots pass different numbers of black nodes, but for the one through the gap |
| RbErase.ChangeChild | src/include/rbtree_augmented.h:82-92 | the slot that held the victim, or the root, holds the heir; the other slot is untouched |
| RbErase.Propagate | src/include/rbtree_augmented.h:28-38 | although it stops at the first cached value that is right, every cached value is right afterwards, if all but the one it starts at were |
| RbErase.ErasedShape | src/include/rbtree_augmented.h:97-203 | after an erasure all links are mutual again and the sequence has lost exactly the erased node |
| RbErase.ErasedBalanced | src/include/rbtree_augmented.h:97-203 | after an erasure the colour rules hold everywhere but at one slot, and there only if a black leaf left it |
| RbErase.GapIsVacant | src/include/rbtree_augmented.h:97-203 | the slot that is short of a black node is the empty one the heir left |
| RbErase.RiserIsRedLeaf | src/include/rbtree_augmented.h:97-203 | an only child is a red leaf under a black node, which is why promoting it needs no rebalancing |
| RbErase.Relink | src/include/rbtree_augmented.h:97-200 | the pointer surgery of all three erase cases leaves exactly the tree that the plan of the erasure describes, with every cached value right but at most one |
| RbErase.EraseAugmented | src/include/rbtree_augmented.h:97-203 | the sequence loses exactly the node; null means a red-black tree, a node returned means one black is missing at its vacated child and nowhere else; every cached value and the cached leftmost node are right |
| RbRotate.TurnedShape | src/lib/libx/rbtree.c:170-351 | a rotation in either direction keeps all links mutual and the sequence unchanged |
| RbRotate.TurnedBalanced | src/lib/libx/rbtree.c:170-351 | if the colour rules hold at the two nodes that turn, they hold in the whole tree |
| RbRotate.TurnedFresh | src/include/rbtree_augmented.h:47-54 | the rotate callback leaves every cached value right, for a value that does not depend on how a subtree is rotated |
| RbColour.Case1Balanced | src/lib/libx/rbtree.c:186-204 | rotating a red sibling away keeps the gap where it is and leaves a black sibling under a red parent |
| RbColour.Case2Balanced | src/lib/libx/rbtree.c:205-235 | painting a black sibling red closes the gap under a red parent and moves it up under a black one |
| RbColour.Case3Balanced | src/lib/libx/rbtree.c:236-273 | rotating a red near nephew over the sibling keeps the gap and makes the far nephew red |
| RbColour.FilledBalanced | src/lib/libx/rbtree.c:274-295 | with a red far nephew one rotation gives a red-black tree without a gap |
| RbRebalance.RotateSetParents | src/lib/libx/rbtree.c:18-26 | the heir takes over parent, colour and slot of the victim |
| RbRebalance.RotateAway | src/lib/libx/rbtree.c:186-204 | the code of case 1 performs exactly that change of the tree |
| RbRebalance.PushUp | src/lib/libx/rbtree.c:205-235 | the code of case 2 closes the gap or moves it to the slot above |
| RbRebalance.FillFromNear | src/lib/libx/rbtree.c:236-295 | the code of cases 3 and 4 together gives a red-black tree with the same nodes in the same order, although the links are not consistent in between |
| RbRebalance.FillFromFar | src/lib/libx/rbtree.c:274-295 | the code of case 4 gives a red-black tree with the same nodes in the same order |
| RbRebalance.EraseColor | src/lib/libx/rbtree.c:170-351 | rebalancing terminates in a red-black tree with the same nodes in the same order and every cached value right |
| RbRebalance.Erase | src/include/rbtree_augmented.h:205-223 | the whole deletion takes a red-black tree to a red-black tree without exactly that node, with every cached value and the cached leftmost node right |
| List.RingRotate | src/include/list.h:20-25 | a ring of links may be read from any of its elements |
| List.RingConcat | src/include/list.h:39-47 | a sequence is a ring exactly if its two parts are chains that are joined at both ends |
| List.Add | src/include/list.h:57-61 | a new entry comes first |
| List.AddTail | src/include/list.h:70-74 | a new entry comes last |
| List.Del | src/include/list.h:82-104 | the entry leaves the sequence; its own links are cleared |
| List.DelInit | src/include/list.h:133-137 | the entry leaves the sequence and is a list of its own |
| List.ReplaceEntry | src/include/list.h:113-120 | the new entry stands where the old one stood |
| List.ReplaceInit | src/include/list.h:122-127 | as replacement, and the old entry is a list of its own; an old list head may be empty |
| List.Move | src/include/list.h:144-148 | an entry of the list moves to its front |
| List.MoveTail | src/include/list.h:155-160 | an entry of the list moves to its tail |
| List.MoveAcross | src/include/list.h:144-148 | an entry moves to the front of another list, which keeps its order, as does the list it leaves |
| List.MoveTailAcross | src/include/list.h:155-160 | an entry moves to the tail of another list |
| List.BulkMoveTail | src/include/list.h:171-183 | a segment moves to the tail in order, also if it is at the front, at the tail or the whole list |
| List.RotateLeft | src/include/list.h:239-248 | the first entry becomes the last; an empty list stays empty |
| List.IsSingular | src/include/list.h:254-257 | true exactly for lists of one entry |
| List.IsEmptyCareful | src/include/list.h:229-233 | true exactly for the empty list |
| List.IsFirst | src/include/list.h:190-194 | true exactly for the first entry |
| List.IsLast | src/include/list.h:201-205 | true exactly for the last entry |
| List.CutPosition | src/include/list.h:259-297 | the list splits behind the entry; nothing happens to an empty list or to a single entry that is not the one given |
| List.CutBefore | src/include/list.h:313-328 | the list splits in front of the entry, or moves as a whole if the entry is the head |
| List.Splice | src/include/list.h:330-354 | the entries of one list come in front of those of the other |
| List.SpliceTail | src/include/list.h:361-367 | the entries of one list come behind those of the other |
| List.SpliceInit | src/include/list.h:375-383 | as splicing, and the first list is empty afterwards |
| List.SpliceTailInit | src/include/list.h:393-401 | as splicing at the tail, and the first list is empty afterwards |
| List.ForEach | src/include/list.h:469-470 | iteration visits exactly the entries in order |
| List.ForEachPrev | src/include/list.h:477-478 | backward iteration visits them in reverse order |
| HList.Del | src/include/list.h:700-715 | the node leaves the list through its pprev alone, wherever it stands |
| HList.DelInit | src/include/list.h:717-724 | as deletion, and the node is unhashed; an unhashed node is left alone |
| HList.AddHead | src/include/list.h:726-735 | a new node comes first |
| HList.AddBefore | src/include/list.h:737-744 | a new node comes in front of a given one, without the head at hand |
| HList.AddBehind | src/include/list.h:746-756 | a new node comes behind a given one |
| HList.MoveList | src/include/list.h:781-788 | all nodes move to another head and the old head is empty |
| HList.IsSingularNode | src/include/list.h:772-774 | true exactly for the only node of a list |
| SpiNor.AddressRoundTrip | src/driver/block/blk-spinor.c:391-455 | the chip reads the address bytes of a command as the address that the driver meant, if it fits them |
| SpiNor.PlanStep | src/driver/block/blk-spinor.c:632-671 | at every step of the erase loop some branch applies, for the largest erase the chip knows that is aligned and not too long, and address and rest stay whole blocks |
| SpiNor.Spinor.WaitForBusy | src/driver/block/blk-spinor.c:386-389 | the chip is not busy afterwards |
| SpiNor.Spinor.EraseRange | src/driver/block/blk-spinor.c:632-671 | the loop ends without the return of 0, erases exactly the range and nothing outside it, and no command is dropped |
| SpiNor.Spinor.ProgramRange | src/driver/block/blk-spinor.c:673-690 | programming piece by piece turns an erased range into the data; no command is dropped, so none leaves its page |
| SpiNor.Spinor.WriteBlocks | src/driver/block/blk-spinor.c:624-692 | whole blocks hold the data afterwards and nothing else has changed |
| SpiNor.Spinor.ReadBlocks | src/driver/block/blk-spinor.c:600-622 | whole blocks are read |
| SpiNor.Spinor.WritePartial | src/driver/block/blk-spinor.c:744-767 | a block is read, patched, erased and programmed; only the patch changes |
| SpiNor.Spinor.Write | src/driver/block/blk-spinor.c:744-790 | for every range the flash holds the old contents with exactly that range replaced, the chip dropped no command, and nothing was erased but blocks that the range touches |
| SpiNor.Spinor.Read | src/driver/block/blk-spinor.c:700-742 | the bytes of the range are read |
| SpiNor.Spinor.WriteThenRead | src/driver/block/blk-spinor.c:700-790 | what was written is read back |
| Block.AvailableStaysInside | src/include/block/block.h:22-33 | the clamped request lies inside the device exactly if it starts there and does not wrap around into it, and then it ends at the end of the device |
| Block.StaysInside | src/driver/block/block.c:50-62 | what is passed on for a served request lies in the partition exactly if the request is empty or clamped |
| Block.PastTheEnd | src/driver/block/block.c:50-62 | two requests that are not kept inside: one past the end reaches into what comes behind, one that wraps around into what comes before |
| Block.SubBlock.Read | src/driver/block/block.c:50-55 | any request that the parent can serve reads what is passed on to the parent; one that starts inside and does not wrap around reads bytes of the partition, as many as it has |
| Block.SubBlock.Write | src/driver/block/block.c:57-62 | any request that the parent can serve changes exactly what is passed on to the parent; one that starts inside and does not wrap around changes that range of the partition |
| Block.WriteIsIsolated | src/driver/block/block.c:57-62 | a write leaves all that lies outside its partition alone, so also disjoint partitions inside a shared erase block, if and only if it is empty or starts inside and does not wrap around; otherwise its first byte is stored in front of the partition |
| I2cBus.ByteRoundTrip | src/driver/i2c/i2c-algo-bit.c:99-147 | bits sent most significant first make up the byte again |
| I2cBus.BitsRoundTrip | src/driver/i2c/i2c-algo-bit.c:127-147 | any bits received make up the byte that has them |
| I2cAlgoBit.I2cStart | src/driver/i2c/i2c-algo-bit.c:75-80 | a slave hears a start condition |
| I2cAlgoBit.I2cRepStart | src/driver/i2c/i2c-algo-bit.c:82-89 | a slave hears a start condition in the middle of a transfer |
| I2cAlgoBit.I2cStop | src/driver/i2c/i2c-algo-bit.c:91-97 | a slave hears a stop condition; both lines end up released, timeout or not |
| I2cAlgoBit.OutByte | src/driver/i2c/i2c-algo-bit.c:99-125 | a slave hears the eight bits and its own acknowledge bit; the result tells the acknowledge bit |
| I2cAlgoBit.InByte | src/driver/i2c/i2c-algo-bit.c:127-147 | the byte is made of the bits that the slave drove in eight clock pulses |
| I2cAlgoBit.TryAddress | src/driver/i2c/i2c-algo-bit.c:149-164 | an address is given up with a stop and a new start exactly as often as it is refused, up to the number of retries; the result is the last answer |
| I2cAlgoBit.SendBytes | src/driver/i2c/i2c-algo-bit.c:166-195 | the bytes go out in order with the answers the slave gives; the result is -1 exactly when the last byte sent, and no other, was refused and refusals matter |
| I2cAlgoBit.AckNak | src/driver/i2c/i2c-algo-bit.c:197-208 | the acknowledge bit after a byte received is low for every byte but the last |
| I2cAlgoBit.ReadBytes | src/driver/i2c/i2c-algo-bit.c:210-256 | the buffer holds what the slave sent, lengthened as the slave said, and the frames are acknowledged as the flags ask; the result is -1 only for a length out of range; the buffer behind the message is left alone |
| I2cAlgoBit.SevenBitsSent | src/driver/i2c/i2c-algo-bit.c:297-302 | the address byte is the seven address bits and the direction |
| I2cAlgoBit.TenBitsSent | src/driver/i2c/i2c-algo-bit.c:267-294 | the first byte of a 10-bit address is 11110, the two high bits and the direction |
| I2cMessage.DoAddress | src/driver/i2c/i2c-algo-bit.c:258-308 | the address phase is heard as the model says, 7-bit or 10-bit, with the attempts that failed; it ends with -1 only when the last answer was a refusal that the retries do not cover, and not when the slave answers as asked |
| I2cMessage.DoMessage | src/driver/i2c/i2c-algo-bit.c:317-353 | a message is heard whole, or up to the byte that was refused or the length out of range; it goes through if the slave answers as asked; a message that is written is left as it was, one that is read changes only in the bytes read and the length that the slave adds |
| I2cMessage.DoBody | src/driver/i2c/i2c-algo-bit.c:332-353 | the bytes of a message are heard behind its address; if a slave stretches the clock for too long in one of them the message fails |
| I2cTransfer.Xfer | src/driver/i2c/i2c-algo-bit.c:310-359 | on every run without a stretch timeout, for all flags, both lines end up released and what is heard is a start, the messages that went through, of the next one what came before a refusal (an address after all its retries, or a byte) or a length out of range, and a stop; all messages go through if the slaves acknowledge what they are asked to; what is written are the bytes and the length that the caller gave, which are left as they were; buffers read hold what the slaves sent; messages behind the one that breaks off are not touched |
| I2cDecode.HearTokens | src/driver/i2c/i2c-algo-bit.c:99-147 | frames come out of the events that they were sent as |
| I2cDecode.MessageFollowed | src/driver/i2c/i2c-algo-bit.c:258-308 | a slave decodes a message, with its failed address attempts, as its address, direction and bytes |
| I2cDecode.TransferUnderstood | src/driver/i2c/i2c-algo-bit.c:310-359 | decoding what is heard of a whole transfer gives back exactly the message list: address, direction, every byte, and every byte acknowledged but the last of each read |
| I2cDecode.TrafficFormed | src/driver/i2c/i2c-algo-bit.c:99-256 | on every run what is heard between start and stop are conditions and bytes of eight bits, with an acknowledge bit unless a message wants none, and each stop is followed by a new start |
| I2cDecode.MovesAreConditions | src/driver/i2c/i2c-algo-bit.c:75-147 | over any traffic, SDA moves while SCL is high as often as start and stop conditions were sent |
| I2cDecode.ReversedIsOther | src/driver/i2c/i2c-algo-bit.c:297-302 | with the direction reversed a 7-bit address is heard as that of a message in the other direction; 10-bit addresses do not heed the flag |
| I2cDecode.NoStartGoesOn | src/driver/i2c/i2c-algo-bit.c:318-330 | a write without a start of its own goes on with the bytes of the write before it |
| I2cDecode.BareAt | src/driver/i2c/i2c-algo-bit.c:247-252 | with noRdAck each byte read is eight bits and nothing else |
| I2cDecode.XferHeard | src/driver/i2c/i2c-algo-bit.c:310-359 | the transfer seen from the lines: on every run without a timeout, also after refusals, SDA moves while SCL is high as often as starts and stops were sent; if the slaves answer as asked all messages go through; and decoding the levels of a transfer that went through gives the message list: address, direction, the bytes that the caller gave to write, the bytes read, and the acknowledge bits |
| Kvdb.TrimIsTrimmed | src/lib/libc/string/strim.c:13-29 | trimmed text has no white space at its ends, and such text is left alone |
| Kvdb.TrimIsPart | src/lib/libc/string/strim.c:13-29 | trimming takes away white space at both ends and nothing else |
| Kvdb.TrimAround | src/lib/libc/string/strim.c:13-29 | whatever white space is put around trimmed text, trimming takes just that away |
| Kvdb.ParseClean | src/driver/nvmem/nvmem.c:159-169 | whatever text is parsed, every entry of the result has a trimmed, non-empty key and value without separators |
| Kvdb.ParseEntry | src/driver/nvmem/nvmem.c:159-169 | a printed entry is read as the key and value it was printed from, also if the value has an equals sign in it |
| Kvdb.ParseSpaced | src/driver/nvmem/nvmem.c:158-170 | an entry with any white space around its key and its value is read as these, whichever of the three separators ends it |
| Kvdb.ParseLast | src/driver/nvmem/nvmem.c:158-170 | the last entry needs no separator |
| Kvdb.ParseSkips | src/driver/nvmem/nvmem.c:158-170 | what has no equals sign, or only white space on one side of its first one, is skipped |
| Kvdb.ParsePrint | src/driver/nvmem/nvmem.c:99-104 | printed text is read as exactly the entries that fitted |
| Kvdb.PrintReadsBack | src/driver/nvmem/nvmem.c:99-104 | printed text reads back as the store if and only if all entries are clean and all fit |
| Kvdb.LengthIsTotal | src/driver/nvmem/nvmem.c:99-104 | the length printed does not depend on the order of the entries |
| Nvmem.LeRoundTrip | src/driver/nvmem/nvmem.c:106-115 | the bytes of the header make up their number again |
| Nvmem.LeByteAt | src/driver/nvmem/nvmem.c:106-115 | the least significant byte of a number comes first |
| Nvmem.SumInSequence | src/driver/nvmem/nvmem.c:110-111 | with a checksum taken piece by piece, the header holds that of the length followed by the text |
| Nvmem.FlushedIsLoaded | src/driver/nvmem/nvmem.c:105-117 | what is flushed is found again on loading, unless it is too long for the medium |
| Nvmem.FlushThenLoad | src/driver/nvmem/nvmem.c:78-178 | for every store, order, checksum function and former contents, flush and load give back the same store if and only if it is empty or its entries are clean and their length plus 9 is less than the capacity |
| Nvmem.LoadedIsSealed | src/driver/nvmem/nvmem.c:141-156 | on any medium, nothing is loaded but what lies behind a length that is positive and fits and a checksum of length and text that is right |
| Nvmem.TornFlush | src/driver/nvmem/nvmem.c:116-156 | after a flush that broke off behind the header and any number of bytes of the text, the store that is found is that of these bytes with the old ones behind them if their checksum is that of the new text, and empty otherwise |
| Nvmem.CStringOf | src/driver/nvmem/nvmem.c:158-159 | what comes behind the first NUL does not count |
| Nvmem.UntrimmedIsLost | src/driver/nvmem/nvmem.c:78-178 | a key that begins with a space does not survive, on any medium with any checksum |
| Nvmem.Nvmem.WriteAt | src/driver/nvmem/nvmem.c:260-278 | the request is clamped to the medium and writes just that range |
| Nvmem.Nvmem.WriteThenRead | src/driver/nvmem/nvmem.c:240-278 | what a write says it wrote is read back from the same place: as much as the medium holds from there on, where a negative offset counts as 0; no other byte changes |
| Nvmem.Nvmem.constructor | src/driver/nvmem/nvmem.c:127-178 | the store starts as what the medium holds |
| Nvmem.Nvmem.ParseStore | src/driver/nvmem/nvmem.c:158-170 | the parse loop adds the entries that the specification finds, later ones winning |
| Nvmem.Nvmem.PrintStore | src/driver/nvmem/nvmem.c:99-104 | the print loop prints entries in some order until one does not fit |
| Nvmem.Nvmem.TimerFunction | src/driver/nvmem/nvmem.c:78-125 | a changed store is on the medium afterwards if and only if it can be stored; an unchanged one is not written |
| Nvmem.Nvmem.Set | src/driver/nvmem/nvmem.c:280-304 | the key is set or removed; the dirty flag is set exactly by calls that touch the store; a store that is not dirty stays faithful to the medium |
| Nvmem.Nvmem.Clear | src/driver/nvmem/nvmem.c:320-332 | the store is empty and due to be flushed |
| Nvmem.SetSurvives | src/driver/nvmem/nvmem.c:78-318 | a value set is got again, as is every other, after a flush and a restart, if the store can be stored |
| Clocksource.DeltaCounts | src/include/clocksource/clocksource.h:154-159 | the difference of two counter readings is the cycles between them modulo the counter range, for every width up to 64 bits |
| Clocksource.DefermentIsSafe | src/include/clocksource/clocksource.h:144-147 | after fewer nanoseconds than the deferment, however its product wraps, the counter has not come round and the conversion does not overflow |
| Clocksource.DefermentIsTight | src/include/clocksource/clocksource.h:144-147 | the deferment is the time of the largest counter value if and only if that does not overflow 64 bits, and shorter otherwise |
| Clocksource.TickKeepsTime | src/driver/clocksource/clocksource.c:97-113 | a tick does not change the time that is read |
| Clocksource.ReadingsAreMonotone | src/driver/clocksource/clocksource.c:97-113 | over every run of ticks and readings with gaps in reach, time never goes backwards |
| Clocksource.DriftIsBounded | src/driver/clocksource/clocksource.c:97-113 | after n ticks the accumulated nanoseconds are at most the exact scaled total and less than n below it |
| Clocksource.ShortGapsAreInReach | src/driver/clocksource/clocksource.c:97-147 | a run whose gaps stay below the deferment, for less than 2^64 nanoseconds in all, is one of those |
| Clocksource.ClocksourceDevice.TimelyTicksAreInReach | src/driver/clocksource/clocksource.c:97-147 | with the timer set to half the deferment, a run whose ticks come less than one more such interval late is in reach |
| Clocksource.ClocksourceDevice.KeeperTick | src/driver/clocksource/clocksource.c:97-113 | the timer function performs the tick of the model |
| Clocksource.ClocksourceDevice.KeeperRead | src/include/clocksource/clocksource.h:166-178 | an undisturbed reading gives the time of the model |
| Clocksource.ClocksourceDevice.constructor | src/driver/clocksource/clocksource.c:147-149 | the keeper starts at the current counter and zero nanoseconds, with half the deferment between ticks |
| Seqlock.CheckPasses | src/include/xboot/seqlock.h:34-38 | the retry check passes exactly if a multiple of 2^32 increments came since the reader began; none at all if fewer than 2^31 writers came |
| Seqlock.RunKeeps | src/include/xboot/seqlock.h:22-52 | every state of every interleaving keeps the invariant of writers, reader and times given out |
| Seqlock.GivesSound | src/include/clocksource/clocksource.h:166-178 | a reader past its check gives out the time that a completed writer's values yield if and only if the nsec stored when it loads it is the one stored when it began |
| Seqlock.ReadersSeeOneWriter | src/include/clocksource/clocksource.h:166-178 | under every interleaving, for every time returned: last and counter belong to one completed writer, and the time is the one its values yield if and only if no later writer, up to the load of nsec, has added a nanosecond |
| Seqlock.ReadersAreMonotone | src/include/clocksource/clocksource.h:166-178 | the times that are right in that sense never go backwards |
| Seqlock.OvertakenReaderIsWrong | src/include/clocksource/clocksource.h:177-177 | the load of nsec behind the check is not covered: a run in which a writer between the two makes the reader return a time ahead of every right one |
| ClockScale.CalcMultShift | src/include/clocksource/clocksource.h:113-142 | the shift found is the largest that fits; with it no conversion of up to maxsec seconds overflows 64 bits and the multiplier is right to half a unit; if none fits, the multiplier of shift 1 is left with shift 0 |
| ClockScale.CalcIsAccurate | src/include/clocksource/clocksource.h:113-142 | the factors are right if and only if the multiplier of shift 1 fits, or it is 1 and serves for shift 0 as well |
| ClockScale.NoFactors | src/include/clocksource/clocksource.h:113-142 | for a frequency of 1 to be converted to 2^32 - 1 no multiplier fits, and the factors left are wrong |
| ClockScale.CoversRange | src/include/clocksource/clocksource.h:118-125 | the accuracy bits leave room for the whole conversion range |
| ClockScale.EventRoundTrip | src/include/clockevent/clockevent.h:126-143 | scheduling the nanoseconds of a latch value programs exactly that value if and only if the device ticks at most once a nanosecond or the division comes out even |
| ClockScale.EventFallsShort | src/include/clockevent/clockevent.h:126-143 | a device with multiplier 3 and shift 1 gets 1599 ticks for a latch value of 1600 |
| ClockScale.EventFloor | src/driver/clockevent/clockevent.c:187-203 | where the floor of 1000 nanoseconds applies, at least the latch value is programmed |
| ClockScale.LatchToNsSaturates | src/include/clockevent/clockevent.h:126-143 | a latch value of too many nanoseconds counts as the most that 64 bits hold, and one without room to round up is rounded down |
| ClockScale.LongestIsSafe | src/include/clockevent/clockevent.h:126-143 | a longest time worked out from a latch value does not overflow when it is scheduled |
| ClockScale.ProgrammedBetween | src/driver/clockevent/clockevent.c:187-203 | for any event the ticks programmed lie between those of the shortest and the longest time of the device, and are its own if it lies between these, provided the longest does not overflow |
| ClockScale.ProgrammedInOrder | src/driver/clockevent/clockevent.c:187-203 | a later event is not programmed earlier |
| ClockScale.ProgrammedExactly | src/driver/clockevent/clockevent.c:187-203 | whatever the limits, the ticks are those of the time cut to them, the lower one winning, if and only if that time does not overflow 64 bits in the product |
| ClockScale.EventOverflows | src/driver/clockevent/clockevent.c:187-203 | a time of 2^62 nanoseconds with multiplier 4 is programmed as 0 ticks |
| ClockScale.ClockEvent.SetEventNext | src/driver/clockevent/clockevent.c:187-203 | an event in the past is refused without asking the device; for any other the device is asked once, for ticks between those of its limits, and its answer returned |
| Sdcard.SdcardBlock.MmcWriteBlocks | src/driver/sd/sdcard.c:355-393 | all blocks are written exactly when no command, nor the wait for the card, fails, and then the card has been waited for and stopped, so that it takes the next command; a failure leaves bytes outside the blocks alone |
| Sdcard.SdcardBlock.MmcReadBlocks | src/driver/sd/sdcard.c:315-353 | all blocks are read exactly when no command, nor the wait for the card, fails, and then the card has been waited for and stopped, so that it takes the next command |
| Sdcard.SdcardBlock.BlkWrite | src/driver/sd/sdcard.c:696-713 | splitting writes exactly the blocks if and only if no command fails, with no command of more than 127 blocks; a failure touches no byte outside |
| Sdcard.SdcardBlock.BlkRead | src/driver/sd/sdcard.c:677-694 | splitting reads exactly the blocks if and only if no command fails, with no command of more than 127 blocks |
| Sdcard.SdcardBlock.Write | src/driver/sd/sdcard.c:765-811 | head, whole blocks and tail: all bytes are counted, and the card is the old one with exactly the range replaced, if no command fails, and for a non-empty range only then; otherwise the bytes counted are on the card, no byte outside the range has changed, and the others in it are old or new |
| Sdcard.SdcardBlock.Read | src/driver/sd/sdcard.c:721-763 | the bytes counted are those of the card, and they are all if no command fails, and for a non-empty range only then |
| Sdcard.SdcardBlock.WriteThenRead | src/driver/sd/sdcard.c:721-811 | if no command fails what was written is read back whole; otherwise as far as both counts go |
| SdcardRegister.UnstuffIsSlice | src/driver/sd/sdcard.c:61-73 | the macro extracts exactly the slice of the 128-bit register, across word boundaries too |
| Rtc.YearStartIs | src/driver/rtc/rtc-soft.c:57-58 | the count of leap years gives the day on which a year starts |
| Rtc.FindYear | src/driver/rtc/rtc-soft.c:57-64 | the guess of the year is off by at most one and is put right |
| Rtc.FindMonth | src/driver/rtc/rtc-soft.c:68-76 | the month and day found are those of the day of the year |
| Rtc.SecsToRtcTime | src/driver/rtc/rtc-soft.c:47-81 | for every 32-bit second count the date is valid, lies that many seconds after the start of 1970, and has the right day of the week |
| Rtc.RtcTimeToSecsCounts | src/driver/rtc/rtc-soft.c:83-93 | for every valid date the formula in 32-bit arithmetic counts its seconds since 1970 modulo 2^32 |
| Rtc.SameSecond | src/driver/rtc/rtc.c:42-54 | a second belongs to only one valid date |
| Rtc.SecsRoundTrip | src/driver/rtc/rtc-soft.c:47-93 | seconds to date to seconds is the identity on 32 bits |
| Rtc.DateRoundTrip | src/driver/rtc/rtc-soft.c:47-93 | a valid date in range comes back the same, with its day of the week put right |
| Rtc.RtcSoft.SetTime | src/driver/rtc/rtc-soft.c:95-101 | a valid date sets the adjustment, an invalid one changes nothing |
| Rtc.RtcSoft.SetThenGet | src/driver/rtc/rtc-soft.c:95-109 | after setting, the clock shows the date of exactly the whole seconds passed since |
| Clk.Registry.ClkEnable | src/driver/clk/clk.c:174-188 | the recursive code performs the enabling of the model |
| Clk.Registry.ClkDisable | src/driver/clk/clk.c:190-208 | the recursive code performs the disabling of the model |
| Clk.EnableKeepsCovered | src/driver/clk/clk.c:174-188 | enabling keeps every count at least the active children and the enables that users hold, with one more held |
| Clk.DisableKeepsCovered | src/driver/clk/clk.c:190-208 | disabling an enable that is held keeps that too, all the way up |
| Clk.RunsAreCovered | src/driver/clk/clk.c:174-208 | in every state that balanced users reach, each count covers its users and its active children, and whatever is in use runs |
| Clk.OnIsCounted | src/driver/clk/clk.c:174-208 | whatever is called from rest with the gated clocks off, a gated clock is on if and only if its count is positive, and the others stay as they are |
| Clk.ActiveIsRunning | src/driver/clk/clk.c:210-224 | a clock in use has its registered parent in use, and its status is true if and only if its ancestors are all registered |
| Clk.HeldClockRuns | src/driver/regulator/regulator.c:174-224 | what somebody still holds is in use, whatever the others did, and its status is true if and only if its ancestors are all registered |
| Clk.DisableKeepsExactly | src/driver/clk/clk.c:190-208 | a disable keeps the counts covering exactly if the count exceeds the active children, or is zero and the same holds of the parent |
| Clk.HarmlessIsCovered | src/driver/clk/clk.c:174-208 | in runs of any calls from rest, the counts cover the active children after every call if and only if each disable is harmless where it is made; whatever is in use runs |
| Clk.HarmlessRunsAreSound | src/driver/clk/clk.c:174-224 | after such a run a clock in use has a true status if and only if its ancestors are all registered |
| Clk.DisableStrands | src/driver/clk/clk.c:190-208 | a disable of a clock in use only through its children leaves its count too low for them |
| Clk.DisabledUnderChild | src/driver/clk/clk.c:190-208 | a clock in use only through one child, as users reach it, is switched off under that child by one stray disable |
| Clk.RepeatedEnablesLeak | src/driver/clk/clk.c:174-208 | n enables and n disables of a child leave the parent's count up by n - 1 |
| Wifi.PrintedIsRead | src/driver/wifi/wifi-esp8266.c:303-313 | the decimal digits of a number are read as it |
| Wifi.PrintedAnnounces | src/driver/wifi/wifi-esp8266.c:303-313 | a length below 2^31 printed in decimal announces that many bytes |
| Wifi.OctalIsRead | src/driver/wifi/wifi-esp8266.c:303-313 | behind a leading zero a length counts as octal, up to the first digit that is not |
| Wifi.NoiseSkipped | src/driver/wifi/wifi-esp8266.c:268-320 | a receiver that waits for a frame skips text that falls into attempts at a head that fail, each up to the first character that does not go on with it, and delivers nothing of it |
| Wifi.NoPlusIsNoise | src/driver/wifi/wifi-esp8266.c:268-275 | text without a plus sign is such text |
| Wifi.FrameReceived | src/driver/wifi/wifi-esp8266.c:268-340 | a frame of any announced length, ended by a CR and any character or by any one other character, yields exactly its payload and leaves the receiver waiting for the next |
| Wifi.PrefixDelivered | src/driver/wifi/wifi-esp8266.c:251-349 | however far a stream of frames with any noise before, between and after them has come, what was delivered is a prefix of the payloads, and all of them at the end |
| Wifi.WaitsAfterStreams | src/driver/wifi/wifi-esp8266.c:251-349 | the receiver waits for a frame exactly where the text so far is such a stream; so what any text delivers is determined |
| Wifi.StrayPlus | src/driver/wifi/wifi-esp8266.c:268-281 | a frame right behind a stray plus sign is lost |
| Wifi.Esp8266.Consume | src/driver/wifi/wifi-esp8266.c:268-340 | one byte through the switch performs the step of the model |
| Wifi.Esp8266.Read | src/driver/wifi/wifi-esp8266.c:251-349 | over any sequence of reads and stalls the receiver's state and what was given follow from the bytes taken alone |
| Wifi.Esp8266.GivenIsPayload | src/driver/wifi/wifi-esp8266.c:251-349 | of a stream of frames among noise any sequence of reads has given a prefix of the payloads, and all of them once the line is drained |
| Wifi.MatchReply | src/driver/wifi/wifi-esp8266.c:88-121 | the reply matcher performs the steps of the model |
| Wifi.ReportedIsThere | src/driver/wifi/wifi-esp8266.c:91-114 | an OK is reported only where the reply has one |
| Wifi.ReportedExactly | src/driver/wifi/wifi-esp8266.c:91-114 | an OK is reported if and only if one comes right after text that falls into attempts that came to an end: characters other than O, and starts of OK and a line end up to the first character that does not fit |
| Wifi.StrayLetters | src/driver/wifi/wifi-esp8266.c:91-114 | of an OK behind n letters O too many, those with an even n are found |
| Wifi.StrayIsMissed | src/driver/wifi/wifi-esp8266.c:93-102 | after a stray O the matcher misses the reply |
| Gnss.HexToIntLoop | src/driver/gnss/gnss.c:123-145 | the value of hexadecimal digits as a 32-bit int, 0 if any other character is among them |
| Gnss.HexDigitIs | src/driver/gnss/gnss.c:129-143 | the hexadecimal digits and their values, letters in either case, and no others |
| Gnss.SpanIs | src/driver/gnss/gnss.c:481-490 | the token bounds enclose exactly the fields |
| Gnss.SentenceAccepted | src/driver/gnss/gnss.c:466-551 | a sentence fed from any state is accepted if and only if its checksum, read as a 32-bit int, is that of its body, with exactly its fields as tokens, and the tokenizer is back at the start |
| Gnss.LineAccepted | src/driver/gnss/gnss.c:466-551 | any line, whatever separates its fields, is accepted if and only if it has more than two and the last one is the checksum of the others; what no separator ends does not count |
| Gnss.DigitsAccepted | src/driver/gnss/gnss.c:123-145 | a sentence with any number of hexadecimal digits for a checksum is accepted if and only if their value is that of its body modulo 2^32 |
| Gnss.NineDigits | src/driver/gnss/gnss.c:123-145 | a 1 and six 0 in front of the printed checksum make another value, but the sentence is accepted |
| Gnss.NineDigitsAt | src/driver/gnss/gnss.c:123-145 | $A,*10000006D is accepted, although its checksum is 6D |
| Gnss.PrintedSentence | src/driver/gnss/gnss.c:466-551 | the checksum printed for the body is accepted, that of any other value is not |
| Gnss.Receiver.Feed | src/driver/gnss/gnss.c:473-551 | one byte through the switch performs the step of the model |
| Gnss.Receiver.Refresh | src/driver/gnss/gnss.c:457-556 | all that had come is taken; the sentences accepted follow from the bytes alone, however they were cut into pieces; the result tells whether there was one |
| SpiGpio.Lines.Cycle | src/driver/spi/spi-gpio.c:62-153 | in each of the four modes one clock cycle lets the slave sample the bit on its edge, and MISO is read while the bit that the slave shifted out on the other edge is on it |
| SpiGpio.Lines.TxRx | src/driver/spi/spi-gpio.c:62-153 | a slave that samples at its mode's edge hears the low bits of the word, most significant first; the result is what the slave sent |
| SpiGpio.Lines.Xfer | src/driver/spi/spi-gpio.c:155-222 | the slave hears all words in order, ones if there are none to send, and each word received holds what the slave sent in its turn |
| SpiGpio.OnesAreSent | src/driver/spi/spi-gpio.c:155-222 | without words to send the slave hears nothing but ones |
| Rotary.RotaryGpio.QuarterPeriodIrq | src/driver/input/rotary-gpio.c:137-165 | the interrupt performs the step of the model |
| Rotary.RotaryGpio.HalfPeriodIrq | src/driver/input/rotary-gpio.c:110-135 | the interrupt performs the step of the model |
| Rotary.QuarterIsExact | src/driver/input/rotary-gpio.c:137-165 | on every run without glitches the turns reported are exactly the displacement |
| Rotary.QuarterTellsMoves | src/driver/input/rotary-gpio.c:137-165 | on every run, with glitches of any size, it reports of each move what the lines can tell, and never gets out of step with them |
| Rotary.HalfIsClose | src/driver/input/rotary-gpio.c:110-135 | on every run without glitches from a detent, the displacement and twice the total differ by at most 1, and agree at every detent |
| Rotary.FullIsOffByStray | src/driver/input/rotary-gpio.c:79-108 | on every run without glitches from rest, the full-period decoder is off by exactly the number of returns to rest from half a period ahead less those from behind; so at rest it is right if and only if these are as many |
| Rotary.FullCanStray | src/driver/input/rotary-gpio.c:79-108 | the full-period decoder reports a turn for half a period forth and back |

## Left out

- Device registration, kobj attributes, probing, suspend and resume, device-tree reads, locks and interrupt flags around the modelled sections, and memory allocation, which is taken to succeed.
- Red-black tree insertion, and keeping the parent pointer and the colour in one word.
- RbRebalance.EraseColor: asks that the cached value of a subtree does not depend on how it is rotated, which the rotate callback relies on; the two mirror-image halves of the source are one piece of code with the side as a parameter.
- RbRebalance.RotateAway: sets the parent and colour of the inner nephew after the two rotated nodes, not before; the order of these independent stores is not observable.
- `hlist_add_fake` and `hlist_fake`; the `_safe` and `_continue` iteration macros.
- SpiNor.Spinor.Write: takes the chip as detection describes it, with an erase opcode, granularities that divide the block size, and a capacity of whole blocks below 2^31; detection itself is not modelled. A program command that leaves its page is dropped by the chip of the model, where a real one would wrap around inside the page.
- Block.SubBlock.Write: takes offset plus length to be inside the parent, as registration does not enforce it; requests for which the parent is asked for bytes beyond its end, or the buffer does not hold as many bytes as are passed on, are not modelled.
- I2cTransfer.Xfer: the slave drives SDA only in clock pulses in which the master listens; delays are left out, a stretch timeout may happen at any clock pulse, and after one nothing is claimed but that the lines are released at the end.
- I2cDecode.XferHeard: decodes messages without the protocol-changing flags, 7-bit addresses that do not begin with 11110, and 10-bit addresses.
- Sdcard.SdcardBlock.Write: takes the block lengths for reading and writing to be equal and the capacity to be whole blocks that 32-bit command arguments reach; a failing command has written a first part of its data and nothing else.
- Card identification and the capacity worked out from the CSD.
- Nvmem.Nvmem.TimerFunction: reads and writes of the medium take all bytes they are given after clamping; the hash map is a map, iterated in any order; the checksum is any function; characters of the header count as unsigned.
- Kvdb.ParseClean: text without a terminating NUL inside its length ends at that length; reading past the buffer is not modelled.
- Seqlock.ReadersSeeOneWriter: one reader at a time and sequentially consistent memory, which the barriers are there for; the spin lock itself is not modelled.
- Clocksource.ShortGapsAreInReach: that the timer fires before the deferment is over is not modelled; nor is anything past 2^64 nanoseconds.
- The helpers that turn Hz and kHz into multipliers.
- Rtc.RtcSoft.SetThenGet: asks that the date shown still is a 32-bit second count.
- Parsing and printing of the clock's text attribute.
- Clk.Registry.ClkEnable: counts are unbounded; names are only compared; the parent tree is fixed, so changing the parent of a clock in use is not modelled, nor are the rates.
- Wifi.Esp8266.Read: the length digits are kept in an unbounded sequence, so more than the 15 that the source has room for are not modelled, nor is an unsigned long of 32 bits; the bypass mode and the AT command round trips are left out.
- Gnss.Receiver.Refresh: the sentence buffer and the token table are unbounded sequences, so sentences beyond 256 bytes or 32 tokens are not modelled; what the parsers make of the tokens is left out.
- Gnss.HexToIntLoop: takes a sum beyond 32 bits to wrap around, as two's complement machines do it.
- ClockScale.LatchToNsSaturates: takes the multiplier to be positive; the source puts 1 in the place of 0.
- I2cMessage.DoMessage: a timeout in an address byte counts as a refusal, and one in a repeated start is ignored, as in the source; nothing is claimed of what is heard then.
- SpiGpio.Lines.Xfer: words are their bits, and the delays between edges are left out.
- The table of the 7-bit command checksum, whose comparison with the bit-serial form is a matter of 256 constants.
- The vibrator and other small input drivers, graphics, audio, file systems and the libraries of which only headers are here.
