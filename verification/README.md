# Verified models of ChromeOS EC modules

The embedded controller keeps structured data in flat buffers that are edited in place, shared between an
interrupt and a task, or packed bit by bit. This project restates the modules where that takes an argument
as Dafny classes, methods and functions, and proves that each of them implements the simple object it
stands for.

`dafny verify dfyconfig.toml` checks everything.

| file | source | subject |
|---|---|---|
| `CbiFormat.dfy`, `Cbi.dfy`, `CbiRun.dfy`, `CbiFaults.dfy` | `common/cbi.c`, `common/cbi_eeprom.c` | the Cros Board Info records as a map from tags to values, kept in an EEPROM; whole runs of the store, and runs over a bus that fails at times |
| `CecQueue.dfy`, `CecTransfer.dfy` | `common/cec.c` | the receive queue as a FIFO under all interleavings, what a flush does to them, and what becomes of a queue that it has spoiled; the bit cursor |
| `Crc5.dfy`, `Base32Text.dfy`, `Base32.dfy` | `common/base32.c` | base-32 text with interleaved CRC symbols |
| `Checksum.dfy`, `Crc8.dfy`, `Crc.dfy` | `common/crc8.c`, `common/crc.c` | CRC-8, CRC-16, CRC-32 against one bitwise definition |
| `Memory.dfy` | `builtin/stdlib.c` | word-wise `memcpy`, `memmove`, `memset` |
| `ChargeChoice.dfy`, `ChargeManager.dfy`, `SourcePorts.dfy` | `common/charge_manager.c` | choosing the charge port; the hunt for a port the board accepts; source current |
| `I2cTrace.dfy` | `common/i2c_trace.c` | the table of traced address ranges |
| `Terminal.dfy`, `LineEditor.dfy`, `Console.dfy` | `common/console.c` | the line editor and what the terminal shows |
| `ChargerBase.dfy` | `common/charger_base.c` | which of two batteries draws and provides what, and the order in which that is set |
| `BodyDetection.dfy`, `Ring.dfy` | `common/body_detection.c` | sliding-window variance, and the confidence with its settings |
| `FlashBanks.dfy` | `common/flash.c` | numbering of flash banks |
| `Hooks.dfy` | `common/hooks.c` | order of hook routines |
| `Chargesplash.dfy`, `Ring.dfy` | `common/chargesplash.c` | sliding-window rate limit |
| `BleHopping.dfy` | `common/bluetooth_le.c` | channel hopping |
| `Arithmetic.dfy`, `Bitwise.dfy` | - | quotients, and bit operators on natural numbers |

Buffer sizes, table sizes, port counts and the tables of a board are parameters. Boards, buses, batteries,
sensors and clocks are arguments or nondeterministic choices.

## Corner cases and differences from the documentation

The models follow the code. Where the code does not do what its comments or its callers expect, the lemmas
named here say for which inputs.

- The compile-time check on the size of the CEC receive buffer (`include/cec.h:14-16`) is one byte short:
  `CecQueue.EveryMessageFitsExactly`, `CecQueue.SizeCheckIsOneShort`.
- `cec_rx_queue_flush` resets the write offset outside the mutex. A popper that comes between the two
  stores can spoil the queue, unless the write offset was 0 already: `CecFlush.FlushIsCleanExactly`,
  `CecFlush.CleanExactly`, `CecFlush.PopBetween`. The message that the flush was to make room for is then lost unless
  it is shorter than what was popped, and later pops take old bytes for lengths: `CecFlush.HandlerBesidePop`,
  `CecFlush.PopBehindPush`.
- `base32_encode` reads one byte behind a source of exactly as many bytes as hold its bits, for some lengths:
  `Base32.StaysInsideExactly`. For whole bytes these are the lengths of `Base32.WholeBytesReadBehind`; the
  challenge of 45 bytes in `extra/rma_reset/rma_reset.c:345` is not among them.
- `include/base32.h` promises that decoding into a smaller destination yields that many bits. With CRC symbols
  it yields an error unless every symbol of the text is needed: `Base32Text.DecodedPrefix`.
- `include/crc.h:60` names the polynomial x^16 + x^15 + x^2 + 1 for `cros_crc16`. The code has
  x^16 + x^12 + x^5 + 1, and so has `Crc16`.
- The comment on `can_supply_max_current` says that a released 3 A goes to the youngest active port. It goes
  to the next active port above the released one, which is the youngest exactly if none below is active, and
  to nobody if there is none: `SourcePorts.GoesToYoungestExactly`, `SourcePorts.NoHolderExactly`, and a run in
  `SourcePorts.ReleasedCurrentIsStranded`.
- The comment in `charge_manager_get_best_port` puts the DPS port first of all. A later supplier still goes before
  it if its priority number is lower, or the same and its power above that of what was chosen in front of the
  DPS port, whatever the DPS port itself gives: `ChargeChoice.DpsIsChosenExactly`, and with the priorities of the
  repository a dedicated charger behind a PD port with DPS in `ChargeChoice.DedicatedGoesBeforeDps`. For the same
  reason a port that the board refuses can move the choice away from the DPS port: `ChargeChoice.RejectingMovesChoice`.
- A port that is kept for want of a battery may be one that the board has just refused with another supplier. It
  is left with a limit of 0: `ChargeManager.ChargeManager.Refresh`.
- A newline inside an unfinished escape sequence is swallowed: `LineEditor.NewlineEntersExactly`.
- With one history slot the line entered last is lost: `LineEditor.PreviousIsLastEntered`.
- Hook priorities above HOOK_PRIO_LAST + 1 or below HOOK_PRIO_FIRST make `hook_notify` run for ever, or call a
  routine more than once: `Hooks.NeverEnds`, `Hooks.Notify`.
- `crec_flash_bank_index` does not return -1 for every negative offset: `FlashBanks.NegativeOffsets`,
  `FlashBanks.MinusTwoBanks`.
- In the first second after boot `log_request` permits any number of requests:
  `Chargesplash.LimitHoldsExactly`, `Chargesplash.FirstSecondIsFree`.
- A confidence band wider than the threshold wraps around in `calculate_motion_confidence`:
  `BodyDetection.UnwrappedExactly`, `BodyDetection.WideBandSeesNothing`. Settings that fit an `int` cause no other
  wrap-around: `BodyDetection.ScaledSettings`.
- The smoothed battery power of the charger stays up to 127 mW above a constant measurement:
  `ChargerBase.SmoothMovesExactly`, `ChargerBase.EstimateStaysHigh`.
- The update order of lid and base keeps the total draw low except in one case with both sides providing
  power: `ChargerBase.DrawInBetween`. `base_charge_allocate_input_current_limit` never asks for that:
  `ChargerBase.DualBattery.AllocateInputCurrentLimit`.
- Under manual control without external power the margin for losses is added to the side that draws instead of the one
  that provides, so that from 10 mA on more is drawn than provided: `ChargerBase.ProvidesEnoughExactly`.
- A hop increment that is a multiple of 37 never leaves the channel: `BleHopping.EachChannelOnce`,
  `BleHopping.NoHop`.

## Model

| member | source | states |
|---|---|---|
| `CbiFormat.ParsePack` | common/cbi.c:34-73 | packing a record list into bytes and walking it gives the same records |
| `CbiFormat.PackParse` | common/cbi.c:61-73 | bytes that walk as whole records are the packing of these records |
| `CbiFormat.FindAgrees` | common/cbi.c:61-73 | the pointer walk stops at the first record with the tag, or finds none if there is none |
| `CbiFormat.SetIsUpdate` | common/cbi.c:219-246 | after a set, tags stay unique and records valid, the tag looks up as the new value, and every other tag as before |
| `CbiFormat.SetIsMapUpdate` | common/cbi.c:219-246 | the record list as a map: the old map with the tag set, or removed for size 0; on overflow the old map without the tag if its size differed |
| `CbiFormat.OverflowExactly` | common/cbi.c:232-236 | overflow happens exactly when the other records and the new one do not fit the image |
| `CbiFormat.SetTwice` | common/cbi.c:219-246 | setting a tag again to the value that a set has just stored changes nothing and fits |
| `Cbi.Store.FindTag` | common/cbi.c:61-73 | the offset that the walk over the current image finds |
| `Cbi.Store.RemoveTag` | common/cbi.c:208-217 | memmove and size update take exactly this record out of the image |
| `Cbi.Store.SetBoardInfo` | common/cbi.c:219-246 | the image becomes that of the updated record list, the header before the size field is kept, and the result says whether it fitted |
| `Cbi.Store.EepromWrite` | common/cbi_eeprom.c:42-64 | with a working bus all bytes up to the total size reach the EEPROM page by page and no others change; after an error it holds the new bytes up to the end of some block and the old ones from there on |
| `Cbi.WriteInsidePage` | common/cbi_eeprom.c:47-58 | a block that stays inside an EEPROM page is stored where it was addressed, although addresses wrap at the page end |
| `Cbi.Store.DoCbiRead` | common/cbi.c:109-156 | over a working bus the result, in terms of the stored bytes: read exactly if they begin with "CBI", the major version is 0, the total size is from 8 up to that of the cache, and the CRC-8 of what follows it is the CRC byte; a wrong size gives Overflow and anything else Inval |
| `Cbi.CheckExactly` | common/cbi.c:119-153 | the same of the checks that every other result here refers to |
| `Cbi.ExampleRecords` | include/cros_board_info.h:34-58 | the records of an image given byte by byte |
| `Cbi.Store.GetBoardInfo` | common/cbi.c:184-206 | delivers the value of the tag with zeros behind it, the error for a small buffer or a missing tag, and loads the cache first if needed; a synced cache answers whatever the EEPROM holds |
| `Cbi.Store.CommonCbiSet` | common/cbi.c:348-400 | which requests are refused; otherwise cache and, unless told not to, EEPROM end with the updated record list, sealed and passing all checks; after a failed write the cache has the update, so that the set can be repeated |
| `CbiRun.RunCommands` | common/cbi.c:158-400 | every sequence of sets, reads and invalidations over a working bus keeps cache and EEPROM well-formed and answers as the same sequence on record lists |
| `CbiRun.SetDoes` | common/cbi.c:348-400 | when a set is refused, cannot be read for, does not fit or succeeds, and what cache and EEPROM have for every tag afterwards; one that starts anew leaves no other tag |
| `CbiRun.SetIsKept` | common/cbi.c:158-400 | what a synced set has stored is read back after every such sequence that does not set the tag or start anew, whatever becomes of the cache |
| `CbiFaults.RunWithFaults` | common/cbi.c:158-400 | every sequence of sets and reads over a bus that works or may fail at each of them: a command does what it does over a working bus, or fails to load the cache and changes nothing, or fails to write, with the update in the cache and a torn EEPROM |
| `CbiFaults.FaultIs` | common/cbi.c:348-400 | what a set leaves behind on a bus that fails: nothing has changed, or the write failed; one that is not allowed is refused whatever the bus does, and one answered with success is in the EEPROM |
| `CbiFaults.SetIsKeptThroughFaults` | common/cbi.c:158-400 | in every such run, what a set answered with success has stored is read back until the tag is set again or a set starts anew, except where the bus does not let a read load the cache |
| `CbiFaults.RetryMends` | common/cbi.c:348-400 | a set that failed for the bus can be repeated: with the bus back it answers and stores what it would have the first time |
| `Cbi.SetThenRestart` | common/cbi.c:109-206 | after a synced set a fresh cache over the same EEPROM reads back exactly the updated records |
| `Cbi.CorruptionIsDetected` | common/cbi.c:119-153 | an image with one byte corrupted outside the size field no longer passes the checks |
| `Cbi.CheckPrefix` | common/cbi.c:109-156 | whether an image passes the checks depends on nothing behind its records |
| `CecInterleaving.RunRefines` | common/cec.c:149-220 | every interleaving of byte-level steps of a pusher and a popper is a run of a FIFO of whole messages |
| `CecInterleaving.NothingLost` | common/cec.c:149-220 | what was accepted is what was delivered, is being popped and is queued, in order; no corrupt length is ever met; "empty" is only said when all was delivered |
| `CecInterleaving.BeginsWithoutLength` | common/cec.c:158-161 | a message that is being pushed has the length 0, which a popper takes for a corrupt queue |
| `CecInterleaving.PushAloneExactly` | common/cec.c:149-187 | an uncontended push succeeds exactly if used + 1 + length < size, and a failed one changes nothing visible |
| `CecInterleaving.PushesExactly` | common/cec.c:149-187 | the same whatever the bytes in use are: a push succeeds exactly if there is room, adds the length and the message behind them and leaves them alone |
| `CecInterleaving.PopAloneExactly` | common/cec.c:189-220 | an uncontended pop returns the oldest message whole, or says that there is none |
| `CecQueue.RxQueue.Push` | common/cec.c:149-187 | the code performs the pusher's steps; result and new contents of the queue |
| `CecQueue.RxQueue.Pop` | common/cec.c:189-220 | the code performs the popper's steps; result and new contents of the queue |
| `CecQueue.RxQueue.HandleReceived` | common/cec.c:459-501 | a full queue is dropped in favour of the new message |
| `CecFlush.CleanExactly` | common/cec.c:83-89 | which states of the popper leave the queue empty when the write offset is reset |
| `CecFlush.FlushIsCleanExactly` | common/cec.c:83-89 | the queue is empty after a flush however far a popper gets between its two halves exactly if the write offset was 0; a popper that has not compared the offsets does no harm |
| `CecFlush.PopBetween` | common/cec.c:83-89 | otherwise a popper that begins between the halves takes as many bytes from the start of the buffer as the byte there says and leaves the rest in use; if that byte is no lawful length, it reports a corrupt queue and the flush is clean |
| `CecFlush.PopsExactly` | common/cec.c:189-220 | what a pop yields and leaves in every state, whether its offsets stand for messages or not |
| `CecFlush.PushInFront` | common/cec.c:149-187 | the push behind a spoiled flush succeeds exactly for a message shorter than what was popped, and leaves the bytes in use alone |
| `CecFlush.PopBehindPush` | common/cec.c:149-220 | the pop behind it takes an old byte for a length; if that is not a lawful one, nothing changes, so that all later pops fail too |
| `CecFlush.HandlerBesidePop` | common/cec.c:459-501 | the handler of a full queue with a popper between the halves of its flush: when the new message is queued, and where the offsets are then |
| `CecQueue.EveryMessageFitsExactly` | include/cec.h:14-16 | every message fits an empty queue exactly if the buffer has MAX_CEC_MSG_LEN + 2 bytes |
| `CecQueue.SizeCheckIsOneShort` | include/cec.h:14-16 | a buffer size passes the compile-time check that cannot take every message |
| `CecTransfer.WireBitIs` | common/cec.c:46-64 | the order of the bits: the first one of a byte is its highest |
| `CecTransfer.Transfer.SetBit` | common/cec.c:54-64 | exactly the bit under the cursor changes, none behind the end of the buffer |
| `CecTransfer.Transfer.IncBit` | common/cec.c:66-74 | the cursor moves by one bit and stops at the end of the buffer |
| `CecTransfer.Transfer.IsEom` | common/cec.c:76-81 | says that the given number of bytes has passed |
| `CecTransfer.Transfer.ReceiveBits` | common/cec.c:54-74 | bits written one after the other are the bits of the message |
| `CecTransfer.Transfer.SendBits` | common/cec.c:46-74 | bits read one after the other are the bits of the message |
| `Crc5.Crc5IsShiftRegister` | common/base32.c:12-24 | the two tables are the shift register with generator x^5 + x^2 + 1 stepped eight times |
| `Crc5.Crc5SeesSymbol` | common/base32.c:20-24 | for every register value different symbols give different results |
| `Crc5.Crc5KeepsState` | common/base32.c:20-24 | a later symbol does not hide that registers differ |
| `Crc5.Crc5SeesSwap` | common/base32.c:20-24 | swapping two different symbols changes the result |
| `Crc5.Crc5SeesCrcSwap` | common/base32.c:20-24 | a symbol cannot change places with its own CRC unless they are equal |
| `Crc5.KnownCrc` | test/base32.c:105-105 | the CRC of the first four symbols of a known text is the symbol that follows them there |
| `Base32.Base32IsReadable` | common/base32.c:26-45 | every symbol is recovered from its character; none is white space, a dash or NUL |
| `Base32.Base32SeesErrors` | common/base32.c:12-24 | the CRC of the program has all properties that error detection needs |
| `Base32.WindowIsGroup` | common/base32.c:71-91 | the shifts and masks cut out the group of five bits, padded with zeros, whatever the byte behind the last bit is |
| `Base32.StaysInsideExactly` | common/base32.c:71-84 | the loop stays inside a source exactly if it has the bytes of its bits, and one more where the last symbol reads on |
| `Base32.WholeBytesReadBehind` | common/base32.c:71-84 | for sources of whole bytes, the lengths for which that one more byte is read |
| `Base32.KnownText` | test/base32.c:95-95 | a known text |
| `Base32.Encode` | common/base32.c:47-108 | encoding succeeds exactly for whole CRC groups and enough room, and then writes the terminated text; otherwise the empty string |
| `Base32.TakeBits` | common/base32.c:146-169 | the bits used of a symbol are appended across byte boundaries, the last byte zero-filled |
| `Base32.HoldsAt` | common/base32.c:146-169 | which bit of the destination is which bit of the result; the rest of the last byte is zero |
| `Base32.Decode` | common/base32.c:110-172 | the loop computes the decoded bits or -1 and writes no byte behind the destination length |
| `Base32Text.RoundTrip` | common/base32.c:47-172 | for every number of bits and every CRC period that encoding accepts, decoding gives the bits back |
| `Base32Text.DecodedPrefix` | common/base32.c:139-144 | what decoding an encoded text gives for any destination length |
| `Base32Text.SpacesDoNotMatter` | common/base32.c:119-120 | texts that differ in white space and dashes only decode to the same |
| `Base32Text.SpacesCanBeInserted` | common/base32.c:119-120 | white space or dashes put in anywhere do not change the result |
| `Base32Text.SubstitutionIsRejected` | common/base32.c:126-137 | no symbol of an accepted text with a CRC can be replaced by another unnoticed |
| `Base32Text.TranspositionIsRejected` | common/base32.c:126-137 | no two different neighbouring symbols of it can change places unnoticed |
| `Base32Text.AcceptedIsWhole` | common/base32.c:168-169 | an accepted text with a CRC has whole groups and is read to its end |
| `Base32Text.ReadToTheEnd` | common/base32.c:119-124 | a text that is read to its end has only white space, dashes and characters of the table |
| `Base32Text.ForeignIsRejected` | common/base32.c:119-124 | any other character, put in anywhere in front of where reading stops, makes the program refuse the text |
| `Base32.TyposAreRefused` | common/base32.c:110-172 | both for the table and CRC of the program |
| `Base32.EncodeThenDecode` | common/base32.c:47-172 | the two methods one after the other restore the source bits in memory |
| `Base32Text.SymbolAt` | common/base32.c:71-105 | where each symbol stands in the text, behind the CRC symbols of the groups in front |
| `Base32Text.CrcAt` | common/base32.c:96-104 | behind each group stands its CRC, which begins anew with the group |
| `Checksum.FoldConcat` | common/crc.c:59-71 | hashing in pieces is hashing the whole |
| `Checksum.StepsAreFeeds` | common/crc8.c:19-26 | adding a word and stepping is the same as feeding its bits one by one |
| `Checksum.BurstIsDetected` | common/crc.c:131-149 | for every lawful register, changing bits within a stretch no longer than the register changes the result of any message |
| `Checksum.ByteChangesAreDetected` | common/crc.c:131-149 | so does changing as many adjacent bytes as the register holds |
| `Checksum.ToBitsAt` | common/crc.c:139-139 | the order in which the bits of a number are taken in |
| `Checksum.PatternOfByte` | common/crc.c:139-139 | put together again they are the byte that the program adds |
| `Crc8.CrosCrc8Arg` | common/crc8.c:13-28 | the nested loops compute the CRC defined bit by bit |
| `Crc8.CrcOfAppended` | common/crc8.c:19-26 | one byte more: it is added to the register and eight steps follow, in words and without bits |
| `Crc8.KnownAnswer` | test/crc.c:74-84 | a known CRC-8 |
| `Crc8.BurstIsDetected` | common/crc8.c:13-28 | every burst of up to 8 bits changes the CRC-8 of any message |
| `Crc8.OneByteChangeIsDetected` | common/crc8.c:13-28 | changing one byte of any message changes its CRC-8 |
| `Crc16.CrosCrc16` | common/crc.c:131-149 | the nested loops compute the CRC defined bit by bit |
| `Crc16.CrcOfAppended` | common/crc.c:138-146 | the same for the CRC-16 |
| `Crc16.KnownAnswer` | test/crc.c:86-100 | a known CRC-16 |
| `Crc16.BurstIsDetected` | common/crc.c:131-149 | every burst of up to 16 bits changes the CRC-16 of any message |
| `Crc16.ByteChangesAreDetected` | common/crc.c:131-149 | changing up to two adjacent bytes of any message changes its CRC-16 |
| `Crc32.TableSteps` | common/crc.c:12-57 | each of the 256 table entries is its index stepped eight times |
| `Crc32.Crc32Hash` | common/crc.c:59-71 | the table look-ups compute the CRC defined bit by bit |
| `Crc32.CrcOfAppended` | common/crc.c:59-71 | and for the CRC-32 |
| `Crc32.KnownAnswer` | common/crc.c:12-14 | the second entry of the table as a CRC-32 |
| `Crc32.Context.Hash` | common/crc.c:78-81 | the context always stands for the concatenation of all chunks hashed |
| `Crc32.BurstIsDetected` | common/crc.c:59-71 | every burst of up to 32 bits changes the CRC-32 of any message |
| `Crc32.ByteChangesAreDetected` | common/crc.c:59-71 | changing up to four adjacent bytes of any message changes its CRC-32 |
| `Memory.Memcpy` | builtin/stdlib.c:290-331 | the head, word and tail loops copy exactly these bytes, also for overlapping buffers with dest below src |
| `Memory.Memmove` | builtin/stdlib.c:374-424 | dest gets the original source bytes for every length, alignment and overlap; nothing else changes |
| `Memory.Memset` | builtin/stdlib.c:335-370 | the loops fill exactly these bytes |
| `Memory.MovedAt` | builtin/stdlib.c:374-424 | the result of a copy, byte by byte |
| `Memory.FilledAt` | builtin/stdlib.c:335-370 | the result of a fill, byte by byte |
| `ChargeChoice.BestIsLexicographic` | common/charge_manager.c:675-747 | without an override and DPS the choice has the lowest priority number, then the largest product of current and voltage, then the active port, with ties in the order of the scan; nothing is chosen only if nothing is eligible |
| `ChargeChoice.PowerDecides` | common/charge_manager.c:704-738 | of two ports with the same supplier that with the smaller current is chosen, for its larger product |
| `ChargeChoice.OverrideIsChosen` | common/charge_manager.c:693-695 | an override port with an eligible supplier is chosen, with its best supplier |
| `ChargeChoice.DpsIsChosenExactly` | common/charge_manager.c:709-747 | when the scan, having selected the DPS port and left the row, ends with that port |
| `ChargeChoice.DedicatedGoesBeforeDps` | common/charge_manager.c:709-747 | with the priorities of the repository (dedicated 0, PD 1, dedicated later in the table) a view where the scan selects the DPS port and ends with a weaker dedicated charger |
| `ChargeChoice.ChoiceIsEligible` | common/charge_manager.c:675-747 | with DPS or without, what the scan chooses is a slot with charge that may be charged from |
| `ChargeChoice.BestIsUnique` | common/charge_manager.c:675-747 | at most one slot is the best choice of a view |
| `ChargeChoice.ChoiceIsUnique` | common/charge_manager.c:652-764 | with DPS or without, at most one choice meets the description of the scan |
| `ChargeChoice.ScanFindsBest` | common/charge_manager.c:675-747 | what the scan keeps up slot by slot is that choice at its end |
| `ChargeChoice.StepKeepsBest` | common/charge_manager.c:718-744 | the comparison of the scan keeps the best of the slots seen so far |
| `ChargeChoice.RejectingOthers` | common/charge_manager.c:819-827 | clearing other ports than the chosen one leaves the best choice of a view as it is |
| `ChargeChoice.RejectingOthersWithoutDps` | common/charge_manager.c:652-827 | and the choice of the scan, unless it selects the DPS port |
| `ChargeChoice.RejectingMovesChoice` | common/charge_manager.c:652-827 | with DPS it can move the choice: a view of three ports and the one with its first port cleared |
| `ChargeManager.ChargeManager.constructor` | common/charge_manager.c:220-240 | the tables before any supplier has reported |
| `ChargeManager.ChargeManager.GetBestPort` | common/charge_manager.c:652-764 | the nested loops find the best choice, or with DPS that of the view behind the DPS port; without a usable battery the active port is kept |
| `ChargeManager.ChargeManager.ChoiceIsAllowed` | common/charge_manager.c:675-703 | in terms of the tables: what may be chosen, and that nothing is chosen only if there is nothing of that kind |
| `ChargeManager.ChargeManager.GetCeil` | common/charge_manager.c:627-643 | the least ceiling that is set, or none |
| `ChargeManager.ChargeManager.Hunt` | common/charge_manager.c:782-828 | the hunt ends for every board that accepts NONE; every refused port had charge and has none afterwards, other ports keep theirs; the chosen port is the last accepted one or the active one |
| `ChargeManager.HuntIs` | common/charge_manager.c:782-828 | the same call by call and slot by slot: the refusals, each once, the acceptance last, and which charge is gone |
| `ChargeManager.ChargeManager.Refresh` | common/charge_manager.c:770-937 | the state after a refresh: best choice for the charge that is left or the kept port, override cleared if not chosen, current capped by the ceilings; a kept port that the board has refused ends without current; in safe mode nothing changes if there is no port |
| `ChargeManager.ChargeManager.Settle` | common/charge_manager.c:830-937 | limits, the PD current, override and which ports are reported as changed |
| `ChargeManager.PickHasCharge` | common/charge_manager.c:819-827 | a chosen port was not refused before, so the hunt makes progress |
| `SourcePorts.SourcePolicy.SourcePort` | common/charge_manager.c:1455-1488 | at most one port offers 3 A, it is active, an active holder keeps it, and otherwise it goes to the next active port above |
| `SourcePorts.NoHolderExactly` | common/charge_manager.c:1427-1453 | nobody has 3 A exactly if all active ports are below an inactive former holder |
| `SourcePorts.GoesToYoungestExactly` | common/charge_manager.c:1427-1453 | a released 3 A goes to the youngest active port exactly if no port below the released one is active |
| `SourcePorts.ReleasedCurrentIsStranded` | common/charge_manager.c:1455-1488 | a run of three calls after which a port is active and nobody has 3 A |
| `SourcePorts.TotalIsBounded` | common/charge_manager.c:119-123 | the total current is the default of all ports plus one difference |
| `I2cTrace.Trace.Enable` | common/i2c_trace.c:94-154 | the traced set becomes its union with the range, ranges stay disjoint and non-adjacent, the recursion ends; out of space exactly if the range is apart from all and no entry is free, with the table unchanged |
| `I2cTrace.Trace.Disable` | common/i2c_trace.c:85-92 | exactly the addresses of the entry are no longer traced |
| `I2cTrace.Trace.Notify` | common/i2c_trace.c:26-38 | a transaction is printed exactly if its address is in the traced set |
| `I2cTrace.AbsorbedIsTraced` | common/i2c_trace.c:115-141 | switching off a touching entry and adding the covering range loses and adds no address but those asked for |
| `I2cTrace.SameRanges` | common/i2c_trace.c:94-154 | the table is a normal form: tables that trace the same have the same ranges |
| `Terminal.FeedControl` | common/console.c:284-318 | the printed control sequence with its decimal number moves the cursor that far |
| `Terminal.ControlMoves` | common/console.c:284-318 | which of the two sequences moves to the right and which to the left, and how far at the edge |
| `Terminal.ControlBytes` | common/console.c:284-318 | their bytes |
| `Terminal.ByteShows` | common/console.c:284-383 | what single bytes do: a character is put over the one at the cursor, a backspace only moves |
| `Terminal.ShowsIs` | common/console.c:339-383 | what the screen has cell by cell when it shows a line |
| `Terminal.ShowsInserted` | common/console.c:636-647 | printing a character and the rest of the line and going back shows the line with the character inserted |
| `Terminal.ShowsDeleted` | common/console.c:370-383 | the output of a backspace shows the line without the character |
| `Terminal.ShowsLoaded` | common/console.c:339-348 | printing a history line over another one leaves nothing of the old one visible |
| `LineEditor.TypedText` | common/console.c:626-651 | typing a text puts as much of it as fits in front of the cursor |
| `LineEditor.BackspaceUndoesInsert` | common/console.c:364-387 | typing a character and rubbing it out changes nothing, if there was room for it |
| `LineEditor.MovesAreInverse` | common/console.c:284-309 | moving left and right undo each other |
| `LineEditor.DeleteTakesNext` | common/console.c:503-514 | delete takes the character right of the cursor |
| `LineEditor.NewlinesAreOne` | common/console.c:478-487 | CR, LF and CR LF enter the line once, and do the same once inside an escape sequence |
| `LineEditor.NewlineEntersExactly` | common/console.c:478-499 | a newline enters the line exactly outside an escape sequence |
| `LineEditor.EscapeSequence` | common/console.c:395-461 | every whole escape sequence does what its key does; one that stands for no key ends with its first letter or tilde and changes nothing |
| `LineEditor.TerminatorIs` | common/console.c:389-431 | what ends a sequence, by its codes |
| `LineEditor.ArrowKeys` | common/console.c:395-461 | the sequences of the arrow keys, byte by byte |
| `LineEditor.TildeKeys` | common/console.c:395-461 | those of home, delete and end |
| `LineEditor.EndKey` | common/console.c:395-461 | the other one of end |
| `LineEditor.InsideSequence` | common/console.c:395-461 | until its end a sequence changes nothing but its own state |
| `LineEditor.PreviousThenFollowing` | common/console.c:599-621 | going up and down in the history restores the line being edited |
| `LineEditor.PreviousIsLastEntered` | common/console.c:599-609 | the previous line of a fresh prompt is the last one entered, or empty if there is one slot only |
| `LineEditor.HistoryIsInOrder` | common/console.c:534-609 | going back k times shows the line entered as the k-th last one, as long as there are slots |
| `LineEditor.MovingCharacters` | common/console.c:516-621 | the control characters that move the cursor or go through the history, by their codes |
| `LineEditor.DeletingCharacters` | common/console.c:502-560 | those that take something off the line |
| `LineEditor.OtherCharacters` | common/console.c:464-653 | all others that do not print leave the line as it is |
| `LineEditor.ReceiveKeepsWellFormed` | common/console.c:464-653 | no input makes a line or history slot overflow its buffer or hold a character that does not print |
| `Console.Console.HandleBackspace` | common/console.c:364-387 | the buffer, moved by memmove, and the screen both lose the character in front of the cursor |
| `Console.Console.LoadHistory` | common/console.c:334-350 | the buffer and the screen both show the slot |
| `Console.Console.HandleChar` | common/console.c:464-653 | one character: the buffer becomes the edited line, terminated and within its size, and the terminal shows prompt, line and cursor; behind a Control-L nothing else |
| `Console.Console.HandleAll` | common/console.c:464-653 | the same for every sequence of characters |
| `ChargerBase.Split` | common/charger_base.c:481-498 | the allocations in their order give the base its share and the lid everything else |
| `ChargerBase.SharesByPriority` | common/charger_base.c:481-498 | what the order means, for estimates below zero too: base system, then lid, then base battery, and who gets nothing until whom is served |
| `ChargerBase.CurrentsFit` | common/charger_base.c:503-510 | the truncated currents of any split, even with a negative share, do not exceed the input limit |
| `ChargerBase.CurrentIs` | common/charger_base.c:503-504 | the current of a power at a voltage, cut off toward zero |
| `ChargerBase.MarginIs` | common/charger_base.c:254-257 | a margin in 128ths, of either sign, cut off toward zero |
| `ChargerBase.PowerIs` | common/charger_base.c:442-459 | the power of a measured current and voltage, cut off to mW |
| `ChargerBase.EstimateIs` | common/charger_base.c:441-463 | how the estimate for a battery follows a measurement: down by one 128th of the way at a time, up at once, and never above what the battery wants |
| `ChargerBase.SmoothIsBetween` | common/charger_base.c:241-249 | a smoothed value is between the old and the new one and never negative |
| `ChargerBase.SmoothMovesBy` | common/charger_base.c:241-249 | how far an estimate moves toward a measurement |
| `ChargerBase.SmoothMovesExactly` | common/charger_base.c:241-249 | the estimate moves exactly if the distance times the factor reaches 128 |
| `ChargerBase.EstimateStaysHigh` | common/charger_base.c:106-106 | with the battery factor a distance of 127 mW is never made up |
| `ChargerBase.DrawInBetween` | common/charger_base.c:185-197 | between the two updates the total draw is above both totals exactly in one case with both sides providing power |
| `ChargerBase.ProvidesEnoughExactly` | common/charger_base.c:326-417 | without external power one side draws no more than the other provides exactly if manual control does not ask for 10 mA or more; never do both provide |
| `ChargerBase.DualBattery.SetBaseLidCurrent` | common/charger_base.c:165-235 | the totals that occur on the way, and what the charger of the lid has been told when one of its calls fails |
| `ChargerBase.DualBattery.AllocateWithAc` | common/charger_base.c:420-515 | the branch with external power and without manual control: conservation, and currents within the limit and the lid-to-base cap |
| `ChargerBase.DualBattery.AllocateInputCurrentLimit` | common/charger_base.c:260-520 | the whole function with all its branches: which side provides and which draws, and how much, for each of them; once both sides have taken what is decided, no total on the way is above both the old total and the input limit, except under manual control without external power |
| `BodyDetection.VarianceBySums` | common/body_detection.c:42-46 | the sum of squared distances of all pairs is n * sum of squares - square of sum, and not negative |
| `BodyDetection.WindowStep` | common/body_detection.c:54-79 | the update formula is exact for the sum and the scaled variance |
| `BodyDetection.WindowVarianceIs` | common/body_detection.c:90-94 | the variance that is evaluated: that of both axes together, cut off |
| `BodyDetection.Motion.Update` | common/body_detection.c:68-79 | history, sum and scaled variance of an axis stay those of the window |
| `BodyDetection.Detector.BodyDetect` | common/body_detection.c:240-274 | the variance is used only when the window holds the last n samples since the reset and is theirs; the body is gone only after enough quiet evaluations |
| `BodyDetection.Detector.Evaluate` | common/body_detection.c:255-273 | the next state and time without motion, and why a body is taken to be there or gone |
| `BodyDetection.Detector.GoneAfterQuiet` | common/body_detection.c:255-273 | a body is there for the given number of windows of evaluations without motion, and gone then |
| `BodyDetection.Detector.Reset` | common/body_detection.c:151-238 | a reset empties the windows and scales the settings in force to threshold and band, unless the sensor is suspended |
| `BodyDetection.InForceIs` | common/body_detection.c:211-228 | which of the settings are those of the sensor and which the defaults |
| `BodyDetection.WindowSizeIs` | common/body_detection.c:146-155 | the window has the samples of one second, as far as there is room |
| `BodyDetection.UnwrappedIs` | common/body_detection.c:96-104 | the confidence meant: 0 below the band, 100 above it, in between its share of it in percent |
| `BodyDetection.UnwrappedExactly` | common/body_detection.c:96-104 | for all settings with a band: every 64-bit variance gets the confidence of the formula without wrap-around exactly if the band is not wider than the threshold, ends inside the number range and is narrower than 2^64 / 200 |
| `BodyDetection.ConfidenceIsMonotone` | common/body_detection.c:96-104 | the half of it that promises, for every variance |
| `BodyDetection.MonotoneExactly` | common/body_detection.c:96-104 | for all settings with a band: more motion never lowers the confidence exactly under a condition on the two |
| `BodyDetection.ConfidenceIsPercentage` | common/body_detection.c:96-104 | it is between 0 and 100 for all settings that do not divide by zero |
| `BodyDetection.WideBandSeesNothing` | common/body_detection.c:96-104 | the confidence of every variance if the band is wider than the threshold |
| `BodyDetection.ScaledSettings` | common/body_detection.c:151-189 | settings that fit an `int` do not wrap around when scaled or used; which leave a band; the confidence never falls for them |
| `BodyDetection.ScaledConfidence` | common/body_detection.c:96-189 | with a band not wider than the threshold the program's own settings give the confidence meant for every variance |
| `FlashBanks.IndexOfStart` | common/flash.c:179-231 | the start of a bank has the index of the bank, up to the end of the flash |
| `FlashBanks.StartOfIndex` | common/flash.c:179-231 | an offset with an index is the start of that bank |
| `FlashBanks.NoIndexExactly` | common/flash.c:179-201 | the other offsets that are not negative have none |
| `FlashBanks.NegativeOffsets` | common/flash.c:179-201 | which negative offsets give -1 |
| `FlashBanks.BankCountAdds` | common/flash.c:203-211 | adjacent ranges add up |
| `FlashBanks.BankCountIs` | common/flash.c:203-211 | between the starts of two banks lie as many as their numbers differ by |
| `FlashBanks.NoBankCount` | common/flash.c:203-211 | a range that does not begin or does not end with a bank gives -1 |
| `FlashBanks.FlashBankIndex` | common/flash.c:179-201 | the loop computes the index function for every offset |
| `FlashBanks.FlashBankStartOffset` | common/flash.c:213-231 | the sum of the sizes of the banks in front, or -1 |
| `FlashBanks.KnownStarts` | common/flash.c:213-231 | where banks start in a flash with three sizes of banks |
| `FlashBanks.FlashBankInfo` | common/flash.c:141-151 | the region of a bank, or none; the first region for a negative number |
| `FlashBanks.FlashBankCount` | common/flash.c:203-211 | the difference of the two indices, or -1 |
| `Hooks.Notify` | common/hooks.c:109-141 | each routine is called once, in ascending priority and table order, exactly if all priorities are in range |
| `Hooks.ScheduleInOrder` | common/hooks.c:125-141 | the schedule is ordered by priority and then by place in the table, without repetition |
| `Hooks.ScheduleHas` | common/hooks.c:125-141 | it has exactly the routines with priorities in range |
| `Hooks.NeverEnds` | common/hooks.c:125-141 | with a priority out of range and none at HOOK_PRIO_LAST + 1 no number of passes makes enough calls |
| `Chargesplash.RateIsLimited` | common/chargesplash.c:92-112 | no span shorter than the period has more permitted requests than the log has slots |
| `Chargesplash.UnlockedByPause` | common/chargesplash.c:73-85 | while locked out a request is permitted exactly if it comes a period after the one before it |
| `Chargesplash.LockedWithoutPause` | common/chargesplash.c:73-112 | requests stay refused until there is such a pause |
| `Chargesplash.RefusedExactly` | common/chargesplash.c:73-112 | refused are exactly the requests that are one of too many within a period themselves, or have come without a pause since one that was |
| `Chargesplash.LimitHoldsExactly` | common/chargesplash.c:59-112 | the limit holds for all spans that begin at a time exactly if it is 1 or later |
| `Chargesplash.FirstSecondIsFree` | common/chargesplash.c:59-67 | at time 0 everything is permitted |
| `Chargesplash.RequestLog.LogRequest` | common/chargesplash.c:92-112 | the circular log decides as the function of all requests since the reset does |
| `Chargesplash.RequestLog.ResetState` | common/chargesplash.c:115-121 | a reset forgets all requests, wherever the log pointer is |
| `Ring.KeepsAppended` | common/chargesplash.c:109-110 | writing over the oldest slot keeps the last n values |
| `BleHopping.RemappingTable.GetNextDataChannel` | common/bluetooth_le.c:69-81 | the next channel is a used one, and the next unmapped channel if that is used |
| `BleHopping.RemappingTable.FillIndex` | common/bluetooth_le.c:62-64 | the index lists the used channels |
| `BleHopping.UsedIs` | common/bluetooth_le.c:55-60 | the order of the channels in the map: channel 0 is the lowest bit of the first byte |
| `BleHopping.EachChannelOnce` | common/bluetooth_le.c:71-72 | of any 37 consecutive hops exactly one leads to each channel if the increment is not a multiple of 37 |
| `BleHopping.FullCycle` | common/bluetooth_le.c:69-81 | 37 calls go through every unmapped channel once, deliver every used channel and end where they began |
| `BleHopping.NoHop` | common/bluetooth_le.c:71-72 | with a multiple of 37 the channel never changes |

## Left out

- Integer widths: `int` is unbounded except where a narrower store or an unsigned wrap-around matters (bytes, CRC registers, base-32 stores, the confidence band); overflow of 32-bit sums and products is not modelled.
- `Cbi.Store.StoredWell`: where the program takes its records from the EEPROM, an image there that passes the checks is taken to hold whole records with unique tags, as this code writes them; images made by other tools, and those torn by a bus fault that the CRC does not show, are not modelled there.
- `Cbi.Eeprom`: bus faults are nondeterministic errors between blocks; a block of 8 bytes is written whole or not at all, and write delays are left out.
- `CbiFaults.RunWithFaults`: the cache is not invalidated in these runs, since what is loaded from a torn EEPROM is not modelled.
- `cbi_get_board_info` and `cbi_set_board_info` wrappers for single tags, the override of values by boards, the GPIO and flash back ends, and console printing of CBI.
- `CecQueue.RxQueue.Flush`: proved for a queue nobody else uses; its two halves beside a popper are in `CecFlush`, with one pop between them and whole pushes and pops behind them.
- `CecInterleaving.RunRefines`: memory accesses of the two sides are sequentially consistent, and the mutex leaves one popper at a time.
- `CecQueue.RxQueue.HandleReceived`: offline message processing and the events sent to the host are left out; its flush has no popper beside it here, see `CecFlush.HandlerBesidePop`.
- `Base32.Encode`: the source has the bytes that the program reads, which for some lengths is one more than hold its bits (`Base32.BytesRead`); the result does not depend on that byte.
- `Base32.Decode`: the table and CRC of the program are passed in as `BASE32`.
- `Memory.Memcpy`: a buffer is a byte array with an address; word accesses are four byte accesses at an aligned address, in the order of a little-endian machine.
- `ChargeManager.ChargeManager.GetBestPort`: other tasks do not change the available charge or the DPS port while a scan is on.
- `ChargeManager.ChargeManager.Refresh`: charge ramp, OCPC, external power, logging and power swap requests are left out; which port they concern is an out-parameter of `Settle`.
- `ChargeManager.ChargeManager.Settle`: the configuration without a hardware charge ramp, which would replace the uncapped current by its maximum; the power swap of the old port and logging.
- Charge manager: delayed overrides, seeding, and the reports of suppliers that lead to a refresh.
- `SourcePorts.SourcePolicy.SourcePort`: typec current limits and logging that follow each assignment.
- `I2cTrace.Trace.Notify`: printing the data.
- `Console.Console.HandleChar`: command dispatch, line wrapping and other output on the terminal; a history slot is the text in it, without the bytes behind its terminator; the banner in front of the first prompt.
- `ChargerBase.DualBattery.AllocateInputCurrentLimit`: hibernating a base that is still there when the system is off, whether the battery of the lid may be charged, and the flags of single battery values, which come as one validity per measurement.
- `ChargerBase.DrawInBetween`: if a side does not answer, only the totals that then occur are stated.
- `BodyDetection.Detector.Reset`: the settings in force fit an `int` together with the noise and leave a band of some width (`BodyDetection.ScaledSettings` says which do); spoof mode and state change events are left out.
- `Hooks.Notify`: the routines themselves, deferred calls and statistics; it is stated for tables on which the loop ends, and `Hooks.NeverEnds` covers the others.
- Chargesplash: power sequencing and the display state around `request_chargesplash`.
- BLE: advertising packets and radio registers.
- Charge ramp, host command packets, and the search of the host command table, whose arguments are of the same kind as those above.
