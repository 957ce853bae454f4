# Verified model of the devkit's storage, strings, serial queue and text protocols

This project models the parts of the Arduino core for the board that hold real algorithms, and
proves what they do. `dafny verify dfyconfig.toml` checks all of it.

* **Serial queue.** `RingBuffer.dfy` is the class over its array. `RingProtocol.dfy` splits `putc`
  and `getc` into single memory accesses of two threads; `BufferedSerial.dfy` adds the thread's
  `putc`/`puts`/`write`/`prime`, the transmit interrupt and the hardware as a state machine whose
  runs are all interleavings.
* **Settings.** `SFlashBlockDevice.dfy` is the block device over NOR flash. `SecureElement.dfy` and
  `EEPROMInterface.dfy` are the zones of the secure element, plain and as envelopes.
  `ConfigText.dfy` and `ConfigFile.dfy` are the settings file, as text and as the loops over it;
  `ConfigValues.dfy` has values and files with CR, `ConfigSize.dfy` how large the file gets.
  `DeviceConfig.dfy` holds the profile table and the settings on top, which refine a map from
  settings to strings.
* **Strings.** `SearchReplace.dfy` defines searching and the two directions of replacing,
  `ReplaceLength.dfy` compares how long their results get, and `WString.dfy` is the class with its
  in-place loops.
* **HTTP.** `FormData.dfy` decodes form data, `HttpHeaders.dfy` finds the body of a request and
  delivers it, `HttpFields.dfy` says what the header lines mean, `Chunked.dfy` frames a response.
* **Text input.** `ConsoleText.dfy` and `ConsoleTokenizer.dfy` cut a command line into arguments, and
  `ConsoleWords.dfy` has the ways to write them;
  `StreamFind.dfy` searches a stream, `NumberText.dfy` prints and parses numbers.
* `Wrappers.dfy` has `Option`; `Memory.dfy` has bytes, C strings and block copies. Overlapping copies
  towards lower addresses are forward byte loops.

Where the original leaves defined behaviour, a method stops in front of that step and reports it
(`overrun`, `underrun`, `undefined`, `fromNull`, `Overrun`); its contract says exactly when.

A method that changes state is proved against a specification function of the old state, and the
lemmas are about that function. `char` is an unsigned byte.

## Where the code does not do what one would expect

Each of these is kept as it is, has a concrete case, and an exact condition where it matters.

* `RingBuffer::putc` returns -1 whether or not the byte was queued.
* `RingBuffer::use` reads the write index twice. A reader that calls it while the writer wraps gets a
  negative number (`TornUseExact`, `TornUseCanBeNegative`). So does a writer that calls `available`
  while the reader wraps (`TornAvailableExact`, `TornAvailableCanBeNegative`).
* `String::replace` with a longer replacement works from the right and equals the leftmost replacement
  only for clean patterns (`RightmostIsLeftmostExactly`). It writes behind its buffer for some texts
  exactly if a suffix of the pattern begins the replacement (`NeverOutgrowsExactly`,
  `OutgrowsSmallestBlock`).
* `String::move` into a large enough buffer leaves the other string with length 0 but its old bytes.
* A setting saved into a file whose last line is not terminated can be lost (`SaveLoadsExactly`) and
  can change the value of another one (`OthersKeptExactly`, `UnfinishedLineSpoiled`). A file of more
  than 65536 bytes is replaced (`LargeFileForgets`).
* The settings file takes any value. One with CR or LF, or one that is too long for the line buffer, is
  saved but not read back (`ValueReadBackExactly`). What stands behind its first CR or LF can set
  another key (`OthersSafeExactly`, `LineBehindSets`). The reader ends a line at CR and the writer does
  not, so that behind a CR this also undoes all later saves of that key (`CrSetsForGood`,
  `SavableExactly`).
* A form value in the last pair is stored but reported as an error unless an ampersand follows it
  (`LookupSucceedsExactly`), although section 17.13.4 of HTML 4.01 puts ampersands only between pairs.
* A form name that begins with the tag and an encoded NUL sends the scan past the end of the tag
  (`LookupOverrunsExactly`, `NulOverrunsTag`), and a percent sign at the end of the text makes it read
  behind the text (`ScanOverrunsExactly`, `ValueOverrunsExactly`).
* Header lines that are too long are said to be truncated
  (`cores/arduino/httpserver/httpd_utility.h:112-116`). They are cut into several lines instead, and
  one that fills the buffer exactly ends the headers (`FullLineEndsHeaders`).
* The header purge overlooks the empty line when there is no header line at all
  (`PurgeStopsAtBodyExactly`).
* A Content-Type line of more than 128 bytes is copied over what follows the field it is meant for
  (`ParserStopsAtBodyExactly`, `FieldPasses`).
* An entity tag of 2^31 or more is capped (`EtagReadExactly`).
* A line that begins more than four arguments overruns `argv` (`OverrunsExactly`). For clean arguments
  those are five and more (`PrintedOverrunsExactly`), but two others can be enough (`TwoCanOverrun`).
* `findUntil` restarts at the first byte only and misses some occurrences (`CompleteExactly`), and of
  the terminator even more (`TerminatorCompleteExactly`).
* `parseInt` adds the digit's character code before it takes '0' off, so that the largest 48 numbers
  overflow (`ReadsWithin32BitsExactly`).
* `printNumber` takes bases up to 255, but the digit 201 is a NUL that ends the text (`WholeExactly`).
* An empty buffer given to `httpd_send_chunk` ends the body (`Chunked.RoundTripExactly`).

## Model

| member | source | states |
|---|---|---|
| RingBuffers.CountersAgree | cores/arduino/RingBuffer.cpp:94-112 | `use()` is the number of queued bytes, `use() + available()` is the capacity, 0 used means equal indices and 0 available means the next write index meets the read index |
| RingBuffers.PublishAppends | cores/arduino/RingBuffer.cpp:26-37 | storing into the slot at `addr_w` changes nothing that is queued; publishing the next index then appends exactly that byte |
| RingBuffers.PublishRemoves | cores/arduino/RingBuffer.cpp:65-75 | publishing the next read index removes exactly the oldest byte |
| RingBuffers.FilledAppends | cores/arduino/RingBuffer.cpp:39-54 | copying a block in behind the write index, straight or wrapped, appends the block to the queue |
| RingBuffers.DrainedRemoves | cores/arduino/RingBuffer.cpp:77-92 | the queue is the bytes `get` copies out, straight or wrapped, followed by what stays queued |
| RingBuffers.RingBuffer.constructor | cores/arduino/RingBuffer.cpp:13-19 | a new buffer is empty and has one slot more than its capacity |
| RingBuffers.RingBuffer.Putc | cores/arduino/RingBuffer.cpp:26-37 | appends the byte unless the queue is full, and returns -1 in both cases |
| RingBuffers.RingBuffer.Put | cores/arduino/RingBuffer.cpp:39-54 | appends as many bytes as there is room for and returns that number |
| RingBuffers.RingBuffer.Peek | cores/arduino/RingBuffer.cpp:56-63 | the oldest byte, or -1 when nothing is queued |
| RingBuffers.RingBuffer.Getc | cores/arduino/RingBuffer.cpp:65-75 | removes and returns the oldest byte, or returns -1 and changes nothing |
| RingBuffers.RingBuffer.Get | cores/arduino/RingBuffer.cpp:77-92 | the old queue is what was copied out followed by the new queue; the rest of the target is untouched |
| RingBuffers.RingBuffer.AvailableNow | cores/arduino/RingBuffer.cpp:94-101 | the room that is left |
| RingBuffers.RingBuffer.UseNow | cores/arduino/RingBuffer.cpp:103-112 | the number of queued bytes |
| RingBuffers.RingBuffer.Clear | cores/arduino/RingBuffer.cpp:114-118 | empties the queue |
| RingProtocol.StepKeepsInv | cores/arduino/RingBuffer.cpp:26-37 | every single memory access of `putc` or `getc` keeps the invariant that ties both indices, the slot in work and the recorded bytes together |
| RingProtocol.FifoUnderEveryInterleaving | cores/arduino/RingBuffer.cpp:26-37 | after every interleaving of one `putc` thread and one `getc` thread: delivered bytes followed by queued bytes are the accepted bytes, in order; a slot being stored into is neither queued nor being loaded; the counters add up to the capacity |
| RingProtocol.RefusalsAreJustified | cores/arduino/RingBuffer.cpp:26-37 | `putc` gives up exactly when the queue is full and `getc` reports nothing exactly when everything accepted was delivered, at the moment of their checks |
| RingProtocol.AcceptedAsPut | cores/arduino/RingBuffer.cpp:26-37 | unless a check meets a full queue, the bytes accepted in a run are those that its `putc` calls pass in, in order |
| RingProtocol.TornUseExact | cores/arduino/RingBuffer.cpp:103-112 | `use()` called by the reader while the writer runs is the queue length at its second read if and only if the bytes queued in between do not take the write index past the end of the array; otherwise it is too small by the array length, and negative |
| RingProtocol.TornUseCanBeNegative | cores/arduino/RingBuffer.cpp:103-112 | a concrete run on three slots in which the reader is told -2 bytes |
| RingProtocol.TornAvailableExact | cores/arduino/RingBuffer.cpp:94-101 | `available()` called by the writer while the reader runs is the room at its second read if and only if the bytes taken in between do not take the read index past the end of the array; otherwise it is too small by the array length, and negative |
| RingProtocol.TornAvailableCanBeNegative | cores/arduino/RingBuffer.cpp:94-101 | a concrete run on three slots in which the writer is told that there is room for -1 bytes |
| RingProtocol.PutAlone | cores/arduino/RingBuffer.cpp:26-37 | the steps of an undisturbed `putc` of any byte are one append |
| RingProtocol.GetAlone | cores/arduino/RingBuffer.cpp:65-75 | the steps of an undisturbed `getc` are one removal |
| BufferedSerial.StepKeepsInv | cores/arduino/BufferedSerial.cpp:72-175 | every step of the thread, of the interrupt and of the hardware keeps the invariant, with "TxIrq detached implies hardware writable" outside the critical part of `prime` |
| BufferedSerial.NoLostWakeUp | cores/arduino/BufferedSerial.cpp:72-175 | in every interleaving: bytes queued while the thread is outside mean that TxIrq is attached; `txIrq` never runs twice at once; the hardware is written only when writable; bytes sent, in hand and queued are the accepted bytes in order; accepted, refused and pending bytes add up to those offered |
| BufferedSerial.RefusesExactlyWhenFull | cores/arduino/BufferedSerial.cpp:72-112 | in every reachable state a step refuses a byte if and only if it is the check for room of a `putc` on a full ring |
| BufferedSerial.OfferedByCalls | cores/arduino/BufferedSerial.cpp:72-112 | what counts as offered is all the bytes that the calls of the run pass in |
| BufferedSerial.CallQueuesAll | cores/arduino/BufferedSerial.cpp:98-112 | an undisturbed call with enough room puts all its bytes into the ring, in order, and goes on to `prime` |
| BufferedSerial.PrimeSendsFirst | cores/arduino/BufferedSerial.cpp:165-175 | `prime` on its own sends the oldest byte when the hardware is ready, without any interrupt |
| BufferedSerial.EverythingIsSent | cores/arduino/BufferedSerial.cpp:148-175 | with the thread outside, hardware and interrupt can make only boundedly many steps, and when none is left every accepted byte has been sent, in order |
| BufferedSerial.EverythingOfferedIsSent | cores/arduino/BufferedSerial.cpp:72-175 | in a run in which the bytes offered never exceed those taken out by more than the capacity, nothing is refused, and once hardware and interrupt rest all bytes of all calls have been sent, in order |
| BufferedSerial.BackgroundStepDecreases | cores/arduino/BufferedSerial.cpp:148-163 | each such step decreases the bound on the steps still to come |
| BufferedSerial.QuietIsDrained | cores/arduino/BufferedSerial.cpp:148-163 | when neither hardware nor interrupt can move, the ring and the interrupt are empty-handed |
| SearchReplace.LastMatchGreatest | cores/arduino/WString.cpp:608-622 | the match that the backward search stands for is the greatest one that starts in its range |
| SearchReplace.LeftmostLength | cores/arduino/WString.cpp:679-685 | the size that `replace` counts up front is the length of the leftmost replacement |
| SearchReplace.CleanReplacesLeftmost | cores/arduino/WString.cpp:678-697 | for a clean pattern, replacing from the right gives the leftmost non-overlapping replacement |
| SearchReplace.BorderBreaks | cores/arduino/WString.cpp:678-697 | a pattern with a border: a text, given by it, on which the two directions differ |
| SearchReplace.MeetsReplacementBreaks | cores/arduino/WString.cpp:678-697 | a replacement that begins with a suffix of the pattern: a text on which a second, spurious replacement happens |
| SearchReplace.RightmostIsLeftmostExactly | cores/arduino/WString.cpp:678-697 | the growing branch is the leftmost replacement for every text if and only if no non-empty proper suffix of the pattern begins the pattern or the replacement |
| ReplaceLength.OneMoreMatch | cores/arduino/WString.cpp:679-685 | a match behind a text gives the leftmost replacement at least one match more |
| ReplaceLength.RightmostNoLonger | cores/arduino/WString.cpp:678-697 | if no suffix of the pattern begins the replacement, the right-to-left result is at most as long as the leftmost one that room is reserved for |
| ReplaceLength.RightmostIsFromEnd | cores/arduino/WString.cpp:686-697 | and it is the text with non-overlapping matches replaced, the last one first |
| ReplaceLength.TrapRightmost | cores/arduino/WString.cpp:688-697 | otherwise the text made of the front of the pattern and the pattern gets longer than that |
| WString.Rounded | cores/arduino/WString.cpp:166-181 | the buffer size is a multiple of 16, holds the text and its NUL, and wastes at most 15 bytes |
| WString.CleanReplace | cores/arduino/WString.cpp:655-698 | for clean patterns and for the branches that do not grow, `replace` stays inside its buffer and is the leftmost replacement |
| WString.NeverOutgrowsExactly | cores/arduino/WString.cpp:678-697 | for every text and capacity a string can have, the growing branch stays inside its buffer if and only if no non-empty proper suffix of the pattern begins the replacement |
| WString.OutgrowsSmallestBlock | cores/arduino/WString.cpp:686-697 | "aab" in the smallest block, with "ab" replaced by a b and sixteen bytes more, outgrows its buffer |
| WString.String.constructor | cores/arduino/WString.cpp:143-147 | a new string is a valid empty string without a buffer |
| WString.String.Invalidate | cores/arduino/WString.cpp:149-153 | leaves the valid empty string without a buffer |
| WString.String.ChangeBuffer | cores/arduino/WString.cpp:166-181 | the new block has the rounded size, begins with the old one and ends with zeros |
| WString.String.Reserve | cores/arduino/WString.cpp:155-164 | keeps the text; the capacity suffices, and is unchanged or the rounded one |
| WString.String.Copy | cores/arduino/WString.cpp:187-195 | the text is the C string, whatever it was before |
| WString.String.Assign | cores/arduino/WString.cpp:228-238 | the text is the other string's; the other string is unchanged |
| WString.String.Move | cores/arduino/WString.cpp:208-225 | the text is the other string's; the other string is well formed afterwards exactly if its buffer was taken or it was empty; copying out of a string without a buffer is reported, exactly when it happens |
| WString.String.Concat | cores/arduino/WString.cpp:279-290 | appends the C string |
| WString.String.ConcatString | cores/arduino/WString.cpp:275-290 | appends the other string's text; false exactly if the other has no buffer |
| WString.String.LastIndexOfChar | cores/arduino/WString.cpp:592-602 | the greatest index up to `fromIndex` that holds the byte, or -1; for NUL the index behind `fromIndex`; the byte poked to NUL is put back |
| WString.String.LastIndexOf | cores/arduino/WString.cpp:608-622 | the greatest match that starts at or before `fromIndex`, or -1 |
| WString.String.Substring | cores/arduino/WString.cpp:624-640 | the text between the indices in either order; the buffer is byte for byte what it was |
| WString.String.ReplaceChar | cores/arduino/WString.cpp:646-653 | every occurrence of the one byte becomes the other, everything else stays; the string stays well formed unless a byte is replaced by NUL |
| WString.String.Replace | cores/arduino/WString.cpp:655-698 | for all arguments: the leftmost replacement in the equal and shrinking branches, the right-to-left one in the growing branch, and a well-formed string; a write behind the buffer is reported exactly when the right-to-left result does not fit what was reserved for the leftmost one |
| WString.String.ReplaceEqual | cores/arduino/WString.cpp:661-665 | in-place overwriting gives the leftmost replacement |
| WString.String.ReplaceShrinking | cores/arduino/WString.cpp:666-677 | in-place left compaction gives the leftmost replacement |
| WString.String.ReplaceGrowing | cores/arduino/WString.cpp:678-697 | in-place expansion from the right gives the right-to-left replacement, or reports the overrun of the buffer reserved from the count, exactly when there is one |
| WString.String.Remove | cores/arduino/WString.cpp:707-721 | cuts exactly the given bytes out of the text |
| WString.String.Trim | cores/arduino/WString.cpp:739-752 | what is left is the text without white space at its ends, and only white space was removed |
| WString.SpaceIs | cores/arduino/WString.cpp:739-752 | white space is space, tab, line feed, vertical tab, form feed and carriage return |
| SFlashBlockDevice.DirectWriteExactly | cores/arduino/FileSystem/SFlashBlockDevice.cpp:66-104 | a block may be written without erasing, whatever the data, if and only if all its bytes are 0xFF |
| SFlashBlockDevice.SectorOf | cores/arduino/FileSystem/SFlashBlockDevice.cpp:66-104 | the sector address and the offset in it add up to the block's address and lie in one 4 KiB sector of the partition |
| SFlashBlockDevice.SectorRewritten | cores/arduino/FileSystem/SFlashBlockDevice.cpp:66-104 | erasing a sector and writing back its changed image changes one block and leaves the other seven alone |
| SFlashBlockDevice.BlockDevice.FlashWrite | cores/arduino/FileSystem/SFlashBlockDevice.cpp:66-104 | the assumed NOR write: bitwise AND of old and new bytes, and the offset advances |
| SFlashBlockDevice.BlockDevice.FlashErase | cores/arduino/FileSystem/SFlashBlockDevice.cpp:66-104 | the assumed erase: every touched 4 KiB sector becomes 0xFF, nothing else changes |
| SFlashBlockDevice.BlockDevice.Read | cores/arduino/FileSystem/SFlashBlockDevice.cpp:20-35 | the whole blocks from the block of `addr` on |
| SFlashBlockDevice.BlockDevice.Program | cores/arduino/FileSystem/SFlashBlockDevice.cpp:37-52 | afterwards the partition is the old one with exactly the written blocks replaced |
| SFlashBlockDevice.BlockDevice.EraseWrite | cores/arduino/FileSystem/SFlashBlockDevice.cpp:66-104 | the block is replaced and every other byte of the partition kept, on the erase path and on the direct path |
| SecureElement.Element.StoreEnvelope | system/az3166-driver/HAL_STSAFE-A100.h:120-145 | the assumed store: an envelope of n bytes occupies 8 + n raw bytes and destroys every envelope it overlaps |
| SecureElement.Element.GetEnvelope | system/az3166-driver/HAL_STSAFE-A100.h:163-187 | the assumed read: succeeds exactly for an envelope that starts there with exactly that payload length |
| EEPROMInterface.SlotsDisjointAndFit | cores/arduino/EEPROMInterface.cpp:12-14 | the envelopes of a zone are pairwise disjoint and end within Z + 8 * ceil(Z / 480) raw bytes |
| EEPROMInterface.SealSlot | cores/arduino/EEPROMInterface.cpp:153-157 | sealing one slot makes it hold the payload and leaves every other slot as intact, and with the same content, as it was |
| EEPROMInterface.HoldsUnique | cores/arduino/EEPROMInterface.cpp:174-191 | intact envelopes determine the content of a zone |
| EEPROMInterface.Rewritten | cores/arduino/EEPROMInterface.cpp:141-163 | re-sealing the envelopes that cover the new bytes replaces exactly the first bytes of the zone and keeps the tail |
| EEPROMInterface.RepairedExactlyOne | cores/arduino/EEPROMInterface.cpp:174-191 | a failing read turns exactly one damaged envelope into a valid one of zeros and changes no other slot |
| EEPROMInterface.RepairCounts | cores/arduino/EEPROMInterface.cpp:174-191 | each failing read lowers the number of damaged envelopes by one |
| EEPROMInterface.SelfRepairTerminates | cores/arduino/EEPROMInterface.cpp:174-191 | of any sequence of reads of the same range exactly the first ones fail, one for each damaged envelope, at most ceil(n / 480), and all later ones succeed |
| EEPROMInterface.EEPROM.CheckZoneSize | cores/arduino/EEPROMInterface.cpp:230-250 | rejects missing zones, sizes that are not positive and writes that are too long; cuts reads down to the zone |
| EEPROMInterface.EEPROM.ReadWithEnvelope | cores/arduino/EEPROMInterface.cpp:174-191 | succeeds exactly if the envelopes of the range are intact, and then delivers the bytes of the zone; otherwise one envelope is repaired and the caller's data is untouched |
| EEPROMInterface.EEPROM.WriteWithEnvelope | cores/arduino/EEPROMInterface.cpp:141-163 | 0 if and only if the envelopes of the replaced bytes are intact, unless a store fails: they then hold what they held with its first n bytes replaced, and all others are as before, damaged or not; otherwise -1 and one damaged envelope is repaired; a store that fails leaves the write between two envelopes |
| EEPROMInterface.EEPROM.Write | cores/arduino/EEPROMInterface.cpp:102-117 | plain or enveloped, on intact and damaged zones: a successful write replaces exactly the first n bytes and touches no other zone; an enveloped one fails exactly on a damaged range, unless a store fails; rejected calls change nothing |
| EEPROMInterface.WrittenIsRead | cores/arduino/EEPROMInterface.cpp:141-191 | what an enveloped write has stored is what an enveloped read of as many bytes delivers, whatever the rest of the zone |
| EEPROMInterface.EEPROM.WriteWithVerify | cores/arduino/EEPROMInterface.cpp:252-276 | reading back always confirms a write that succeeded, so that outcome and state are those of the write |
| EEPROMInterface.EEPROM.Read | cores/arduino/EEPROMInterface.cpp:119-139 | bytes [off, min(off + n, Z)) of the zone and that length; under envelopes it succeeds exactly if those of the range are intact, whatever the others are, and delivers what they hold; otherwise one damaged one is repaired and the data untouched |
| EEPROMInterface.DeliversOneResult | cores/arduino/EEPROMInterface.cpp:174-191 | what an enveloped read delivers is determined by the envelopes of its range |
| EEPROMInterface.EEPROM.EnableHostSecureChannel | cores/arduino/EEPROMInterface.cpp:40-100 | on success every zone holds in envelopes exactly the bytes it held plain; -1 for other levels and 1 exactly when already enabled, without a change; the channel is enabled after every call for level 1 |
| ConfigText.UpdateFits | cores/arduino/config/DeviceConfigFile.cpp:218-227 | the new text fits the buffer of fileSize + keyLen + 1 + valueLen + 2 + 1 bytes |
| ConfigText.LookupIsFirst | cores/arduino/config/DeviceConfigFile.cpp:90-168 | on every text, the character-wise reader finds the first line of the key, as far as the line buffer keeps it, whether lines end with LF or CR or not at all |
| ConfigText.LookupIsFind | cores/arduino/config/DeviceConfigFile.cpp:90-168 | the same for lines that end with LF |
| ConfigText.UpdateIsPut | cores/arduino/config/DeviceConfigFile.cpp:229-272 | on every text, the line-wise writer replaces the first line of the key or puts an entry behind the last line |
| ConfigText.FindPut | cores/arduino/config/DeviceConfigFile.cpp:90-291 | on lines, reader and writer are lookup and update of a map |
| ConfigText.PutKeepsOthers | cores/arduino/config/DeviceConfigFile.cpp:229-272 | all lines of other keys and all comments stay, in order, and the key gets no second line |
| ConfigText.SaveThenLoad | cores/arduino/config/DeviceConfigFile.cpp:90-291 | in a terminated file of at most 65536 bytes: the key reads as the saved value, every other key as before, other lines survive byte for byte, the file stays terminated |
| ConfigText.SaveLoadsExactly | cores/arduino/config/DeviceConfigFile.cpp:90-291 | without CR and NUL a saved value can be read back if and only if the file is terminated or the key already has a line |
| ConfigText.OthersKeptExactly | cores/arduino/config/DeviceConfigFile.cpp:90-291 | a save into any file without CR and NUL leaves the value of another key alone if and only if its entry is not glued to an unfinished line in a way that makes it a line of that key |
| ConfigText.UnfinishedLineSpoiled | cores/arduino/config/DeviceConfigFile.cpp:229-272 | the value in a lone unfinished line goes on with the entry of the other key |
| ConfigText.SavedReadsAs | cores/arduino/config/DeviceConfigFile.cpp:90-291 | whatever the value, it reads as its part before the first CR or LF, as far as the line buffer keeps it |
| ConfigText.ValueReadBackExactly | cores/arduino/config/DeviceConfigFile.cpp:90-291 | in a terminated file a value is read back if and only if it has no CR and LF and fits the line buffer together with its key |
| ConfigValues.SavedReads | cores/arduino/config/DeviceConfigFile.cpp:90-291 | for every NUL-free file that is empty or ends with LF, with or without CR, and every value: what any key reads as after a save |
| ConfigValues.OthersSafeExactly | cores/arduino/config/DeviceConfigFile.cpp:90-291 | a save of any value leaves another key alone in every terminated file if and only if nothing behind the first CR or LF of the value reads as a line of that key |
| ConfigValues.LineBehindSets | cores/arduino/config/DeviceConfigFile.cpp:259-272 | a value with CR or LF and then a line of another key sets that key |
| ConfigValues.CrSetsForGood | cores/arduino/config/DeviceConfigFile.cpp:229-263 | with a CR it does so for good: later saves of that key are written but not read |
| ConfigValues.SavableExactly | cores/arduino/config/DeviceConfigFile.cpp:229-263 | in a file that ends with LF but may have CR, every valid value of a key is read back after its save if and only if the reader finds no line of the key in front of the place where the entry is written |
| ConfigText.LargeFileForgets | cores/arduino/config/DeviceConfigFile.cpp:196-213 | a file of more than 65536 bytes is replaced by the one entry |
| ConfigText.RunKeepsShape | cores/arduino/config/DeviceConfigFile.cpp:182-291 | every run of saves keeps the file terminated and every key on at most one line |
| ConfigText.RunReadsLast | cores/arduino/config/DeviceConfigFile.cpp:90-291 | after a run every key reads as the value last saved for it |
| ConfigSize.SavedBounded | cores/arduino/config/DeviceConfigFile.cpp:182-291 | a save of one of a set of keys takes from the growth that is left what it adds to the file |
| ConfigSize.RunStaysSmall | cores/arduino/config/DeviceConfigFile.cpp:196-213 | in every run of saves of these keys no save finds a file that is too large, if there was room for a line of each |
| ConfigFile.File.ReadKey | cores/arduino/config/DeviceConfigFile.cpp:90-168 | the buffer gets the looked-up value, cut to what fits, and a NUL, or the empty string; the result says how many bytes |
| ConfigFile.File.WriteKey | cores/arduino/config/DeviceConfigFile.cpp:182-291 | the file becomes the updated text, or stays as it is when the file system is not mounted |
| ConfigFile.File.BuildLines | cores/arduino/config/DeviceConfigFile.cpp:229-272 | the line loop builds exactly the updated text in a buffer of the size computed up front |
| ConfigFile.FileKeysAre | cores/arduino/config/DeviceConfigFile.cpp:36-75 | the three settings in the file and the texts of their keys |
| DeviceConfig.TableIsSound | cores/arduino/config/DeviceConfig.cpp:37-276 | no two settings of a profile share a zone, and every entry has the real size of its zone |
| DeviceConfig.CapacitiesAre | cores/arduino/config/DeviceConfig.cpp:37-276 | which settings each profile offers, which of them are in the file, and how many bytes each can hold |
| DeviceConfig.WrittenBytes | cores/arduino/config/DeviceConfig.cpp:355-371 | a value split over one, two or three zones replaces the first bytes of the setting |
| DeviceConfig.WrittenElsewhere | cores/arduino/config/DeviceConfig.cpp:355-371 | zones of other settings are not touched |
| DeviceConfig.SaveRefinesMap | cores/arduino/config/DeviceConfig.cpp:331-374 | one save, accepted or rejected, is an update of the map from settings to strings: no other setting changes |
| DeviceConfig.RunRefinesMap | cores/arduino/config/DeviceConfig.cpp:331-374 | after any run of saves every setting has the value of its last accepted save |
| DeviceConfig.ValidRunRefinesMap | cores/arduino/config/DeviceConfig.cpp:331-374 | the same from conditions on the first file and the values alone, with room for three lines |
| DeviceConfig.RunReadsLength | cores/arduino/config/DeviceConfig.cpp:376-388 | after any run of saves, reading a setting in the file returns the length of its last accepted value, cut to n - 1, and 1, or 0 if it has none |
| DeviceConfig.Settings.Init | cores/arduino/config/DeviceConfig.cpp:278-294 | selects the profile; unknown numbers change nothing |
| DeviceConfig.Settings.GetMaxLen | cores/arduino/config/DeviceConfig.cpp:315-329 | the total size of the zones of a setting, or -1 |
| DeviceConfig.Settings.Save | cores/arduino/config/DeviceConfig.cpp:331-374 | with intact zones the state becomes the one of the map update, and 0 exactly if the value is accepted; with damaged ones too: -1 without a change if value and NUL are too long, otherwise 0 if and only if every envelope to be replaced is intact, unless a store fails, and each zone has its portion; on failure the portions in front are stored |
| DeviceConfig.HealthyStored | cores/arduino/config/DeviceConfig.cpp:355-371 | portions stored zone by zone into intact zones are the one write of the value over them |
| DeviceConfig.WrittenAt | cores/arduino/config/DeviceConfig.cpp:355-371 | the zone of each entry gets its portion of the value and NUL, and keeps its other bytes |
| DeviceConfig.Settings.SaveZones | cores/arduino/config/DeviceConfig.cpp:355-373 | the loop over the zones stores the portions of value and NUL one by one, and stops at the first zone that cannot be written |
| DeviceConfig.Settings.Read | cores/arduino/config/DeviceConfig.cpp:376-414 | as a C string the buffer holds the saved value cut to n - 1 bytes, and nothing stored changes; the exact buffer and result: for zones, intact or damaged, the first min(n, capacity) bytes, a NUL at n - 1 and that number, or -1 if and only if an envelope of the range is damaged; for the file the value, its NUL and their length, or the empty string and 0 |
| DeviceConfig.BytesRead | cores/arduino/config/DeviceConfig.cpp:392-408 | the bytes collected from intact zones are the first bytes of the setting |
| DeviceConfig.Settings.ReadZones | cores/arduino/config/DeviceConfig.cpp:392-411 | the loop over the zones collects their bytes in order and stops at the first damaged one |
| Memory.HexDigitIs | cores/arduino/httpserver/http_parse.c:525-535 | the bytes with a value are exactly the hexadecimal digits in either case, with their values |
| FormData.LookupOnWire | cores/arduino/httpserver/http_parse.c:539-677 | for every list of pairs, NULs included, and every way of writing them: the first pair whose name is the tag, or the tag and a NUL, decides; in the first case the value, cut to n bytes, with success only if an ampersand follows that pair; in the second the scan runs past the end of the tag |
| FormData.LookupSucceedsExactly | cores/arduino/httpserver/http_parse.c:643-677 | for names without NUL a lookup succeeds if and only if some pair has the name and, in a text without a final ampersand, one of those is not the last pair |
| FormData.LookupStepExactly | cores/arduino/httpserver/http_parse.c:539-677 | one pair of a lookup on every text, encoded or not, for tags without an ampersand: found by its decoded name and an equals sign, missing if the text ends or an escape is bad while the name still agrees, and otherwise decided behind the next ampersand |
| FormData.ValueOutcomeIs | cores/arduino/httpserver/http_parse.c:600-641 | the value on every text: its decoded bytes up to the ampersand, cut to n, found only if an ampersand follows, with the bad escape and the percent sign at the end told apart |
| FormData.LastPairNeedsAmp | cores/arduino/httpserver/http_parse.c:643-667 | "a=1" is not found although its value is stored; "a=1&" is |
| FormData.NameOverrunsExactly | cores/arduino/httpserver/http_parse.c:570-581 | for every way of writing a name the scan runs past the end of the tag if and only if the name begins with the tag and a NUL |
| FormData.LookupOverrunsExactly | cores/arduino/httpserver/http_parse.c:643-677 | a lookup of written pairs runs past the end of the tag if and only if a name begins with the tag and a NUL and no pair in front of it has the tag as its name |
| FormData.NulOverrunsTag | cores/arduino/httpserver/http_parse.c:570-581 | "a%00=1&" sends the scan past the end of the tag "a" |
| FormData.ScanOverrunsExactly | cores/arduino/httpserver/http_parse.c:553-589 | for every text the name scan leaves its strings if and only if the decoded name begins with the tag and a NUL, or the text ends with a percent sign in its name and agrees with the tag up to there |
| FormData.ValueOverrunsExactly | cores/arduino/httpserver/http_parse.c:600-631 | for every text the value scan leaves it if and only if the text ends with a percent sign in its value that is still to be decoded |
| FormData.NameScanned | cores/arduino/httpserver/http_parse.c:553-589 | the name scan on every text and tag, by how many decoded bytes they have in common |
| FormData.ValueScanned | cores/arduino/httpserver/http_parse.c:600-631 | the value scan on every text: bytes, end and the ampersand it stops in front of |
| FormData.NameOnWire | cores/arduino/httpserver/http_parse.c:553-589 | the name scan accepts exactly the tag, in every encoding, and otherwise stops inside the pair |
| FormData.ValueOnWire | cores/arduino/httpserver/http_parse.c:600-631 | the value scan decodes every encoding, cut to n bytes, and stops inside the pair |
| FormData.ScanName | cores/arduino/httpserver/http_parse.c:553-589 | the loop over the name computes the comparison, including its error, the run past the tag and the read behind the text |
| FormData.StoreValue | cores/arduino/httpserver/http_parse.c:600-631 | stores the decoded bytes and a NUL behind them; no NUL after a bad escape or where it reads behind the text, which it reports |
| FormData.ParseMsgBody | cores/arduino/httpserver/http_parse.c:539-641 | one pair: the next position and the buffer are those of the lookup |
| FormData.GetTagFromPostData | cores/arduino/httpserver/http_parse.c:643-677 | returns 0 exactly if the lookup succeeds and reports a scan that leaves its strings; the buffer starts with the bytes the lookup stores and is empty when no name matches |
| HttpHeaders.LineTaken | cores/arduino/httpserver/httpd_sys.c:37-77 | a line that fits is read with its CRLF; a longer one is cut after buflen - 1 bytes |
| HttpHeaders.LineEnds | cores/arduino/httpserver/httpd_sys.c:37-77 | the line reader on every input: a newline character is dropped with the byte behind it, whatever that is, and the end of the input ends a line |
| HttpHeaders.ContentLengthLine | cores/arduino/httpserver/http_parse.c:315-322 | a Content-Length line with a decimal number sets the bytes that remain to that number |
| HttpHeaders.ParserStopsAtBodyExactly | cores/arduino/httpserver/http_parse.c:304-394 | the tag parser succeeds and stops at the first body byte if and only if every piece of every line is non-empty, does not start with NUL, has a quote if it is an If-None-Match, and fits the buffers it is copied between if it is a Content-Type |
| HttpHeaders.FieldPasses | cores/arduino/httpserver/http_parse.c:314-350 | a line is accepted exactly if it passes; an unquoted If-None-Match is an error and a Content-Type of more than 128 bytes overruns |
| HttpHeaders.EtagReadExactly | cores/arduino/httpserver/http_parse.c:331-343 | a tag written in hexadecimal is read back if and only if it is below 2^31 |
| HttpHeaders.FullLineEndsHeaders | cores/arduino/httpserver/httpd_sys.c:63-71 | a line of exactly buflen - 1 bytes ends the headers early |
| HttpHeaders.ShortLinesPass | cores/arduino/httpserver/http_parse.c:304-394 | lines of at most buflen - 2 bytes are never cut, so that the condition is about the lines themselves |
| HttpHeaders.PurgeStopsAtBodyExactly | cores/arduino/httpserver/httpd_wsgi.c:143-169 | the purge automaton stops at the first body byte if and only if there is at least one header line |
| HttpHeaders.PurgeStopsExactly | cores/arduino/httpserver/httpd_wsgi.c:143-169 | on every input the purge stops behind the first CR, LFs, CRs and LF in a row, or takes everything if there is none |
| HttpHeaders.RunDelivers | cores/arduino/httpserver/httpd_wsgi.c:519-540 | for any run of calls: delivered bytes and remaining input are the input, bytes that remain plus bytes delivered are constant, and as much is delivered as was asked for and is there |
| HttpHeaders.GetlnSoc | cores/arduino/httpserver/httpd_sys.c:37-77 | the buffer holds the line and a NUL, the connection goes on behind it |
| HttpHeaders.Request.ParseHdrTag | cores/arduino/httpserver/http_parse.c:304-350 | one line: ends the headers, is an error, overruns, or sets its field: length, remaining bytes, content type, tag or chunked flag |
| HttpHeaders.Request.ParseHdrTags | cores/arduino/httpserver/http_parse.c:354-394 | fields, position and outcome are those of the parse, the overrun included |
| HttpHeaders.PurgeHeaders | cores/arduino/httpserver/httpd_wsgi.c:143-169 | stops where the automaton does, with 0, or with an error at the end of the input, even if calls fail in between; a failing first call with a CR in the uninitialised byte starts it behind a first CR |
| HttpHeaders.PurgeStart | cores/arduino/httpserver/httpd_wsgi.c:143-169 | that start makes no difference unless the input begins with LF |
| HttpHeaders.PurgeNextTwice | cores/arduino/httpserver/httpd_wsgi.c:143-169 | looking at the same byte again does not move the automaton |
| HttpHeaders.Request.ReadBody | cores/arduino/httpserver/httpd_wsgi.c:519-540 | under any segmentation: the next bytes in order, a NUL behind them, and the count taken off |
| HttpHeaders.Request.GetData | cores/arduino/httpserver/httpd_wsgi.c:497-544 | parses the headers once, then delivers as many bytes as wanted and there, whatever the segmentation; an overrun of the headers is reported |
| HttpFields.NamesAre | cores/arduino/httpserver/http-strings.c:69-80 | the names of the fields |
| HttpFields.PieceSets | cores/arduino/httpserver/http_parse.c:314-350 | a passing line sets the field that it names, in any letter case, and leaves every other field of the request alone |
| HttpFields.HeadersMean | cores/arduino/httpserver/http_parse.c:304-394 | after a block of passing lines each field has the value of the last piece that names it, and the value from before if there is none |
| HttpFields.EndOfInputEndsHeaders | cores/arduino/httpserver/httpd_sys.c:37-77 | headers that the connection ends in front of the empty line are accepted as they are |
| HttpFields.AtolReads | cores/arduino/httpserver/http_parse.c:315-322 | white space, a sign and the digits up to the first other byte |
| HttpFields.AtolWithoutDigits | cores/arduino/httpserver/http_parse.c:315-322 | anything else is 0 |
| HttpFields.HexLongReads | cores/arduino/httpserver/http_parse.c:341-342 | white space, a sign, 0x or not, and hexadecimal digits, capped to 32 bits |
| HttpFields.QuotedAt | cores/arduino/httpserver/http_parse.c:335-341 | the tag stands behind the first quote |
| HttpFields.LengthAnnounced | cores/arduino/httpserver/http_parse.c:304-394 | one Content-Length with a decimal number, in any letter case and at any place among other passing lines, is what remains to be read when the headers are done; 0 leaves what remained |
| HttpFields.BodyDelivered | cores/arduino/httpserver/httpd_wsgi.c:497-544 | headers and body together, from the lines alone: once the lengths add up to the announced Content-Length the body has been delivered exactly and what follows it is untouched |
| HttpFields.NoBodyDelivered | cores/arduino/httpserver/httpd_wsgi.c:497-544 | without a Content-Length nothing is delivered and nothing taken |
| ConsoleText.BackslashesLost | cores/arduino/cli/console_cli.cpp:273-335 | tokenising loses exactly the backslashes that stand in front of a quote or a space |
| ConsoleText.RoundTripExactly | cores/arduino/cli/console_cli.cpp:256-339 | up to four arguments printed in quotes with inner quotes escaped are read back if and only if none has a backslash at its end or in front of a space |
| ConsoleWords.WordsRead | cores/arduino/cli/console_cli.cpp:256-339 | up to four arguments are read back in every way of writing them: in quotes or not, with spaces and quotes behind backslashes, quotes inside unquoted words, any number of spaces in between |
| ConsoleWords.OpenQuoteIsError | cores/arduino/cli/console_cli.cpp:276-281 | a quote that is not closed is an error |
| ConsoleText.OverrunsExactly | cores/arduino/cli/console_cli.cpp:273-339 | for every line: a pointer is stored behind the end of the argument vector if and only if the line begins more than four arguments |
| ConsoleText.PrintedOverrunsExactly | cores/arduino/cli/console_cli.cpp:256-339 | printed clean arguments overrun the vector if and only if there are more than four |
| ConsoleText.FifthOverruns | cores/arduino/cli/console_cli.cpp:333-339 | whatever follows four clean arguments overruns |
| ConsoleText.TwoCanOverrun | cores/arduino/cli/console_cli.cpp:273-339 | two arguments, the first of them not clean, that overrun the vector |
| ConsoleText.NewlinesRestoredExactly | cores/arduino/config/DeviceConfigCLI.cpp:15-37 | newlines written as backslash-n are restored if and only if the text has no backslash in front of an n |
| ConsoleText.ConvertedIsLeftmost | cores/arduino/config/DeviceConfigCLI.cpp:15-37 | the conversion is the leftmost replacement of backslash-n by a newline |
| ConsoleText.TextRoundTripExactly | cores/arduino/config/DeviceConfigCLI.cpp:15-37 | a text goes through the command line and the newline conversion unchanged if and only if it has no backslash at its end, in front of a space or in front of an n |
| ConsoleText.TextRoundTrip | cores/arduino/config/DeviceConfigCLI.cpp:15-37 | text without backslashes goes through the command line and the newline conversion unchanged |
| ConsoleTokenizer.Tokenize | cores/arduino/cli/console_cli.cpp:256-340 | tokenising in place, with the line shifted over escaping backslashes: each pointer is to the C string of its argument; open quotes and a fifth argument are reported |
| ConsoleTokenizer.ShiftDown | cores/arduino/cli/console_cli.cpp:286-292 | the overlapping copy removes the backslash and keeps arguments and rest |
| ConsoleTokenizer.ConvertEscapedNewlines | cores/arduino/config/DeviceConfigCLI.cpp:15-37 | in-place compaction gives the converted text |
| StreamFind.FindUntilSound | cores/arduino/Stream.cpp:101-127 | true means the last bytes consumed are the target, and a stop at the terminator means they are the terminator, for every target and terminator |
| StreamFind.StepStaysLongest | cores/arduino/Stream.cpp:110-119 | on targets that restart, the index stays the longest suffix of the consumed input that begins the target |
| StreamFind.FindsFirstOccurrence | cores/arduino/Stream.cpp:101-127 | such targets are found at the end of their first occurrence in every stream without NUL, whatever the terminator, unless that comes first |
| StreamFind.MissedOccurrence | cores/arduino/Stream.cpp:101-127 | for any other target, a stream that contains it and in which it is not found |
| StreamFind.CompleteExactly | cores/arduino/Stream.cpp:101-127 | for all streams without NUL and all terminators the search ends at the first occurrence of the target, or at the terminator in front of any, or finds none where there is none, if and only if every suffix of the target that starts with its first byte begins the target |
| StreamFind.DistinctFirstByteRestarts | cores/arduino/Stream.cpp:101-127 | a first byte that does not come again is enough |
| StreamFind.TerminatorCompleteExactly | cores/arduino/Stream.cpp:121-125 | the terminator stops the search at its first occurrence, in all streams without NUL that do not yield the target first, if and only if all its bytes are equal |
| StreamFind.MissedTerminator | cores/arduino/Stream.cpp:121-125 | for any other terminator, a stream that contains it and runs out |
| StreamFind.NulEndsSearch | cores/arduino/Stream.cpp:105-109 | a NUL in the stream ends the search behind it, whatever follows |
| StreamFind.Stream.Until | cores/arduino/Stream.cpp:101-127 | result and position are those of the search |
| NumberText.FitsIn32 | cores/arduino/Print.cpp:227-245 | a 32-bit number has at most 32 digits in every base |
| NumberText.PrintNumber | cores/arduino/Print.cpp:227-245 | the digits written backwards into 33 bytes are the numeral in the base, 10 for bases below 2, up to its first NUL |
| NumberText.PrintLong | cores/arduino/Print.cpp:125-138 | every long in every base: the byte for base 0, sign and digits for base 10, also for the least long, and the unsigned digits otherwise |
| NumberText.NumeralInBase | cores/arduino/Print.cpp:227-245 | in bases up to 36 a numeral consists of digits of the base, has no leading zero, and its value in the base is the number |
| NumberText.WholeExactly | cores/arduino/Print.cpp:239-244 | a base shows all 32-bit numbers in full if and only if it is at most 201: the digit 201 is a NUL |
| NumberText.PrintedInMeans | cores/arduino/Print.cpp:125-138 | what is printed has in bases 2 to 36 the value of the long, with a sign in base 10 and as an unsigned number in the others |
| NumberText.NumeralMeans | cores/arduino/Print.cpp:227-245 | a decimal numeral consists of digits, has no leading zero, and its value is the number |
| NumberText.PeekNextDigit | cores/arduino/Stream.cpp:60-72 | stops at the first digit or minus sign, consuming what is before it |
| NumberText.ReadInt | cores/arduino/Stream.cpp:138-162 | value and position are those of the parse |
| NumberText.ParseIntIs | cores/arduino/Stream.cpp:138-162 | on every text with a number: sign, value and end, the skip character left out wherever it stands |
| NumberText.ParseNothing | cores/arduino/Stream.cpp:138-162 | on a text without digits and minus signs: 0, and all is consumed |
| NumberText.PrintedIsReadExactly | cores/arduino/Stream.cpp:138-162 | printed behind text without digits and minus signs, a number is read back consuming exactly that text and the number, if and only if the next byte is neither a digit nor the byte 1 |
| NumberText.ReadsWithin32BitsExactly | cores/arduino/Stream.cpp:138-162 | all sums formed on the way fit 32 bits if and only if the number is at most 2^31 - 1 - 48 in absolute value |
| Chunked.HexIsRead | cores/arduino/httpserver/httpd_handle.c:53-80 | the written size has no leading zeros and is read back, whatever follows |
| Chunked.HexCharIs | cores/arduino/httpserver/httpd_handle.c:53-72 | the digits of a size, in lower case |
| Chunked.RoundTripExactly | cores/arduino/httpserver/httpd_handle.c:84-126 | a decoder for section 4.1 of RFC 7230 gets the concatenation of the buffers and stops behind the last chunk if and only if no buffer is empty |
| Chunked.Connection.Send | cores/arduino/httpserver/httpd_handle.c:130-145 | under any schedule of partial sends all bytes go out once and in order, or a prefix of them and an error |
| Chunked.Connection.SendChunkBegin | cores/arduino/httpserver/httpd_handle.c:53-80 | sends the size and CRLF; a negative size, and no other, runs out of the front of its buffer, which is reported |
| Chunked.Connection.SendLastChunk | cores/arduino/httpserver/httpd_handle.c:84-96 | sends the last chunk |
| Chunked.Connection.SendChunk | cores/arduino/httpserver/httpd_handle.c:100-126 | sends the chunk of the data, or the last chunk for no data; a negative length is reported |
| Chunked.ChunkSize | cores/arduino/httpserver/httpd_handle.c:53-72 | the digits written backwards into 16 bytes are the hexadecimal size; they run out of the buffer exactly for negative sizes |

## Left out

- WString.String.Replace: self-aliased arguments and strings that share a buffer are excluded, and so are embedded NULs. Nothing is said about memory after an overrun.
- WString.String.Move: nothing is said after a copy out of a string without a buffer.
- ConfigFile.File.WriteKey: a file that cannot be rewritten is not modelled; writing succeeds once the file system is mounted.
- EEPROMInterface.EEPROM.Read: plain reads of any zone succeed; the limit of 800 bytes that the HAL's header mentions is not modelled, nor is the overflow of offset plus size beyond 32 bits.
- EEPROMInterface.EEPROM.EnableHostSecureChannel: levels 2 and 3 and the key, which the first test makes unreachable; the state left by a migration that fails half-way; plain bytes below an envelope read as zeros.
- HttpHeaders.PurgeHeaders: a connection on which calls fail for ever, on which the original does not end.
- HttpHeaders.Request.ParseHdrTag: the User-Agent line is taken to parse well and its values are not modelled, nor are lengths beyond 32 bits; what follows an overrun is left open.
- FormData.GetTagFromPostData: what follows a scan that has left its strings.
- Chunked.Connection.SendChunkBegin: what a negative size puts on the wire.
- ConsoleTokenizer.Tokenize: looking up and running the command, and what follows an overrun.
- BufferedSerial: its methods are steps of a state machine rather than methods of a class, because an interrupt may come between any two of their memory accesses. Not modelled: the receive side, `printf`, and `flush` or `clear` racing with the interrupt. The hardware is assumed to stop being writable only through a write.
- Running out of memory, everywhere.
- NULL arguments, except where the source tests for them in a modelled function.
- Timeouts: a stream is the bytes that arrive in time.
- The profile for custom settings, which user code supplies.
- Flash and secure-element hardware: bitwise AND on write, whole sectors of 0xFF on erase, and envelopes that can be read with the stored length only, are assumptions.
- Floating-point printing and parsing: rounding decides there.
- WiFi, TLS, DNS, NTP, audio, display, sensors, board support and the RTOS: foreign calls and register writes.
- HTML pages, command handlers, URI routing, WSGI registration, OTA and the HTTP client: user interface or glue around libraries that are not part of this model.
- IPAddress, setting validators, broker URLs and the wrappers of `writeWithVerify`: easy members next to the ones here.
