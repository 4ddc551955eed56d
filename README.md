# Upload ingestion and the Link's Awakening emulator client

This project models two pieces of the Archipelago multiworld randomizer.

**Upload ingestion** (`upload.dfy`, `upload_properties.dfy`): the web host checks a batch of uploaded
option files before it generates a game. The batch is scanned file by file, and a `.zip` upload entry
by entry. ROM files, empty names, duplicate names, broken archives, `.archipelago` files and nested
archives inside a `.zip` each abort the whole batch with their own message. Accepted YAML, JSON and text
files are collected into a map from file name to bytes, and an empty map is an error too. The scan is
defined as a fold (`Ingest`), and the loop-based `GetYamlData` is proved to compute it. The lemmas say
which file or entry decides a rejection, which names end up as keys, and which bytes they hold.

**Emulator client** (`la_constants.dfy`, `retroarch.dfy`, `gameboy.dfy`, `la_client.dfy`): the client
talks to RetroArch over its UDP command interface.
- `RetroArch`: the pure checks on emulator replies. A command reply must echo its command, and a
  `VERSION` reply must start with a version number. A `READ_CORE_MEMORY` reply must echo the address that
  was asked for and carry hex bytes, no more than were asked for. A reply formatted the way RetroArch
  formats it, with a non-empty payload, is accepted and decodes to that payload.
- `Gameboy.RAGameboy`: the object that owns the socket and the memory cache.
  - The socket is an `inbox` of replies still to arrive.
  - The gameplay-state check reads three replies.
  - The block read asks for the rest of a block until it has all of it.
  - `UpdateCache` takes a snapshot of the checks, location and high-RAM regions. It retries up to six
    rounds until the critical location bytes read the same twice, then lays the blocks into a
    `0xC000..0xFFFF` image.
  - `ReadMemoryCache` looks addresses up in that image.
  - Each method is proved against a function of the inbox.
- `LAClient.LinksAwakeningClient`: the client object.
  - The table of items received from the server.
  - The deathlink debounce on Link's health.
  - Playback of the next expected item into the game's item-give slots: the item, the sender index
    capped at 100, the status bit, and the big-endian `>H` packing of the next index.

## Model

| member | source | states |
|---|---|---|
| Upload.EndsWithAnyIff | test/webhost/test_get_yaml_data_mcdc.py:19-27 | a tuple `endswith` holds exactly when some listed suffix ends the name |
| Upload.Basename | test/webhost/test_get_yaml_data_mcdc.py:54 | the base name has no `/`, ends the path, and is preceded by `/` when shorter than the path |
| Upload.MessageOf | test/webhost/test_get_yaml_data_mcdc.py:38-72 | the only message marked up as HTML is the one for an `.archipelago` file inside a zip |
| Upload.MessageNamesFile | test/webhost/test_get_yaml_data_mcdc.py:43-48 | the conflict and invalid-zip messages contain the offending file name |
| Upload.EntryStep | test/webhost/test_get_yaml_data_mcdc.py:54-66 | an accepted zip entry either leaves the map alone or stores the entry's bytes under its full stored name |
| Upload.GetYamlData | test/webhost/test_get_yaml_data_mcdc.py:30-73 | the nested loops with early returns compute exactly the fold `Ingest` |
| UploadProperties.ScanFilesSplit | test/webhost/test_get_yaml_data_mcdc.py:36-68 | scanning a batch is scanning a prefix, then the rest from the prefix's map, and an error in the prefix is final |
| UploadProperties.ScanEntriesSplit | test/webhost/test_get_yaml_data_mcdc.py:52-66 | the same split property for the entries of one archive |
| UploadProperties.AbortDecides | test/webhost/test_get_yaml_data_mcdc.py:36-48 | the first file that fails decides the outcome of the whole batch, whatever follows |
| UploadProperties.ContinueAfter | test/webhost/test_get_yaml_data_mcdc.py:36-68 | after an accepted file, the rest of the batch is scanned from the map built so far |
| UploadProperties.EmptyNameNotBanned | test/webhost/test_get_yaml_data_mcdc.py:37-42 | the empty name is not a ROM name, so it reaches the "No selected file." branch |
| UploadProperties.ZipNotBanned | test/webhost/test_get_yaml_data_mcdc.py:19-27 | a `.zip` name is allowed and never banned |
| UploadProperties.AllowedIsLong | test/webhost/test_get_yaml_data_mcdc.py:19-22 | an allowed name has at least four characters |
| UploadProperties.AllowedNotArchipelago | test/webhost/test_get_yaml_data_mcdc.py:19-22 | an allowed name never ends in `.archipelago` |
| UploadProperties.BannedShort | test/webhost/test_get_yaml_data_mcdc.py:24-27 | a banned name ends in a listed ROM extension of at most four characters |
| UploadProperties.BannedBy | test/webhost/test_get_yaml_data_mcdc.py:24-27 | a name that ends in any listed ROM extension is banned |
| UploadProperties.BannedFileRejected | test/webhost/test_get_yaml_data_mcdc.py:37-39 | a ROM file reached by the scan rejects the batch with the ROM warning |
| UploadProperties.EmptyNameRejected | test/webhost/test_get_yaml_data_mcdc.py:41-42 | an empty file name reached by the scan rejects the batch with "No selected file." |
| UploadProperties.DuplicateRejected | test/webhost/test_get_yaml_data_mcdc.py:43-44 | a name already collected rejects the batch, and the message names it |
| UploadProperties.InvalidZipRejected | test/webhost/test_get_yaml_data_mcdc.py:46-48 | an unreadable `.zip` rejects the batch, and the message names it |
| UploadProperties.PlainFileStored | test/webhost/test_get_yaml_data_mcdc.py:45-68 | an allowed non-zip file is stored under its name with its bytes |
| UploadProperties.UnrecognisedFileSkipped | test/webhost/test_get_yaml_data_mcdc.py:45 | a file that is neither allowed nor banned is skipped and changes nothing |
| UploadProperties.NothingAcceptedRejected | test/webhost/test_get_yaml_data_mcdc.py:70-72 | a batch of only unrecognised files is rejected with the accepted-formats message, text included |
| UploadProperties.SkippedFilesKeepMap | test/webhost/test_get_yaml_data_mcdc.py:45 | unrecognised files leave any map untouched |
| UploadProperties.EntryAbortDecides | test/webhost/test_get_yaml_data_mcdc.py:56-63 | the first failing zip entry decides the outcome of the whole batch |
| UploadProperties.ArchipelagoEntryRejected | test/webhost/test_get_yaml_data_mcdc.py:56-58 | an entry whose base name ends in `.archipelago` rejects the batch with the marked-up message |
| UploadProperties.NestedZipEntryRejected | test/webhost/test_get_yaml_data_mcdc.py:59-60 | an entry whose base name ends in `.zip` rejects the batch with a plain message |
| UploadProperties.RomEntryRejected | test/webhost/test_get_yaml_data_mcdc.py:61-63 | an entry with a ROM base name rejects the batch |
| UploadProperties.EntryStoredUnderFullName | test/webhost/test_get_yaml_data_mcdc.py:65-66 | an allowed entry that is not a dot-file is stored under its full stored name, folders included |
| UploadProperties.EntrySkipped | test/webhost/test_get_yaml_data_mcdc.py:64-66 | dot-files and unrecognised entries are skipped |
| UploadProperties.ScanEntriesExtend | test/webhost/test_get_yaml_data_mcdc.py:52-66 | scanning one more entry is one more entry step |
| UploadProperties.StoredNameInheritsChecks | test/webhost/test_get_yaml_data_mcdc.py:54-65 | a stored name whose base name passes the checks passes them itself |
| UploadProperties.EntryStepWellFormed | test/webhost/test_get_yaml_data_mcdc.py:54-66 | one entry step keeps every key non-empty, allowed and not banned |
| UploadProperties.ScanEntriesWellFormed | test/webhost/test_get_yaml_data_mcdc.py:52-66 | scanning an archive keeps every key non-empty, allowed and not banned |
| UploadProperties.ScanFilesWellFormed | test/webhost/test_get_yaml_data_mcdc.py:36-68 | scanning a batch keeps every key non-empty, allowed and not banned |
| UploadProperties.AcceptedKeysWellFormed | test/webhost/test_get_yaml_data_mcdc.py:70-73 | an accepted batch yields a non-empty map whose keys are all allowed, non-banned names |
| UploadProperties.NamesIn | test/webhost/test_get_yaml_data_mcdc.py:36 | the names of a batch include every uploaded file name |
| UploadProperties.ScanFilesKeys | test/webhost/test_get_yaml_data_mcdc.py:36-68 | scanning only adds keys, and only uploaded or stored names |
| UploadProperties.ScanEntriesKeys | test/webhost/test_get_yaml_data_mcdc.py:52-66 | scanning an archive only adds keys, and only its entries' stored names |
| UploadProperties.ScanFilesClean | test/webhost/test_get_yaml_data_mcdc.py:37-42 | a scan that succeeds saw no ROM file and no empty name |
| UploadProperties.AcceptedBatchIsClean | test/webhost/test_get_yaml_data_mcdc.py:36-73 | an accepted batch has no ROM and no empty name, and its keys all come from the batch |
| UploadProperties.ScanEntriesKeepsValue | test/webhost/test_get_yaml_data_mcdc.py:66 | an archive without an entry of that name leaves the key's bytes alone |
| UploadProperties.ScanFilesKeepsValue | test/webhost/test_get_yaml_data_mcdc.py:66-68 | files that do not name a key leave its bytes alone |
| UploadProperties.PlainFileRoundTrip | test/webhost/test_get_yaml_data_mcdc.py:67-73 | an accepted plain file comes back with its own bytes unless a later zip entry takes its name |
| UploadProperties.ZipEntryReplacesEarlierFile | test/webhost/test_get_yaml_data_mcdc.py:66 | a zip entry named like an earlier upload silently replaces its bytes, with no conflict reported |
| UploadProperties.BasenameWithoutSlash | test/webhost/test_get_yaml_data_mcdc.py:54 | a path without `/` is its own base name |
| RetroArch.Bytes | LinksAwakeningClient.py:134-135 | ASCII encoding keeps the length and each character's code |
| RetroArch.FirstIndex | LinksAwakeningClient.py:300 | the result is the first position of the byte, or none when the byte is absent |
| RetroArch.SplitSpace2 | LinksAwakeningClient.py:300 | `split(" ", 2)` yields one to three parts |
| RetroArch.DigitRun | LinksAwakeningClient.py:269 | the run of digits from a position is maximal |
| RetroArch.StartsWithVersionIff | LinksAwakeningClient.py:269 | the `\d+\.\d+\.\d+` match holds exactly when the reply starts with three digit runs separated by dots |
| RetroArch.VersionFound | LinksAwakeningClient.py:269 | a version match has the three digit runs |
| RetroArch.VersionFollowed | LinksAwakeningClient.py:269 | three leading digit runs separated by dots make a version match |
| RetroArch.CheckCommandResponse | LinksAwakeningClient.py:267-274 | for any command but `VERSION`, the reply is accepted exactly when it starts with the command; failures raise `BadRetroArchResponse`, or a decode error for a non-ASCII version reply |
| RetroArch.VersionResponseAccepted | LinksAwakeningClient.py:268-269 | a `VERSION` reply is accepted exactly when it is ASCII and starts with a version number |
| RetroArch.HexDigitValue | LinksAwakeningClient.py:302 | a hex digit is worth less than sixteen |
| RetroArch.HexChar | LinksAwakeningClient.py:296 | the digit written for a value reads back as that value |
| RetroArch.ParseHex | LinksAwakeningClient.py:302 | `int(text, 16)` of plain hex digits is their value, and fails on the empty text |
| RetroArch.ToHex | LinksAwakeningClient.py:296 | the hex form of a number is non-empty hex digits without spaces |
| RetroArch.ParseToHex | LinksAwakeningClient.py:296-302 | parsing a number's hex form gives back the number |
| RetroArch.HexNumberToHex | LinksAwakeningClient.py:296-302 | the value of a number's hex digits is the number |
| RetroArch.Hex2 | LinksAwakeningClient.py:309 | a byte is written as two hex digits |
| RetroArch.SpacedHex | LinksAwakeningClient.py:309 | a non-empty payload's text starts with a space |
| RetroArch.FromSpacedHex | LinksAwakeningClient.py:309 | `bytearray.fromhex` of space-separated byte pairs gives back the bytes, with or without the leading space |
| RetroArch.ReadReply | LinksAwakeningClient.py:293-312 | an accepted read reply never carries more bytes than were asked for; a rejected one raises only `BadRetroArchResponse`, `DecodeError`, `IndexError` or `ValueError` |
| RetroArch.ReadReplyAccepted | LinksAwakeningClient.py:298-312 | an accepted reply echoes the command, then the asked-for address in hex, then hex bytes that decode to the result |
| RetroArch.SplitThree | LinksAwakeningClient.py:300 | a three-way split rebuilds the text with two spaces, and the first two words hold no space |
| RetroArch.CutTwice | LinksAwakeningClient.py:300 | cutting at the first two spaces is the split into three |
| RetroArch.CutAt | LinksAwakeningClient.py:300 | cutting at the first space rebuilds the text |
| RetroArch.FirstIndexAt | LinksAwakeningClient.py:300 | a byte that does not occur earlier is found at its position |
| RetroArch.SplitAtTwoSpaces | LinksAwakeningClient.py:300 | two words without spaces and a tail split back into those three |
| RetroArch.SplitAtOneSpace | LinksAwakeningClient.py:300 | two words without spaces split back into those two |
| RetroArch.SplitFormatted | LinksAwakeningClient.py:296-300 | the emulator's reply text splits into the command, the address and the payload |
| RetroArch.SplitWords | LinksAwakeningClient.py:300 | a command word, a hex word and a spaced tail split back into those words |
| RetroArch.ReadReplyAcceptsFormatted | LinksAwakeningClient.py:293-312 | a well-formed reply for the asked-for address, with a non-empty payload no longer than asked, decodes to that payload |
| RetroArch.ReadReplyRejectsOtherAddress | LinksAwakeningClient.py:306-307 | a reply echoing another address raises `BadRetroArchResponse` |
| RetroArch.ReadReplyRejectsOversized | LinksAwakeningClient.py:310-311 | a reply carrying more bytes than asked raises `BadRetroArchResponse` |
| RetroArch.InGameplay | LinksAwakeningClient.py:165 | a gameplay value is safe exactly when it is 1 or between 0x06 and 0x1A |
| Gameboy.ReadReplyNeverOverlong | LinksAwakeningClient.py:310-311 | the client's reply decoder never yields more bytes than asked for |
| Gameboy.ReadAt | LinksAwakeningClient.py:293-297 | a read consumes exactly one reply, and times out when none is left |
| Gameboy.SafeGameplay | LinksAwakeningClient.py:147-174 | the game is safe exactly when the safety bytes read zero, the gameplay byte is in range, and the safety bytes read zero again. When the reads decode but a value is wrong, it raises `InvalidEmulatorState` with `throw` and answers false on the remaining replies without it. Its only other errors are a timeout, the `IndexError` of an empty gameplay read, and errors the decoder itself raises |
| Gameboy.ThrowOnlyReportsUnsafe | LinksAwakeningClient.py:147-174 | with `throw`, an unsafe state raises `InvalidEmulatorStateError` where the non-throwing check returns false; every other outcome is the same either way |
| Gameboy.SafeGameplayOnReplies | LinksAwakeningClient.py:147-174 | the same condition stated on the emulator's three replies; without `throw`, the check never raises `InvalidEmulatorState` |
| Gameboy.ReadBlock | LinksAwakeningClient.py:226-234 | a block read that completes has exactly the requested size |
| Gameboy.PrependTwice | LinksAwakeningClient.py:232 | appending two chunks in turn is appending their concatenation |
| Gameboy.BlockLoopStep | LinksAwakeningClient.py:229-232 | one loop turn keeps the block read equal to the chunks so far plus the read of the rest |
| Gameboy.ReadBlockStep | LinksAwakeningClient.py:229-232 | a block read is its first chunk followed by the read of the rest |
| Gameboy.ReadReplyAcceptsFormattedReplies | LinksAwakeningClient.py:293-312 | the client's decoder accepts every well-formed non-empty reply for the asked-for address |
| Gameboy.ReadBlockOfEmulatorChunks | LinksAwakeningClient.py:226-234 | a block answered in non-empty chunks reads back as their concatenation and consumes exactly those replies |
| Gameboy.FirstChunkRead | LinksAwakeningClient.py:229-232 | the first reply hands over the first chunk, and the rest of the block is read from the replies after it |
| Gameboy.ReadBlockOfChunks | LinksAwakeningClient.py:226-234 | the same for any decoder that accepts formatted replies |
| Gameboy.CriticalCheckMeaning | LinksAwakeningClient.py:194-197 | the critical check fails with `IndexError` exactly when an address lies outside the block, and otherwise holds exactly when both reads agree at every critical address |
| Gameboy.Round | LinksAwakeningClient.py:190-197 | a completed round has a location block and a high-RAM block of the requested sizes |
| Gameboy.FindStable | LinksAwakeningClient.py:186-206 | a stable snapshot has blocks of the requested sizes |
| Gameboy.StableFromStableRound | LinksAwakeningClient.py:186-200 | a stable snapshot is exactly the location and high-RAM blocks of some round that came out stable |
| Gameboy.StableRoundAgreed | LinksAwakeningClient.py:190-197 | in a stable round, the location block was read a second time, every critical address lies inside it, and both reads agree at each one |
| Gameboy.NextAttempt | LinksAwakeningClient.py:199-206 | a stable round ends the retries, the sixth unstable round gives up, and earlier ones retry |
| Gameboy.GaveUpStep | LinksAwakeningClient.py:199-206 | giving up means the round was unstable and every later attempt gave up too |
| Gameboy.UnstableChainCons | LinksAwakeningClient.py:186-206 | an unstable round before a chain of unstable rounds extends the chain |
| Gameboy.GaveUpAfterAllAttempts | LinksAwakeningClient.py:186-206 | giving up happens only after every remaining attempt read an unstable round |
| Gameboy.Zeros | LinksAwakeningClient.py:213 | a fresh buffer holds the given number of zero bytes |
| Gameboy.Overwrite | LinksAwakeningClient.py:216 | slice assignment replaces exactly the slice and keeps the length |
| Gameboy.Assemble | LinksAwakeningClient.py:213-222 | each cache byte comes from high RAM, else the location block, else the checks block, else is zero |
| Gameboy.AssembleInOrder | LinksAwakeningClient.py:213-222 | writing checks, then location, then high RAM into zeros gives the assembled image |
| Gameboy.UpdateCacheSpec | LinksAwakeningClient.py:179-224 | a non-empty cache has the cache size |
| Gameboy.FilledCacheWasConfirmed | LinksAwakeningClient.py:179-224 | a filled cache was read between two passing gameplay checks, from a stable snapshot and the checks block; the snapshot's blocks are those of a round that came out stable |
| Gameboy.FilledCacheFromConfirmedSnapshot | LinksAwakeningClient.py:179-224 | passing checks around a stable snapshot always fill the cache with the assembled image |
| Gameboy.EmptyCacheOnlyAfterGivingUp | LinksAwakeningClient.py:183-206 | without an exception, the cache stays empty only when the retries gave up |
| Gameboy.CacheLookup | LinksAwakeningClient.py:239-246 | an empty cache answers none; otherwise the answer maps exactly the asked addresses to their cache bytes, or fails with an assertion or index error |
| Gameboy.CacheLookupInside | LinksAwakeningClient.py:242-246 | addresses inside the cache are always answered |
| Gameboy.CacheLookupOnePastEnd | LinksAwakeningClient.py:243-245 | the address one past the cache passes the assertion and then raises `IndexError` |
| Gameboy.LookupAfterUpdate | LinksAwakeningClient.py:236-246 | after a filled update, every address inside the cache is answered |
| Gameboy.WriteSlice | LinksAwakeningClient.py:216 | writing a block into the buffer is the slice assignment |
| Gameboy.ZeroedBuffer | LinksAwakeningClient.py:213 | a fresh buffer holds the given number of zero bytes |
| Gameboy.WriteBlocks | LinksAwakeningClient.py:215-222 | the buffer ends up as its old contents with the checks, location and high-RAM blocks written over them, in that order |
| Gameboy.BuildCache | LinksAwakeningClient.py:213-222 | the cache built in place is the assembled image |
| Gameboy.RAGameboy.constructor | LinksAwakeningClient.py:102-104 | the cache covers 0xC000 up to the end of high RAM, is empty, and no range is set |
| Gameboy.RAGameboy.SetChecksRange | LinksAwakeningClient.py:124-126 | the checks range is the given one |
| Gameboy.RAGameboy.SetLocationRange | LinksAwakeningClient.py:128-131 | the location range and critical addresses are the given ones |
| Gameboy.RAGameboy.ReadMemory | LinksAwakeningClient.py:293-312 | the read follows `ReadAt` on the inbox |
| Gameboy.RAGameboy.CheckSafeGameplay | LinksAwakeningClient.py:147-174 | the check follows `SafeGameplay` on the inbox |
| Gameboy.RAGameboy.ReadMemoryBlock | LinksAwakeningClient.py:226-234 | the loop follows `ReadBlock` on the inbox |
| Gameboy.RAGameboy.CriticalBytesMatch | LinksAwakeningClient.py:194-197 | the loop over critical addresses computes `CriticalCheck` |
| Gameboy.RAGameboy.ReadRound | LinksAwakeningClient.py:190-197 | one round follows `Round` on the inbox |
| Gameboy.RAGameboy.Attempt | LinksAwakeningClient.py:190-206 | one attempt either settles the retries or hands on to the next attempt |
| Gameboy.RAGameboy.TakeSnapshot | LinksAwakeningClient.py:186-206 | the retry loop follows `FindStable` on the inbox |
| Gameboy.RAGameboy.UpdateCache | LinksAwakeningClient.py:179-224 | the new cache and inbox are those of `UpdateCacheSpec`, and an exception leaves the cache empty |
| Gameboy.RAGameboy.ReadMemoryCache | LinksAwakeningClient.py:236-246 | a fresh cache is looked up unchanged; a stale one is updated first, and the lookup uses the new cache |
| LAClient.PackU16BE | LinksAwakeningClient.py:425 | `struct.pack(">H", n)` succeeds exactly for 0..0xFFFF, and its two bytes are `n` big-endian; otherwise `struct.error` |
| LAClient.UnpackU16BE | LinksAwakeningClient.py:463 | `struct.unpack(">H", b)` succeeds exactly for two bytes and yields 0..0xFFFF |
| LAClient.UnpackPack | LinksAwakeningClient.py:425 | unpacking a packed index gives it back |
| LAClient.PackUnpack | LinksAwakeningClient.py:463 | packing an unpacked pair of bytes gives them back |
| LAClient.MarkPending | LinksAwakeningClient.py:423 | OR-ing 1 into the status sets bit 0 and keeps the other bits |
| LAClient.SenderIndex | LinksAwakeningClient.py:415-418 | the sender index is the player index capped at 100 |
| LAClient.Playback | LinksAwakeningClient.py:400-425 | without the start item nothing is written; otherwise it writes the item less the base id with the sender index capped at exactly 100, then the status with bit 0 set, then the next index plus one big-endian, unless packing fails |
| LAClient.PlayNext | LinksAwakeningClient.py:463-468 | a bad index read or a wrong length raises. An index present in the received table is played back with that entry's item and sender. An absent index writes nothing and raises nothing |
| LAClient.PlayNextAdvancesByOne | LinksAwakeningClient.py:420-468 | the item played is the one stored at the game's index, and the index written back is that index plus one |
| LAClient.HealthTick | LinksAwakeningClient.py:446-458 | a death is reported exactly on a zero health while not debounced; a pending deathlink kills Link, is cleared, and sets the debounce |
| LAClient.FiresOncePerDeath | LinksAwakeningClient.py:446-452 | over any health sequence, deaths are reported once per drop to zero from a non-zero health |
| LAClient.DeathlinkNotEchoed | LinksAwakeningClient.py:454-458 | a received deathlink kills Link without being reported back on the next tick |
| LAClient.LinksAwakeningClient.constructor | LinksAwakeningClient.py:335-337 | a new client has no pending deathlink, debounce set, and an empty table |
| LAClient.LinksAwakeningClient.OnReceivedItems | LinksAwakeningClient.py:630-632 | the received items are stored at consecutive indices from the given one, and every other entry is kept |
| LAClient.LinksAwakeningClient.ReceivedItemFromAP | LinksAwakeningClient.py:400-425 | the writes sent are those of `Playback`, and the call fails exactly when packing the index fails |
| LAClient.LinksAwakeningClient.MainTick | LinksAwakeningClient.py:446-468 | an empty cache raises `TypeError` with nothing changed; otherwise the flags follow `HealthTick`, and the writes are the kill write, if any, then those of `PlayNext` |

## Left out

- Sockets, timeouts and sleeping are not modelled. The emulator's replies are an `inbox` sequence, and a
  read with no reply left is a timeout.
- The clock is not modelled. `ReadMemoryCache` takes a `stale` flag in place of the 0.1-second check
  on `last_cache_read`.
- Text decoding is modelled as ASCII. A reply byte above 127 raises a decode error, although Python's
  UTF-8 decoding accepts multi-byte sequences in the payload.
- RetroArch.ParseHex: accepts an optional `0x` prefix and hex digits only. `int()` also allows signs,
  surrounding whitespace and underscores.
- Gameboy.RAGameboy.UpdateCache: requires every region to lie inside the cache (`Fits`). Python would
  grow the bytearray through slice assignment past its end.
- Gameboy.RAGameboy.ReadMemoryBlock: requires a size of at least zero. In Python a negative size raises
  `BadRetroArchResponse` on the first decodable reply, or times out when none comes.
- Gameboy.RAGameboy.UpdateCache: requires that both ranges have been set (`checksSet`, `locationSet`).
  In Python, with the location range unset, `update_cache` first runs the gameplay check on three
  replies. The check is called with `throw` left true (lines 147 and 183), so a failing check raises
  `InvalidEmulatorStateError`, or the failed read's own error, and the cache stays `[]` (line 181). If
  the check passes, reading `location_start` raises `AttributeError`.
  An unset checks range is noticed only later. The retry rounds run first (LinksAwakeningClient.py
  lines 187-206). When they give up after six unstable rounds, `update_cache` returns normally with an
  empty cache. After a stable round, reading `checks_start` at line 208 raises `AttributeError`.
- Gameboy.RAGameboy.ReadMemoryCache: requires the same of a stale cache, for the same reason.
- A block read against an emulator that answers empty chunks forever is not modelled. Each turn
  consumes one reply, and the model ends when the inbox is empty.
- What remains of the inbox after an exception is not stated.
- `async_read_memory_safe`, the synchronous `read_memory`, `send_command` and the connection handshake
  are not modelled. In `recved_item_from_ap`, the status byte they would read arrives as a parameter.
- LAClient.LinksAwakeningClient.ReceivedItemFromAP: the spin loop that waits for the game to consume the
  previous item, and its victory check, are not modelled. The status byte is the value read after the
  wait.
- The location, item and GPS trackers are not modelled. `has_start_item` is a parameter.
- The victory check and `win_cb` in `main_tick` are not modelled.
- `write_memory` is recorded in the client's `sent` log. Its reply check and the socket send are not
  modelled.
- `BASE_ID` lives in a module that is not part of this model, so it is a constructor parameter.
- `ENABLE_DEATHLINK` and `on_deathlink` are not modelled. `pendingDeathlink` is state that only the
  deathlink handler would set.
- `recvd_checks` is a class attribute in Python, shared by every client instance. It is modelled per
  instance.
- The `recvd_checks.clear()` at a game-loop restart is not modelled.
- The server's item records are reduced to the two fields used (`item`, `player`).
- The GUI, the server connection and the other command handlers are not modelled.
- A zip entry is stored without a duplicate check. A later entry therefore replaces an earlier upload of
  the same name (`ZipEntryReplacesEarlierFile`). This follows the code, not a stricter reading that
  batches never hold two files of one name.
- The archive-validity probe and the zip library's member list are inputs of each uploaded file
  (`zipValid`, `entries`).
