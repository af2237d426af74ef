# e1000e driver: verified models

A Dafny model of the parts of Intel's e1000e Ethernet driver (version 3.4.2.1) that keep data
safe or keep agents apart, with proofs about them.

**The NVM store.** The NVM image of an ICH or SPT part lives in one of two banks of a NOR flash.
Writes go to a RAM copy of 2048 words with a flag each, reads overlay it on the bank in use, and a
commit erases the other bank, programs the merged image with its signature held open, completes
the new signature, clears the old one and empties the cache. `Nor` and `Flash` describe the
device: programming only clears bits, erasing only sets them, a cycle can fail or lose power
half-way, and every content the cells pass through is recorded. `NvmStore` is the driver on top, in
its byte-wise and its dword-wise form. `Commit`, `CrashSafety` and `Runs` say what a reader finds
after power is lost at any moment, within one commit and over whole runs. `Checksum` and `Eeprom`
add the checksum and the byte-granular ethtool access. `EraseModes` states which sectors the erase
loop reaches.

**Keeping apart.** `Semaphore` is a state machine over the single register accesses of any number
of drivers and the firmware. `LockBalance` runs the same routines and their callers as one driver
sees them, under arbitrary timeouts and device errors.

**Devices behind pins and registers.** `Spi` drives an EEPROM that sees only chip select, clock
and data. `SerDes` is the link state machine. `HostInterface` builds the command block for the
management firmware.

**Numbers.** `Division`, `Latency` and `Multicast` are the 64-by-32-bit division, the latency
encoding and the multicast hash filter. `Bits`, `Numbers`, `Arith` and `Seqs` hold what they share.

**When a routine may fail.** A device error is recorded where the device reports it: the replies to each
try of a flash cycle, the results of write attempts, polls and status bytes. The contracts say from that
record when a routine fails and when it must not.

## What the code does not guarantee

Several promises hold only under a condition. Where a caller could test the condition beforehand, the
promise is stated as an if-and-only-if with it.

- An erase of bank 0 that is interrupted while its signature bits are 00b can make it look valid
  (`EraseTearExact`), and an interrupted invalidation of bank 0 can clear other bits of word 0x13 while
  the signature still stands (`InvalidateTearExact`). Outside these two windows every moment of a commit is
  atomic (`MomentsAtomic`). The first window is not rare: a completed commit out of bank 0 zeroes the
  signature byte of bank 0 itself, so the next commit always has it (`NextHazards`, `SecondCommitUnsafe`).
- The erase loop reports success after ten failed cycles; what the commit then leaves, however the
  failures tore the bank, is in `GaveUpKeepsABank` and `GaveUpKeepsTheImage`.
- A failed bank detection is read as bank 0 (`AssumedBankExact`, `AssumedBankCommit`). Reads do the same, so
  results about a successful update or ethtool call name the bank each read was served from; with bank 0
  in use it cannot be another.
- In 256-byte mode the erase loop adds its offsets up, so it skips sectors and strays into the
  other bank (`WholeImageErased`, `StraysIntoBank1`).
- The paired SPT read decides for both words by the flag of the first (`SptReadExact`).
- The commit forces the signature bits after the checksum was computed, so the committed checksum is
  right exactly when they were 10b already (`CommittedChecksum`).
- With 8-bit SPI addresses the ninth address bit is chosen from the first word of the request, so a
  request that straddles word 128 wraps (`BlockStoreExact`).
- The latency clamp compares encoded words, which is right for every request exactly when the
  platform maximum is orderly (`ClampExact`).
- A check that fails to configure flow control while forcing the link leaves TXCW against the state
  (`FailureExact`); a reset clears the state but not the link report, which is truthful again after
  the next check (`RunSafety`).
- When the read-back of a page selection fails, the expected page is still in the variable and passes
  for a match (`SelectPage`).
- The comment in the hash routine gives 0x163 for filter type 2; the code computes 0x58D
  (`ExampleHashes`).

## Model

| member | source | states |
|---|---|---|
| `Nor.WordBytes` | I219-V-driver-no-checksum/e1000e-3.4.2.1/src/ich8lan.c:4003-4012 | splitting a word into its two programmed bytes and joining them are inverse |
| `Nor.TornProgramTrans` | I219-V-driver-no-checksum/e1000e-3.4.2.1/src/ich8lan.c:4362-4383 | two interrupted program cycles of the same bytes, one after the other, are one interrupted cycle |
| `Nor.RetryReachesIntent` | I219-V-driver-no-checksum/e1000e-3.4.2.1/src/ich8lan.c:4362-4383 | after any interrupted attempt a good retry leaves what one good attempt would have left |
| `Nor.CleanOverlay` | I219-V-driver-no-checksum/e1000e-3.4.2.1/src/ich8lan.c:3250-3392 | with an empty shadow RAM readers see exactly the selected bank |
| `Nor.BankLayout` | I219-V-driver-no-checksum/e1000e-3.4.2.1/src/ich8lan.c:3209-3234 | in plain offsets and numbers: which bytes decide the bank in use, bank 0 first, and which bytes make word i of either bank |
| `Flash.FlashController.constructor` | I219-V-driver-no-checksum/e1000e-3.4.2.1/src/ich8lan.c:569-633 | a controller over two banks starts with the given content, no history but that content, no erase, and nothing met |
| `Flash.FlashController.ReadFlashData` | I219-V-driver-no-checksum/e1000e-3.4.2.1/src/ich8lan.c:3587-3649 | a successful read returns the byte or the little-endian word stored, up to the last byte of the region; sizes other than 1 and 2 and far addresses fail; else it fails only after a refusal, a hang or eleven tries, and not without device errors |
| `Flash.FlashController.ReadFlashByte` | I219-V-driver-no-checksum/e1000e-3.4.2.1/src/ich8lan.c:3556-3576 | byte reads fail on SPT parts and return the stored byte elsewhere, failing only as the cycles do |
| `Flash.FlashController.ReadFlashWord` | I219-V-driver-no-checksum/e1000e-3.4.2.1/src/ich8lan.c:3539-3546 | word offsets are converted to bytes: the word stored there is returned, or the cycles failed |
| `Flash.FlashController.ReadFlashDword` | I219-V-driver-no-checksum/e1000e-3.4.2.1/src/ich8lan.c:3660-3723 | dword reads work on SPT parts only and return the four stored bytes, or the cycles failed |
| `Flash.FlashController.WriteFlashData` | I219-V-driver-no-checksum/e1000e-3.4.2.1/src/ich8lan.c:4136-4300 | success means exactly these bytes have been ANDed in; failure, which needs a refusal, a hang or eleven tries, and every moment on the way, is an interrupted program cycle of these bytes and touches nothing else |
| `Flash.FlashController.RetryWrite` | I219-V-driver-no-checksum/e1000e-3.4.2.1/src/ich8lan.c:4327-4383 | any number of failed attempts before a good one leaves the intended bytes; it succeeds exactly when one of its first 101 attempts does, makes none after that, and fails only after 101 failures |
| `Flash.FlashController.EraseSector` | I219-V-driver-no-checksum/e1000e-3.4.2.1/src/ich8lan.c:4446-4491 | retries until a cycle succeeds, the controller refuses or hangs, or ten cycles have failed in all, when it still reports success; reported failure means a refusal or a hang; only bits of the sector have risen |
| `Flash.FlashController.EraseBank` | I219-V-driver-no-checksum/e1000e-3.4.2.1/src/ich8lan.c:4393-4495 | a clean erase issues exactly the loop's addresses; outside the 256-byte mode one sector becomes all ones and nothing else changes at any moment; failure means a refusal or a hang, success without an erase ten failed cycles, shared by all sectors |
| `Flash.TornEraseTrans` | I219-V-driver-no-checksum/e1000e-3.4.2.1/src/ich8lan.c:4446-4491 | interrupted erase cycles compose |
| `NvmStore.NvmStore.DetectBank` | I219-V-driver-no-checksum/e1000e-3.4.2.1/src/ich8lan.c:3209-3234 | success returns the bank whose signature bits are 10b, bank 0 first; failure returns bank 0, counts as a guess, and needs that neither bank is valid or that a read went unanswered |
| `NvmStore.NvmStore.SignatureByte` | I219-V-driver-no-checksum/e1000e-3.4.2.1/src/ich8lan.c:3209-3234 | read by byte or by dword, it is the high byte of the bank's word 0x13 |
| `NvmStore.NvmStore.ReadNvm` | I219-V-driver-no-checksum/e1000e-3.4.2.1/src/ich8lan.c:3343-3392 | a multi-word read returns the overlay of cached words over the active bank, word for word, and writes nothing past the request; bad bounds fail, and in bounds it fails exactly when a flash read after the detection does |
| `NvmStore.NvmStore.ReadNvmSpt` | I219-V-driver-no-checksum/e1000e-3.4.2.1/src/ich8lan.c:3250-3332 | the paired read returns word by word what the pairing rule gives, with the first flag of a pair deciding for both, and fails exactly when a flash read after the detection does |
| `NvmStore.NvmStore.SptSingle` | I219-V-driver-no-checksum/e1000e-3.4.2.1/src/ich8lan.c:3283-3300 | an odd last word comes from the aligned dword around it, at either parity |
| `NvmStore.NvmStore.SptPair` | I219-V-driver-no-checksum/e1000e-3.4.2.1/src/ich8lan.c:3301-3322 | one dword gives two words; the second is cached when the flag of the first is set |
| `NvmStore.SptReadExact` | I219-V-driver-no-checksum/e1000e-3.4.2.1/src/ich8lan.c:3317-3321 | the SPT read equals the overlay if and only if every pair it covers has equal flags or equal contents |
| `NvmStore.NvmStore.ReadWord` | I219-V-driver-no-checksum/e1000e-3.4.2.1/src/ich8lan.c:3250-3392 | a single-word read returns the overlay on both families and at either parity |
| `NvmStore.NvmStore.WriteNvm` | I219-V-driver-no-checksum/e1000e-3.4.2.1/src/ich8lan.c:3734-3757 | accepted exactly when in bounds; then the given words, and no others, are pending |
| `NvmStore.NvmStore.SumWords` | I219-V-driver-no-checksum/e1000e-3.4.2.1/src/nvm.c:560-572 | a success adds, modulo 2^16, exactly the logical words of the banks its reads took for the one in use: of the bank in use when none had to guess; it fails exactly when a read does |
| `NvmStore.ServedFrom` | I219-V-driver-no-checksum/e1000e-3.4.2.1/src/nvm.c:566-572 | reads that all took the same bank return its logical words, in order |
| `NvmStore.NvmStore.UpdateChecksum` | I219-V-driver-no-checksum/e1000e-3.4.2.1/src/nvm.c:560-580 | on success only word 0x3F of the shadow RAM changes, to the complement of the sum of the words that were read, whatever retries that took; on failure, which is that of a read, nothing changes |
| `NvmStore.NvmStore.EepromTest` | I219-V-driver-no-checksum/e1000e-3.4.2.1/src/ethtool.c:1112-1133 | unless a read fails, returns 0 exactly when words 0 to 0x3F, as read, sum to 0xBABA, else 2 |
| `NvmStore.NvmStore.EraseOther` | I219-V-driver-no-checksum/e1000e-3.4.2.1/src/ich8lan.c:3958-3976 | erases the bank that is not in use, or bank 1 when the bank was guessed; the bank in use is untouched at every moment, and however the erase ends only bits of the other bank have risen; it fails exactly when the erase does |
| `NvmStore.NvmStore.CopyWrite` | I219-V-driver-no-checksum/e1000e-3.4.2.1/src/ich8lan.c:3997-4014 | each write extends the copied prefix, asks for no bit to rise, and at every moment leaves the old bank intact and the new one unsigned; it fails exactly when all its attempts do |
| `NvmStore.NvmStore.MergedWord` | I219-V-driver-no-checksum/e1000e-3.4.2.1/src/ich8lan.c:3977-3986 | the word to copy is the logical word |
| `NvmStore.NvmStore.MergedDword` | I219-V-driver-no-checksum/e1000e-3.4.2.1/src/ich8lan.c:3815-3839 | patching the old bank's dword with the pending words gives the two logical words, signature held at 11b |
| `NvmStore.NvmStore.CopyBytes` | I219-V-driver-no-checksum/e1000e-3.4.2.1/src/ich8lan.c:3977-4015 | the byte-wise loop programs the whole held image, whatever fails on the way keeps the old bank selected |
| `NvmStore.NvmStore.CopyWord` | I219-V-driver-no-checksum/e1000e-3.4.2.1/src/ich8lan.c:3987-4014 | low byte, then high byte, the signature bits held; every moment is a copying state |
| `NvmStore.NvmStore.CopyDwords` | I219-V-driver-no-checksum/e1000e-3.4.2.1/src/ich8lan.c:3810-3852 | the dword-wise loop programs the same held image under the same guarantee |
| `NvmStore.NvmStore.SignatureFlip` | I219-V-driver-no-checksum/e1000e-3.4.2.1/src/ich8lan.c:3867-3877 | at either width the prepared write clears bit 14 of word 0x13, repeats what is there otherwise, and asks for no bit to rise |
| `NvmStore.NvmStore.SignatureZero` | I219-V-driver-no-checksum/e1000e-3.4.2.1/src/ich8lan.c:3887-3897 | at either width the prepared write zeroes the signature byte and repeats what is there otherwise |
| `NvmStore.NvmStore.Validate` | I219-V-driver-no-checksum/e1000e-3.4.2.1/src/ich8lan.c:4025-4039 | turns the held image into the stamped one; at every moment the new bank is still unsigned or already complete |
| `NvmStore.NvmStore.Invalidate` | I219-V-driver-no-checksum/e1000e-3.4.2.1/src/ich8lan.c:4041-4051 | zeroes the old signature byte; at every moment nothing else of the old bank and nothing of the new one has changed |
| `NvmStore.NvmStore.FillBank` | I219-V-driver-no-checksum/e1000e-3.4.2.1/src/ich8lan.c:3977-4039 | copy and validation on either family: every moment after the erase is one of an unsigned or a complete new bank |
| `NvmStore.NvmStore.ClearShadow` | I219-V-driver-no-checksum/e1000e-3.4.2.1/src/ich8lan.c:4053-4057 | every word becomes unmodified and 0xFFFF |
| `NvmStore.NvmStore.CommitShadow` | I219-V-driver-no-checksum/e1000e-3.4.2.1/src/ich8lan.c:3952-4074 | on either family: success gives exactly the specified flash and an empty cache, failure keeps the cache; it fails exactly when one flash operation of its own failed, and a failed detection does not end it; the history is marked at the end of the erase and at the start of the invalidation, with every moment of each phase described; after an erase that gave up the content is tied to the old one |
| `NvmStore.NvmStore.UpdateNvm` | I219-V-driver-no-checksum/e1000e-3.4.2.1/src/ich8lan.c:3937-4075 | checksum and commit as one state change, success through retries included: the pending checksum, the flash, the cache, the bank in use, the phases of the history, and failure exactly when one flash operation failed |
| `NvmStore.CommitsAgree` | I219-V-driver-no-checksum/e1000e-3.4.2.1/src/ich8lan.c:3770-3924 | from the same flash and cache, whichever bank is in use or none, the dword-wise and the byte-wise update leave identical flash and an empty cache unless one of them meets a failed operation, guesses the bank or gives its erase up |
| `Commit.CopyStep` | I219-V-driver-no-checksum/e1000e-3.4.2.1/src/ich8lan.c:3997-4014 | programming the next bytes of an image extends the copied prefix, at any width |
| `Commit.TraceErased` | I219-V-driver-no-checksum/e1000e-3.4.2.1/src/ich8lan.c:3958-3976 | the moment the erase ends is already one of an unsigned new bank |
| `Commit.TraceFilled` | I219-V-driver-no-checksum/e1000e-3.4.2.1/src/ich8lan.c:3977-4039 | the copy and validation writes extend the filling phase of the history |
| `Commit.TraceLate` | I219-V-driver-no-checksum/e1000e-3.4.2.1/src/ich8lan.c:4041-4051 | the invalidation write begins from the completed new bank |
| `Commit.CopyStepTorn` | I219-V-driver-no-checksum/e1000e-3.4.2.1/src/ich8lan.c:3987-4014 | a copy write interrupted anywhere leaves the old bank intact and the new bank unsigned, because the signature is held at 11b |
| `Commit.FlipStep` | I219-V-driver-no-checksum/e1000e-3.4.2.1/src/ich8lan.c:4025-4037 | the validation write turns the held image into the stamped image |
| `Commit.FlipStepTorn` | I219-V-driver-no-checksum/e1000e-3.4.2.1/src/ich8lan.c:4025-4037 | interrupted, it has either not happened or completed the new bank |
| `Commit.CopiedImage` | I219-V-driver-no-checksum/e1000e-3.4.2.1/src/ich8lan.c:3977-4015 | over an erased bank the programmed bytes read back as exactly the image |
| `Commit.InvalidateStep` | I219-V-driver-no-checksum/e1000e-3.4.2.1/src/ich8lan.c:4041-4051 | the invalidation interrupted anywhere keeps the new image and changes one byte of the old bank |
| `Commit.InvalidateDone` | I219-V-driver-no-checksum/e1000e-3.4.2.1/src/ich8lan.c:4041-4051 | finished, it leaves the committed flash |
| `Commit.ProgramOverwrites` | I219-V-driver-no-checksum/e1000e-3.4.2.1/src/ich8lan.c:4041-4045 | programming equals overwriting if and only if no bit has to rise |
| `Commit.RetriesOverwrite` | I219-V-driver-no-checksum/e1000e-3.4.2.1/src/ich8lan.c:4362-4383 | when no bit has to rise, any sequence of interrupted attempts followed by a good one ends in the overwritten content |
| `Commit.CopyKeepsOnes` | I219-V-driver-no-checksum/e1000e-3.4.2.1/src/ich8lan.c:3971-4015 | no write of the copy phase asks a bit to rise |
| `Commit.SignatureKeepsOnes` | I219-V-driver-no-checksum/e1000e-3.4.2.1/src/ich8lan.c:4025-4050 | neither does the validation or the invalidation write |
| `CrashSafety.CrashAtomicity` | I219-V-driver-no-checksum/e1000e-3.4.2.1/src/ich8lan.c:3937-4057 | from a valid bank, after power is lost at any safe moment, detection selects the complete old or the complete new image |
| `CrashSafety.MomentsAtomic` | I219-V-driver-no-checksum/e1000e-3.4.2.1/src/ich8lan.c:3937-4057 | in the history of any commit every moment is atomic, the erase being asked to be without its hazard and the invalidation without its own, the copy and signature phases nothing |
| `CrashSafety.ValidatedAtomic` | I219-V-driver-no-checksum/e1000e-3.4.2.1/src/ich8lan.c:3209-3234 | in the window where both banks are signed, bank 0 wins and its image is complete |
| `CrashSafety.CopyingAtomic` | I219-V-driver-no-checksum/e1000e-3.4.2.1/src/ich8lan.c:3977-4015 | throughout the copy phase the old bank is selected with its image unchanged |
| `CrashSafety.ErasingKeepsOld` | I219-V-driver-no-checksum/e1000e-3.4.2.1/src/ich8lan.c:4393-4495 | throughout an erase without hazard the old bank stays selected |
| `CrashSafety.EraseTearExact` | I219-V-driver-no-checksum/e1000e-3.4.2.1/src/ich8lan.c:4393-4495 | an interrupted erase can never change the selected bank if and only if bank 0 is not being erased with signature bits 00b |
| `CrashSafety.InvalidatingAtomic` | I219-V-driver-no-checksum/e1000e-3.4.2.1/src/ich8lan.c:4041-4051 | the invalidation keeps one complete image selected, and selects the new bank once the byte is zero |
| `CrashSafety.InvalidateTearExact` | I219-V-driver-no-checksum/e1000e-3.4.2.1/src/ich8lan.c:4041-4051 | an interrupted invalidation is always atomic if and only if it is not bank 0 with one of bits 13:8 of word 0x13 set |
| `CrashSafety.TornInvalidation` | I219-V-driver-no-checksum/e1000e-3.4.2.1/src/ich8lan.c:4041-4051 | a concrete interrupted invalidation of bank 0 that selects neither image |
| `CrashSafety.MeaningKept` | I219-V-driver-no-checksum/e1000e-3.4.2.1/src/ich8lan.c:3937-4057 | as long as the pending words are kept, the logical contents are the same at every safe moment of a commit |
| `CrashSafety.CommitResultDone` | I219-V-driver-no-checksum/e1000e-3.4.2.1/src/ich8lan.c:3937-4057 | a finished commit selects the other bank, with exactly the target image, and unsigns the old one |
| `CrashSafety.NextHazards` | I219-V-driver-no-checksum/e1000e-3.4.2.1/src/ich8lan.c:4041-4051 | a completed commit out of bank 0 always leaves the erase hazard to the next one, out of bank 1 never; the invalidation hazard follows a commit out of bank 1 if and only if bits 13:8 of word 0x13 are not all clear |
| `CrashSafety.SecondCommitUnsafe` | I219-V-driver-no-checksum/e1000e-3.4.2.1/src/ich8lan.c:3964-3976 | after a completed commit out of bank 0 the erase of the next one can be interrupted so that bank 0 is selected again |
| `CrashSafety.GaveUpKeepsABank` | I219-V-driver-no-checksum/e1000e-3.4.2.1/src/ich8lan.c:4485-4494 | however an erase that gave up has torn the bank, the commit leaves a valid bank if and only if bit 15 of word 0x13 was set there before the commit |
| `CrashSafety.GaveUpKeepsTheImage` | I219-V-driver-no-checksum/e1000e-3.4.2.1/src/ich8lan.c:4485-4494 | and leaves the intended image if and only if every 1 bit of it was set in that bank before the commit |
| `CrashSafety.AssumedBankExact` | I219-V-driver-no-checksum/e1000e-3.4.2.1/src/ich8lan.c:3958-3962 | right after the erase of a commit whose detection failed there is a valid bank if and only if bank 0 was in use |
| `CrashSafety.AssumedBankCommit` | I219-V-driver-no-checksum/e1000e-3.4.2.1/src/ich8lan.c:3958-4051 | finished with bank 1 in use, it leaves bank 1 signed with the stamped contents of bank 0, which is the intended image if and only if the banks agree in every word that was not pending |
| `Runs.StepSafe` | I219-V-driver-no-checksum/e1000e-3.4.2.1/src/ich8lan.c:3734-4075 | writes, completed, failed and interrupted commits and reboots all keep a valid bank with an expected image |
| `Runs.RunSafety` | I219-V-driver-no-checksum/e1000e-3.4.2.1/src/ich8lan.c:3734-4075 | over every run of such events some bank is valid at every moment, with the image of the last completed commit or of one begun since |
| `Runs.ImageOrigin` | I219-V-driver-no-checksum/e1000e-3.4.2.1/src/ich8lan.c:3734-4075 | the image found goes back to an event no older than the last completed commit |
| `Runs.FailedCommitKeepsView` | I219-V-driver-no-checksum/e1000e-3.4.2.1/src/ich8lan.c:4020-4074 | a failed commit changes no logical word except the checksum word |
| `Runs.DoneCommitKeepsView` | I219-V-driver-no-checksum/e1000e-3.4.2.1/src/ich8lan.c:4053-4057 | a completed commit keeps the logical words up to the signature bits, and a reboot then changes nothing |
| `Runs.UpdateIsStep` | I219-V-driver-no-checksum/e1000e-3.4.2.1/src/ich8lan.c:3937-4075 | the driver's routine takes these steps: success is a completed commit; power loss at any moment of the copy and signature phases, and of the erase or the invalidation without its hazard, is a power-loss step; a failure at such a moment, or before the first cycle, is a failed commit; it fails exactly when a flash operation does |
| `Runs.MomentIsStep` | I219-V-driver-no-checksum/e1000e-3.4.2.1/src/ich8lan.c:3937-4075 | every covered moment of a commit is where a failure or a power loss can leave the system |
| `Checksum.ChecksumBalances` | I219-V-driver-no-checksum/e1000e-3.4.2.1/src/nvm.c:560-580 | once the checksum word is pending the logical image passes the self-test |
| `Checksum.SumReplaced` | I219-V-driver-no-checksum/e1000e-3.4.2.1/src/nvm.c:560-572 | replacing one word keeps the sum if and only if the word is the same |
| `Checksum.StampedChecksum` | I219-V-driver-no-checksum/e1000e-3.4.2.1/src/ich8lan.c:4025-4037 | forcing the signature bits keeps the sum if and only if they were 10b |
| `Checksum.CommittedChecksum` | I219-V-driver-no-checksum/e1000e-3.4.2.1/src/ethtool.c:1112-1133 | the committed image passes the self-test if and only if the logical word 0x13 carried signature bits 10b |
| `Checksum.SoundUpdate` | I219-V-driver-no-checksum/e1000e-3.4.2.1/src/ich8lan.c:3937-4075 | what a successful update leaves for readers, with or without a reboot: the stamped image with its checksum |
| `Checksum.UpdateThenTest` | I219-V-driver-no-checksum/e1000e-3.4.2.1/src/ethtool.c:1112-1133 | update, test, reboot, test, on a part that may report and recover from errors: after a successful update both tests that read through give the same verdict, good exactly under that condition; failed steps and failed flash operations are equally many |
| `Eeprom.AdmittedExact` | I219-V-driver-no-checksum/e1000e-3.4.2.1/src/kcompat_ethtool.c:365-371 | the 32-bit bounds test, wrap included, admits exactly the non-empty ranges inside the device |
| `Eeprom.AfterSetByte` | I219-V-driver-no-checksum/e1000e-3.4.2.1/src/ethtool.c:717-792 | byte for byte, what a set leaves: the new bytes inside the range, the old ones outside, checksum word and committed signature bits apart |
| `Eeprom.GetEeprom` | I219-V-driver-no-checksum/e1000e-3.4.2.1/src/ethtool.c:660-715 | a success returns exactly the requested bytes of what was read, which is the logical image when no read guessed the bank; odd or even at either end; all ones after a read error, reported exactly when a read failed; nothing else is written |
| `Eeprom.LoadEnds` | I219-V-driver-no-checksum/e1000e-3.4.2.1/src/ethtool.c:749-762 | the words that are only partly overwritten are loaded first |
| `Eeprom.PatchBuffer` | I219-V-driver-no-checksum/e1000e-3.4.2.1/src/ethtool.c:764-771 | the byte copy at an odd or even place patches exactly those bytes of the word buffer |
| `Eeprom.BufferIsImage` | I219-V-driver-no-checksum/e1000e-3.4.2.1/src/ethtool.c:749-771 | the patched buffer is a run of words of the patched image |
| `Eeprom.WritePatches` | I219-V-driver-no-checksum/e1000e-3.4.2.1/src/ethtool.c:773-777 | writing the buffer patches the logical image and nothing else |
| `Eeprom.CommitImage` | I219-V-driver-no-checksum/e1000e-3.4.2.1/src/ethtool.c:782-786 | after a successful checksum and commit readers see the stamped image with its checksum |
| `Eeprom.SetEeprom` | I219-V-driver-no-checksum/e1000e-3.4.2.1/src/ethtool.c:717-792 | error cases in the source's order, the NVM error exactly when a flash operation failed; a success, through whatever retries, turns the logical image into the specified one |
| `Eeprom.SetThenGet` | I219-V-driver-no-checksum/e1000e-3.4.2.1/src/ethtool.c:660-792 | round trip with frame, whenever both calls report success, as they do unless a flash operation fails: a get of any range after a set returns the new bytes inside the set range and the old ones outside |
| `EraseModes.Triangular` | I219-V-driver-no-checksum/e1000e-3.4.2.1/src/ich8lan.c:4445-4475 | the cumulative offsets of the erase loop are the triangular numbers times 256 |
| `EraseModes.WholeImageErased` | I219-V-driver-no-checksum/e1000e-3.4.2.1/src/ich8lan.c:4419-4475 | a flawless erase clears the whole image area if and only if the part is not in its 256-byte mode |
| `EraseModes.StraysIntoBank1` | I219-V-driver-no-checksum/e1000e-3.4.2.1/src/ich8lan.c:4419-4475 | in that mode an erase of bank 0 reaches into bank 1 |
| `Semaphore.SetBits` | I219-V-driver-no-checksum/e1000e-3.4.2.1/src/80003es2lan.c:303-304 | taking a resource sets its bit and changes no other resource and no firmware bit |
| `Semaphore.ClearBits` | I219-V-driver-no-checksum/e1000e-3.4.2.1/src/80003es2lan.c:326-328 | giving it back clears its bit and changes nothing else |
| `Semaphore.StepKeeps` | I219-V-driver-no-checksum/e1000e-3.4.2.1/src/80003es2lan.c:274-331 | every register access of any driver, and every step of the firmware, keeps the invariant |
| `Semaphore.MutualExclusion` | I219-V-driver-no-checksum/e1000e-3.4.2.1/src/80003es2lan.c:274-331 | over every run of any number of drivers and the firmware: at most one owner of SWSM, at most one holder of a resource, a software bit set exactly when a driver holds it, never together with the firmware bit |
| `Semaphore.NoLostUpdate` | I219-V-driver-no-checksum/e1000e-3.4.2.1/src/mac.c:1355-1413 | a driver's access changes the bit of the resource it takes or drops, only when it writes, and no other bit |
| `Semaphore.GrantedWhenFree` | I219-V-driver-no-checksum/e1000e-3.4.2.1/src/80003es2lan.c:284-305 | a resource is granted only while neither a driver nor the firmware has it |
| `Semaphore.FirmwareStoreKeeps` | I219-V-driver-no-checksum/e1000e-3.4.2.1/src/80003es2lan.c:274-331 | while the firmware owns SW_FW_SYNC no driver update is pending, so its store loses none |
| `Semaphore.FirmwareAlone` | I219-V-driver-no-checksum/e1000e-3.4.2.1/src/80003es2lan.c:274-331 | while no driver has SWESMBI the firmware can take SW_FW_SYNC, store what it may store, and leave: its steps are not blocked |
| `Semaphore.OperationEnds` | I219-V-driver-no-checksum/e1000e-3.4.2.1/src/80003es2lan.c:274-331 | over every run, an operation a driver comes back from did what it is for: a release only ever ends without the resource, an acquisition without it only after one of its retry loops ran out; no other holding changes |
| `Semaphore.ReleaseEnds` | I219-V-driver-no-checksum/e1000e-3.4.2.1/src/80003es2lan.c:319-331 | from any reachable state, the access that ends a release leaves the driver without the resource and the register with its bit clear: a timeout never ends it |
| `Semaphore.AloneSucceeds` | I219-V-driver-no-checksum/e1000e-3.4.2.1/src/80003es2lan.c:274-309 | left alone with everything free, a driver gets the resource and gives SWSM back in eight accesses |
| `Semaphore.AloneReleases` | I219-V-driver-no-checksum/e1000e-3.4.2.1/src/80003es2lan.c:319-331 | left alone, a driver that holds a resource has dropped it and given SWSM back in eight accesses, with every other software and firmware bit as before |
| `LockBalance.Port.GetHwSemaphore` | I219-V-driver-no-checksum/e1000e-3.4.2.1/src/mac.c:1355-1396 | success owns both bits; a timeout of either loop, after word size + 1 polls of it, leaves neither, and the release write is made by the owner only |
| `LockBalance.Port.PutHwSemaphore` | I219-V-driver-no-checksum/e1000e-3.4.2.1/src/mac.c:1404-1413 | gives up both bits, in the register too, and leaves SW_FW_SYNC alone |
| `LockBalance.Port.AcquireSwfw` | I219-V-driver-no-checksum/e1000e-3.4.2.1/src/80003es2lan.c:274-309 | success adds exactly this resource, found free at the last of at most fifty readings, sets its bit over that reading and no other, and gives SWSM back; on every failing path the driver holds what it held before and does not own SWSM, and the reason is a semaphore timeout or fifty busy readings |
| `LockBalance.Port.ReleaseSwfw` | I219-V-driver-no-checksum/e1000e-3.4.2.1/src/80003es2lan.c:319-331 | drops exactly this resource: its bit is cleared over what was read and no other, and SWSM is given back |
| `LockBalance.Port.RequestGrant` | I219-V-driver-no-checksum/e1000e-3.4.2.1/src/nvm.c:151-175 | the request bit stays set exactly on success; success exactly when one of the first thousand readings of the grant bit shows it |
| `LockBalance.Port.AcquireNvm` | I219-V-driver-no-checksum/e1000e-3.4.2.1/src/80003es2lan.c:238-252 | a failure, of the semaphore or of the grant and for no other reason, leaves neither semaphore nor request; what was taken is given back once |
| `LockBalance.Port.ReleaseNvm` | I219-V-driver-no-checksum/e1000e-3.4.2.1/src/80003es2lan.c:260-264 | drops the request and the semaphore |
| `LockBalance.Port.NvmSession` | I219-V-driver-no-checksum/e1000e-3.4.2.1/src/nvm.c:355-397 | one pass of the NVM writer is one session, whether or not the part gets ready; it succeeds exactly when the part does |
| `LockBalance.Port.SelectPage` | I219-V-driver-no-checksum/e1000e-3.4.2.1/src/80003es2lan.c:352-383 | the page counts as selected exactly when its write succeeded and its read-back, where one is made and succeeds, returned it |
| `LockBalance.Port.PageNumber` | I219-V-driver-no-checksum/e1000e-3.4.2.1/src/80003es2lan.c:352-366 | the page is the register number divided by 32, the selector 29 for the last two registers of a page and 22 for the others |
| `LockBalance.Port.AccessPhyReg` | I219-V-driver-no-checksum/e1000e-3.4.2.1/src/80003es2lan.c:341-469 | whatever fails, an access that acquired is one session: taken once, used only while held, given back once; success means the page was selected first and the register's own transaction succeeded last, and failure that a transaction failed or the page read back differed |
| `LockBalance.Port.AccessKmrnReg` | I219-V-driver-no-checksum/e1000e-3.4.2.1/src/80003es2lan.c:1202-1257 | the same for the Kumeran registers: one word written, for a read one fetched, whose low half is the result |
| `LockBalance.Port.KmrnNumber` | I219-V-driver-no-checksum/e1000e-3.4.2.1/src/80003es2lan.c:1212-1247 | the word written is the register number modulo 32 in the upper half, with the data, or the read bit, beside it |
| `LockBalance.TakenOnceGivenOnce` | I219-V-driver-no-checksum/e1000e-3.4.2.1/src/80003es2lan.c:238-264 | in every history of the driver each resource has been given back as often as it was taken, plus the one in progress |
| `Spi.ValueOfBits` | I219-V-driver-no-checksum/e1000e-3.4.2.1/src/nvm.c:46-75 | the bits sent, most significant first, carry the low bits of the number |
| `Spi.SpiPort.ShiftOut` | I219-V-driver-no-checksum/e1000e-3.4.2.1/src/nvm.c:46-75 | clocks exactly these bits into the part, in order |
| `Spi.SpiPort.ShiftIn` | I219-V-driver-no-checksum/e1000e-3.4.2.1/src/nvm.c:88-113 | a status read with bit 0 clear means no write cycle is in progress, one with bit 0 set that one was when it began |
| `Spi.SpiPort.Standby` | I219-V-driver-no-checksum/e1000e-3.4.2.1/src/nvm.c:183-199 | the part acts on what it was sent and is selected again, empty |
| `Spi.SpiPort.Release` | I219-V-driver-no-checksum/e1000e-3.4.2.1/src/nvm.c:207-234 | the part acts on what it was sent and stays deselected; one grant is given back |
| `Spi.SpiPort.Ready` | I219-V-driver-no-checksum/e1000e-3.4.2.1/src/nvm.c:242-281 | success means selected and not busy; polling never disturbs the cells; it fails only after 5000 busy status bytes, and not at all on a part that is not busy |
| `Spi.CommandUnderstood` | I219-V-driver-no-checksum/e1000e-3.4.2.1/src/nvm.c:366-388 | the part decodes opcode, address and bytes of the bit stream as they were meant |
| `Spi.WordSent` | I219-V-driver-no-checksum/e1000e-3.4.2.1/src/nvm.c:385-388 | a swapped word extends the stream by its low byte, then its high byte |
| `Spi.SpiPort.SendWords` | I219-V-driver-no-checksum/e1000e-3.4.2.1/src/nvm.c:384-395 | never sends past the end of a page, and stops before the end of the data only there |
| `Spi.PageWriteStored` | I219-V-driver-no-checksum/e1000e-3.4.2.1/src/nvm.c:384-395 | inside a page the part's wrapping write is a plain store |
| `Spi.PageAddresses` | I219-V-driver-no-checksum/e1000e-3.4.2.1/src/nvm.c:380-395 | words of one page are adjacent under 8-bit and 16-bit addressing |
| `Spi.SpiPort.WritePage` | I219-V-driver-no-checksum/e1000e-3.4.2.1/src/nvm.c:353-398 | one pass of the outer loop lands one page or nothing, gives back its grant on every path, and fails exactly when access is denied or the part stays busy for 5000 polls |
| `Spi.SpiPort.WriteNvmSpi` | I219-V-driver-no-checksum/e1000e-3.4.2.1/src/nvm.c:337-401 | terminates; success lands all words, failure, for one of those two reasons, whole leading pages; within reach of the address bits the cells are a plain store of these bytes at twice the offset; every grant is given back |
| `Spi.LandedStored` | I219-V-driver-no-checksum/e1000e-3.4.2.1/src/nvm.c:376-382 | a range within reach of the address bits lands as a plain store |
| `Spi.LandedBelow` | I219-V-driver-no-checksum/e1000e-3.4.2.1/src/nvm.c:376-382 | nothing beyond that reach is ever touched |
| `Spi.BlockStoreExact` | I219-V-driver-no-checksum/e1000e-3.4.2.1/src/nvm.c:376-382 | the writer is a plain store for all contents and data if and only if the range stays within reach: with 8-bit addresses it neither straddles word 128 nor passes word 256, with 16-bit ones it does not pass word 0x8000 |
| `SerDes.FcCtrlBits` | I219-V-driver-no-checksum/e1000e-3.4.2.1/src/mac.c:942-990 | forcing flow control sets exactly the pause enables of the mode and leaves every other bit of CTRL |
| `SerDes.ResolvedExact` | I219-V-driver-no-checksum/e1000e-3.4.2.1/src/mac.c:1229-1278 | when the resolution of the two advertisements enables each direction of pause |
| `SerDes.FcConfiguredExact` | I219-V-driver-no-checksum/e1000e-3.4.2.1/src/mac.c:1002-1295 | configuring flow control changes the mode and the pause enables only: to the resolution once auto-negotiation is complete, else to the forced mode, else not at all |
| `SerDes.AdvertisedBits` | I219-V-driver-no-checksum/e1000e-3.4.2.1/src/mac.c:721-779 | every committed word enables auto-negotiation and full duplex and advertises the pause bits of its mode |
| `SerDes.SerdesMac.ForceMacFc` | I219-V-driver-no-checksum/e1000e-3.4.2.1/src/mac.c:942-990 | fails exactly for the unresolved mode, else CTRL becomes the specified word |
| `SerDes.SerdesMac.ConfigFc` | I219-V-driver-no-checksum/e1000e-3.4.2.1/src/mac.c:1002-1295 | the SerDes path: fails exactly when an unresolved mode must be forced, and then changes nothing |
| `SerDes.SerdesMac.CommitFc` | I219-V-driver-no-checksum/e1000e-3.4.2.1/src/mac.c:721-779 | fails exactly for the unresolved mode; else TXCW and its copy become the advertised word |
| `SerDes.SerdesMac.CheckForLink` | I219-V-driver-no-checksum/e1000e-3.4.2.1/src/82571.c:1504-1649 | one check is the transition that UnsyncedExact and SyncedTable describe, error result included |
| `SerDes.UnsyncedExact` | I219-V-driver-no-checksum/e1000e-3.4.2.1/src/82571.c:1610-1646 | without synchronisation the link goes down; synchronised with invalid bits, auto-negotiation restarts exactly when each of the five repeated reads has SYNCH and C or no IV, and the link goes down otherwise; TXCW changes in its auto-negotiation bit at most, nothing else but state and report |
| `SerDes.SyncedTable` | I219-V-driver-no-checksum/e1000e-3.4.2.1/src/82571.c:1521-1609 | the whole table of a check with a synchronised receiver: state, report, and which registers change in which bits |
| `SerDes.ForceExact` | I219-V-driver-no-checksum/e1000e-3.4.2.1/src/82571.c:1574-1594 | forcing the link clears auto-negotiation in TXCW, sets SLU and FD, changes no other CTRL bit than the pause enables, and reports the link unless flow control cannot be configured |
| `SerDes.RestartExact` | I219-V-driver-no-checksum/e1000e-3.4.2.1/src/82571.c:1596-1608 | restarting auto-negotiation restores TXCW and clears SLU, and no other bit of CTRL |
| `SerDes.SerdesMac.Restart` | I219-V-driver-no-checksum/e1000e-3.4.2.1/src/82571.c:1056-1058 | reset, set-up, its failure when the default mode cannot be read, and the optional forcing check, as one state change |
| `SerDes.RestartKeeps` | I219-V-driver-no-checksum/e1000e-3.4.2.1/src/mac.c:721-779 | a set-up takes the requested mode or the NVM's, advertises its pause bits with auto-negotiation and full duplex on, and starts from link down |
| `SerDes.CheckKeeps` | I219-V-driver-no-checksum/e1000e-3.4.2.1/src/82571.c:1504-1649 | every check keeps the invariant, makes the report truthful, and does not fail under a valid flow-control mode |
| `SerDes.RunSafety` | I219-V-driver-no-checksum/e1000e-3.4.2.1/src/82571.c:1504-1649 | over every run from a reset, for any readings: a reported link is complete or forced, forced up means TXCW autoneg off with SLU and FD set, progress and complete mean TXCW autoneg on |
| `SerDes.FailureExact` | I219-V-driver-no-checksum/e1000e-3.4.2.1/src/82571.c:1574-1594 | registers and state disagree after a check if and only if that check failed to configure flow control while forcing the link |
| `SerDes.TwoChecks` | I219-V-driver-no-checksum/e1000e-3.4.2.1/src/82571.c:1521-1608 | from any state, two checks with a synchronised receiver report the link if and only if the partner is silent or link-up is set |
| `Division.ReduceHigh` | I219-V-driver-no-checksum/e1000e-3.4.2.1/src/kcompat.c:609-614 | the 32-bit product does not overflow and whole multiples are taken off |
| `Division.DoubleUp` | I219-V-driver-no-checksum/e1000e-3.4.2.1/src/kcompat.c:616-619 | terminates without overflow, stopped by the remainder or by the sign bit, with the remainder below twice the divisor |
| `Division.Div64` | I219-V-driver-no-checksum/e1000e-3.4.2.1/src/kcompat.c:601-632 | terminates, overflows nowhere, and returns the exact quotient and remainder |
| `Latency.RoundUpTwice` | I219-V-driver-no-checksum/e1000e-3.4.2.1/src/ich8lan.c:1029-1032 | repeated round-up division is one round-up division |
| `Latency.Encode` | I219-V-driver-no-checksum/e1000e-3.4.2.1/src/ich8lan.c:1029-1037 | every 32-bit latency is encoded (the error branch is dead) at the least scale, at or above it and by less than one unit of the scale |
| `Latency.FitsAtFive` | I219-V-driver-no-checksum/e1000e-3.4.2.1/src/ich8lan.c:1033-1036 | no 32-bit value needs more than scale 5 |
| `Latency.OrderKept` | I219-V-driver-no-checksum/e1000e-3.4.2.1/src/ich8lan.c:1039-1047 | comparing encoded words compares latencies, for canonical encodings |
| `Latency.ClampExact` | I219-V-driver-no-checksum/e1000e-3.4.2.1/src/ich8lan.c:1046-1047 | clamping the words clamps the latency for every request if and only if the platform maximum is orderly: its value at least 32 unless its scale is 0 or 7, and at least 1 in scale 7 |
| `Latency.LargerIsLarger` | I219-V-driver-no-checksum/e1000e-3.4.2.1/src/ich8lan.c:1044 | the larger capability word is the larger latency |
| `Latency.ToleratedExact` | I219-V-driver-no-checksum/e1000e-3.4.2.1/src/ich8lan.c:1011-1027 | in the tolerated latency the link delivers no more than the buffer less two frames, even when the products wrap; without wrapping exactly that much at 10, 100 and 1000 Mb/s and less the division's remainder otherwise, and the latency is 0 exactly for a buffer of at most two frames |
| `Latency.Reported` | I219-V-driver-no-checksum/e1000e-3.4.2.1/src/ich8lan.c:1011-1037 | the encoded latency is at most 32/31 of the time in which the link fills the buffer less two frames, and at least that time when nothing wraps |
| `Latency.PlatformLatency` | I219-V-driver-no-checksum/e1000e-3.4.2.1/src/ich8lan.c:1000-1047 | what is written is the rounded-up tolerated latency clamped to the platform maximum; for canonical capability words it is never above the maximum, at most 32/31 of the time in which the link fills the buffer less two frames, and at least that time or the maximum |
| `Multicast.MulticastFilter.FindShift` | I219-V-driver-no-checksum/e1000e-3.4.2.1/src/mac.c:251-258 | the shift search terminates, for register counts 8 to 128, at the one shift that leaves eight bits |
| `Multicast.SearchEndsExact` | I219-V-driver-no-checksum/e1000e-3.4.2.1/src/mac.c:251-258 | up to 128 registers it can end if and only if the count is a power of two and at least 8 |
| `Multicast.MulticastFilter.HashMcAddr` | I219-V-driver-no-checksum/e1000e-3.4.2.1/src/mac.c:246-304 | the hash is the selected window of the last two address bytes |
| `Multicast.ExampleHashes` | I219-V-driver-no-checksum/e1000e-3.4.2.1/src/mac.c:273-282 | the hashes of the documented example address |
| `Multicast.HashBound` | I219-V-driver-no-checksum/e1000e-3.4.2.1/src/mac.c:300-301 | every hash is below 32 times the register count |
| `Multicast.BitIsHash` | I219-V-driver-no-checksum/e1000e-3.4.2.1/src/mac.c:328-333 | two hashes share a table bit only if they are equal |
| `Multicast.MulticastFilter.UpdateMcAddrList` | I219-V-driver-no-checksum/e1000e-3.4.2.1/src/mac.c:315-339 | every bit of the whole table is set if and only if some listed address hashes to it, and every listed address, by bytes 4 and 5 of its six, gets through |
| `Multicast.PassesExact` | I219-V-driver-no-checksum/e1000e-3.4.2.1/src/mac.c:315-339 | an address passes the filter if and only if some listed address has its hash |
| `Multicast.HashIsNumber` | I219-V-driver-no-checksum/e1000e-3.4.2.1/src/mac.c:246-304 | the hash is the number the last two address bytes make, divided by two to the bits below the window, modulo 32 times the register count |
| `Multicast.RowColNumber` | I219-V-driver-no-checksum/e1000e-3.4.2.1/src/mac.c:328-333 | the register and bit a hash selects are its quotient and remainder by 32 |
| `Multicast.FilterExact` | I219-V-driver-no-checksum/e1000e-3.4.2.1/src/mac.c:315-339 | in numbers and literal bytes: an address gets through if and only if some listed address has the same hash |
| `Multicast.ListedGetsThrough` | I219-V-driver-no-checksum/e1000e-3.4.2.1/src/mac.c:315-339 | no false negatives: each listed address gets through |
| `HostInterface.HostIf.CalculateChecksum` | I219-V-driver-no-checksum/e1000e-3.4.2.1/src/manage.c:13-25 | checksum plus bytes is 0 modulo 256 |
| `HostInterface.HostIf.EnableHostIf` | I219-V-driver-no-checksum/e1000e-3.4.2.1/src/manage.c:37-67 | success means the interface is enabled and no command is pending; an enabled interface is refused only after ten polls that all found one pending |
| `HostInterface.HostIf.WriteFirst` | I219-V-driver-no-checksum/e1000e-3.4.2.1/src/manage.c:197-206 | an unaligned start keeps the bytes before it in its dword |
| `HostInterface.HostIf.MngHostIfWrite` | I219-V-driver-no-checksum/e1000e-3.4.2.1/src/manage.c:180-238 | the data, then zeros to the dword boundary, at any offset; nothing else changes; the sum of the data is added; bad lengths fail |
| `HostInterface.HostIf.MngWriteCmdHeader` | I219-V-driver-no-checksum/e1000e-3.4.2.1/src/manage.c:149-166 | the header is written with a checksum that balances it and the previous value of the field |
| `HostInterface.BlockSums` | I219-V-driver-no-checksum/e1000e-3.4.2.1/src/manage.c:149-281 | folding the payload sum into the header checksum makes all header and payload bytes sum to 0 modulo 256 |
| `HostInterface.HostIf.MngWriteDhcpInfo` | I219-V-driver-no-checksum/e1000e-3.4.2.1/src/manage.c:248-281 | on success the block is header, payload and zero padding, it checks itself, nothing else changed and the command is signalled; on failure the RAM is unchanged; an enabled, idle interface accepts every payload that fits |

## Left out

- Banks smaller than 2048 words (the SPT strap can describe 1024): the image would not fit, and the code does not test for it.
- Flash cells are addressed from the start of bank 0; `flash_base_addr`, the register windows and the status bits behind a cycle are outcomes of the device instead.
- Bank detection through EECD and SEC1VAL (ich8lan.c:3195-3207): it trusts hardware bits; only the signature path is modelled.
- Commits on parts in 256-byte mode or with sectors larger than a bank: `EraseModes` states what the erase loop does there; the commit results require one sector no larger than a bank.
- Kernel mutexes, the software flag, delays, logging, the reload after a commit, power management and PCI configuration reads.
- The type test before a commit (`e1000_nvm_flash_sw`), the device tests in `e1000_set_eeprom`, and the generic validator, which is a stub that returns 0 in this driver.
- The 82571, 82573 and 82574 semaphore variants: the first goes on after an SMBI timeout on purpose, so it does not promise exclusion.
- The firmware is an agent that touches SW_FW_SYNC only while SWESMBI is its own, changes its own half only, and takes no resource in use; what it does with a resource is not modelled.
- LockBalance.Port.ReleaseSwfw: the other agents spoil any finite number of polls, not infinitely many, because the source spins until it gets SWSM.
- The bits of SWSM, EECD, CTRL and TXCW that these routines neither test nor set; the force bit of PCS_LCTL; the timing of an EEPROM write cycle, which may end at any read of the pins.
- Spi.SpiPort.WriteNvmSpi: pages of 8 or 32 bytes and addresses of 8 or 16 bits, the only ones the driver sets up.
- SerDes.SerdesMac.Restart: set-up calls that are not preceded by a reset.
- Latency: the assembly of the LTRV word from the encoding, and the dynamic variant that writes the platform maximum.
- Multicast.MulticastFilter.UpdateMcAddrList: register counts above 128, the size of the shadow table.
- HostInterface.HostIf.MngHostIfWrite: unaligned data that does not fill its first dword, where the source reads past the buffer and its length wraps.
- PHY workarounds, ULP, EEE and K1 sequences, LEDs, reset and initialisation writes, statistics, device tables, interrupt coalescing, option checks, DMA rings and the remaining compatibility code: register set-up with nothing to prove.
