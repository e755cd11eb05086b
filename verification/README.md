# Verified models of the MCU ROM and its firmware tools

This project models, in Dafny 4.11, the parts of the Caliptra MCU software where a wrong step cannot be
taken back or cannot be seen afterwards, and proves what those parts promise. It covers four areas.

**Device ownership transfer.** The lock state of a device is the parity of a 256-bit fuse counter; the owner is
named by a blob in flash, sealed under a key derived from that counter. `Dot` gives the manifest commands, cold
boot, backup recovery and override as short lists of writes to fuses and flash. A *fault plan* decides for each
write whether it works, is lost, or takes effect but is reported as failed; every flow stops at the first failed
write, so a plan is also every possible power loss. `DotSafety` and `DotSeal` prove what all sequences of flows
keep. `DotOutcomes` states what each flow comes to in fuses, fields and boot answers. `DotDevice` runs the same
flows imperatively on the eight fuse words and refines them to the counter. `Reassembly`, `Session` and `Mailbox`
add the I3C packet protocol and the two-message challenge protocol, and `DotRecovery` and `DotExposure` the recovery
of a locked device at boot, with its chain of handlers. `DotLifetime` puts all flows together.

**SVN anti-rollback.** `SvnManifest`, `CaliptraSvn`, `FuseLayout`, `Svn`, `SvnSafety`, `SvnCommit`, `SvnRollback`
and `SvnRom` model validate, check-all, burn-all over fuses that only gain bits, with a many-to-one map from
components to slots. The fuses may be in any condition for safety; exact values are proved for fuses only this code
has written.

**Flash images, recovery streaming, OTP reads.** `FlashFormat`, `FlashImage`, `FlashVerify` and `FlashLookup` cover
the builder, its verifier and the ROM's lookup; `Recovery`, `RecoveryRounds`, `RecoveryLoader` and
`RecoveryDelivery` the state machine that streams an image out, for every sequence of register answers; `OtpReader`
the mixed-granule OTP reader.

**Memory layout and bundling.** `MemoryLayout`, `LinkerLayout` and `Bundle` cover the allocator, the SRAM split and
the placement of binaries.

An HMAC is modelled as an injective function of key type, derivation value and message; hashes, signatures, blob
decoding and the random generator are arbitrary functions. A flash write of a blob is atomic. Register contents,
queue contents and driver failures are inputs. `Words` and `Thermometer` hold the bit-level arithmetic.

## Where the code differs from what it promises

- The manifest section is documented as idempotent (rom/src/device_ownership_transfer.rs:1443-1448). It is not for
  ROTATE: `DotSafety.RotateRerunBurnsAgain` gives a manifest whose second run burns two more fuses, and
  `DotSafety.RerunBurnsIff` shows a re-run burns exactly when a rotation is due and a fuse is left.
- Manifest commands always seal with the IDevId key while cold boot takes a configurable key type:
  `DotSeal.ManifestSealKey` shows the blob opens exactly under IDevId.
- An I3C recovery after an override whose flash write failed is answered with success but leaves a blob for the old
  count: `Session.StaleRecoveryAccepted`, with the exact condition in `Session.EndSealedIff`. The handler chain of
  a locked boot has the same exception, for exactly the handler orders of `DotExposure.ChainStaleIff`, for instance
  `DotExposure.ChallengeThenBackup`.
- A recovery handler that succeeds should have written the blob (rom/src/device_ownership_transfer.rs:1610-1616). The
  I3C services handler reports success in any case (`DotRecovery.SilentServicesSucceed`); `DotRecovery.ServicesSuccessIff`
  says exactly when the report is true.
- The announced FIFO length is the number of dwords sent only for sizes that are multiples of four
  (`Recovery.AnnouncedExact`, `RecoveryDelivery.FiveBytesMisannounced`), and an image whose last 256-byte read would
  leave the partition is sent by no run (`RecoveryDelivery.BuiltImageStreamsIff`). Padding to 256 bytes avoids both;
  padding to dwords only the first (`RecoveryDelivery.LastImageStuck`).
- `reserve_itcm` moves the offset without shrinking the size, so blocks can pass the end of the real memory
  (`MemoryLayout.ReserveOverrun`); `MemoryLayout.ReserveFitsIff` says exactly when they do not.
- The SRAM split can be too small when sizes are not multiples of the default alignment
  (`MemoryLayout.SplitOverrun`); `MemoryLayout.SplitIff` and `MemoryLayout.SplitSuffices` say when it is not.

## Model

| member | source | states |
|---|---|---|
| `DotSafety.ManifestRerunBound` | rom/src/device_ownership_transfer.rs:1462-1599 | Over any number of runs of one manifest, each cut off anywhere, the count starting at n never exceeds min(256, max(n, min_fuse_count + 1) + 1) and never drops |
| `DotSafety.LockUnlockRatchets` | rom/src/device_ownership_transfer.rs:1492-1507 | Why LOCK with UNLOCK is rejected: executed together they would burn two fuses on every run |
| `DotSafety.CommandEffect` | rom/src/device_ownership_transfer.rs:1509-1595 | A command that completes advances the count by exactly its documented number of fuses and, if it acted, leaves a blob that authenticates at the new count |
| `DotSafety.RerunBurnsIff` | rom/src/device_ownership_transfer.rs:1443-1448 | After a completed run a re-run burns no fuse unless a rotation is due; then it burns at least two if it completes; with working writes it burns exactly when a rotation is due and a fuse is left |
| `DotSafety.RerunIdleIff` | rom/src/device_ownership_transfer.rs:1509-1595 | A re-run after a completed run succeeds and leaves everything as it was if and only if no rotation is due on an enabled device |
| `DotSafety.RotateRerunBurnsAgain` | rom/src/device_ownership_transfer.rs:1572-1588 | A concrete accepted manifest that burns two fuses on each of two runs, against the documented idempotency |
| `DotSafety.ChecksumUnique` | rom/src/device_ownership_transfer.rs:1418-1440 | A section verifies if and only if its checksum field is the one with_checksum computes |
| `DotSafety.CommandsWithin` | rom/src/device_ownership_transfer.rs:1509-1595 | The invariant of the command loop: how far above the settled level a run may be, and with which parity |
| `DotSafety.DisabledIdle` | rom/src/device_ownership_transfer.rs:1509-1519 | On a device without DOT no command list writes anything or fails |
| `DotOutcomes.BootAnswers` | rom/src/cold_boot.rs:816-873 | Every answer of a cold boot, in fuses, tag and key hashes: no flash, blank, unauthentic, disabled, locked with and without CAK, pending lock with and without a fuse left |
| `DotOutcomes.DerivationValue` | rom/src/device_ownership_transfer.rs:342-366 | Keys are derived from the odd count of the current lock period, 2 * (n / 2) + 1 |
| `DotOutcomes.CommandCounts` | rom/src/device_ownership_transfer.rs:1517-1588 | LOCK and DISABLE move an even count by one, UNLOCK an odd one, ROTATE any count below the minimum by two, NOP none |
| `DotOutcomes.UnknownCommand` | rom/src/device_ownership_transfer.rs:1590-1594 | An unknown command is an error without a write |
| `DotOutcomes.LockOutcome` | rom/src/device_ownership_transfer.rs:1520-1533 | After LOCK the blob holds the section's CAK and LAK, each in its field, and the next boot answers with the CAK and writes nothing |
| `DotOutcomes.DisableOutcome` | rom/src/device_ownership_transfer.rs:1535-1547 | After DISABLE the blob has no CAK, the LAK is the section's, and the next boot answers with the fuse owner |
| `DotOutcomes.UnlockOutcome` | rom/src/device_ownership_transfer.rs:1549-1570 | After UNLOCK the count is even, the blob opens, and the next boot answers with the fuse owner and locks nothing |
| `DotOutcomes.RotateOutcome` | rom/src/device_ownership_transfer.rs:1572-1588 | After ROTATE a locked device boots with the section's CAK; an unlocked one does after the boot that locks it |
| `DotOutcomes.OverrideOutcome` | rom/src/device_ownership_transfer.rs:813-844 | After an override the blob holds no keys and opens; the next boot answers with the fuse owner and locks nothing |
| `DotOutcomes.RecoverOutcome` | rom/src/device_ownership_transfer.rs:1080-1094 | A recovery writes the backup if its tag is the one for the snapshot's lock period, and nothing otherwise |
| `DotOutcomes.ResealOutcome` | rom/src/device_ownership_transfer.rs:1283-1344 | A recovery blob opens at the current count and names nobody |
| `DotOutcomes.ChecksumTotal` | rom/src/device_ownership_transfer.rs:1418-1429 | A section's checksum holds if and only if its words behind the magic add up to 0xFFFFFFFF |
| `DotOutcomes.SectionOutcome` | rom/src/device_ownership_transfer.rs:1462-1507 | Another magic is passed over and a bad checksum, version, command count or lock with unlock is refused, without a write; everything else is executed |
| `DotSeal.SealInvariant` | rom/src/device_ownership_transfer.rs:284-306 | After any sequence of completed boots, manifest runs, recoveries, overrides and reseals the blob in flash authenticates at the count then burned |
| `DotSeal.StepKeepsSeal` | rom/src/device_ownership_transfer.rs:1080-1094 | Each single completed flow keeps the seal invariant |
| `DotSeal.ManifestSealKey` | rom/src/device_ownership_transfer.rs:1304-1344 | The blob a manifest leaves opens under a boot key type if and only if that type is IDevId |
| `DotSeal.CrashSafeIff` | rom/src/device_ownership_transfer.rs:1520-1588 | A command leaves an openable blob at every cut if and only if it is not an UNLOCK or ROTATE that acts |
| `DotSeal.LockingManifestCrashSafe` | rom/src/device_ownership_transfer.rs:1520-1546 | A whole list of LOCK, DISABLE and NOP commands is openable at every cut, because counts 2k and 2k+1 share a key |
| `DotSeal.InterruptedLockFinishes` | rom/src/device_ownership_transfer.rs:547-580 | Wherever a LOCK is cut after its blob was written, the next boot reaches the count and blob of an uninterrupted LOCK |
| `DotSeal.BootsBurnOnce` | rom/src/device_ownership_transfer.rs:284-306 | Over any number of boots with an owner blob, each cut off anywhere, the blob stays openable and at most the one locking fuse is burned; a boot that succeeds leaves it burned, and on a locked device every boot answers with the CAK and writes nothing |
| `DotSeal.UncutBoots` | rom/src/device_ownership_transfer.rs:494-580 | When no boot is cut, the first locks the device and every later one answers with the CAK |
| `DotSeal.BootRefusedIff` | rom/src/device_ownership_transfer.rs:547-580 | With an authentic blob and working writes a boot fails if and only if a lock is pending and no fuse is left |
| `DotDevice.BurnRefinesCounter` | rom/src/device_ownership_transfer.rs:595-625 | On a prefix of ones, setting the bit numbered by a snapshot leaves a prefix of ones that counts max(old, snapshot + 1) |
| `DotDevice.BurnExtendsPrefix` | rom/src/device_ownership_transfer.rs:595-625 | Bit by bit: on a prefix of ones a burn leaves a prefix of ones exactly one longer, flips the parity and clears nothing |
| `DotDevice.BurnOnAnyArray` | rom/src/device_ownership_transfer.rs:595-625 | On an array in any condition a burn clears nothing and adds one if and only if the bit numbered by the count is clear |
| `DotDevice.Device.Fresh` | rom/src/device_ownership_transfer.rs:78-94 | A new device is the counter state with nothing burned |
| `DotDevice.Device.LoadBurned` | rom/src/device_ownership_transfer.rs:95-126 | Counting bits over the raw bytes gives the population count of the eight words |
| `DotDevice.Device.BurnLockFuse` | rom/src/device_ownership_transfer.rs:595-625 | The bit-level burn under any fault is the counter-level burn, refused exactly at 256, and keeps the prefix of ones |
| `DotDevice.Device.WriteFlash` | rom/src/device_ownership_transfer.rs:1304-1344 | A blob write under any fault leaves the old or the new blob and reports accordingly |
| `DotDevice.Device.CreateAndSeal` | rom/src/device_ownership_transfer.rs:1304-1344 | Sealing writes the IDevId blob for the given count, and succeeds without a flash device |
| `DotDevice.Device.RunCommand` | rom/src/device_ownership_transfer.rs:1509-1595 | One command on the fuse words is the command's list of writes on the counter, cut wherever a write fails |
| `DotDevice.Device.Rotate` | rom/src/device_ownership_transfer.rs:1572-1588 | Two burns with the count re-read between them, then a seal for the count arrived at |
| `DotDevice.Device.ProcessManifest` | rom/src/device_ownership_transfer.rs:1462-1507 | The whole section, with its rejections, refines the counter-level manifest run |
| `DotDevice.Device.RunAll` | rom/src/device_ownership_transfer.rs:1509-1595 | The command loop stops at the first failure, unknown command, or non-NOP on a disabled device |
| `DotDevice.Device.BootOwner` | rom/src/cold_boot.rs:816-873 | Cold boot on the fuse words refines the counter-level boot, with the owner decided from the count before any burn |
| `DotDevice.Device.ApplyOverride` | rom/src/device_ownership_transfer.rs:813-844 | The override burns on the session's snapshot, then writes the empty blob for the next count |
| `DotDevice.Device.RecoverBackup` | rom/src/device_ownership_transfer.rs:1080-1094 | A backup blob is written only if it authenticates at the snapshot |
| `DotRecovery.ChainBurnsAtMostOne` | rom/src/device_ownership_transfer.rs:1654-1688 | However many recovery handlers are tried, however often, and whichever writes fail, the chain takes the count at most one past the boot's snapshot |
| `DotRecovery.RetriesExact` | rom/src/device_ownership_transfer.rs:1654-1688 | A handler that keeps failing is tried once under Continue and exactly n times under Retry(n); then the next one starts afresh |
| `DotExposure.ChainStaleIff` | rom/src/device_ownership_transfer.rs:1654-1730 | Some faults make a locked device's handler chain report a recovery that left a blob nobody can open if and only if its handlers try an authentic backup after an authorized challenge |
| `DotExposure.StaleIsExposed` | rom/src/device_ownership_transfer.rs:1654-1730 | Under every fault plan, a chain that ends so was exposed in that sense from where it stood |
| `DotExposure.ExposedFaults` | rom/src/device_ownership_transfer.rs:1654-1730 | For every exposed chain, the faults that make it end so |
| `DotExposure.ChallengeThenBackup` | rom/src/device_ownership_transfer.rs:1692-1730 | A failing input: a challenge handler in front of a backup handler |
| `DotExposure.ChallengesLast` | rom/src/device_ownership_transfer.rs:1610-1632 | A safe order: all backups in front of all challenges |
| `DotRecovery.ChainSealedIff` | rom/src/device_ownership_transfer.rs:1654-1688 | In a given run a success by override always leaves an openable blob, and one by backup exactly when no challenge of that run had burned |
| `Session.SessionRestoresIff` | rom/src/i3c_mailbox.rs:151-210 | With working writes a session repairs a device whose blob cannot be opened if and only if some command is a recovery with a blob authentic at the snapshot or an override verified over the challenge then pending |
| `Session.Unrestored` | rom/src/i3c_mailbox.rs:191-533 | Before such a command nothing is written, under any faults, and the session goes on |
| `DotRecovery.ServicesSuccessIff` | rom/src/cold_boot.rs:361-383 | The services handler ends the chain as a success in any case, and the success is true if and only if such a command was delivered |
| `DotRecovery.SilentServicesSucceed` | rom/src/cold_boot.rs:361-383 | A session that only reads empty queues, however often, is a success that leaves the device exactly as it was |
| `DotRecovery.FullBootBurnsAtMostOne` | rom/src/cold_boot.rs:816-873 | One boot with whatever recovery it runs into burns at most one fuse |
| `DotRecovery.FullBootSealed` | rom/src/cold_boot.rs:87-170 | A boot that answers with an owner while a blob is in play leaves one that opens |
| `DotRecovery.RecoversOnlyLocked` | rom/src/cold_boot.rs:125-170 | Recovery changes the outcome of a boot only if the device is locked and the boot failed, and with reset recovery only given a backup sealed for the current lock period |
| `DotRecovery.BackupRestoresOwner` | rom/src/cold_boot.rs:87-117 | A locked device whose blob is gone or corrupt boots with the owner of an authentic backup and burns nothing |
| `DotRecovery.Manager.RunAttempt` | rom/src/device_ownership_transfer.rs:1692-1730 | One attempt of a backup, challenge or services handler on the device is the value-level attempt |
| `DotRecovery.Manager.Turn` | rom/src/device_ownership_transfer.rs:1656-1683 | One turn of the loop keeps what remains of the chain, and retries or moves on as the policy says |
| `DotRecovery.Manager.RunHandlers` | rom/src/device_ownership_transfer.rs:1654-1688 | The manager's loop is the chain and terminates for every policy list |
| `DotRecovery.BootOrRecover` | rom/src/cold_boot.rs:125-173 | The boot with its recovery on the fuse words refines the value-level boot |
| `DotLifetime.PowerOnBurnsAtMostOne` | rom/src/cold_boot.rs:785-911 | One boot with its recovery and a forced session on the snapshot taken before it burns at most one fuse and never passes 256 |
| `DotLifetime.LifetimeMonotone` | rom/src/device_ownership_transfer.rs:595-625 | No sequence of flows, boots with recovery and sessions included, completed or cut, lowers the count or takes it past 256 |
| `DotLifetime.RetiredBlob` | docs/src/dot.md:170-175 | Once the count has passed the period a blob was sealed for, no later state authenticates it, whatever flows run or are cut |
| `Reassembly.RoundTrip` | rom/src/i3c_mailbox.rs:667-768 | From any handler state, with any number of empty reads in between, a command split into up to 255 in-order packets is delivered exactly at the poll that reads its last packet, and the buffer starts with the bytes sent |
| `Reassembly.WireCarries` | rom/src/i3c_mailbox.rs:684-714 | The bytes command, length, number, total, payload, read as little-endian words, are a packet with these fields; bytes behind the payload are ignored |
| `Reassembly.WireRoundTrip` | rom/src/i3c_mailbox.rs:667-768 | From the bytes on the wire: a command sent as such packets is delivered once, at its last packet, with all its bytes |
| `Reassembly.EmptyReads` | rom/src/i3c_mailbox.rs:670-682 | Empty reads change nothing: a stream of polls is the stream of its packets |
| `Reassembly.DeliveredWasSent` | rom/src/i3c_mailbox.rs:667-768 | A multi-packet command is delivered only if packets 0..total-1 with its command and total were the last non-empty reads; its length is theirs, capped |
| `Reassembly.ReceiveKeepsGood` | rom/src/i3c_mailbox.rs:667-783 | Between polls the length is at most 8192 and either nothing is in progress or 1 <= next < total |
| `Session.WritesAreAuthorized` | rom/src/i3c_mailbox.rs:292-533 | In every command sequence the device changes only by an override verified over the latest unspent challenge, which burns at most the snapshot's fuse and writes only the empty blob, or by a recovery, which burns nothing and writes only a blob authentic at the snapshot |
| `Session.PendingIsFresh` | rom/src/i3c_mailbox.rs:292-420 | A pending challenge was issued by an earlier command and no later command spent or replaced it |
| `Session.OverrideNeedsEvidence` | rom/src/device_ownership_transfer.rs:763-810 | An override changes the device only if DOT is enabled, a challenge is pending, the keys in payload bytes 0-95 and 192-2783 hash to the fused hash, and both signatures in 96-191 and 2784-7411 verify over the challenge |
| `Session.OverrideOutcome` | rom/src/i3c_mailbox.rs:416-533 | With that evidence the fuse is burned and the empty blob sealed for the next count; without it the challenge is spent and nothing else changes |
| `Session.ChallengeOutcome` | rom/src/i3c_mailbox.rs:292-407 | A challenge is issued exactly on a locked snapshot to keys that hash to the fused hash; every refusal leaves the session as it was |
| `Session.RecoveryOutcome` | rom/src/i3c_mailbox.rs:233-286 | A recovery takes the first 168 payload bytes and writes exactly a blob sealed for the snapshot |
| `Session.PlainReplies` | rom/src/i3c_mailbox.rs:191-230 | PING, the status bytes, and the refusal of unknown commands and of DOT commands without DOT |
| `Session.SessionBurnsAtMostOne` | rom/src/i3c_mailbox.rs:151-210 | Whatever is sent and whichever writes fail, from any flash condition and also on a snapshot taken before the boot burned, a session leaves the count at most one past the snapshot and burns nothing unless the snapshot is locked |
| `Session.BootThenSessionBurnsOne` | rom/src/cold_boot.rs:895-911 | A boot and then any forced session on the snapshot taken before it burn at most one fuse in all |
| `Session.EndSealedIff` | rom/src/i3c_mailbox.rs:233-286 | The command that ends a session leaves an openable blob if and only if it is an override or the count is still in the snapshot's lock period |
| `Session.StaleRecoveryAccepted` | rom/src/i3c_mailbox.rs:233-286 | That exception occurs: success is reported over a blob for the old count |
| `Session.DispatchKeepsDevice` | rom/src/i3c_mailbox.rs:191-210 | No command lowers the count or removes the flash |
| `Mailbox.CopyPayloadWords` | rom/src/i3c_mailbox.rs:793-809 | The word copy changes exactly the words in range that both buffers have |
| `Mailbox.ReadBytesFromWords` | rom/src/i3c_mailbox.rs:822-836 | Bytes read out of the word buffer are its little-endian bytes at that offset |
| `Mailbox.Handler.constructor` | rom/src/i3c_mailbox.rs:116-150 | A new handler has nothing in progress and no challenge pending |
| `Mailbox.Handler.ZeroizeReassembly` | rom/src/i3c_mailbox.rs:776-782 | Clearing returns to the initial receive state and touches nothing else |
| `Mailbox.Handler.TryReceive` | rom/src/i3c_mailbox.rs:667-768 | One poll on the handler's fields and word buffer is one step of the packet protocol, with the same delivery |
| `Mailbox.Handler.HandleRecovery` | rom/src/i3c_mailbox.rs:233-286 | The recovery handler on the buffer does what the session's recovery does on the payload bytes |
| `Mailbox.Handler.HandleUnlockChallenge` | rom/src/i3c_mailbox.rs:292-407 | The challenge handler accepts, refuses and stores as the session does |
| `Mailbox.Handler.HandleOverride` | rom/src/i3c_mailbox.rs:416-533 | The override handler spends the challenge first and changes the device as the session does |
| `Mailbox.Handler.VerifyResponse` | rom/src/device_ownership_transfer.rs:763-810 | The response is accepted exactly when the key hash matches and both signatures verify over the challenge |
| `Mailbox.Handler.Dispatch` | rom/src/i3c_mailbox.rs:191-210 | Dispatch on the handler's state is dispatch on the session |
| `Mailbox.Handler.PollOnce` | rom/src/i3c_mailbox.rs:151-180 | One loop iteration receives, dispatches and clears, in terms of both protocols |
| `Mailbox.Handler.Serve` | rom/src/i3c_mailbox.rs:151-180 | The loop's effect on the device is the session of the commands its packets deliver, so it leaves the count at most one past the snapshot |
| `Mailbox.WireDelivered` | rom/src/i3c_mailbox.rs:151-180 | A command written to the bus as packets is the one command the session sees, byte for byte |
| `CaliptraSvn.EncodeSvn` | rom/src/caliptra_svn.rs:149-158 | The word loop gives the thermometer of the value, saturated at 128 |
| `CaliptraSvn.DecodeSvn` | rom/src/caliptra_svn.rs:137-147 | The early-exit loop gives the length of the run of ones from bit 0 |
| `CaliptraSvn.RoundTrip` | rom/src/caliptra_svn.rs:137-158 | Decoding an encoded value gives it back for every value up to 128 |
| `CaliptraSvn.EncodeMonotone` | rom/src/caliptra_svn.rs:149-158 | The OR of two codes is the code of the larger value, so raising never needs a fuse cleared |
| `CaliptraSvn.BurnAnyFuses` | rom/src/caliptra_svn.rs:93-123 | Burning a higher target over any fuses reads at least the target, and exactly it if and only if no fuse was set there |
| `CaliptraSvn.CutBurn` | rom/src/caliptra_svn.rs:93-123 | A burn cut between words leaves a thermometer between the old and new floor |
| `CaliptraSvn.CutNeverLowers` | rom/src/caliptra_svn.rs:93-123 | Over fuses in any condition a burn cut between words reads between the old floor and the full burn |
| `CaliptraSvn.SvnFuse.Burn` | rom/src/caliptra_svn.rs:93-123 | Refused exactly above 128, idle at or below the floor, otherwise the OR with the target's code, and never reads below the target |
| `CaliptraSvn.SvnFuse.BurnCut` | rom/src/caliptra_svn.rs:93-123 | Losing power after some words leaves the OR in those words and the old value in the rest |
| `CaliptraSvn.SvnFuse.WriteFirst` | rom/src/caliptra_svn.rs:105-112 | Skipping words that already match still gives the OR, word by word |
| `FuseLayout.BurnTakesMax` | romtime/src/fuse_layout.rs:115-210 | Writing two values in any counting layout leaves exactly the word for the larger, and a written value reads back |
| `FuseLayout.BurnNeverLowers` | romtime/src/fuse_layout.rs:115-210 | Over any word, writing a value never lowers the reading and brings it to at least the value |
| `FuseLayout.AsGroups` | romtime/src/fuse_layout.rs:46-110 | One-hot, majority and OR layouts are one repetition code with a quorum |
| `FuseLayout.SingleReads` | romtime/src/fuse_layout.rs:115-210 | A plain value that fits its 1 to 32 bits reads back; other widths never read |
| `FuseLayout.OneBitReads` | romtime/src/fuse_layout.rs:59-105 | One counting bit reads as set by majority when at least half its copies are, by OR when any is |
| `FuseLayout.LowHighSplit` | romtime/src/fuse_layout.rs:59-105 | Mask and shift split a word into remainder and quotient |
| `SvnManifest.ValidateExact` | romtime/src/component_svn_manifest.rs:140-204 | Validation accepts exactly the well-formed manifests, and a refused entry is the first bad one |
| `SvnManifest.LookupFirst` | romtime/src/component_svn_manifest.rs:231-235 | Lookup gives the first map entry for a component, and none if there is none |
| `SvnSafety.RaiseWorks` | rom/src/firmware_headers.rs:286-304 | A request in range is never refused, raises its target to at least the request and touches no other |
| `SvnSafety.ProcessNeverFails` | rom/src/firmware_headers.rs:107-174 | A rejected manifest leaves all fuses unchanged; once the checks pass no burn is refused, and no boot lowers a floor, wherever inside its burns it loses power |
| `SvnSafety.FloorsNeverDrop` | rom/src/firmware_headers.rs:107-304 | Over any sequence of boots and manifests, with power lost between burns or between the words of one, no floor drops |
| `SvnCommit.CommitTakesMax` | rom/src/firmware_headers.rs:107-265 | A boot commits if and only if the manifest is well-formed and passes, and then every slot is the maximum of its old floor and all floors requested for it |
| `SvnCommit.BurnTakesMax` | rom/src/firmware_headers.rs:198-304 | Burning a list of requests leaves each target at the maximum over its requests |
| `SvnCommit.RerunIff` | rom/src/firmware_headers.rs:179-265 | After a commit the same manifest passes and changes nothing if and only if every mapped entry keeps up with the floors requested for its slot |
| `SvnCommit.UnsharedKeepsUp` | romtime/src/component_svn_manifest.rs:169-236 | That condition holds by itself when no slot is shared |
| `SvnCommit.CutIsRaise` | rom/src/caliptra_svn.rs:93-123 | On clean fuses a burn cut inside is a complete burn of a lower floor |
| `SvnCommit.CutThenRerun` | rom/src/firmware_headers.rs:107-174 | A boot that loses power between burns or inside one is made good by booting the same manifest again: it passes and ends in the state of an uncut boot |
| `SvnRollback.BootAdmitsIff` | rom/src/firmware_headers.rs:107-174 | A boot goes on to burn if and only if it enforces anti-rollback and magic, format, ranges, header fuse, runtime version and every mapped entry against its slot's fuse check out; an enforced manifest that does not is rejected with the fuses as they were |
| `SvnRollback.HeaderRollbackRejected` | rom/src/firmware_headers.rs:107-174 | Once a manifest has committed, every later manifest with a version below its minimum is rejected, over any boots and power losses in between, on fuses in any condition |
| `SvnRollback.ComponentRollbackRejected` | rom/src/firmware_headers.rs:217-265 | Likewise every later manifest with a component version below a minimum committed for the same slot |
| `SvnRollback.FloorHolds` | rom/src/firmware_headers.rs:198-304 | Every floor a commit asked for is met after it and after all later boots and power losses |
| `SvnRollback.CommittedFloors` | rom/src/firmware_headers.rs:198-265 | After a commit on clean fuses the runtime, SoC, header and unshared component floors are each the larger of the old floor and the manifest's own minimum for it |
| `SvnRollback.MappedEntry` | romtime/src/component_svn_manifest.rs:231-235 | A non-empty entry is checked against the slot of the first map entry for its component |
| `SvnRom.Rom.CheckComponents` | rom/src/firmware_headers.rs:217-243 | The entry loop passes exactly when every mapped entry is in range and not below its floor |
| `SvnRom.Rom.BurnSlot` | rom/src/firmware_headers.rs:286-304 | Read, compare, write and read back is one raise, and for a request in range neither the write nor the read-back is refused |
| `SvnRom.Rom.BurnComponents` | rom/src/firmware_headers.rs:249-265 | The entry loop burns the entries' requests in order, up to the power loss |
| `SvnRom.Rom.BurnCaliptra` | rom/src/caliptra_svn.rs:50-65 | The runtime and SoC floors are raised when non-zero, in that order |
| `SvnRom.Rom.ProcessManifest` | rom/src/firmware_headers.rs:107-174 | The imperative boot refines the value-level boot, fuses and outcome, at every power loss |
| `OtpReader.ReadDataWith` | romtime/src/otp.rs:973-1013 | Succeeds exactly when every covering access is readable, then fills the range with the flat memory's bytes; every access covers the range with the required granule |
| `OtpReader.ReadData` | romtime/src/otp.rs:144-156 | Misaligned or short requests are refused, and only those; success gives the flat bytes |
| `OtpReader.ReadEntryRaw` | romtime/src/otp.rs:698-704 | An entry of any size is read through the rounded-up range: refused exactly when the buffer is short or the offset misaligned, successful exactly when every covering access is readable, and its bytes are the flat ones |
| `OtpReader.CoveringUniform` | romtime/src/otp.rs:959-971 | No access mixes 32-bit and 64-bit granules |
| `OtpReader.GranuleTable` | romtime/src/otp.rs:959-971 | The 64-bit granules, listed by number |
| `FlashFormat.HeaderRoundTrip` | common/flash-image/src/lib.rs:16-23 | A header's bytes parse back to it |
| `FlashFormat.InfoRoundTrip` | common/flash-image/src/lib.rs:45-54 | An image record's bytes parse back to it |
| `FlashFormat.HeaderLayout` | common/flash-image/src/lib.rs:16-23 | Each header field at its byte offset, little-endian |
| `FlashFormat.InfoLayout` | common/flash-image/src/lib.rs:45-54 | Each record field at its byte offset, little-endian |
| `FlashFormat.ChecksumCancels` | builder/src/flash_image.rs:186-191 | The byte sum and the checksum add up to zero modulo 2^32 |
| `FlashFormat.CalculateChecksum` | builder/src/flash_image.rs:186-191 | The wrapping fold is minus the byte sum modulo 2^32 |
| `FlashFormat.ChecksumDetects` | builder/src/flash_image.rs:186-191 | Changing any one byte changes the checksum |
| `FlashImage.GenerateImageInfo` | builder/src/flash_image.rs:301-321 | The running offset gives each record the sum of the sizes before it |
| `FlashImage.BuildImage` | builder/src/flash_image.rs:56-84 | The built bytes are the sealed header, the records and the images, in order |
| `FlashImage.RegionsDisjoint` | builder/src/flash_image.rs:301-321 | Image regions are contiguous, disjoint and inside the built bytes |
| `FlashImage.ImageData` | builder/src/flash_image.rs:74-84 | Each region of the built bytes holds exactly the input data |
| `FlashVerify.VerifyFlashImage` | builder/src/flash_image.rs:136-183 | The verifier loop gives the verdict on the header and the first record at fault, including the panic on an out-of-range slice |
| `FlashVerify.VerifyExact` | builder/src/flash_image.rs:136-183 | It accepts if and only if the header and every record and image check out |
| `FlashVerify.VerifyMeans` | builder/src/flash_image.rs:136-183 | In bytes: accepted if and only if the version is 3, header bytes, every record and every image inside the bytes cancel with the checksum numbers at their offsets |
| `FlashVerify.BuiltImageVerifies` | builder/src/flash_image.rs:56-183 | Everything the builder produces verifies, also with other data after it |
| `FlashVerify.CorruptionDetected` | builder/src/flash_image.rs:136-183 | Changing any one byte of a built image makes verification fail |
| `FlashVerify.RecordsProtected` | builder/src/flash_image.rs:156-177 | In any accepted image no byte of a record can change unnoticed |
| `FlashVerify.DataProtected` | builder/src/flash_image.rs:156-177 | In any accepted image no byte of an image's data can change unnoticed, wherever it lies |
| `FlashLookup.GetFlashImageInfo` | rom/src/recovery.rs:243-285 | The header loop gives the first matching record's region, or an error at the end or at an unreadable record |
| `FlashLookup.RomFindsImage` | rom/src/recovery.rs:243-285 | In a built image the ROM finds the region of the first image with an identifier, and it holds that image's data |
| `FlashLookup.RomMissesImage` | rom/src/recovery.rs:243-285 | It reports an error if and only if no image has the identifier |
| `FlashLookup.LookupMeans` | rom/src/recovery.rs:243-285 | On any bytes: the offset and size numbers of the first counted record with the identifier, and an error exactly when there is none inside the partition |
| `FlashLookup.Pad` | builder/src/flash_image.rs:199-214 | Padding keeps the data, adds fewer than n zeros and reaches a multiple of n |
| `Recovery.StepKeeps` | rom/src/recovery.rs:53-93 | Every pass, whatever the registers answer, keeps the register writes a series of complete transfers each followed by its activation, and one open transfer |
| `Recovery.ActivationFollowsTransfer` | rom/src/recovery.rs:308-453 | In every run each activate write directly follows a complete transfer of the image selected last, all its dwords in order |
| `Recovery.TransferInBounds` | rom/src/recovery.rs:363-421 | The transfer offset never passes the image size and the read address never overflows 32 bits |
| `Recovery.TransferCompletes` | rom/src/recovery.rs:363-421 | A selected image that fits is sent completely after one pass per 256 bytes and one more |
| `Recovery.CompletesIff` | rom/src/recovery.rs:297-457 | Some sequence of register answers gets an image sent completely if and only if the image is found and the 256-byte reads that cover it stay inside the partition |
| `Recovery.AnnouncedExact` | rom/src/recovery.rs:354-361 | The announced FIFO length is the number of dwords sent if and only if the size is a multiple of four |
| `Recovery.SentCarries` | rom/src/recovery.rs:388-421 | Byte k of the image is byte k % 4 of the dword k / 4 sent |
| `RecoveryRounds.DoneReasons` | rom/src/recovery.rs:53-93 | The machine stops only for device status 1 or for recovery status 0x22, the MCU image booting |
| `RecoveryRounds.StartPhases` | rom/src/recovery.rs:53-93 | Bit 20 of the capabilities and the device status decide how a round starts |
| `RecoveryRounds.SelectPhase` | rom/src/recovery.rs:332-361 | Recovery status 1 selects the image in the next nibble, which is then sent, or ends the run if it is not there |
| `RecoveryRounds.TransferPhase` | rom/src/recovery.rs:363-421 | A transfer pass ends the payload when all is sent, waits for an empty FIFO, fails on a read error or past the partition, and otherwise sends the next 256 bytes or what is left |
| `RecoveryRounds.ActivationPhases` | rom/src/recovery.rs:53-93 | Device status 4, one activation, recovery status 2, then status 1 for the next image or 0x22 for the end |
| `RecoveryRounds.OneRound` | rom/src/recovery.rs:297-457 | From a device in recovery, some answers send and activate one streamable image and come back for more |
| `RecoveryRounds.AllImagesActivated` | rom/src/recovery.rs:297-457 | For every list of streamable images some answers send and activate exactly these, in order, and end in Done |
| `RecoveryRounds.ThreeImagesActivated` | rom/src/recovery.rs:297-457 | If images 0, 1 and 2 are streamable, some answers send and activate exactly these three, in order, and end in Done |
| `RecoveryLoader.Loader.SelectImage` | rom/src/recovery.rs:332-361 | Selection on the context is selection on the machine, with both lookup errors |
| `RecoveryLoader.Loader.PushDwords` | rom/src/recovery.rs:410-418 | The dword loop pushes the rounded-up number of words of the chunk |
| `RecoveryLoader.Loader.TransferChunk` | rom/src/recovery.rs:363-421 | One transfer pass on the context is one transfer step |
| `RecoveryLoader.Loader.Pass` | rom/src/recovery.rs:308-453 | One pass of the loop is one step of the machine, in every state |
| `RecoveryLoader.Loader.Load` | rom/src/recovery.rs:297-457 | The loop is the machine's run and stops exactly on Done or an error |
| `RecoveryDelivery.BuiltImageStreamsIff` | rom/src/recovery.rs:388-421 | Some run sends a built image completely if and only if its last 256-byte read fits the partition |
| `RecoveryDelivery.BuiltImageDelivered` | rom/src/recovery.rs:297-457 | Every run that reaches the end of a transfer of a built dword-sized image has just sent exactly its data |
| `RecoveryDelivery.LastImageStuck` | builder/src/flash_image.rs:199-214 | With padding to dwords only, no run can send the last image unless it is a whole number of 256-byte chunks |
| `RecoveryDelivery.FourBytesStuck` | builder/src/flash_image.rs:199-214 | For instance a four-byte image alone |
| `RecoveryDelivery.FiveBytesMisannounced` | rom/src/recovery.rs:354-361 | An unpadded five-byte image is announced as one dword and sent as two |
| `RecoveryDelivery.BuildFlashImageBytes` | builder/src/flash_image.rs:327-377 | The bytes are empty without inputs, otherwise the image of the padded inputs in order |
| `RecoveryDelivery.BuiltBytesDelivered` | builder/src/flash_image.rs:327-377 | Each input can be streamed from the built bytes alone and arrives zero-padded to 256 bytes |
| `RecoveryDelivery.EachInputDelivered` | builder/src/flash_image.rs:327-377 | Index 0 sends the Caliptra firmware, 1 the SoC manifest, 2 the MCU runtime, each padded to 256 bytes |
| `RecoveryDelivery.BuiltImageRecovers` | rom/src/recovery.rs:297-457 | From three inputs to the end of recovery: some answers send and activate all three, in order, and finish |
| `RecoveryDelivery.EveryActivationDelivers` | rom/src/recovery.rs:297-457 | From builder input to activate write: an image is activated only right after exactly the firmware given for its index was sent |
| `MemoryLayout.Padding` | firmware-bundler/src/ld.rs:388-392 | The bytes skipped are fewer than the alignment and reach an aligned offset |
| `MemoryLayout.LayoutSound` | firmware-bundler/src/ld.rs:282-339 | Blocks are aligned, sized as asked, increasing, pairwise disjoint and inside the region |
| `MemoryLayout.BlockAlignment` | firmware-bundler/src/ld.rs:378-397 | A block starts at a multiple of the alignment its binary asks for, else of the default, and has the size asked for |
| `MemoryLayout.BlockTight` | firmware-bundler/src/ld.rs:378-397 | It starts less than that alignment past the end of the block before it |
| `MemoryLayout.BytesConserved` | firmware-bundler/src/ld.rs:378-397 | Blocks, padding and remainder add up to the region's size |
| `MemoryLayout.AllocatesIff` | firmware-bundler/src/ld.rs:378-397 | All requests are met if and only if the last padded block ends inside the region |
| `MemoryLayout.ReserveFitsIff` | firmware-bundler/src/manifest.rs:83-99 | After a reservation allocation succeeds inside the original memory if and only if the layout from the moved offset ends inside it |
| `MemoryLayout.ReserveOverrun` | firmware-bundler/src/manifest.rs:83-99 | With any aligned part reserved a block of the memory's full size is still handed out and ends past it by what was reserved |
| `MemoryLayout.SplitSuffices` | firmware-bundler/src/ld.rs:264-281 | With a default alignment dividing 4096 and sizes in multiples of it no instruction allocation in the split can fail, at any SRAM offset |
| `MemoryLayout.SplitIff` | firmware-bundler/src/ld.rs:264-281 | In general the split suffices if and only if the padded layout ends before the rounded unpadded end |
| `MemoryLayout.SplitRounds` | firmware-bundler/src/ld.rs:264-281 | The split covers the summed sizes and ends at the first 4 KiB boundary behind them |
| `MemoryLayout.SplitOverrun` | firmware-bundler/src/ld.rs:264-281 | Sizes 1 and 4095 aligned to 8 do not fit the 4096 bytes set aside for them |
| `MemoryLayout.DynamicSizesFit` | firmware-bundler/src/lib.rs:136-174 | The sizes set by dynamic sizing for a kernel and its apps always fit the split |
| `LinkerLayout.Tracker.Consume` | firmware-bundler/src/manifest.rs:250-266 | Succeeds exactly when enough is left; the end of the tracker never moves |
| `LinkerLayout.Tracker.GetMemBlock` | firmware-bundler/src/ld.rs:378-397 | Aligning by consuming and then taking the block is one allocation step, and fails exactly when it does |
| `LinkerLayout.Generate` | firmware-bundler/src/ld.rs:282-339 | Threading two trackers through kernel and apps lays out each memory as if alone, and fails exactly when one cannot be laid out |
| `LinkerLayout.GenerateInSram` | firmware-bundler/src/ld.rs:264-339 | On SRAM the split is taken from the front and the data gets the rest |
| `LinkerLayout.PlanBlocks` | firmware-bundler/src/ld.rs:282-339 | Each binary gets a block of its instruction size inside the instruction memory and one of its data size inside the data memory |
| `LinkerLayout.SramSeparates` | firmware-bundler/src/ld.rs:264-339 | Instruction blocks end before data blocks begin, and both stay in the SRAM |
| `Bundle.BundleKernel` | firmware-bundler/src/bundle.rs:39-95 | The growing buffer gives the kernel and each app at its start with zeros between, and fails exactly when a piece would overlap |
| `Bundle.BundlesIff` | firmware-bundler/src/bundle.rs:62-76 | Bundling succeeds if and only if no app starts before the bytes in front of it end |
| `Bundle.PlacedFaithful` | firmware-bundler/src/bundle.rs:54-95 | The bundle is a multiple of 256 bytes, holds header, kernel and every app at its place, and is zero everywhere else |
| `Bundle.AppsInPlace` | firmware-bundler/src/bundle.rs:54-95 | In every bundle the kernel follows the image header, and each app's TBF header and binary stand at the image header's length plus the distance of its block from the kernel's |
| `Bundle.LaidOutBundles` | firmware-bundler/src/bundle.rs:39-95 | If every binary with its TBF header fits the block the allocator gave it, bundling never fails and each app lands at its linked offset |

## Left out

- Cryptography (SHA-384, HMAC, ECDSA, ML-DSA, key derivation) and the Caliptra mailbox: arbitrary or injective functions instead.
- Register polling, watchdogs, bus set-up, zeroization on drop, in-band interrupts and logging: no functional property here.
- The forced-fuse-owner, lifecycle and debug-intent branches of cold boot: they choose between flows that are modelled.
- DotDevice.Device.BootOwner: ends where the recovery of a locked device begins; `DotRecovery.BootOrRecover` goes on from there.
- The key-hash and signature checks of the challenge handler in the chain are one flag; the same checks are modelled for the I3C override.
- The byte layout of the DOT blob: decoding 168 payload bytes is an arbitrary function, and a blank flash is its own value.
- The words `read_words` copies out of the receive buffer are read bytewise in the handler model.
- Linear and word fuse layouts in `romtime/src/fuse_layout.rs`, and a duplication of 32, whose mask shifts a word by its width: the SVN slots use the counting layouts.
- A power loss inside the write of a single fuse word: a word is written or not.
- Parsing the SVN manifest from bytes and the walk over stacked firmware headers: offsets only.
- Addresses and sizes in the recovery loader and the layout tools are unbounded integers; a partition offset within 256 bytes of 2^32 and a region end past 2^64 are outside the model.
- FlashImage.BuildImage: requires the image count to fit 16 bits and the total size 32 bits, since the source truncates the count and would overflow the offset.
- LinkerLayout.Tracker.GetMemBlock: an alignment of zero is not a request, since the source divides by it.
- Bundle.BundleKernel: requires app blocks at or above the kernel's, since the source subtracts without a check; the bare-metal bundle, which has no apps, is not modelled.
- Disjointness of app data from the persistent storage region: the data tracker is not reduced by it, so it needs an extra size assumption.
- The ROM's own linker script, the partition table, write-to-file and the build drivers: input and output only.
