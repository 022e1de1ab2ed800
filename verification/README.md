# Verified model of koot's escrow, integrity, audit, interlock and storage code

A Dafny 4.11 model of the parts of koot whose correctness is a matter of mathematics or of
protocol rather than of plumbing, with proofs of what those parts promise. `dafny verify
dfyconfig.toml` checks all of it.

| component | files | main results |
|---|---|---|
| Shamir escrow | `PrimeField`, `Polynomials`, `Lagrange`, `ShamirEscrow` | any m shares rebuild the key byte for byte; m - 1 shares fit every candidate key in exactly one way; the "no inverse" error comes exactly for congruent x |
| Merkle tree | `Merkle`, `MerkleRoots`, `MerkleProofs`, `MerkleStore`, `MerkleVerifier` | the level-by-level table holds the recursively defined tree; exactly which strings and proofs the verifier accepts, of any length and with any flags, up to a computed collision; what equal roots mean, exactly, at equal and at unequal heights |
| Audit log | `AuditProtocol`, `AuditArchives`, `AuditReuse`, `AuditRestart`, `AuditSealing`, `AuditLogger` | in every interleaving with fresh stamps no call is lost, repeated or reordered, archives are frozen and each gets one seal record with its hash, over any number of restarts; what the directory holds whatever the stamps, and when calls and recorded hashes are then right; exactly when background sealing comes to rest, whatever the stamps |
| Dead man's switch | `DeadMansSwitch`, `NukeProtocol` | when it may fire, that it does fire, both in the timeout the master gave; what heartbeats, disarms, halts, triggers and the calls of others can do |
| Chunkers | `Chunking`, `AdaptiveChunking` | the fixed-size split and the header root depend on the file's bytes only; what the buffer holds at each read; exactly when the adaptive chunker loses data |
| Migration | `Migration`, `MigrationEngine` | retries after missing reads end in a faithful copy; exactly when the root shortcut is right |
| Secret storage | `SecretStore`, `StoragePipeline` | the chunked store simulates a map from (tenant, key) to bytes; what the loss of objects does to it, exactly |
| Breach radar | `BloomFilter` | the bit array stands for the union of the ingested passwords' positions |

Conventions. Code that updates things in place is a class or a method with loops, proved against a
function on values (`Next`, `Sync`, `Save`, `Chunks`, ...); the promises are lemmas about those
functions over all inputs or all runs. Hashes, base64 and the envelope codec are parameters: SHA-256
is any function with 32-byte results, base64 of a root any injective function that gives the empty
string only for no bytes, and the envelope any codec with an inverse. BLAKE2b is any function with
32-character results that keeps apart the names that a run and a query hash;
`SecretStore.ShortNamesSound` gives such a function. Where a promise needs that no collision of
SHA-256 occurs, the lemma does not assume it away: it names two strings, computed from its
arguments, and says that they collide if the promise fails. Randomness, the clock, memory readings
and the scheduling of threads are parameters, quantified over. Locks make each public call one
atomic step; a sealer thread has three steps and a monitor thread one per turn of its loop. Input
and output succeed.

Results that differ from what one might expect of the code, each with the exact condition:

* A chunk list of odd length above one whose last chunk is repeated has the same root as
  without the repetition (`Merkle.RepeatedLastChunk`), so lists bind only up to padding
  (`Merkle.EqualRoots`). A chunk that is a pair of hashes can stand for a subtree, so lists of
  different heights can share a root (`MerkleRoots.RootsAcrossHeights`,
  `MerkleRoots.UnequalHeights`). For files with one header root `Chunking.HeaderRootClasses` lists the
  cases. The migration's root shortcut can therefore skip a chunk, in both ways
  (`Migration.ShortcutMissesRepeatedChunk`, `Migration.ShortcutTakesNodeForChunk`); when it is right
  is `Migration.ShortcutExact`.
* Chunk hashes and pair hashes are the same function, unlike section 2.1 of RFC 6962, and the verifier
  takes a proof's length and flags as they come. It therefore also accepts, with a shorter proof, the pair of
  hashes at a node in place of a chunk, and with a longer one a string whose hash some chunk contains;
  with a proof of the tree's height it accepts only chunks (`MerkleVerifier.VerifierExact`,
  `MerkleVerifier.VerifierByLength`), up to the computed collision.
* Rotation stamps are whole seconds. Two rotations in one second lose the first epoch, whether its
  file is still in processing at the second (`AuditArchives.SameSecondLosesCall`) or sealed by then
  (`AuditArchives.SameSecondLosesSealedCall`). After any run, each stamp has one archive, the
  file of its newest epoch (`AuditArchives.DirectoryExact`); every epoch is kept exactly when epochs
  with equal stamps have equal contents (`AuditArchives.KeptExactly`), and the calls are exactly when no
  epoch whose stamp was used again holds one (`AuditReuse.CallsKeptExactly`). A seal can then also
  record another epoch's hash (`AuditReuse.SameSecondWrongHash`); when it is the right one is
  `AuditReuse.RecordedHashExact`. The theorems on conservation, links and frozen epochs
  (`AuditProtocol.EveryRun`, `AuditProtocol.RunFrozen`) ask for stamps that no file bears at the rotation,
  which is the same as that the rotations of the run have different stamps, new to the directory
  (`AuditArchives.AdmissibleExactly`).
* If a start record and a seal record together reach the size limit, sealing goes on forever from any
  state with a budget of three or more, and comes to rest from any other, whatever the stamps
  (`AuditSealing.CrampedNeverRests`, `AuditSealing.SmallBudgetQuiesces`). The budget counts the seals
  the present sealers will write, twice, and a full current file; sealers before their rename that share
  a stamp count as one, since all but one of them fail.
* The project's documentation says that the first entry of a new log holds the final hash of the old
  one (README.md:36). The code writes a placeholder there and records the hash later, in an
  EPOCH_SEALED entry; the model follows the code.
* A tenant id that is some other tenant's ledger key loses its index to that tenant, unless it has a
  record of its own (`SecretStore.UpdateThenGet`, `SecretStore.ShadowedTenantLosesSecret`).
* A secret saved with an empty payload is reported as not found (`SecretStore.RetrieveLatest`).
* A chunk size of zero, which an override can set, ends the stream. A payload survives exactly when no
  zero comes up before it has been read (`AdaptiveChunking.LostExactly`), every payload exactly when
  each zero follows a negative size (`AdaptiveChunking.NeverLostExactly`); and a zero stays in force
  after the override is gone (`AdaptiveChunking.ZeroPersists`).

## Model

| member | source | states |
|---|---|---|
| ShamirEscrow.EvalAt | koot/plugins/shamir_escrow.py:15-20 | Horner's loop from the highest coefficient down gives the value of the polynomial at x modulo p |
| Polynomials.Remainder | koot/plugins/shamir_escrow.py:15-20 | that value obeys the remainder theorem: f(x) = f(c) + (x - c) q(x) with q from synthetic division |
| Polynomials.RootBound | koot/plugins/shamir_escrow.py:6-20 | modulo a prime, a polynomial with as many distinct roots as coefficients is zero |
| Polynomials.Interpolate | koot/plugins/shamir_escrow.py:10-20 | through any points with distinct x there is a polynomial with that many coefficients |
| Polynomials.InterpolantUnique | koot/plugins/shamir_escrow.py:10-20 | and only one |
| ShamirEscrow.FieldSize | koot/plugins/shamir_escrow.py:4-6 | the field constant is 2^521 - 1, fits a 66-byte share and exceeds every key of up to 65 bytes |
| ShamirEscrow.SplitKey | koot/plugins/shamir_escrow.py:22-43 | the two errors exactly when m > n or the secret reaches p; otherwise n shares, the i-th holding the polynomial's value at i in 66 bytes |
| ShamirEscrow.ExtendedGcd | koot/plugins/shamir_escrow.py:45-52 | for all integers, terminates with a common divisor that every common divisor divides, and its Bezout coefficients |
| ShamirEscrow.ModInverse | koot/plugins/shamir_escrow.py:54-62 | for a positive modulus p the one inverse in [0, p), or the error exactly when there is none; division by zero for zero, and for a negative modulus always the error |
| PrimeField.PrimeInvertible | koot/plugins/shamir_escrow.py:54-62 | modulo a prime, exactly the non-multiples are invertible |
| ShamirEscrow.BasisTerms | koot/plugins/shamir_escrow.py:71-78 | the inner loop computes the products of -x_j and of x_i - x_j over the other shares |
| ShamirEscrow.DenominatorInvertible | koot/plugins/shamir_escrow.py:74-80 | the denominator has an inverse exactly when no other x is congruent to x_i |
| Lagrange.WeightsSumToOne | koot/plugins/shamir_escrow.py:69-81 | the Lagrange weights at zero of any distinct points sum to one |
| Lagrange.InterpolatesAtZero | koot/plugins/shamir_escrow.py:69-81 | the weighted sum of the values of any polynomial with at most as many coefficients as there are points is its value at zero |
| ShamirEscrow.ReconstructKey | koot/plugins/shamir_escrow.py:64-89 | no shares, congruent x: the two errors exactly then; a key that is returned has the expected length and denotes the value at zero of a polynomial through the shares; exactly if no string of that length does, the length error |
| ShamirEscrow.ValueUnique | koot/plugins/shamir_escrow.py:64-81 | that value is the same for every such polynomial |
| ShamirEscrow.RoundTrip | koot/plugins/shamir_escrow.py:22-89 | for m or more shares, in any order, the secret with its leading zeros is the one string of its length that denotes their value at zero |
| ShamirEscrow.PickedDistinct | koot/plugins/shamir_escrow.py:36-43 | for n < p, shares with different x are different modulo p |
| ShamirEscrow.SplitThenReconstruct | koot/plugins/shamir_escrow.py:22-89 | splitting and then rebuilding from any m or more chosen shares returns the secret |
| ShamirEscrow.SharesLeaveSecretOpen | koot/plugins/shamir_escrow.py:15-43 | m - 1 values at distinct nonzero points and any candidate secret are explained by exactly one coefficient vector |
| ShamirEscrow.TooFewShares | koot/plugins/shamir_escrow.py:22-43 | whatever m - 1 shares and whatever candidate key, exactly one draw of the coefficients a split with threshold m uses splits the candidate into those shares |
| Bytes.FromBytesConcat | koot/plugins/shamir_escrow.py:29-70 | the number of a byte string counts a string in front 256 times for each byte that follows |
| Bytes.FromToBytes | koot/plugins/shamir_escrow.py:41-70 | a number that fits is recovered from its big-endian bytes |
| Bytes.ToFromBytes | koot/plugins/shamir_escrow.py:29-85 | a byte string is recovered from its number and its length |
| Merkle.WidthIsCeiling | koot/storage/integrity/merkle.py:74-99 | level l has n / 2^l nodes, rounded up |
| Merkle.TopIsLeast | koot/storage/integrity/merkle.py:74-101 | the first level with a single node is the least l with 2^l >= n |
| MerkleStore.MerkleTree.AddChunk | koot/storage/integrity/merkle.py:53-58 | the table gains the chunk's hash as the next leaf and stays exact |
| MerkleStore.MerkleTree.BuildLevel | koot/storage/integrity/merkle.py:75-95 | reading one level two rows at a time inserts exactly the next level of the recursive tree |
| MerkleStore.MerkleTree.Build | koot/storage/integrity/merkle.py:60-101 | the table holds exactly the nodes of the recursive tree on every level up to the least height |
| MerkleStore.MerkleTree.GetRootHash | koot/storage/integrity/merkle.py:103-112 | the empty string for no chunks, else the encoded root of the recursive tree |
| MerkleStore.MerkleTree.GetProof | koot/storage/integrity/merkle.py:114-143 | for any index one step per level from the table; for a chunk's index the path of siblings in the recursive tree |
| MerkleVerifier.VerifyChunk | koot/storage/integrity/merkle.py:151-165 | accepts exactly when climbing from the chunk's hash along the proof gives the root |
| Merkle.ClimbReachesRoot | koot/storage/integrity/merkle.py:114-165 | climbing along its own path takes every node to the root |
| Merkle.ClimbBinding | koot/storage/integrity/merkle.py:151-165 | two climbs of one shape that meet are the same, or a collision is computed from them, whatever the siblings' lengths |
| Merkle.ProofBinding | koot/storage/integrity/merkle.py:114-165 | a chunk and proof of the shape of chunk i's that climb to the root are chunk i and its proof, or a collision is computed |
| MerkleProofs.PerfectClimb | koot/storage/integrity/merkle.py:151-165 | in a full tree, a climb of its height ends at the root exactly from the leaf its flags spell and along that leaf's path, up to a computed collision |
| MerkleProofs.OwnPathWhole | koot/storage/integrity/merkle.py:114-143 | the path a chunk is given is that of its place in the padded tree |
| MerkleProofs.ClimbExact | koot/storage/integrity/merkle.py:151-165 | a climb of any length and flags reaches the root exactly with a proof whose part within the tree is the path of the place its flags spell, on the level its length reaches, up to a computed collision |
| MerkleProofs.GenuineByLength | koot/storage/integrity/merkle.py:114-165 | such a proof of the tree's height is a chunk's, a shorter one is that of a string of 64 bytes, a longer one needs a chunk that contains a hash |
| MerkleVerifier.VerifierExact | koot/storage/integrity/merkle.py:103-165 | for every string and every proof: accepted if genuine in that sense, and otherwise only if the computed strings collide |
| MerkleVerifier.VerifierByLength | koot/storage/integrity/merkle.py:103-165 | each chunk is accepted with its own proof; with a proof of the tree's height only chunks are; what shorter and longer proofs can pass for; all up to the computed collision |
| MerkleVerifier.EmptyRootAcceptsNothing | koot/storage/integrity/merkle.py:103-165 | against the root of no chunks nothing is accepted |
| Merkle.NodeIsPerfectRoot | koot/storage/integrity/merkle.py:80-95 | duplicating odd last nodes is the same as padding the chunk list to a full tree |
| Merkle.EqualRoots | koot/storage/integrity/merkle.py:74-101 | trees of one height have equal roots exactly when their padded lists are equal, up to a computed collision |
| Merkle.PaddedPrefix | koot/storage/integrity/merkle.py:74-101 | the chunk list is a prefix of its padding |
| Merkle.EqualLengthBinding | koot/storage/integrity/merkle.py:74-101 | chunk lists of one length with one root are equal, or a collision is computed |
| MerkleRoots.SmallRoots | koot/storage/integrity/merkle.py:80-112 | the roots of no, one, two and three chunks, spelled out |
| MerkleRoots.RootHashBinding | koot/storage/integrity/merkle.py:103-112 | chunk lists of one length with one encoded root are equal, or the two strings computed from them collide |
| MerkleRoots.RootsAcrossHeights | koot/storage/integrity/merkle.py:74-101 | trees of different heights have one root exactly when the padded chunks of the lower are the strings hashed on that level of the higher, up to a computed collision |
| MerkleRoots.UnequalHeights | koot/storage/integrity/merkle.py:53-101 | then every chunk of the lower has 64 bytes, or the computed collision exists |
| Merkle.RepeatedLastChunk | koot/storage/integrity/merkle.py:88-89 | repeating the last chunk of a list of odd length above one changes neither height nor root |
| AuditLogging.AuditLogger.constructor | koot/governance/audit/log.py:14-36 | every file that is there stays with its content; only if there is no current file one is made, with a start record |
| AuditLogging.AuditLogger.RotateUnsafe | koot/governance/audit/log.py:60-84 | the current file moves to its stamp's processing name, a new epoch starts, a sealer is spawned |
| AuditLogging.AuditLogger.AppendRecord | koot/governance/audit/log.py:38-53 | rotate first if the current file has reached the limit, then append |
| AuditLogging.AuditLogger.Log | koot/governance/audit/log.py:38-53 | the client step of the protocol |
| AuditLogging.AuditLogger.RotateNow | koot/governance/audit/log.py:55-58 | the manual rotation step of the protocol |
| AuditLogging.AuditLogger.HashInBlocks | koot/governance/audit/log.py:90-95 | hashing in blocks gives the digest of the whole content |
| AuditLogging.AuditLogger.SealHash | koot/governance/audit/log.py:90-95 | the sealer's first step: the digest of its file, or failure if it is gone |
| AuditLogging.AuditLogger.SealRename | koot/governance/audit/log.py:97-99 | the second: the file takes its sealed name |
| AuditLogging.AuditLogger.SealLog | koot/governance/audit/log.py:101-109 | the third: the seal record goes through log, which may rotate |
| AuditProtocol.NextInv | koot/governance/audit/log.py:38-112 | every step with an unused stamp keeps the invariant: files in place, calls conserved, epochs linked to their seals |
| AuditProtocol.ContentConcat | koot/governance/audit/log.py:35-53 | the bytes of a file are the lines of its records, in order |
| AuditProtocol.EveryRun | koot/governance/audit/log.py:14-112 | in every interleaving, from an empty directory or one the logger left, the files in epoch order hold exactly the calls in the log that was there and those made since, and every epoch has its one seal record, in a later epoch, with the hash of its bytes, once its sealer is done and none before; and the logger can be started again on what it leaves |
| AuditRestart.LivesConserve | koot/governance/audit/log.py:14-109 | over any number of starts, with any stamps, the files ever put away and the last log hold the calls in the log found first and those of every run, in order |
| AuditRestart.LivesKeep | koot/governance/audit/log.py:14-109 | with fresh stamps each of those files is in the directory at the end, unchanged and under a name of its own, and so is every file found at the start |
| AuditProtocol.RunFrozen | koot/governance/audit/log.py:60-112 | an epoch that has been rotated away never changes again |
| AuditProtocol.EveryFileNearLimit | koot/governance/audit/log.py:41-53 | in every run, with any stamps, no file gets a record, after its first two, once it has reached the limit; nor does the file found at the start |
| AuditProtocol.RotatedWhenFull | koot/governance/audit/log.py:41-43 | and without manual rotations no file is put away before it has |
| AuditProtocol.ManualRotation | koot/governance/audit/log.py:55-84 | a manual rotation puts the current file away whatever its size |
| AuditArchives.NextDirectory | koot/governance/audit/log.py:60-99 | every step, with any stamp, keeps the newest epoch of each stamp in place, in processing while its sealer is before the rename and sealed otherwise, and leaves files of other stamps alone |
| AuditArchives.DirectoryExact | koot/governance/audit/log.py:60-99 | the directory after any run whose renames have all been tried: under each stamp the file of its newest epoch, sealed; files of other stamps as they were |
| AuditArchives.KeptExactly | koot/governance/audit/log.py:68-99 | an epoch is kept exactly when the newest of its stamp has the same content; all are exactly when equal stamps mean equal contents |
| AuditArchives.EarlierArchivesKeptExactly | koot/governance/audit/log.py:68-99 | exactly when the archives found at the start are all kept |
| AuditArchives.AdmissibleExactly | koot/governance/audit/log.py:60-84 | the runs of EveryRun are exactly those whose rotations have different stamps, new to the directory; their epochs are the files put away |
| AuditArchives.SameSecondLosesCall | koot/governance/audit/log.py:68-73 | after two rotations in one second a logged call is in no file |
| AuditArchives.SameSecondLosesSealedCall | koot/governance/audit/log.py:68-99 | nor if the first file was sealed before the second rotation: the second rename replaces it |
| AuditReuse.HistoryConserved | koot/governance/audit/log.py:38-109 | with any stamps, the files ever put away and the current one hold exactly the calls |
| AuditReuse.CallsKeptExactly | koot/governance/audit/log.py:38-109 | the archives in the directory and the current file do exactly when no epoch whose stamp was used again holds a call |
| AuditReuse.EveryHashOfStamp | koot/governance/audit/log.py:86-109 | with any stamps, the hashes recorded for a stamp are those of the sealers that are done, each the hash of an epoch of the stamp, the sealer's own or a later one |
| AuditReuse.RecordedHashExact | koot/governance/audit/log.py:86-109 | a recorded hash is that of the sealed file exactly when the epoch that was hashed and the newest of the stamp hash alike; they are the same one exactly when no later rotation takes the stamp |
| AuditReuse.SameSecondWrongHash | koot/governance/audit/log.py:68-99 | a rotation in the same second between hashing and rename leaves the sealed file with another file's hash |
| AuditSealing.SealStep | koot/governance/audit/log.py:38-53 | from any state, a seal finishes one sealer and starts another exactly when the current file was full, which writes a seal of its own unless its stamp is live already; whether the file is full afterwards |
| AuditSealing.SealingQuiesces | koot/governance/audit/log.py:38-109 | if a rotation's start record and a seal record fit below the limit, from any state and with any stamps at most 2 * live + 1 more seals are written, in boundedly many steps |
| AuditSealing.AtRest | koot/governance/audit/log.py:86-109 | a sealer can move exactly while one has neither finished nor failed; when none can, in a run with fresh stamps, every archive has its one seal |
| AuditSealing.SmallBudgetQuiesces | koot/governance/audit/log.py:38-109 | without that room, from any state with no live seal, or one and the file not full, sealing still comes to rest |
| AuditSealing.CrampedNeverRests | koot/governance/audit/log.py:38-109 | and from every other state whose current file has its start record no run of the sealers does, with any stamps |
| AuditSealing.EveryRunStarted | koot/governance/audit/log.py:22-84 | in every run the current file has its start record |
| AuditSealing.LiveArePending | koot/governance/audit/log.py:86-109 | with fresh stamps the live seals are those of the sealers that have still to finish |
| NukeProtocols.OverrideMatrix.VerifyMasterAuthority | koot/governance/override/interlock.py:23-29 | true exactly for the master's own token and certificate hash |
| NukeProtocols.OverrideMatrix.TriggerGlobalHalt | koot/governance/override/interlock.py:31-41 | halts exactly for the master, and never unhalts |
| NukeProtocols.OverrideMatrix.ResetHaltState | koot/governance/override/interlock.py:141-147 | unhalts exactly for the master |
| NukeProtocols.NukeProtocol.ArmProtocol | koot/governance/override/nuke.py:32-48 | the arming step: new timer, and a new monitor thread only if the last one is dead |
| NukeProtocols.NukeProtocol.RecordHeartbeat | koot/governance/override/nuke.py:50-59 | the heartbeat step, and true only if authorised and armed |
| NukeProtocols.NukeProtocol.DisarmProtocol | koot/governance/override/nuke.py:61-70 | the disarming step; the sleeping monitor stays until its next turn |
| NukeProtocols.NukeProtocol.MonitorTurn | koot/governance/override/nuke.py:72-89 | one turn of the monitor: end on stop, disarmed, halt or expiry, else sleep |
| NukeProtocols.NukeProtocol.TriggerImmediately | koot/governance/override/nuke.py:112-119 | the manual wipe, authorised only |
| DeadMansSwitch.NextInv | koot/governance/override/nuke.py:32-110 | every step keeps the timing invariant |
| DeadMansSwitch.EveryRun | koot/governance/override/nuke.py:32-110 | armed means exactly one live monitor and a clock no later than last heartbeat + timeout + 0.5; every automatic wipe falls in that half second after its timeout (a negative timeout counts as zero in the upper bounds) |
| DeadMansSwitch.EveryRunFromStart | koot/governance/override/nuke.py:14-110 | the same for every run of a new switch |
| DeadMansSwitch.ArmPostpones | koot/governance/override/nuke.py:32-48 | after the master has armed the switch with a timeout, that timeout is kept and no automatic wipe happens within it, unless the master arms it anew |
| DeadMansSwitch.HeartbeatPostpones | koot/governance/override/nuke.py:50-59 | after the master's heartbeat on an armed switch the same holds of the timeout in force |
| DeadMansSwitch.DisarmAndHaltHold | koot/governance/override/nuke.py:61-82 | after an authorised disarm no automatic wipe until an authorised arm, after an authorised halt none until an authorised reset |
| DeadMansSwitch.SwitchFires | koot/governance/override/nuke.py:72-100 | armed, not halted and without authorised calls, it has fired exactly once, in time, when the deadline has passed |
| DeadMansSwitch.ArmedFires | koot/governance/override/nuke.py:32-100 | armed by the master with a timeout, not halted and left alone by the master, it stays armed for the timeout and has fired exactly once, automatically, half a second later |
| DeadMansSwitch.ResetThenArmedFires | koot/governance/override/interlock.py:141-147 | the same from any state after the master's reset |
| DeadMansSwitch.HaltAndReset | koot/governance/override/interlock.py:31-41 | a halt that is lifted before the monitor looks leaves no trace |
| DeadMansSwitch.ManualExactly | koot/governance/override/nuke.py:112-119 | in every run the manual wipes are as many as the master's triggers |
| DeadMansSwitch.TriggerWipesAndDisarms | koot/governance/override/nuke.py:91-119 | a trigger wipes at once, armed or not, halted or not, and no automatic wipe follows until the master arms again |
| DeadMansSwitch.AfterHalt | koot/governance/override/nuke.py:32-110 | once a turn has seen the halt, an automatic wipe needs both an authorised arm and an authorised reset first |
| DeadMansSwitch.UnauthorisedHaveNoEffect | koot/governance/override/nuke.py:32-119 | erasing every call whose token or whose certificate hash is not the master's leaves the state a run reaches unchanged |
| Chunking.BufferedAdaptiveChunker.EvaluateHardware | koot/storage/chunking/buffered_adaptive.py:21-56 | 16 KB exactly without a reading or below 512 MB, 64 KB exactly below 2048 MB, else 1 MB, whatever was before |
| Chunking.LevelsFollowReadings | koot/storage/chunking/buffered_adaptive.py:58-89 | how full each read may make the buffer, and but for the last does make it, from that read's reading |
| Chunking.BufferedAdaptiveChunker.ProcessStream | koot/storage/chunking/buffered_adaptive.py:58-89 | for every sequence of readings, the fixed-size split of buffer and file and an empty buffer at the end; the buffer lengths after its reads are those computed from the file length and the readings, each at most logical size - 1 + physical size |
| Chunking.BufferedAdaptiveChunker.YieldFull | koot/storage/chunking/buffered_adaptive.py:81-89 | the inner loop yields full chunks only and loses nothing |
| Chunking.FixedSplitUnique | koot/storage/chunking/buffered_adaptive.py:58-89 | the split is the only way to cut the bytes into full chunks and a shorter, nonempty last one |
| Chunking.ProcessFileForStorage | koot/core/envelope/envelope.py:116-129 | the header root is that of the file's split into 65536 bytes, whatever the readings; empty for an empty file |
| Chunking.HeaderRootUnique | koot/core/envelope/envelope.py:116-129 | so a file has one header root |
| Chunking.HeaderRootBinding | koot/core/envelope/envelope.py:116-129 | files of one length with one header root are equal, or the two strings computed from them collide |
| Chunking.HeaderRootClasses | koot/core/envelope/envelope.py:116-129 | files of any lengths have one header root exactly when they are equal, or one continues the padding of the other, or one is the 64-byte pair of hashes at the top of the other's tree, up to a computed collision |
| AdaptiveChunking.AdaptiveChunker.EvaluateHardware | koot/storage/chunking/engine.py:15-31 | override, reset on low memory, doubling after ten stable reads, capped |
| AdaptiveChunking.AdaptiveChunker.ProcessBytes | koot/storage/chunking/engine.py:33-53 | the chunks and the final ramp of the stream; nothing lost unless a zero size comes up |
| AdaptiveChunking.NothingLost | koot/storage/chunking/engine.py:33-53 | the chunks are nonempty and concatenate to the payload, on every host without a zero size |
| AdaptiveChunking.LostExactly | koot/storage/chunking/engine.py:15-53 | the chunks make up the data exactly when no zero size comes up before the reads so far have taken all of it |
| AdaptiveChunking.NeverLostExactly | koot/storage/chunking/engine.py:15-53 | every payload survives exactly when each zero size follows a negative one, which reads everything |
| AdaptiveChunking.ZeroPersists | koot/storage/chunking/engine.py:16-31 | a zero size stays while memory is not low and no override comes |
| AdaptiveChunking.SteadyRampExact | koot/storage/chunking/engine.py:9-43 | on a steady host the size of the k-th read in closed form: doubled every ten reads up to 64 KB, or 1 MB with plenty of memory |
| AdaptiveChunking.RampsAnewAfterLow | koot/storage/chunking/engine.py:26-43 | after an evaluation that found memory low, on a host steady from then on, the sizes are those of a new chunker |
| AdaptiveChunking.OverrideAndLowMemory | koot/storage/chunking/engine.py:15-31 | at any evaluation of any run an override is the size, and without one low memory resets it to 16 KB |
| AdaptiveChunking.SinceLowExact | koot/storage/chunking/engine.py:26-43 | the reads since memory was last low are a matter of the host alone |
| AdaptiveChunking.StreamRamped | koot/storage/chunking/engine.py:9-43 | without override every stream leaves the size at 16384 * 2^j with 10 j <= reads since memory was last low, j <= 6, and j <= 2 without telemetry |
| AdaptiveChunking.ChunksRamped | koot/storage/chunking/engine.py:9-43 | and every chunk of the stream but the last has exactly such a size, the last at most |
| MigrationEngine.LiveMigrationEngine.SyncEnvelope | koot/storage/migration/differ.py:24-58 | one sync: not found, bypassed on equal roots, aborted after a prefix of the delta, or complete with the manifest |
| MigrationEngine.LiveMigrationEngine.CalculateDelta | koot/storage/migration/differ.py:60-69 | exactly the source's chunks that the destination lacks or lists with another hash |
| MigrationEngine.LiveMigrationEngine.PipelineChunks | koot/storage/migration/differ.py:71-83 | writes the chunks up to the first that cannot be read, and fails exactly if there is one |
| Migration.SyncExact | koot/storage/migration/differ.py:24-83 | which of the four answers a sync gives, exactly; nothing changes for a missing source or equal roots; else just the needed chunks up to the first the source lacks are overwritten, and the manifest only if there is none |
| Migration.DeltaExact | koot/storage/migration/differ.py:60-69 | membership in the delta, both ways |
| Migration.DeltaInOrder | koot/storage/migration/differ.py:60-69 | the delta keeps the manifest's order |
| Migration.OneAttempt | koot/storage/migration/differ.py:24-83 | an attempt after earlier ones writes a prefix of the same delta, all of it unless it aborts |
| Migration.AbortedAttempts | koot/storage/migration/differ.py:71-83 | any number of aborted attempts leaves the manifests alone and a prefix of the first delta written |
| Migration.RetriesThenSuccess | koot/storage/migration/differ.py:24-83 | aborted attempts and then a complete one: every source chunk is there with the source's bytes, or with bytes whose hash is the same; all else is untouched; a further sync writes nothing |
| Migration.ShortcutByHeight | koot/storage/migration/differ.py:43-46 | with equal roots nothing is written; what that means for the source's chunks when its tree is as high as, lower or higher than the destination's, up to a computed collision |
| Migration.ShortcutExact | koot/storage/migration/differ.py:43-46 | if the first chunk of a longer list has not 64 bytes, the bypass is right exactly when the trees are equally high and the destination lists at least as many chunks, up to a computed collision |
| Migration.ShortcutMissesRepeatedChunk | koot/storage/migration/differ.py:43-46 | a repeated last chunk the destination lacks is not transferred |
| Migration.ShortcutTakesNodeForChunk | koot/storage/migration/differ.py:43-46 | nor is a chunk that is the pair of hashes at the top of the destination's tree |
| SecretStore.ObjectKeyLayout | koot/storage/pipeline.py:15-24 | the storage key of a chunk, spelled out |
| SecretStore.DecimalDenotes | koot/storage/pipeline.py:22-22 | the index in it is written in decimal |
| SecretStore.ObjectKeyInjective | koot/storage/adapters/base.py:19-30 | different chunks, secrets or tenants never share a storage key, if the hashes keep the names concerned apart |
| SecretStore.UpdateThenGet | koot/identity/ledger.py:173-199 | a recorded index is found again exactly when the tenant is not shadowed by another's ledger key |
| SecretStore.UpdateOthers | koot/identity/ledger.py:173-199 | recording an index changes no other, and shadows nobody |
| SecretStore.ShadowedTenantLosesSecret | koot/identity/ledger.py:182-190 | a shadowed tenant's index replaces the other tenant's index for that key |
| SecretStore.SaveSimulates | koot/storage/pipeline.py:13-28 | a save updates the simulated map at one place, stale chunks of longer payloads notwithstanding |
| SecretStore.ReadBack | koot/storage/pipeline.py:35-41 | stored chunks read back as their concatenation |
| SecretStore.ReadChunksExact | koot/storage/pipeline.py:35-41 | chunks are read exactly if every one is there and unwraps, as their contents in order; else the first that is not decides the error |
| SecretStore.RetrieveAfterLoss | koot/storage/pipeline.py:13-41 | after any run of saves and the loss of any objects, the latest payload exactly if no object its manifest lists is lost, else an error |
| SecretStore.RetrieveLatest | koot/storage/pipeline.py:13-41 | after any run of saves, the latest payload of that tenant and key if it is nonempty, else not found, if the hashes keep the names of the run and the query apart |
| SecretStore.ShortNamesSound | koot/storage/adapters/base.py:19-30 | hashes and a codec that do, for any names of fewer than 32 characters |
| StoragePipelines.ShadowLedger.RecordIndex | koot/identity/ledger.py:173-191 | the first record of the tenant gets the index, or the record under its id, or a new one |
| StoragePipelines.ShadowLedger.LookupIndex | koot/identity/ledger.py:193-199 | the index in the first record of the tenant |
| StoragePipelines.StoragePipeline.SaveSecret | koot/storage/pipeline.py:13-28 | writes the chunker's chunks under their derived keys and records the manifest; the chunks are nonempty and make up the payload |
| StoragePipelines.StoragePipeline.RetrieveSecret | koot/storage/pipeline.py:30-41 | succeeds exactly with a nonempty manifest all of whose chunks are there and unwrap, and gives their contents in order; otherwise not found, or the error of the first that is missing or malformed |
| BloomFilter.BreachRadar.Ingest | koot/plugins/breach_radar.py:74-77 | the set of set bits gains exactly the password's positions, or nothing while dormant |
| BloomFilter.BreachRadar.IsCompromised | koot/plugins/breach_radar.py:79-84 | positive exactly when active and all positions are set |
| BloomFilter.BreachRadar.IngestAll | scripts/ingest_rockyou.py:63-75 | a run of ingestions adds the union of the positions |
| BloomFilter.PositiveExactly | koot/plugins/breach_radar.py:79-91 | no false negatives, and just which positives there are |
| BloomFilter.PositionSteps | koot/plugins/breach_radar.py:86-91 | the positions start at the digest's first word and go on in steps of its second |
| BloomFilter.BitWeight | koot/plugins/breach_radar.py:77-82 | position pos is bit pos mod 8 of byte pos / 8 |
| BloomFilter.OrderAndRepetition | koot/plugins/breach_radar.py:74-91 | the array depends only on the set of ingested passwords |

## Left out

- The primality of 2^521 - 1: every escrow result is about any prime p that fits a share.
- The chance that too few shares are rejected by the length check: it is a probability, not a law.
- ShamirEscrow.SplitKey: the coefficients are a parameter; that they are drawn uniformly is not modelled.
- MerkleStore.MerkleTree.Build: called once, after all chunks have been added; a second call would violate the table's primary key.
- MerkleStore.MerkleTree.BuildLevel: the SQLite cursors are a position in the level's rows in index order.
- AuditLogging.AuditLogger.constructor: the directory it finds holds log files of the logger's format only.
- AuditLogging.AuditLogger.SealLog: an exception anywhere in a sealer other than a missing file is not modelled.
- A client's entry that imitates a seal record: the model keeps the two apart by who wrote them.
- DeadMansSwitch.EveryRun: a turn of the monitor and a public call do not overlap, and sleeps last exactly half a second of a clock that does not go back.
- The emergency callback and the deletion of the target path: a wipe is one recorded event.
- Abort and freeze callbacks and provisioning in the override matrix: single-branch calls into other components.
- Chunking.BufferedAdaptiveChunker.ProcessStream: the generator is run to its end; abandoning it midway is not modelled.
- MigrationEngine.LiveMigrationEngine.SyncEnvelope: each adapter is a manifest table and a chunk table; the storage driver in koot/storage/adapters/base.py has neither.
- StoragePipelines.ShadowLedger.RecordIndex: encryption and saving of the ledger file are not modelled, nor are duress routing, locking and shredding.
- StoragePipelines.StoragePipeline.SaveSecret: writes succeed, and the envelope is an abstract codec with an inverse; the real envelope's methods have other signatures.
- BloomFilter.BreachRadar.constructor: the array is new and zeroed and its size and the number of positions are parameters; the floating-point sizing and the memory-mapped file are left out.
- Command line, network, cryptographic primitives, generators, import and export, heuristics, schemas and registry: plumbing, foreign calls or single-branch logic.
