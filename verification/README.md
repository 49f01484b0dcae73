# Verified models of the kernel's hard parts

Dafny models of eight independent components, each in the form of its source: limb and byte arrays
updated in place, classes with the source's static state as fields, loops with their invariants. Every
operation is proved against a specification on plain values, and what the component promises is proved
about that specification. `dafny verify dfyconfig.toml` checks everything.

| Component | Files | Main results |
|---|---|---|
| P-256 arithmetic | Products, Numeral, Limbs, ModArith, Field, Curve, CurveAlgebra, Ladder, Points | `Ladder.LaddersAgree`, `Points.PointMulBe32Projective`: the fast ladder returns what the affine ladder returns; limb loops are exact for all 256-bit inputs; the curve is never left |
| FAT32 | Products, FatBytes, FatTheory, FatDisk, FileMaps, FatView, ShortNames, FatSearch, FatFs, FatOps, FatWrite, FatAppend, FatRead, FatRuns, FatLedger, FatHistory, FatFormat | `FatHistory.Run`: in any sequence of calls each succeeds exactly when it should, changes a map from names to bytes exactly as it should, and leaves a healthy volume; `FatAppend.FsAppendFile`: append is crash-atomic |
| Scheduler | Contexts, Cooperative, Stacks, Scheduler | `Scheduler.Scheduler.CoopRun` and `Scheduler.Scheduler.Run`: from boot on, with preemption off and then on, interrupts, polls and yields in any order resume every actor exactly where it stopped, once; `Scheduler.Scheduler.Stop`: exactly when preemption may be switched off again |
| AES-GCM | Products, Bits, Gf128, Gcm, GcmSeal | `Gcm.GcmMul`: the byte loop is multiplication in GF(2^128); `GcmSeal.RoundTrip` |
| SHA-256 | Sha256 | `Sha256.Hash`, `Sha256.HashPieces`: the streaming hash is the hash of the padded message |
| Heap and paging | Products, Heap, Bits, Pmm, Paging | `Heap.Run`: the blocks tile the heap, fully merged, through every history; `Paging.Mapper.Map`: one page changes and no other |
| Text editor | Editor | `Editor.EditSaveLoad`: the 2-D buffer is a string, and saving and loading it is a round trip |
| Line drawing | Products, Line | `Line.Screen.DrawLine`: exactly the pixels of the line, within half a pixel |

## How the models are set up

- **P-256.** `Limbs` and `Field` work on arrays of eight or sixteen 32-bit limbs with the source's carries
  and borrows; outputs may alias inputs. `Curve` states the point formulas over residues modulo P, there
  called Q and known only by its limbs; `Points` proves that the limb code computes them. That P is prime is
  the named hypothesis `IsPrime(P)`; Fermat's little theorem is proved from it. Curve constants are those of
  section D.1.2.3 of FIPS 186-4.
- **FAT32.** `Volume` holds the disk as sectors, the one shared sector buffer and the mount constants. The
  ghost field `meta` says which chains exist and who owns each cluster, and the ghost field `log` records the
  disk after every sector write, which is what the crash properties speak of. Clusters of what lies outside
  the root directory are `foreign`, a set fixed with the mount constants, so nothing lost can be declared
  foreign later. `HealthyDisk` says: FAT copies equal; chains in range, acyclic, ended by an end mark and
  pairwise disjoint, the root's included; every other cluster free or foreign; live names unique; sizes
  within their chains; no used slot after the first zero one. `Files` is the map from 11-byte names to byte
  strings that a healthy volume holds. `FatFormat.FormattedHealthy` shows that a volume with an empty
  one-cluster root directory is healthy, so histories have a place to start.
- **Scheduler.** A saved context is a numbered continuation; memory maps stack addresses to what was saved
  there; running an actor destroys what its own stack held. What goes on after an interrupt return is what
  memory holds at the address loaded into ESP (`ResumeAt`), after a plain return what lies at the cooperative
  stack pointer (`ReturnAt`), and a synthetic frame leads to a landing, where ESP is loaded from EAX
  (`Landed`), with interrupts possible before it: they push where the synthetic frame was popped from, with
  the same EAX. A stale or consumed address makes these inapplicable, a wrong one breaks `SwitchStep`, the
  statement in terms of continuations alone. `CoopInv` holds from `scheduler_init` on while preemption is off:
  tasks are created, main is registered whatever has been counted or asked for by then, ticks come, polls
  switch to tasks and tasks yield back. From any such state in which the main loop runs in its own code, with
  two tasks, the other gate on and no switch pending, `Start` leads to `Inv`, which every step with both gates
  on keeps: the timer interrupt, the landing, the tests of yield, the rest of yield after `cli`, and poll, in
  any order. Counters are what earlier modes left them, and `Lag` says how far they may differ. `Stop` leads
  back to `CoopInv` in exactly one case.
- **AES-GCM and SHA-256.** AES and the SHA-256 compression function are arbitrary functions on blocks. A
  polynomial over GF(2) is the finite set of its exponents.
- **Heap and paging.** Block headers are a map from offsets to size, flag and link, kept in step with the ghost
  list of blocks. Page tables are the frames they live in, and `Walk` is the two-level translation.
- **Line.** The bound of `DrawLine` keeps `e2` within a C `int`: three times the longer axis is below 2^31.

Where code and its surroundings disagree, the models follow the code:

- A truncating `fs_write` of more than one cluster of data empties the file and then fails, and one that
  creates the file first leaves it empty (fs/fat32.c:633-642). So "a failing write leaves the old content" is
  false: `FatRuns.TruncateLoses` gives the inputs, and `FatRuns.FsWrite` the exact condition under which it
  holds.
- `fs_write` with the append flag on an empty file goes through the whole-file write, so it is limited to one
  cluster (fs/fat32.c:649-651), while a file that already has a cluster can grow by any amount.
- `fs_append_file` and `fs_write_file` return success for zero bytes, the former even before looking at the
  name (fs/fat32.c:532, fs/fat32.c:510).
- The GCM loops end only up to 65520 bytes (`GcmSeal.LoopEnds`), and the range loop of paging only up to
  0xFFFFF000 bytes (`Paging.RangeEnds`); both are stated as exact conditions and then as preconditions.
- `pmm_alloc_page` returns 0 both for page 0 and for "none left" (memory/pmm.c:32-41);
  `Pmm.Allocator.AllocPage` states when 0 means none.
- Switching preemption off while a task is stopped by an interrupt strands it: its saved stack pointer is that
  of an earlier yield, and a poll that chooses it loads ESP with that (kernel/scheduler.c:297-315, 349-351).
  `Scheduler.OffTooEarly` is a run from boot to such a state, and `Scheduler.Scheduler.Stop` the exact
  condition: every task must last have stopped by a yield.
- `scheduler_poll` never dispatches in the all-preemptive mode, since every expired quantum is consumed by the
  interrupt that expired it.

## Model

| member | source | states |
|---|---|---|
| Limbs.RawAdd | drivers/p256.c:136-144 | sum modulo 2^256 and the carry out are the exact sum, even when the output is an operand |
| Limbs.RawSub | drivers/p256.c:125-134 | difference modulo 2^256, the borrow telling exactly when the first operand is smaller; the output may be an operand |
| Limbs.Cmp | drivers/p256.c:117-123 | the sign of the result orders the two 256-bit numbers |
| Limbs.MulLimbs | drivers/p256.c:220-236 | the 16 limbs hold the exact 512-bit product: no carry is lost in any row |
| Limbs.RemShiftIn | drivers/p256.c:171-178 | the nine-limb remainder becomes exactly 2 rem + bit as long as that fits |
| Limbs.RemCmpMod | drivers/p256.c:180-187 | compares the nine-limb remainder with the modulus as numbers |
| Limbs.RemSubMod | drivers/p256.c:189-198 | subtracts the modulus exactly when it fits |
| Limbs.ReduceProductMod | drivers/p256.c:200-214 | 512 rounds of shift, compare and subtract leave product mod modulus for every product and every modulus above zero |
| Field.FeFromBe32 | drivers/p256.c:101-105 | limbs of a big-endian string stand for the same number |
| Field.ReduceOnce | drivers/p256.c:146-152 | carry and limbs together lose p once if they reach it |
| Field.FeMul | drivers/p256.c:220-240 | exactly a * b mod p for all 256-bit inputs, reduced or not; the output may be an input |
| Field.ScalarMul | drivers/p256.c:325-345 | exactly a * b mod n for all 256-bit inputs; the output may be an input |
| Field.TableBit | drivers/p256.c:242-252 | the bit of the number the big-endian table stands for |
| Field.PowerOf | drivers/p256.c:254-267 | square-and-multiply over the 256 bits of a byte table raises to the number the table stands for |
| Field.FeInv | drivers/p256.c:242-267 | a^(p-2) mod p: the byte table is the exponent p - 2 |
| Field.ScalarInv | drivers/p256.c:347-366 | a^(n-2) mod n: the byte table is the exponent n - 2 |
| ModArith.Fermat | drivers/p256.c:254-267 | Fermat's little theorem for every prime, the reason for the exponent |
| Field.InverseIsInverse | drivers/p256.c:254-267 | for a prime modulus and any a it does not divide, what both inversions return is nonzero and inverts a |
| Field.FeAdd | drivers/p256.c:154-157 | sum with one conditional subtraction, for all 256-bit inputs |
| Field.FeSub | drivers/p256.c:159-165 | difference with one conditional addition, for all 256-bit inputs |
| Field.ScalarFromBe32 | drivers/p256.c:285-290 | the scalar string modulo n, by repeated subtraction |
| Field.ScalarAdd | drivers/p256.c:311-323 | what one subtraction of n makes of a sum of any two 256-bit numbers |
| Field.ScalarAddIsMod | drivers/p256.c:311-323 | for reduced scalars that is the sum modulo n |
| Points.PointOnCurve | drivers/p256.c:381-401 | decides y^2 = x^3 - 3x + b for reduced coordinates |
| Points.PointFromBe32 | drivers/p256.c:403-420 | accepts exactly the coordinates below p of curve points and returns infinity otherwise |
| Points.PointDouble | drivers/p256.c:615-653 | the limb code computes the affine doubling formula, exceptional cases included, in place too |
| Points.PointAdd | drivers/p256.c:655-699 | the limb code computes the affine addition formula: infinity, equal, opposite and general points |
| Ladder.DoubleOnCurve | drivers/p256.c:615-653 | for prime p, doubling maps the curve to the curve or infinity, with reduced coordinates |
| Ladder.AddOnCurve | drivers/p256.c:655-699 | for prime p, adding maps curve points to the curve or infinity |
| Ladder.TimesOnCurve | drivers/p256.c:715-730 | every accumulator of the affine ladder stays on the curve when the input is on it |
| CurveAlgebra.ThirdPoint | drivers/p256.c:643-651 | over any modulus: the mirrored third point of a line through curve points is on the curve |
| Points.JacobianDouble | drivers/p256.c:490-542 | the limb code computes the Jacobian doubling formula, in place too |
| Points.JacobianAddMixed | drivers/p256.c:544-613 | the limb code computes the mixed addition formula with all its exceptional branches |
| Points.JacobianToPoint | drivers/p256.c:472-488 | the limb code divides by Z^2 and Z^3 with one inversion |
| Points.ScalarBit | drivers/p256.c:721-726 | the scalar bits come most significant first: each extends the leading bits by one |
| Points.LessThanP | drivers/p256.c:305-309 | accepts exactly the numbers below p |
| Ladder.JDoubleSimulates | drivers/p256.c:490-542 | Jacobian doubling simulates affine doubling through x = X/Z^2, y = Y/Z^3 on every input, infinity and y = 0 included, and Z stays nonzero |
| Ladder.JAddSimulates | drivers/p256.c:544-613 | Jacobian mixed addition simulates affine addition on every input, all exceptional branches included, and Z stays nonzero |
| Ladder.ToPointRecovers | drivers/p256.c:472-488 | leaving Jacobian coordinates gives back exactly the affine point represented |
| Ladder.LaddersAgree | drivers/p256.c:715-749 | for every scalar and every point with coordinates below p, on the curve or not, both ladders return the same point |
| Points.PointMulBe32 | drivers/p256.c:715-730 | the affine ladder over 256 big-endian scalar bits is the multiple defined by halving |
| Points.PointMulBe32Projective | drivers/p256.c:732-749 | the Jacobian ladder with a single inversion returns, for prime p, the very same multiple |
| Points.PointMulU32 | drivers/p256.c:701-713 | the 32-bit ladder returns the same multiple for its scalar |
| FatDisk.PutEntryEffect | fs/fat32.c:118-131 | rewriting one FAT entry in one copy changes no other entry, copy or data sector |
| FatDisk.Volume.ReadFatEntry | fs/fat32.c:108-116 | the 28-bit entry of the first FAT copy |
| FatDisk.Volume.NextCluster | fs/fat32.c:96-106 | the successor of a cluster on its chain, as the first FAT copy has it |
| FatDisk.Volume.WriteFatEntry | fs/fat32.c:118-131 | entry c changes in every FAT copy, one sector write each, and nothing else changes |
| FatTheory.ChainsDisjoint | fs/fat32.c:96-106 | in a well-formed FAT no cluster is on two chains or twice on one |
| FatTheory.LinkMarked | fs/fat32.c:567-587 | linking a marked cluster behind the last one keeps every chain in range, acyclic, ended and disjoint |
| FatTheory.FreeChain | fs/fat32.c:282-301 | clearing the entries of the chain of a file leaves a well-formed FAT in which exactly its clusters became free |
| ShortNames.MakeShortName | fs/fat32.c:154-168 | the 11-byte upper-case padded form of any name |
| ShortNames.MakeShortNameChecked | fs/fat32.c:177-199 | succeeds exactly on acceptable 8.3 names, and then agrees with make_short_name |
| ShortNames.ShortNameToString | fs/fat32.c:133-147 | base, and a dot with the extension if there is one, trailing spaces dropped |
| ShortNames.TextInvertsShortName | fs/fat32.c:133-199 | printing the short form of an accepted name gives the name back in upper case |
| ShortNames.FirstByte | fs/fat32.c:177-199 | an accepted name never looks like a free or deleted slot |
| FatSearch.WalkRoot | fs/fat32.c:234-261 | the walk along root chain, sectors and slots stops at the first slot that answers or ends it, nothing skipped |
| FatFs.FindRootEntryAt | fs/fat32.c:234-261 | the slot, sector and index of the entry of that name, or proof that no file has it |
| FatFs.FindFreeCluster | fs/fat32.c:263-280 | the lowest free cluster, or proof that none is free |
| FatFs.FreeClusterChain | fs/fat32.c:282-301 | every entry of the chain is cleared in all copies, no other entry changes |
| FatWrite.WriteBufferToCluster | fs/fat32.c:309-326 | the cluster holds the buffer, cut or zero-padded, and no other sector changes |
| FatWrite.ClusterIsSingle | fs/fat32.c:303-307 | true exactly for a valid cluster that ends its chain |
| FatOps.FsCreate | fs/fat32.c:372-405 | succeeds iff the name is valid, new and a slot is free; the map gains an empty file; failure leaves the disk as it was |
| FatOps.FsTruncateFile | fs/fat32.c:598-619 | succeeds iff the name is a file; that file is empty after, all others as before, and the FAT is the old one with exactly the clusters of the file cleared |
| FatOps.FsDeleteFile | fs/fat32.c:658-678 | succeeds iff the name is a file; it is removed from the map and nothing else is, and the FAT is the old one with exactly its clusters cleared |
| FatOps.FsRenameFile | fs/fat32.c:680-699 | succeeds iff old is a file, new is valid and unused; the bytes move to the new name |
| FatWrite.FsWriteFile | fs/fat32.c:496-528 | exact success condition; the file becomes the buffer, others unchanged; a first write is crash-atomic |
| FatAppend.FindTail | fs/fat32.c:543-555 | succeeds exactly when the content ends in the last cluster of the chain, and gives that cluster and the offset in it |
| FatAppend.FillTail | fs/fat32.c:560-576 | fills the last cluster as far as it and the buffer go; all files read as before, after every sector write |
| FatAppend.GrowChain | fs/fat32.c:567-587 | taking a free cluster behind a full chain and linking it extends the content while every file reads as before |
| FatAppend.AddClusters | fs/fat32.c:578-590 | adds clusters until the buffer is written or none is free; all files read as before, after every sector write |
| FatAppend.Appended | fs/fat32.c:589-595 | the final size write, alone, turns the old content into the grown one |
| FatAppend.AppendTo | fs/fat32.c:543-595 | on success the file reads old ++ buffer and after every sector write but the last all files read as before with at most one cluster unowned, the same clusters as ever lying outside the directory; on failure they still do |
| FatAppend.FsAppendFile | fs/fat32.c:530-596 | exact success condition, old ++ buffer across any number of clusters, and crash atomicity: every prefix of the sector writes but the last shows the old files |
| FatRead.FsOpen | fs/fat32.c:407-419 | a handle at position 0 on the entry of that name, or untouched |
| FatRead.FsRead | fs/fat32.c:421-463 | exactly content[position .. min(position + count, size)], position advanced by as much |
| FatRead.ReadInPieces | fs/fat32.c:421-463 | any sequence of reads returns consecutive bytes of the file, up to its whole content |
| FatRead.FsReadFile | fs/fat32.c:481-494 | succeeds iff the file opens and fits the buffer, with its whole content |
| FatRuns.FsWrite | fs/fat32.c:621-656 | exact success condition for every combination of flags; on success the wanted content; a failure leaves every file as it was if and only if it did not get as far as creating or truncating, or the file was empty already |
| FatRuns.TruncateLoses | fs/fat32.c:638-642 | truncating any file to one byte more than a cluster fails, and the content is lost |
| FatLedger.Conservation | fs/fat32.c:118-131 | free clusters, chain lengths, foreign and unowned clusters add up to the cluster count |
| FatLedger.VolumeBalances | fs/fat32.c:263-301 | in every healthy volume free clusters, chain lengths and the fixed set of clusters outside the directory add up to the cluster count; without such, free and chained clusters alone do |
| FatLedger.OutsideStays | fs/fat32.c:263-301 | whatever is done, the clusters held to lie outside the root directory are the same fixed set |
| FatLedger.ChainGivenBack | fs/fat32.c:282-301 | freeing the chain of a file makes exactly as many clusters free as it had |
| FatHistory.Perform | fs/fat32.c:372-699 | each public call succeeds exactly under its condition on the volume it finds, changes the map from names to bytes exactly as specified, failing or not, and keeps the volume healthy |
| FatHistory.Run | fs/fat32.c:372-699 | in any sequence of calls every outcome and every content is determined so, one volume after the other, and the last is healthy; what lies outside the directory keeps its clusters, and free plus chained clusters make up all the others |
| FatHistory.Untouched | fs/fat32.c:372-699 | a file that no call of a run names is the same at its end |
| FatHistory.AppendsConcatenate | fs/fat32.c:530-596 | successful appends, one after another, leave the old content with all buffers behind it |
| Scheduler.Scheduler.constructor | kernel/scheduler.c:126-153 | the state at boot: no task, nobody registered, nothing counted; the invariant of cooperation holds |
| Scheduler.Scheduler.CreateKernelTask | kernel/scheduler.c:155-177 | a task with a synthetic frame that resumes its first run, or -1 when full or without entry; at any time, with preemption off or on, either invariant is kept |
| Scheduler.Scheduler.RegisterMainTask | kernel/scheduler.c:179-199 | main gets a slot of its own once, if one is left, whatever ticks and switches have been counted or asked for |
| Scheduler.Scheduler.CoopTimer | kernel/scheduler.c:214-250 | with preemption off an interrupt returns through the frame just pushed, before main is registered and after; a tenth tick only asks for a switch |
| Scheduler.Scheduler.CoopPoll | kernel/scheduler.c:297-309 | a pending switch always finds a task, the cyclically next one, none skipped |
| Scheduler.Scheduler.PollSwitch | kernel/switch.asm:12-27 | main is saved where ESP was, the plain return through the stack pointer of the chosen task makes it go on from its last save, and main is parked |
| Scheduler.Scheduler.CoopYield | kernel/switch.asm:35-55 | the task is saved, its synthetic frame is refreshed, and main goes on from its last save, inside its poll |
| Scheduler.Scheduler.CoopRun | kernel/scheduler.c:214-347 | from the registration of main on, in every run with preemption off every actor that goes on does so from its last save, and nothing is resumed twice |
| Cooperative.CoopSwitches | kernel/switch.asm:12-55 | a plain switch between two actors keeps everybody but the running one parked, every synthetic frame leading to where its task is parked |
| Cooperative.CoopIsGood | kernel/scheduler.c:349-351 | wherever cooperation has led to, once main runs every task can be resumed by an interrupt return |
| Scheduler.Scheduler.Start | kernel/scheduler.c:349-359 | wherever boot and cooperation have led to, switching preemption on with the other gate on, main in its own code, two tasks and no switch pending establishes the invariant of preemptive runs |
| Scheduler.Scheduler.Stop | kernel/scheduler.c:349-351 | switching preemption off again, the main loop can go on cooperatively if and only if every task last stopped by a yield, which is also exactly when a plain return to every task is possible |
| Scheduler.OffTooEarly | kernel/scheduler.c:297-315 | a run from boot after which preemption is off and a task cannot be returned to by the switch of poll: nothing is saved at its stack pointer |
| Stacks.ParkedIff | kernel/scheduler.c:232-347 | everybody but main is parked, as cooperation needs it, if and only if every task last stopped by a yield |
| Stacks.NoWayBack | kernel/scheduler.c:284-295 | a task that was interrupted last has no save at its stack pointer, wherever main saves itself |
| Stacks.StacksSwitched | interrupts/isr.asm:129-159 | across an interrupt switch nothing is left saved on the stack of whoever runs, and stack pointers and synthetic frames of all others stay related |
| Stacks.StacksYielded | kernel/switch.asm:86-118 | the same across a yield to the interrupted main loop |
| Scheduler.Scheduler.NextActiveIrqTask | kernel/scheduler.c:109-124 | the cyclically next resumable slot other than the current one, none skipped, or proof there is none |
| Scheduler.Scheduler.Tick | kernel/scheduler.c:214-224 | every tenth tick, and no other, asks for a switch; without tasks nothing happens |
| Scheduler.Scheduler.OnTimerInterrupt | kernel/scheduler.c:232-295 | in any state of gates and flags, a frame is returned if and only if a switch is due, another slot can be resumed, and the gates and flags allow it; then the interrupted frame is stored with its owner, the cyclically next resumable slot takes over, none skipped, its frame is handed over and cleared for main, flags and counters follow; otherwise only counters and the ready flag change |
| Contexts.TakenInStep | kernel/scheduler.c:232-295 | with the flags in step that is a switch from the actor that runs to another one |
| Scheduler.Scheduler.TickAndSwitch | interrupts/interrupts.c:160-166 | tick and answer together: a frame is returned exactly on every tenth tick |
| Scheduler.Scheduler.TimerInterrupt | interrupts/isr.asm:129-159 | every tenth tick, and no other, another actor goes on: the machine returns through the very address handed over, or through the frame just pushed, and what lies there is the last saved continuation of the actor chosen; the table is the old one with the frame stored, and the invariant is kept |
| Scheduler.Scheduler.Land | kernel/switch.asm:112-118 | loading ESP from the EAX of a synthetic frame goes on from the last save of its task |
| Scheduler.Scheduler.YieldCheck | kernel/scheduler.c:317-331 | in a preemptive run a task always takes the way back to the paused main loop, with preemption off the cooperative one, and main in its own code always returns at once |
| Scheduler.Scheduler.YieldCommit | kernel/scheduler.c:327-343 | from cli on: the yielding one is saved behind its refreshed synthetic frame, and the return through the frame taken from main resumes main where it was paused, whatever interrupts came in between |
| Contexts.FramesSwitched | kernel/scheduler.c:232-295 | returning through the frame chosen after an interrupt resumes the latest continuation of its owner, and every stopped actor keeps such a frame |
| Contexts.FramesStay | interrupts/isr.asm:146-159 | returning through the frame just pushed lets the interrupted actor run on, before a landing too |
| Contexts.FrameConsumed | kernel/switch.asm:110-118 | no frame can be returned through twice unless it is refreshed |
| Contexts.Lands | kernel/switch.asm:112-118 | a landing keeps every save good, also after interrupts between the iret and the load of ESP |
| Contexts.FramesYielded | kernel/switch.asm:86-118 | so it is after a yield, which writes the saved stack pointer into the EAX slot of the synthetic frame and returns through the frame of main |
| Contexts.BalanceSwitched | kernel/scheduler.c:259-295 | main_to_task = irq_to_main + yield_to_main + (1 if main is paused), modulo 2^32, across an interrupt switch |
| Contexts.BalanceYielded | kernel/scheduler.c:333-341 | the same across a yield |
| Scheduler.Scheduler.Poll | kernel/scheduler.c:297-315 | without a pending switch nothing happens; with one, the cyclically next kernel task is current, none skipped, and its saved stack pointer is the one to switch to |
| Scheduler.Scheduler.Step | kernel/scheduler.c:232-347 | any step of any actor or the timer keeps the invariant and how far the counters differ, and poll dispatches nothing |
| Scheduler.Scheduler.Run | kernel/scheduler.c:232-347 | in every run, with interrupts anywhere, also between the tests and the cli of a yield and before a landing, flags, frames and visits stay in step; every expired quantum switches at once, so requests, candidates and preemptions keep their differences modulo 2^32 and nothing more is blocked; each step is what the machine does with the addresses it is given, goes on from a last save, and nothing is resumed twice |
| Contexts.SwitchLag | kernel/scheduler.c:259-295 | a switch counts once as request, candidate and preemption, so the differences stay, across wrap-around too |
| Gf128.RemainderUnique | drivers/net.c:394-408 | remainders modulo x^128 + x^7 + x^2 + x + 1 are unique, so the field product is well defined |
| Gf128.TimesIs | drivers/net.c:394-408 | the product is the one reduced polynomial congruent to the full product |
| Gf128.TimesComm | drivers/net.c:394-408 | the field product commutes |
| Gf128.TimesAddLeft | drivers/net.c:394-408 | it distributes over XOR on the left |
| Gf128.TimesAddRight | drivers/net.c:394-408 | it distributes over XOR on the right |
| Gf128.TimesUnit | drivers/net.c:394-408 | 1 is its unit and 0 annihilates |
| Gcm.GcmShiftRight | drivers/net.c:385-392 | the byte loop multiplies by x and drops the top coefficient |
| Gcm.GcmMulStep | drivers/net.c:399-406 | one pass keeps z = the product of the bits seen and v = h times x^i reduced |
| Gcm.GcmMul | drivers/net.c:394-408 | the in-place loop computes the product in GF(2)[x]/(x^128+x^7+x^2+x+1), bits in GCM order (section 6.3 of NIST SP 800-38D) |
| Gcm.GhashBlock | drivers/net.c:410-413 | y becomes (y + block) h |
| Gcm.NextCounts | drivers/net.c:447-450 | the byte-wise increment counts up by one modulo 2^32 and leaves the nonce alone |
| Gcm.IncrementCounter | drivers/net.c:447-450 | the in-place loop with its early exit is that increment |
| GcmSeal.CountersDiffer | drivers/net.c:433-451 | no two blocks of a message use the same counter block |
| GcmSeal.CtrTwice | drivers/net.c:433-451 | counter mode undoes itself |
| GcmSeal.TagUnique | drivers/net.c:453-462 | the equation for the tag has one solution |
| GcmSeal.Encrypt | drivers/net.c:415-462 | ciphertext is counter mode from counter 2, the tag solves the GHASH equation over padded data, ciphertext and lengths, up to 65520 bytes |
| GcmSeal.Decrypt | drivers/net.c:464-524 | accepts exactly the tag that encryption would make for this ciphertext; only then uncovers the text, otherwise the output buffer is untouched |
| GcmSeal.SameTag | drivers/net.c:502-504 | the branch-free comparison accepts exactly equal tags |
| GcmSeal.RoundTrip | drivers/net.c:415-524 | decrypting what encrypting made accepts and returns the plaintext, for every length up to 65520 |
| GcmSeal.LoopEnds | drivers/net.c:437 | the 16-bit offset ever reaches the length, and the loops end, if and only if the length is at most 65520 |
| Sha256.Context.Update | drivers/sha256.c:124-133 | the context holds the message so far, extended by the data |
| Sha256.Context.Take | drivers/sha256.c:126-132 | one byte more is absorbed, the block compressed when it is full |
| Sha256.Context.Final | drivers/sha256.c:135-151 | the digest of everything absorbed, in both padding cases |
| Sha256.Hash | drivers/sha256.c:153-158 | equals folding the compression function over the padded message, for every length (sections 5.1.1 and 6.2.2 of FIPS 180-4) |
| Sha256.HashPieces | drivers/sha256.c:124-151 | updates over consecutive pieces hash their concatenation |
| Sha256.AbsorbedUnique | drivers/sha256.c:124-133 | state, counters and buffered bytes are determined by the message alone, however it came in pieces |
| Sha256.DigestShort | drivers/sha256.c:135-151 | with room for mark and length one last block is compressed |
| Sha256.DigestLong | drivers/sha256.c:138-146 | without room two are, the length in a block of its own |
| Heap.Heap.constructor | memory/allocator.c:17-22 | one free block tiling the heap |
| Heap.Heap.FindBest | memory/allocator.c:28-41 | the first of the smallest free blocks that fit, or proof that none fits |
| Heap.Heap.Kmalloc | memory/allocator.c:24-60 | NULL iff the size is 0 or no free block fits; otherwise a best fit, split when the rest can hold a block; blocks tile the heap and no two neighbours are free |
| Heap.Heap.Coalesce | memory/allocator.c:67-78 | the in-place pass over the links produces the fully merged list |
| Heap.Heap.Kfree | memory/allocator.c:62-79 | takes back exactly the block of a live pointer and merges all free neighbours; NULL does nothing |
| Heap.BlocksDisjoint | memory/allocator.c:24-60 | blocks with their headers never overlap and lie in the heap |
| Heap.AllocatedUsed | memory/allocator.c:42-59 | exactly one more block is in use, at the place it was carved from |
| Heap.ReleasedUsed | memory/allocator.c:62-79 | exactly that block is no longer in use, all others where they were |
| Heap.AllReleased | memory/allocator.c:62-79 | with nothing in use the heap is the single initial block, in whatever order blocks came back |
| Heap.Run | memory/allocator.c:17-79 | any sequence of allocations and releases of live pointers keeps all this, and freeing everything restores the initial block |
| Pmm.BitEffect | memory/pmm.c:12-14 | setting or clearing a bit of a bitmap byte changes that bit alone |
| Pmm.Allocator.MarkUsed | memory/pmm.c:12 | one page joins the used set |
| Pmm.Allocator.MarkFree | memory/pmm.c:13 | one page leaves the used set |
| Pmm.Allocator.IsUsed | memory/pmm.c:14 | membership in the used set |
| Pmm.Allocator.constructor | memory/pmm.c:16-30 | the pages in use are exactly those below the kernel end and the VGA window, and used_count is their number |
| Pmm.Allocator.AllocPage | memory/pmm.c:32-41 | the lowest free page, now used; 0 and nothing changed when none is free, and with page 0 in use only then |
| Pmm.Allocator.FreePage | memory/pmm.c:43-49 | exactly that page leaves the used set, used_count with it; freeing a free or absent page does nothing |
| Paging.TableAdded | memory/paging.c:40-47 | a cleared table from a free frame under an absent directory entry changes no translation and shares no frame |
| Paging.EntryWritten | memory/paging.c:52-53 | the walk of the written page gives the new entry, every other page walks to where it did |
| Paging.UserAdded | memory/paging.c:48-50 | setting the user bit of a directory entry changes no walk |
| Paging.IdentityKept | memory/paging.c:37-54 | the identity map stays, so page tables stay reachable |
| Paging.Mapper.constructor | memory/paging.c:11-32 | the first 4 MiB map to themselves, nothing else is mapped |
| Paging.Mapper.AddTable | memory/paging.c:41-46 | a missing table is taken from the allocator without any walk changing, or nothing changes |
| Paging.Mapper.WriteEntry | memory/paging.c:51-52 | the entry of one page is written and only its walk changes |
| Paging.Mapper.Map | memory/paging.c:37-54 | the mapped page walks to frame and flags, every other page as before, one frame used iff a table was missing; without a free page nothing changes at all |
| Paging.Mapper.MapRange | memory/paging.c:56-62 | every page of the range that has a page table in the end maps to its frame; a page without one walks as before, and then no page is free; no page outside changes; with enough low frames every page is mapped |
| Paging.RangeEnds | memory/paging.c:56-62 | the 32-bit offset passes the size, and the loop ends, if and only if the size is at most 0xFFFFF000 |
| Editor.InsertAppends | drivers/text_editor.c:134-142 | typing appends the character to the string, if the line has room |
| Editor.BreakAppends | drivers/text_editor.c:144-151 | Enter appends a line break, if a row is left |
| Editor.EraseDrops | drivers/text_editor.c:153-172 | Backspace drops the last character of the string, line breaks included |
| Editor.EraseUndoes | drivers/text_editor.c:134-172 | Backspace undoes a keystroke that changed the text |
| Editor.TextBound | drivers/text_editor.c:89-114 | every document fits the save buffer |
| Editor.LoadedOk | drivers/text_editor.c:32-58 | loading always gives a document; uncut, its string is the bytes without those it ignores |
| Editor.LoadRoundTrip | drivers/text_editor.c:32-114 | loading the string of a document gives the document back: same rows, same cursor, nothing cut |
| Editor.Editor.InsertChar | drivers/text_editor.c:134-142 | the 2-D buffer and cursor follow the document |
| Editor.Editor.Newline | drivers/text_editor.c:144-151 | so for a line break |
| Editor.Editor.Backspace | drivers/text_editor.c:153-172 | so for backspace, the join with the row above included |
| Editor.Editor.JoinRow | drivers/text_editor.c:162-168 | the cursor goes to the end of the row above |
| Editor.Editor.LoadBytes | drivers/text_editor.c:32-58 | the rows, cursor and truncated flag are those of the loaded document, whatever the editor held before |
| Editor.Editor.LastRow | drivers/text_editor.c:90-96 | the first scan finds the row of the cursor: nothing below it is in use |
| Editor.Editor.CopyRow | drivers/text_editor.c:100-110 | one row is copied exactly, from its first cell to its last in use |
| Editor.Editor.BuildSaveBuffer | drivers/text_editor.c:89-114 | the buffer receives exactly the string of the document |
| Editor.HandleKey | drivers/text_editor.c:216-228 | every key is one step of the document |
| Editor.EditSaveLoad | drivers/text_editor.c:32-172 | load, any keys, save, load again: the saved bytes are the string, and rows and cursor come back |
| Line.HalfPixel | drivers/graphics.c:165-186 | every pixel satisfies twice the absolute value of b dx - a dy, at most max(dx, dy) |
| Line.OnLineUnique | drivers/graphics.c:165-186 | each step of a line is one pixel: ties are settled |
| Line.LineUnique | drivers/graphics.c:165-186 | so there is exactly one line between two points |
| Line.NextOnLine | drivers/graphics.c:176-184 | the two tests of the loop lead from one pixel of the line to the next, whatever the slope, past the end of neither axis |
| Line.Arrived | drivers/graphics.c:172-174 | both axes arrive at once, after max(dx, dy) steps and not before |
| Line.PixelsApart | drivers/graphics.c:156-163 | two pixels of the screen never share a byte |
| Line.PaintedAt | drivers/graphics.c:156-163 | a byte has the colour iff an on-screen pixel of the line is its own; all others are unchanged |
| Line.Screen.PutPixel | drivers/graphics.c:156-163 | one byte, or none when the pixel is off the screen |
| Line.Screen.DrawLine | drivers/graphics.c:165-186 | ends after exactly max(dx, dy) + 1 pixels, from endpoint to endpoint, having drawn the line and nothing else |

## Left out

- P-256: associativity of the group law, the order of the base point and ECDSA verification; the self-test and the byte export; primality of P and N is a hypothesis, not proved.
- Points.PointOnCurve: coordinates are required to be below P, as p256_point_from_be32 and the base point provide them; unreduced coordinates stand for no field element.
- Points.PointDouble: coordinates are required to be below P, as p256_point_from_be32 and the base point provide them; unreduced coordinates stand for no field element.
- Points.PointAdd: coordinates are required to be below P, as p256_point_from_be32 and the base point provide them; unreduced coordinates stand for no field element.
- Points.JacobianDouble: coordinates are required to be below P, as p256_point_from_be32 and the base point provide them; unreduced coordinates stand for no field element.
- Points.JacobianAddMixed: coordinates are required to be below P, as p256_point_from_be32 and the base point provide them; unreduced coordinates stand for no field element.
- Points.PointMulBe32: coordinates are required to be below P, as p256_point_from_be32 and the base point provide them; unreduced coordinates stand for no field element.
- Points.PointMulBe32Projective: coordinates are required to be below P, as p256_point_from_be32 and the base point provide them; unreduced coordinates stand for no field element.
- Points.PointMulU32: coordinates are required to be below P, as p256_point_from_be32 and the base point provide them; unreduced coordinates stand for no field element.
- FAT32: mounting and parsing of the boot sector, listing the root directory, ATA errors, NULL arguments and the "not mounted" answers; buffers read are returned as sequences.
- FAT32: subdirectories are only recognised (foreign clusters, `DirectoryNamed`), never entered or made, as in the source; long names are skipped, as there.
- FatOps.FsTruncateFile: no crash atomicity, since the chain is freed before the entry is rewritten; so for FsDeleteFile.
- FatWrite.FsWriteFile: overwriting a single cluster in place is not crash-atomic in the source, only the first write of an empty file is stated so.
- FatFs.FindRootEntryAt: find_root_entry, its twin without position outputs, is the same method here.
- FatHistory.Run: reads and opens are not among the calls, because they change no file.
- Scheduler: runs with one gate on alone, user-mode launches, fairness, names, entry functions and list callbacks.
- Scheduler.Scheduler.TimerInterrupt: registers and stack bytes are abstract; a frame is an address with the continuation it denotes. The IRQ statistics kept per frame are the counter alone.
- Scheduler.Scheduler.Start: with a switch already pending, the next poll would make it cooperatively with preemption on, a mode not followed here; neither is the time between the two gates if ticks come in it.
- Scheduler.Scheduler.Stop: what a run does after preemption was switched off while a task was stopped by an interrupt, beyond that this task cannot be returned to.
- Scheduler.Scheduler.CoopPoll: a poll before main is registered, which would save through slot -1; the source polls only in the desktop loop, after registration.
- GCM: the AES block cipher itself and everything of TLS around it.
- GcmSeal.Encrypt: lengths above 65520, on which the loops do not end.
- SHA-256: the compression rounds; messages of 2^61 bytes and more have their length modulo 2^64, as in the code.
- Heap: headers lie beside the payloads as a map, so writes by clients that run over a header are outside the model, as is the 32-bit wrap of sizes near 2^32, which no block reaches.
- Heap.Heap.Kfree: a pointer that is not live is outside the contract, as the source does not check it.
- Paging: CR3, CR0, TLB invalidation and the effect of the mapping on running code.
- Paging.Mapper.Map: a new table must come from the identity-mapped 4 MiB while any page is free, and a page below 4 MiB must keep its identity frame; the first is the condition of the source's own comment, and without the second page tables could become unreachable to the code that writes them.
- Paging.Mapper.AddTable: the same condition on new tables.
- Paging.Mapper.WriteEntry: the same condition on low pages.
- Paging.EntryWritten: the same condition on low pages.
- Paging.Mapper.MapRange: the same conditions, where the first holds throughout if there are low frames for all tables still missing, or if no frame above 4 MiB is free.
- Editor: file names, the dirty flag, status lines, rendering, windows, and the file-system calls around load and save; a NUL byte inside a row cannot occur, since only printable characters are stored.
- Editor.HandleKey: Escape, which saves, changes no text and is not followed into the file system; a minimised window ignores keys, here the window is open.
- Line: rectangles, text and clipping to windows; graphics_mode is a value that does not change.
- Line.Screen.DrawLine: lines longer than 2^31 / 3, on which e2 would overflow.
- Desktop, network stack, device drivers, shell: user interface and device access without such properties.
