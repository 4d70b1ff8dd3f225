# Verified model of the wave32 emulator and its gates

A Dafny model of the host-side emulator for gfx1030/gfx1100 wave32 GPU code, of the workgroup driver
around it, and of the identity, recording and metadata tools beside it.  `dafny verify dfyconfig.toml`
checks everything.

Every machine is described twice where the program updates state in place: as a function of values, on
which the theorems are proved, and as classes and loops in the program's own form, each proved to compute
that function.

| file | what it covers |
|---|---|
| words.dfy, isa.dfy, powers.dfy | 32-bit words, lane masks, decoded instructions, powers of two |
| core_spec.dfy, emulator_core.dfy | one step of a wave: as a function, and as the `WaveCore` object |
| simt.dfy | masked execution of the compiled if/else idiom is per-lane execution |
| entry_registers.dfy, fail_closed.dfy | descriptor placement, undefined SGPRs, and why they cannot be observed |
| cycle_detect.dfy, cycle_spurious.dfy | what a reported cycle means, and a program it is wrong about |
| lds_model.dfy | the three LDS address rules and the out-of-range recorder |
| byte_memory.dfy | byte- and dword-keyed memory with synthesised regions as a flat array |
| workgroup.dfy, workgroup_safety.dfy, workgroup_relational.dfy, workgroup_driver.dfy | the round-robin driver: rounds, invariants, termination, outcomes, two-run theorems, and the driver object |
| barrier_probe.dfy | the eight-wave barrier probe under every interleaving |
| rounding.dfy, rounding_laws.dfy, fused_multiply_add.dfy, half_precision.dfy | exact rounding to binary32, FMA, conversion to binary16 |
| soft_wmma.dfy | the lane-distributed matrix fragment and the staged tile |
| sha256.dfy, hexadecimal.dfy, bundle_identity.dfy | both SHA-256 implementations, and the bundle decision that uses one |
| msgpack.dfy | MessagePack and ELF-note decoding |
| tallies.dfy, recorders.dfy, global_gate.dfy | bounded recorders and the declared-region gate |
| pc_relative.dfy | static PC-relative targets against the emulated registers |

## Where the code does less than it promises

Each of these is proved by a concrete input and, except for the first, by the exact condition under which the
code is right, for all inputs.

- A reported CYCLE is wrong for a loop that counts in LDS, which the state signature omits
  (`CycleSpurious.SpuriousCycle`).  It is right whenever LDS was the same at both samples, in particular for
  every program without LDS stores (`CycleDetect.CycleIsSound`, `CycleDetect.CycleIsRealWithoutStores`); that
  condition is sufficient, not necessary.
- Releasing a barrier overwrites the fault state it has just set, so a run can be labelled a success with
  a recorded fault (`WorkgroupSafety.SuccessWithFault`).  Over a run, faults show exactly as long as no round
  releases a wave at a barrier without a handler (`WorkgroupSafety.FaultsShowExactlyWhen`).  A program all of
  whose barriers have handlers never does (`WorkgroupSafety.ImplementedNeverReleases`); that is sufficient,
  not necessary (`WorkgroupSafety.UnreachedBarrierIsHarmless`).
- The out-of-range recorder counts by the address test, before the instruction runs.  Under the legacy rule
  that test ends at 16 KiB whatever is allocated, so with less allocated an access can be cut off uncounted
  (`LdsModel.LegacyStoreVanishes`); and a two-address load can overwrite the register its second address comes
  from (`LdsModel.Miscounted`).  For the forms the assembler prints it is exact if and only if at least 16 KiB are
  allocated under the legacy rule and the load does not overwrite its address register, or no 8-byte access is
  ever in range (`LdsModel.PrintedFormsCount`); `LdsModel.CountsExactlyWhen` is the condition for all operands.
- System SGPRs overwrite enabled preloads that do not fit the declared count
  (`EntryRegisters.PreloadOverwritten`, `EntryRegisters.DisjointExactlyWhen`).
- A store that ends inside a dword whose base it covers zeroes the bytes above it when they have no key of
  their own (`ByteMemory.UpperByteIsLost`, `ByteMemory.RefinesExactlyWhen`).
- Bytes stored past 2^64 are lost (`ByteMemory.WrapLosesBytes`, `ByteMemory.WrappedBytesAreLost`,
  `ByteMemory.ReadBackExactlyWhen`).
- `fma_f32_bits` differs from the standard for infinity times zero and for the sum of two negative zeros,
  and nowhere else (`FusedMultiplyAdd.InfinityTimesZeroIsWrong`, `FusedMultiplyAdd.NegativeZerosAreWrong`,
  `FusedMultiplyAdd.FmaExactlyWhen`).
- `f32_bits_to_f16` rounds normal results three bits too low and then truncates
  (`HalfPrecision.RoundsTooLow`, `HalfPrecision.NearestExactlyWhen`).
- `find_sites` documents that it compares registers; it does not (`PcRelative.RegistersAreNotCompared`).
  Its targets are the emulated ones unless a negative low literal fails to borrow, or the pair was undefined:
  `s_getpc_b64` writes it without marking it as defined (`PcRelative.BackwardTargetDiffers`,
  `PcRelative.UndefinedPairHalts`, `PcRelative.TargetExactlyWhen`).

## Model

| member | source | states |
|---|---|---|
| Simt.MaskedIsPerLane | src/emulator/emu.py:575-614 | for every nesting of the if/else idiom over lane-local vector code, running the emitted instructions restores EXEC, leaves memory, VCC, SCC and all non-save scalars alone, and gives each active lane what it gets when it alone takes the arms its own predicates choose; inactive lanes are untouched |
| Simt.EmittedIsLaid | src/emulator/emu.py:593-607 | the instruction list the idiom compiles to is the layout the theorem is about, with every branch target right, with or without the EXECZ skips |
| Simt.JoinRestores | src/emulator/emu.py:599-605 | EXEC OR the saved other arm is EXEC as it was before the conditional |
| Simt.OtherArmBits | src/emulator/emu.py:599-605 | the lanes of the else arm are exactly the active lanes the predicate turned off |
| Simt.VectorStep | src/emulator/emu.py:785-791 | one masked vector instruction computes, on each active lane, that lane's own operation |
| Simt.NarrowStep | src/emulator/emu.py:923-944 | v_cmpx leaves in EXEC exactly the active lanes on which the comparison holds |
| Simt.Induct | src/emulator/emu.py:575-614 | the same theorem with nested conditionals, by structure of the code |
| FailClosed.StepAgrees | src/emulator/emu.py:355-442 | one instruction on two cores that differ only in undefined SGPRs: same signal, same memory, and they still differ only there |
| FailClosed.RunsAgree | src/emulator/emu.py:382-385 | two whole runs from states that differ only in undefined SGPRs come back the same way after any number of steps with the same memory |
| FailClosed.LoadAgrees | src/emulator/emu.py:706-724 | a scalar load cannot tell the two apart either, and defines its destination in both |
| FailClosed.PairAgrees | src/emulator/emu.py:419-430 | a 64-bit pair read is refused or gives the same value in both |
| FailClosed.BaseAgrees | src/emulator/p14d8_core.py:315-333 | so is the scalar base of a global address |
| EntryRegisters.EntryPlan | src/emulator/p14d8_core.py:51-67 | the plan derived from the descriptor words places every enabled preload and system value where the placement rules say |
| EntryRegisters.Decode | src/emulator/p14d_dec.py:72-92 | exactly the rows of the order table whose enable bit is set, in table order |
| EntryRegisters.Place | src/emulator/p14d_dec.py:96-115 | consecutive placement: each range starts where the spans before it end |
| EntryRegisters.Tiles | src/emulator/p14d_dec.py:96-115 | placed ranges tile their registers: none missed, none shared |
| EntryRegisters.Layout | src/emulator/p14d8_core.py:51-67 | preloads cover [0, next), system values start at the declared count, the gap lies between and meets neither, all below s20 |
| EntryRegisters.DisjointExactlyWhen | src/emulator/p14d_dec.py:96-115 | no system value overwrites a preload if and only if the preloads fit the declared count or no system value is enabled |
| EntryRegisters.PreloadOverwritten | src/emulator/p14d_dec.py:96-115 | descriptor words for which the kernarg pointer and a workgroup id both take register 0 |
| EntryRegisters.FillRanges | src/emulator/p14d8_core.py:92-129 | every filled register holds its dword, all others are as before; stops exactly at the first preload without a value |
| EntryRegisters.FillEntry | src/emulator/p14d8_core.py:86-136 | the filled core: system values, preloads not overwritten, everything else unchanged; the gap and nothing else becomes undefined; fails exactly when a needed pointer is missing |
| EntryRegisters.EntriesAgree | src/emulator/p14d8_core.py:132-136 | cores entered through one plan agree up to undefined registers whatever the gap held, so the two-run theorems apply to them |
| EntryRegisters.SystemSupplied | src/emulator/p14d8_core.py:112-124 | every system value the tables can enable has a value |
| CycleDetect.CycleIsSound | src/emulator/emu.py:495-517 | a CYCLE means an earlier sample had the same control state, registers and memory, and when LDS was the same too, the wave with detection off never ends, halts or faults |
| CycleDetect.CycleIsRealWithoutStores | src/emulator/emu.py:495-517 | for a program without LDS stores a CYCLE is always a run that goes on forever |
| CycleDetect.UndefShrinks | src/emulator/emu.py:382-385 | no step makes a register undefined again, so a shrinking undefined set cannot break the cycle argument |
| CycleDetect.DispatchCovers | src/emulator/emu.py:355-442 | a core that refuses fewer registers does whatever one that refuses more does when it is not refused |
| CycleDetect.TableKept | src/emulator/emu.py:495-517 | everything in the cycle tables was the state at some earlier sampled step of this run |
| CycleDetect.RecurringRunsForever | src/emulator/emu.py:487-530 | a state that comes back to itself runs forever |
| CycleDetect.StaysSilent | src/emulator/p14eh.py:532-534 | with the never-containing tables installed, no step ever samples |
| CycleSpurious.SpuriousCycle | src/emulator/emu.py:342-352 | a loop that counts in LDS is stopped as a cycle at step 512 although it ends after 768 steps |
| CycleSpurious.StartExists | src/emulator/emu.py:342-352 | such a start state exists |
| LdsModel.RunsCoincide | src/emulator/p14eh.py:248-267 | with at most 16 KiB allocated, if every access of the untruncated run is in range, the legacy and 16-bit runs are the same run, state for state |
| LdsModel.WaveCoincides | src/emulator/p14eh.py:327-348 | the same for one instruction over all lanes |
| LdsModel.LargeAllocationDiffers | src/emulator/p14eh.py:257-266 | the bound on the allocation is needed |
| LdsModel.CountsAgree | src/emulator/p14eh.py:269-313 | under the condition below, the out-of-range counts taken before the step are the loads of which a byte is then read as zero and the stores of which a byte is then dropped, over all lanes |
| LdsModel.CountsExactlyWhen | src/emulator/p14eh.py:257-525 | for every address rule, allocation and instruction: the counts are right on every wave and image if and only if the address test covers the allocation, the address register is not overwritten unless nothing can be in range, and what is refused is zeroed |
| LdsModel.Miscounted | src/emulator/p14eh.py:257-525 | in every other case a wave with one active lane whose counts are wrong |
| LdsModel.PrintedFormsCount | src/emulator/p14eh.py:257-525 | for operands that hold exactly the bytes of the access: legacy needs 16 KiB allocated, and the address register must not be overwritten unless fewer than 8 bytes can be in range |
| LdsModel.LegacyStoreVanishes | src/emulator/p14eh.py:362-391 | with 15872 bytes allocated, a legacy store at 16000 changes nothing, a load there reads zero, and neither is counted |
| LdsModel.DroppedExactlyWhen | src/emulator/p14eh.py:362-385 | a store counts as dropped if and only if some byte of it can be missing from the image afterwards |
| LdsModel.ZeroedExactlyWhen | src/emulator/p14eh.py:387-402 | a load counts as zeroed if and only if some byte that lands in its destination can differ from the image |
| LdsModel.StoreThenLoad | src/emulator/p14eh.py:362-402 | whole registers stored inside the allocation are loaded back unchanged under every address rule |
| LdsModel.ImageReadBack | src/emulator/p14eh.py:380-391 | the image holds the stored bytes and is unchanged elsewhere |
| EmulatorCore.WaveCore.SSet | src/emulator/emu.py:393-417 | the whole new state of a scalar write, and which operands are not destinations |
| EmulatorCore.WaveCore.Add | src/emulator/emu.py:625-638 | add with carry in and SCC out, as the step function has it |
| EmulatorCore.WaveCore.SaveExecInto | src/emulator/emu.py:575-614 | old EXEC to the destination, the new mask to EXEC |
| EmulatorCore.WaveCore.LoadScalar | src/emulator/emu.py:706-724 | dwords to consecutive registers, which become defined |
| EmulatorCore.WaveCore.VectorBinary | src/emulator/emu.py:785-791 | the lane loop computes every active lane and stops at the first refused operand with nothing written |
| EmulatorCore.WaveCore.CompareLanes | src/emulator/emu.py:889-899 | the mask loop collects exactly the active lanes on which the comparison holds |
| EmulatorCore.WaveCore.VectorCompareExec | src/emulator/emu.py:923-944 | the mask becomes EXEC |
| EmulatorCore.WaveCore.Permute | src/emulator/emu.py:1304-1334 | every source lane is read before any destination is written |
| EmulatorCore.WaveCore.LdsWrite | src/emulator/p14eh.py:362-385 | the nested byte loop stores exactly the little-endian bytes below the allocation, in place |
| EmulatorCore.WaveCore.LdsRead | src/emulator/p14eh.py:387-391 | bytes past the allocation read as zero |
| EmulatorCore.WaveCore.DsLane | src/emulator/p14eh.py:327-402 | one lane's share of a DS instruction, in place |
| EmulatorCore.WaveCore.LoadHalf | src/emulator/p14eh.py:516-525 | half j of a two-address load fills or zeroes its register pair only when both registers fit |
| EmulatorCore.WaveCore.Transfer | src/emulator/p14eh.py:466-499 | all active lanes in lane order, each seeing the stores of the lanes before it |
| EmulatorCore.WaveCore.RecordDs | src/emulator/p14eh.py:269-313 | the recorder's three counters grow by exactly the counts of the instruction |
| EmulatorCore.WaveCore.GlobalLoadInto | src/emulator/p14d8_core.py:335-358 | one lane's bytes assembled, sign-filled and spread over the destination registers |
| EmulatorCore.WaveCore.GlobalStoreFrom | src/emulator/p14d8_core.py:360-381 | one lane's bytes stored one key each |
| EmulatorCore.WaveCore.GlobalAccess | src/emulator/p14d8_core.py:315-381 | a global load or store in its three address forms, refused with nothing changed when an active lane needs an undefined base |
| EmulatorCore.WaveCore.Sample | src/emulator/emu.py:494-517 | the lookup and filing of the sampled state |
| EmulatorCore.WaveCore.BaseStep | src/emulator/emu.py:487-530 | one call of step() on the object is the step function |
| EmulatorCore.WaveCore.Step | src/emulator/p14d11_emu.py:153-165 | recording does not change the step, and counts it |
| ByteMemory.RefinesExactlyWhen | src/emulator/p14d8_core.py:360-381 | a store refines an update of the flat byte array if and only if no nonzero unkeyed byte sits above it in a dword whose base it covers |
| ByteMemory.StoredByte | src/emulator/emu.py:736-774 | every byte after a store: as stored, as before, or zero where the new key shadows it |
| ByteMemory.ReadBack | src/emulator/emu.py:776-782 | what was stored is read back whatever keys were there |
| ByteMemory.PatternIsLost | tools/p16j_input.py:72-115 | over synthesised bytes a partial-dword store from the base on always destroys a byte |
| ByteMemory.WrappedBytesAreLost | src/emulator/p14d8_core.py:376-380 | no load can tell a store that runs past 2^64 from the store of its bytes below 2^64 |
| ByteMemory.ReadBackExactlyWhen | src/emulator/p14d8_core.py:335-381 | a lane's store is read back at its own address if and only if every byte past 2^64 is what the wrapped address already held |
| ByteMemory.WrapLosesBytes | src/emulator/p14d8_core.py:376-380 | a two-byte store at the last address: its second byte is not read back |
| ByteMemory.UpperByteIsLost | src/emulator/emu.py:736-774 | one byte stored over a dword entry: the byte above it reads as zero |
| ByteMemory.StoreThenLoad | src/emulator/p14d8_core.py:335-381 | two steps of the interpreter: registers stored to global memory are loaded back from the same address in every active lane whose bytes no later lane overwrites |
| ByteMemory.HighestLaneWins | src/emulator/p14d8_core.py:360-381 | where lanes overlap, the highest active lane's byte remains |
| ByteMemory.UntouchedExactlyWhen | src/emulator/p14d8_core.py:360-381 | a byte no lane stores keeps its value if and only if it has its own key, is zero, or its base is not stored |
| ByteMemory.InstructionStores | src/emulator/p14d8_core.py:360-381 | the interpreter's store instruction is such a wave store |
| ByteMemory.PlainMemory | src/emulator/emu.py:736-774 | without regions this is the interpreter's memory |
| ByteMemory.GeneratedNonzero | tools/p16j_input.py:36-69 | neither generator ever gives a zero byte |
| ByteMemory.PatternMem.Read | tools/p16j_input.py:86-115 | a read gives the flat byte and counts it only when it was synthesised |
| ByteMemory.PatternMem.Write | tools/p16j_input.py:72-78 | writes go to the real entries, one key per byte |
| WorkgroupSafety.RoundKeeps | src/emulator/p14eh.py:621-704 | every round keeps the barrier invariant: runnable waves have passed exactly the completed epochs, waiting waves stand one arrival ahead at their barrier, gone waves passed a prefix |
| WorkgroupSafety.NoWavePassesEarly | src/emulator/p14eh.py:635-704 | at every point of every run, no wave is past barrier k unless every alive wave has arrived there at the same site |
| WorkgroupSafety.RoundLeavesPoised | src/emulator/p14eh.py:688-704 | a round that goes on leaves an alive wave that can run |
| WorkgroupSafety.RoundLowers | src/emulator/p14eh.py:621-704 | a round that goes on uses up potential: steps below the cap, then distance to the program end, then state |
| WorkgroupSafety.EveryRunEnds | src/emulator/p14eh.py:621-704 | every run ends without a round cap, within W * ((cap + 2) * (2 L + 2)) + 1 rounds |
| WorkgroupSafety.TicksBounded | src/emulator/p14eh.py:621-704 | the number of rounds is bounded by the potential of any reachable group |
| WorkgroupSafety.RunIsTruthful | src/emulator/p14eh.py:664-686 | the label of every run is true: success is exactly a non-empty group all of whose waves ended, the DEADLOCK arm at the end is unreachable |
| WorkgroupSafety.DivergenceIsReal | src/emulator/p14eh.py:689-695 | a divergence names two alive waves that reached different sites for the same epoch |
| WorkgroupSafety.BarrierStep | src/emulator/emu.py:1916 | a released barrier only moves the wave past itself |
| WorkgroupSafety.FaultsShowExactlyWhen | src/emulator/p14eh.py:697-704 | over n rounds from the driver's start, every recorded fault shows in its wave's state at every point if and only if no round released an alive wave standing at a barrier without a handler |
| WorkgroupSafety.RoundShowsExactlyWhen | src/emulator/p14eh.py:621-704 | the same for one round: a round hides a fault if and only if it makes such a release |
| WorkgroupSafety.ImplementedNeverReleases | src/emulator/p14eh.py:697-704 | a program all of whose barriers have handlers never makes such a release |
| WorkgroupSafety.UnreachedBarrierIsHarmless | src/emulator/p14eh.py:621-704 | a program with a barrier without a handler, never reached, whose faults all show after any number of rounds |
| WorkgroupSafety.SuccessWithFault | src/emulator/p14eh.py:697-704 | a program whose run from the driver's start is labelled a success although a fault was recorded |
| WorkgroupRelational.GroupsAgree | src/emulator/p14eh.py:585-704 | two workgroups that differ only in undefined SGPRs take as many rounds, end with the same outcome, barrier history and memory |
| WorkgroupRelational.GroupsCoincide | src/emulator/p14eh.py:248-267 | if no access of the untruncated workgroup run is out of range, the other two rules give that very run |
| WorkgroupDriver.Driver.constructor | src/emulator/p14eh.py:593-611 | fresh waves at instruction 0 with every lane active, zeroed shared LDS, detection off |
| WorkgroupDriver.WaveRecord.Turn | src/emulator/p14eh.py:627-663 | one wave's turn, with every fault and the step cap |
| WorkgroupDriver.WaveRecord.Release | src/emulator/p14eh.py:697-704 | the release of one wave |
| WorkgroupDriver.Driver.TakeTurns | src/emulator/p14eh.py:626-663 | the pass over the waves in order |
| WorkgroupDriver.Driver.Decide | src/emulator/p14eh.py:664-686 | the final decision |
| WorkgroupDriver.Driver.Round | src/emulator/p14eh.py:621-704 | one pass of the loop body |
| WorkgroupDriver.Driver.Run | src/emulator/p14eh.py:621-704 | the driver under a cap: the uncapped run when it fits, otherwise ROUNDCAP after exactly that many rounds |
| WorkgroupDriver.OneSite | src/emulator/p14eh.py:689-696 | the set of last sites is a singleton exactly when the alive waves agree |
| BarrierProbe.NoMismatch | src/harness/p14ei_a_host.cpp:42-68 | under every schedule, for any number of phases and any initial buffer, no thread counts a mismatch |
| BarrierProbe.ReadIsCurrent | src/harness/p14ei_a_host.cpp:57-62 | a checking thread sees the current phase's pattern |
| BarrierProbe.NeverStuck | src/harness/p14ei_a_host.cpp:54-63 | until every thread has finished, some thread can move |
| BarrierProbe.MovesAreWork | src/harness/p14ei_a_host.cpp:42-68 | every move is one unit of work, so no schedule can move forever |
| BarrierProbe.FinishedExactlyWhen | src/harness/p14ei_a_host.cpp:42-68 | after any schedule the probe has finished if and only if 5120 of its steps per phase were moves, and no schedule has more |
| BarrierProbe.CanFinish | src/harness/p14ei_a_host.cpp:42-68 | any schedule can be continued to one that finishes |
| BarrierProbe.Group.StepThread | src/harness/p14ei_a_host.cpp:49-64 | a thread's next action on the shared buffer in place |
| Rounding.RoundsToNearest | src/emulator/emu.py:165-218 | for every positive rational the packed magnitude is roundTiesToEven of section 4.3.1 of IEEE 754-2019: subnormals, the carry into the least normal and rounding up to infinity included |
| Rounding.ExponentIs | src/emulator/emu.py:189-192 | the settled exponent is floor(log2) of the rational |
| Rounding.NormalIsNearest | src/emulator/emu.py:196-207 | at a normal exponent the 24-bit rounding gives the nearest pattern, the carry to 2^24 included |
| Rounding.CarriesUp | src/emulator/emu.py:204-218 | just below the least normal, the early carry agrees with the subnormal grid |
| Rounding.Overflows | src/emulator/emu.py:195-196 | every rational of exponent above 127 rounds to infinity |
| RoundingLaws.NearestUnique | src/emulator/emu.py:165-218 | equal rationals round alike: the reference determines the result |
| RoundingLaws.NearestIsClosest | src/emulator/emu.py:165-218 | no other pattern is closer to the rational |
| RoundingLaws.RoundingMonotone | src/emulator/emu.py:165-218 | rounding keeps the order of all rationals, negative ones included |
| RoundingLaws.RoundingSymmetric | src/emulator/emu.py:184-187 | rounding commutes with negation |
| RoundingLaws.ExactIsScale | src/emulator/emu.py:261-274 | the exact reading of a pattern is its scaled value |
| RoundingLaws.RoundTrip | src/emulator/emu.py:261-274 | rounding the exact value of a finite nonzero pattern gives the pattern back |
| FusedMultiplyAdd.FmaExactlyWhen | src/emulator/emu.py:221-258 | for all inputs the result is that of fusedMultiplyAdd (section 5.4.1 of IEEE 754-2019) unless an infinity meets a zero or both summands are negative zeros |
| FusedMultiplyAdd.InfinityTimesZeroIsWrong | src/emulator/emu.py:221-258 | infinity * 0 + 1 gives infinity where the standard has a NaN |
| FusedMultiplyAdd.NegativeZerosAreWrong | src/emulator/emu.py:184-187 | (-0) * 1 + (-0) gives +0 where the standard has -0 |
| FusedMultiplyAdd.OneRounding | src/emulator/emu.py:255-258 | a nonzero exact a*b+c of finite operands is rounded once |
| FusedMultiplyAdd.ZeroResult | src/emulator/emu.py:184-187 | an exact zero is always +0 |
| FusedMultiplyAdd.FmaCommutes | src/emulator/emu.py:221-258 | the factors can be exchanged, whatever they are |
| FusedMultiplyAdd.FmaMonotone | src/emulator/emu.py:221-258 | a larger addend never gives a smaller result |
| HalfPrecision.NearestExactlyWhen | src/emulator/emu.py:97-147 | for every pattern that is not NaN the converted pattern keeps the sign and is ties-to-even if and only if the result is not normal or the 13 dropped bits round as ten would |
| HalfPrecision.ConversionIsNeighbour | src/emulator/emu.py:97-147 | the converted pattern keeps the sign and is the value or one of its two neighbours |
| HalfPrecision.ConversionMonotone | src/emulator/emu.py:97-147 | the order of all patterns that are not NaN is kept |
| HalfPrecision.ConversionIsIdentity | src/emulator/emu.py:68-82 | a magnitude with a binary16 value converts to that value's pattern |
| HalfPrecision.WidenAndBack | src/emulator/emu.py:68-147 | converting back what f16_to_f32 gave is the identity on every 16-bit pattern, signed zeros and infinities included; the NaNs become one quiet NaN |
| HalfPrecision.WidenIsScale | src/emulator/emu.py:68-82 | the widening formula gives the value of the 16-bit pattern |
| HalfPrecision.SubnormalForm | src/emulator/emu.py:138-147 | a subnormal result is the value rounded on the 2^-24 grid |
| HalfPrecision.NormalForm | src/emulator/emu.py:119-135 | a normal result is the significand plus 512, cut off at 13 bits |
| HalfPrecision.SubnormalCarries | src/emulator/emu.py:138-147 | the largest subnormal results carry to 0x400 |
| HalfPrecision.RoundsTooLow | src/emulator/emu.py:124-135 | an input whose conversion is not the nearest value |
| SoftWmma.Fragment | src/harness/p14ei_b_host.cpp:56-74 | for operands, accumulators and a dot instruction of any kind: every element is its row and its lane's column folded in order |
| SoftWmma.FragmentLane | src/harness/p14ei_b_host.cpp:61-73 | lane and register r fold row 2r + parity of A against the lane's column, for any dot instruction |
| SoftWmma.FragmentIsProduct | src/harness/p14ei_b_host.cpp:51-74 | in exact arithmetic, with replicated columns, that is C + A * B |
| SoftWmma.ShuffleIsPermute | src/emulator/emu.py:1304-1334 | the gather is the interpreter's ds_bpermute with four times the source lane as address |
| SoftWmma.OwnershipIsBijective | src/harness/p14ei_b_host.cpp:51-74 | every output element has exactly one lane and register |
| SoftWmma.Chain | src/harness/p14ei_b_host.cpp:100-112 | chained fragments are one long fold per element, for any dot instruction |
| SoftWmma.ChainIsSum | src/harness/p14ei_b_host.cpp:100-112 | in exact arithmetic, the sum of the products onto the seed |
| SoftWmma.Stage | tests/soft_wmma_test.cpp:53-57 | staging by all lanes in any order converts the tile element by element; each cell belongs to one lane |
| SoftWmma.TileKernel | tests/soft_wmma_test.cpp:41-85 | with its lanes in any order, every cell is its row and column of the converted tiles folded in order, for any dot instruction and conversion |
| SoftWmma.TileIsProduct | tests/soft_wmma_test.cpp:66-78 | in exact arithmetic a cell of the kernel is the cell of the matrix product |
| SoftWmma.OneOwner | tests/soft_wmma_test.cpp:59-84 | every output cell has exactly one owning lane |
| SoftWmma.Reference | tests/soft_wmma_test.cpp:87-99 | the host loop is the single-step fold per cell, whatever multiply and add round to |
| SoftWmma.HostIsProduct | tests/soft_wmma_test.cpp:87-99 | in exact arithmetic it is the same cell of the matrix product |
| Sha256Code.Block | src/harness/p16j_sha256.h:36-61 | the block function is the compression of section 6.2.2 of FIPS 180-4 |
| Sha256Code.Context.constructor | src/harness/p16j_sha256.h:63-69 | the initial hash value, nothing fed |
| Sha256Code.Context.Update | src/harness/p16j_sha256.h:71-80 | any chunk extends the message; the state is the fold of the complete blocks and the buffer holds the rest |
| Sha256Code.Context.Finish | src/harness/p16j_sha256.h:82-109 | the lower-case hexadecimal digest of exactly the bytes fed, padded as in section 5.1.1 |
| Sha256Code.HashChunks | src/harness/p16j_sha256.h:71-116 | any split of a message into updates gives the hexadecimal digest of the message |
| Sha256Code.OneShot | src/bridge/registry_ident.cpp:37-95 | the one-shot function gives the same digest |
| Sha256Code.Tail | src/bridge/registry_ident.cpp:43-58 | remainder, one bit, zeros and bit count, never past 128 bytes |
| Sha256.FoldPrefix | src/harness/p16j_sha256.h:36-61 | the state after n blocks depends on those blocks only |
| BundleIdentity.Identify | src/bridge/registry_ident.cpp:121-220 | kMatch if and only if magic, version, entry table, kinds, spans and content hash are those of the upstream bundle; all indices below the cap, and the loop ends |
| BundleIdentity.ReadTable | src/bridge/registry_ident.cpp:141-197 | the loop rejects exactly the tables that cannot belong to it, and otherwise has read the whole table |
| BundleIdentity.RecognisedHasFiveEntries | src/bridge/registry_ident.cpp:198-208 | a recognised bundle has exactly five entries |
| BundleIdentity.Classify | src/bridge/registry_ident.cpp:172-195 | an id is refused exactly when it is unknown, a non-empty host entry or a repeated architecture |
| BundleIdentity.FindArch | src/bridge/registry_ident.cpp:180-192 | the search finds the architecture a C string names |
| BundleIdentity.HexEq | src/bridge/registry_ident.cpp:106-117 | true exactly for the lower-case hexadecimal form, never reading past the terminator |
| MsgPack.RoundTrip | tools/p16g_msgpack.py:20-109 | decoding inverts every legal encoding of every value, with any bytes around it, and returns the exact end |
| MsgPack.EveryValueIsWritten | tools/p16g_msgpack.py:20-109 | every supported value has such an encoding |
| MsgPack.Unpack | tools/p16g_msgpack.py:20-92 | the offset strictly grows, which is why decoding ends |
| MsgPack.PairsRoundTrip | tools/p16g_msgpack.py:103-109 | distinct keys come back as pairs in order |
| MsgPack.SignedBack2 | tools/p16g_msgpack.py:63-70 | two's complement in any width gives the number back |
| MsgPack.NumOfBigEndian | tools/p16g_msgpack.py:16-17 | big-endian digits give the number back |
| MsgPack.Decode | tools/p16g_msgpack.py:20-92 | the recursive decoder, errors included, is the function |
| MsgPack.DecodeArr | tools/p16g_msgpack.py:95-100 | the list loop |
| MsgPack.DecodeMap | tools/p16g_msgpack.py:103-109 | the dictionary loop, an equal key keeping its place |
| ElfNotes.NotesRoundTrip | tools/p16g_msgpack.py:112-124 | parsing inverts writing any list of padded notes |
| ElfNotes.ParseNotes | tools/p16g_msgpack.py:112-124 | the loop over the section |
| Recorders.AccessRecorder.Append | src/emulator/p16k_recorder.py:200-244 | totals describe the whole history whatever is kept; what is kept is exact for each mode; a full trace over budget is refused and changes nothing |
| Recorders.AccessRecorder.constructor | src/emulator/p16k_recorder.py:178-197 | an empty recorder |
| Recorders.TotalsAgree | src/emulator/p16k_recorder.py:200-244 | reads plus writes, per-PC sums and kept plus dropped all equal the number of events |
| Recorders.EverySiteSampled | src/emulator/p16k_recorder.py:231-236 | under aggregation every site has a kept record |
| Recorders.BoundsHold | src/emulator/p16k_recorder.py:218-222 | the address bounds hold of every event |
| Recorders.AggRecords.Append | src/emulator/p14eh.py:154-159 | exact count, and the sample is the first records up to the cap |
| Recorders.DroppedExactly | src/emulator/p14eh.py:173-175 | exactly the excess over the cap is dropped |
| GlobalGate.OkExactlyWhen | src/isa/p16h_global_gate.py:166-169 | the gate passes if and only if every access had a known width and lay wholly in one of the regions declared by then, under any record cap |
| GlobalGate.OkInFinalRegions | src/isa/p16h_global_gate.py:132-169 | a passing gate puts every access inside one of the final regions; when all are declared first, that is exactly what passing means |
| GlobalGate.BreakdownAddsUp | src/isa/p16h_global_gate.py:139-164 | per-site and per-wave counts and retained plus dropped records all equal the total |
| GlobalGate.Gate.Locate | src/isa/p16h_global_gate.py:132-137 | the first region that wholly contains the bytes |
| GlobalGate.Gate.Note | src/isa/p16h_global_gate.py:139-164 | the accounting of one access |
| GlobalGate.Gate.OnAccess | src/isa/p16h_global_gate.py:359-376 | an access of unknown width is recorded as unmeasured |
| PcRelative.TargetExactlyWhen | src/isa/p16h_lib.py:289-298 | the interpreter's handlers run through and leave the static target plus the text base if and only if the pair was defined and no carry is lost |
| PcRelative.BackwardTargetDiffers | src/isa/p16h_lib.py:289-298 | a step back by 4: static target 0, emulated pair 2^64 - 2^32 past the text base |
| PcRelative.UndefinedPairHalts | src/emulator/p14e_emu.py:524-533 | the same site on a pair that was undefined halts the wave although s_getpc has just written it |
| PcRelative.TripleComputes | src/emulator/p14e_emu.py:524-533 | s_getpc, s_add and s_addc of the step function, fillers between them, leave the computed pair, or halt at the first undefined half |
| PcRelative.TripleIsFound | src/isa/p16h_lib.py:260-272 | the scan completes such a triple |
| PcRelative.FindSites | src/isa/p16h_lib.py:212-299 | the scanning loops, with or without a target profile |
| PcRelative.ListedExactlyWhen | src/isa/p16h_lib.py:273-285 | every getpc is listed in order if and only if the profile permits each mnemonic passed over; without a profile always |
| PcRelative.RegistersAreNotCompared | src/isa/p16h_lib.py:212-217 | a pair added into other registers is reported as complete |

## Left out

- Text parsing: instructions, operands and modifiers are already decoded; register numbers are in range.
- Opcodes: a representative set of scalar, vector, DS and global instructions is modelled; floating-point handlers that use host doubles, scratch stubs and the remaining one-line handlers are not.
- v_cmp to vcc_lo: the handler that updates VCC lane by lane is modelled by its result, the mask of the active lanes that satisfy the comparison.
- Wave size: a wave has 32 lanes, as every driver sets it.
- Fingerprints: the full-state hash is taken to be injective, so it is modelled by what it hashes.
- Generic exceptions: the driver's catch-all arm for host errors has no counterpart, because the modelled handlers raise none.
- Addresses of barrier sites: a missing address is modelled as None and compared like any other.
- Store logs: the list of all global stores kept for inspection is not modelled.
- Recorder records: the DS recorder is modelled by its counters; the per-access dictionaries are not.
- Gate records: retained out-of-bounds reads and writes are one list here; the report's formatting is not modelled.
- SHA-256 lengths: the bit count is taken modulo 2^64 as in the code, which is the standard's count for messages under 2^61 bytes.
- MsgPack.RoundTrip: strings are kept as bytes. UTF-8 decoding with replacement is not modelled, so two keys that differ only in invalid bytes stay distinct here.
- MsgPack.Decode: the interpreter's recursion limit is not modelled.
- BundleIdentity.Identify: the payload is readable up to the 16 MiB cap, which is as far as the code may look.
- regions_for: the derivation of pattern regions from kernel arguments is not modelled.
- Original driver: wg_emu's copy of the loop differs in its outcome label, which reports success even when waves faulted; the successor is modelled.
- I/O: files, processes, environment variables, reports and the HIP runtime are not modelled.
