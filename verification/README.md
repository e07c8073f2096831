# NyxOS in Dafny

A Dafny model of the self-contained algorithms and protocols of NyxOS, with
proofs of what they promise. `dafny verify dfyconfig.toml` checks everything.

| files | what they model |
|---|---|
| TlbShootdown, TlbProgress | the multi-core TLB shootdown (`kernel/core/smp.c`, `kernel/core/spinlock.h`) |
| Scheduler | the per-CPU round-robin scheduler (`kernel/core/smp.c`) |
| Field25519, Curve25519 | X25519 on sixteen signed limbs (`kernel/crypto/curve25519.c`) |
| Primes, MillerRabin | deterministic Miller-Rabin (`kernel/core/kernel.c`) |
| Gf2, GcmField, Gcm, GcmSeal | AES-128-GCM over an arbitrary block cipher (`kernel/crypto/aes_gcm.c`) |
| HeapModel, Heap | the libc allocator and the kernel's sbrk (`user/libc.c`) |
| Stdio | buffered streams over a kernel file (`user/libc.c`) |
| DiffModel, Diff | the line diff (`user/diff.c`) |
| FutexMutex | the futex mutex and its counter (`user/threads.c`) |
| Crc, Cksum | cksum's table CRC and the kernel's reflected CRC-32 |
| Radix, RadixStream, Wrapping, Base64, Base32 | strict Base64 and Base32, in the kernel and in userland |
| Numerals | strict integer parsing and the runtime's printer |
| Tabs | expand and unexpand (`kernel/core/kernel.c`) |
| ShellModel, Shell | the shell's quoting, expansion and splitting passes (`user/sh.c`) |
| Words, ModArith, Bits | machine words, modular arithmetic, two's-complement bits |

Code that changes state is modelled as methods over arrays and classes, each
proved against a specification function; the specification functions carry the
properties as lemmas. Concurrent code is a transition system with one step per
access to shared memory. Machine words are newtypes where overflow matters, so
a method over them that is accepted cannot overflow; `>>`, `&` with a low mask
and `|` of disjoint bits are written as division, remainder and sum.

## Where the code and its documentation part

- The mask loop of `tlb_shootdown` runs to `cpu_count`, the number of CPUs that
  started in time. If a CPU with a low number failed to start, or one started
  late, a running CPU can have a number at or past `cpu_count` and is never asked
  to flush. Without a timeout all running CPUs are kept coherent exactly when
  all their numbers are below `cpu_count` (`TlbProgress.CoherentExactly`).
- `sched_forget` is documented as safe because a core that still names a dying
  process is not running it. On an application processor it can be, until its
  next tick, which then loses the idle stack pointer. Forgetting a task is safe
  exactly when no core will go on with it (`Scheduler.ForgetExactly`).
- `malloc` meets its contract for requests up to 2^63 - 8216 bytes and for no
  larger one (`HeapModel.GrowthHoldsRequest`, `HeapModel.HugeRequestsUnmet`).
- diff's status 0 does not mean identical files: a missing final newline and
  everything past its limits go unnoticed, and nothing else does
  (`Diff.StatusZeroExactly`, `Diff.MissesFinalNewline`, `Diff.MissesPastLimits`).
- The shell's twelfth argument and those after it stay in the eleventh word, so
  words reach a program unchanged exactly if there are at most eleven
  (`ShellModel.QuotedWordsReachArgv`).
- A stream loses bytes exactly when one is put at or past the largest file offset
  of the kernel, and then every byte still pending with it (`Stdio.Play`).

## Model

| member | source | states |
|---|---|---|
| TlbShootdown.StepKeeps | kernel/core/smp.c:60-146 | Every protocol step and every step of the environment (page-table change, refill, eviction, interrupt delivery) except the timeout keeps the global invariant. |
| TlbShootdown.RunInv | kernel/core/smp.c:85-146 | The invariant holds in every state of every run without a timeout, for any number of cores and concurrent senders. |
| TlbShootdown.MutualExclusion | kernel/core/spinlock.h:33-57 | At most one sender is between lock and unlock, the lock word is set while one is, and the plain `tlb_shootdowns++` loses no count. |
| TlbShootdown.CallRemembers | kernel/core/smp.c:85-134 | Throughout a call its address, the page-table version it started from and its saved interrupt flag are the ones of the call, whatever other cores do. |
| TlbShootdown.Coherence | kernel/core/smp.c:85-146 | When `tlb_shootdown(v)` returns, neither the caller nor any CPU the mask loop counts caches a translation of v older than the page table at the call (where the early return skips the protocol, only the caller is covered), and the caller's interrupt flag is restored. |
| TlbShootdown.CoherenceEverywhere | kernel/core/smp.c:100-109 | If every running CPU has a number below `cpu_count`, then in every run without a timeout no returning call leaves any running CPU with a stale entry. |
| TlbProgress.HelpfulStep | kernel/core/smp.c:60-73 | While a call is in progress and no CPU it awaits is outside with interrupts off, some step of the caller, the lock holder or an asked CPU is enabled that lowers the measure. |
| TlbProgress.WillingReturns | kernel/core/smp.c:66-73 | Such a call can be brought to its return by protocol steps alone, without the timeout. CPUs that are themselves inside `tlb_shootdown` never stand in the way, so the first deadlock shape of the design note is excluded. |
| TlbProgress.DeafBlocks | kernel/core/smp.c:74-83 | The second shape is not: while a CPU whose acknowledgement is awaited stays outside with interrupts off, no continuation without the timeout lets the call return, whatever all other cores and the environment do. |
| TlbProgress.ReturnsExactly | kernel/core/smp.c:60-146 | In every state reachable without a timeout, a call in progress can be brought to its return by protocol steps if and only if no CPU it still awaits is outside with interrupts off. |
| TlbProgress.AloneFinish | kernel/core/smp.c:110-134 | CPU 0 can finish a call by itself, taking the timeout branch where acknowledgements are missing, while another CPU keeps its TLB entry. |
| TlbProgress.UncountedStale | kernel/core/smp.c:100-109 | From every boot with a running CPU d whose number is not below `cpu_count` there is a run without a timeout in which CPU 0 shoots down a page and returns while d still caches the old entry. |
| TlbProgress.CoherentExactly | kernel/core/smp.c:85-146 | From every boot: all runs without a timeout are coherent for all running CPUs if and only if every running CPU has a number below `cpu_count`. |
| TlbProgress.TimeoutStale | kernel/core/smp.c:122-132 | From every boot with a second running CPU, counted or not, some run that may use the timeout leaves it with a stale entry when CPU 0 returns. |
| Scheduler.Kernel.Scan | kernel/core/smp.c:190-210 | The loop picks the first eligible slot after the cursor, moves the cursor there, and picks nothing if no slot is eligible. |
| Scheduler.Kernel.Save | kernel/core/smp.c:167-173 | The interrupted stack pointer goes to the current task, or to the idle context if there is none. |
| Scheduler.Kernel.Answer | kernel/core/smp.c:184-223 | With a preemption hold the core resumes where it was; otherwise at the picked task's stack, or at the idle stack pointer. |
| Scheduler.Kernel.Tick | kernel/core/smp.c:167-224 | A tick is the save followed by the answer. |
| Scheduler.PickLaw | kernel/core/smp.c:193-210 | Without a preemption hold the task an answer picks is in the table, running, pinned to this core, has a stack, and is managed if it is a user task; if nothing is picked, no task in the table is all of this. |
| Scheduler.RunPinned | kernel/core/smp.c:154-163 | In every run a core's current task is pinned to that core. |
| Scheduler.NeverOnTwoCores | kernel/core/smp.c:154-163 | In no reachable state is one task current on two cores. |
| Scheduler.RunFaithful | kernel/core/smp.c:167-224 | In every run in which `sched_forget` names no task that a core goes on with, saved stack pointers of tasks and idle loops are the ones at which each was last interrupted. |
| Scheduler.ResumesWhereInterrupted | kernel/core/smp.c:167-224 | In every such run, whatever a tick resumes, it resumes where that context was last interrupted. |
| Scheduler.ForgetLosesIdle | kernel/proc/process.c:853-866 | After any such run that leaves a core with a current task, no preemption hold and nothing eligible: if `sched_forget` names that task, the next tick resumes the idle loop at the interrupted task's stack pointer, which is right if and only if the two happen to be equal. |
| Scheduler.ForgetExactly | kernel/proc/process.c:858-866 | After any such run, `sched_forget(t)` is harmless in every continuation without a further live forget if and only if no core has t current, or only a core whose tick is about to choose anew. |
| Scheduler.LiveForgetHappens | kernel/proc/process.c:862-866 | A run from boot in which one core forgets its current task and then resumes a context elsewhere than where it was interrupted. |
| Scheduler.PickedWithin | kernel/core/smp.c:193-210 | A task r slots after the cursor that stays eligible is picked within r answers of its core. |
| Scheduler.PickedWithinOneRound | kernel/core/smp.c:193-210 | With a fixed table of n slots and no preemption hold, a pinned task that stays eligible is picked within n ticks. |
| Field25519.FeCswap | kernel/crypto/curve25519.c:29-36 | Swaps the two elements if the bit is 1 and changes nothing if it is 0, although it only masks and xors. |
| Field25519.CarryLimb | kernel/crypto/curve25519.c:40-45 | One carry keeps the value modulo p and leaves the limb in range. |
| Field25519.FeCarry | kernel/crypto/curve25519.c:39-46 | Keeps the value modulo p and gives limb bounds after one carry pass, without leaving 64 bits. |
| Field25519.FeAdd | kernel/crypto/curve25519.c:48-50 | Adds values modulo p, with limb bounds that no ladder step exceeds. |
| Field25519.FeSub | kernel/crypto/curve25519.c:52-54 | Subtracts values modulo p, with limb bounds that no ladder step exceeds. |
| Field25519.Columns | kernel/crypto/curve25519.c:57-61 | The 31 column sums of the schoolbook product represent the product of the values and fit 64 bits. |
| Field25519.FoldHigh | kernel/crypto/curve25519.c:62-63 | Folding the high columns with 38 keeps the value modulo p within 64 bits. |
| Field25519.FeMul | kernel/crypto/curve25519.c:56-66 | Multiplies values modulo p on limbs within the ladder's bounds, restores the reduced bound, and never overflows a signed 64-bit word. |
| Field25519.InvExponentIsPMinus2 | kernel/crypto/curve25519.c:76-79 | The square-and-multiply schedule of the inversion loop raises to exactly p - 2. |
| Field25519.FeInv | kernel/crypto/curve25519.c:73-81 | The result is the input to the power p - 2 modulo p. |
| Field25519.FeUnpack | kernel/crypto/curve25519.c:84-87 | The limbs represent the low 255 bits of the little-endian string. |
| Field25519.SubtractP | kernel/crypto/curve25519.c:95-103 | One conditional subtraction of p, decided by the sign of the top limb. |
| Field25519.Freeze | kernel/crypto/curve25519.c:91-104 | Three carries and two conditional subtractions leave the representative in [0, p). |
| Field25519.FePack | kernel/crypto/curve25519.c:90-109 | The 32 bytes are the unique representative in [0, p) of the element, little-endian. |
| Curve25519.ScalarBit | kernel/crypto/curve25519.c:124 | The byte and shift expression is bit i of the scalar as a little-endian number. |
| Curve25519.MaskLow | kernel/crypto/curve25519.c:115 | `& 248` clears the value of the low three bits. |
| Curve25519.MaskHigh | kernel/crypto/curve25519.c:116 | `& 127` and `| 64` leave the low six bits and set the seventh. |
| Curve25519.ClampMasks | kernel/crypto/curve25519.c:115-116 | The two clamping operations on a byte are the masks 248, 127 and 64. |
| Curve25519.ClampValue | kernel/crypto/curve25519.c:115-116 | Masking the two bytes clamps the scalar as RFC 7748 section 5 says. |
| Curve25519.RoundIdentities | kernel/crypto/curve25519.c:127-144 | The source's order of additions, subtractions and products computes the differential addition and doubling of RFC 7748. |
| Curve25519.Doubles | kernel/crypto/curve25519.c:127-144 | For every state the doubling gives (x^2 - z^2)^2 over 4xz(x^2 + 486662xz + z^2) modulo p. |
| Curve25519.Adds | kernel/crypto/curve25519.c:127-144 | For every state the differential addition gives 4(x2 x3 - z2 z3)^2 over 4u(x2 z3 - z2 x3)^2 modulo p. |
| Curve25519.LadderStep | kernel/crypto/curve25519.c:127-144 | One ladder step on limbs gives, modulo p, the doubling and the differential addition on the Montgomery curve with A = 486662, written out, and closes the limb bounds. |
| Curve25519.UnswapStep | kernel/crypto/curve25519.c:125-146 | Swapping back after each round tracks the RFC's accumulated swap flag. |
| Curve25519.LadderRound | kernel/crypto/curve25519.c:123-147 | One round of the loop, swaps included, refines the RFC's round. |
| Curve25519.RunLadder | kernel/crypto/curve25519.c:118-147 | The 255 rounds refine the RFC's ladder for every scalar and coordinate. |
| Curve25519.LadderLaw | kernel/crypto/curve25519.c:118-149 | The X25519 function is, for every scalar and coordinate, the pair after 255 rounds, each the doubling of the pair its bit selects and the sum of both in these formulas, and the final division by the power p - 2. |
| Curve25519.X25519 | kernel/crypto/curve25519.c:112-152 | The output bytes are the X25519 function of RFC 7748 section 5 of the clamped scalar and the masked coordinate, for all inputs. |
| Curve25519.PowerIsInverse | kernel/crypto/curve25519.c:72 | If p is prime, the final power is the inverse the division needs. |
| Primes.Euclid | kernel/core/kernel.c:3715-3722 | A prime that divides a product divides a factor. |
| Primes.Fermat | kernel/core/kernel.c:3715-3722 | Fermat's little theorem. |
| Primes.RootsOfOne | kernel/core/kernel.c:3715-3722 | Modulo a prime only 1 and -1 square to 1. |
| MillerRabin.AddMod64 | kernel/core/kernel.c:3723-3727 | (a + b) mod m for all 64-bit words, with no intermediate overflow. |
| MillerRabin.MulMod64 | kernel/core/kernel.c:3728-3737 | a * b mod m for all 64-bit words, with no intermediate overflow. |
| MillerRabin.PowMod64 | kernel/core/kernel.c:3738-3747 | a^e mod m for all 64-bit words. |
| MillerRabin.Probe | kernel/core/kernel.c:3758-3765 | One witness round decides the strong probable-prime condition for that base. |
| MillerRabin.PassesExactly | kernel/core/kernel.c:3758-3765 | A base passes if and only if Fermat's condition holds and wherever its squaring chain arrives at 1 it came from 1 or -1, so every nontrivial root of one on a chain is caught. |
| MillerRabin.AllBases | kernel/core/kernel.c:3757-3766 | The loop accepts exactly the numbers that pass all twelve bases. |
| MillerRabin.WitnessesAre | kernel/core/kernel.c:3749 | The twelve bases are the primes up to 37. |
| MillerRabin.AcceptsExactly | kernel/core/kernel.c:3757-3766 | A number that no base divides is accepted if and only if no base meets a failure of Fermat's condition or a nontrivial square root of one. |
| MillerRabin.AcceptedMeans | kernel/core/kernel.c:3757-3766 | For an accepted number that is no base, every base has Pow(w, n - 1) mod n = 1, and wherever Pow(w, d 2^r) mod n is 1, Pow(w, d 2^(r-1)) mod n is 1 or n - 1. |
| MillerRabin.RejectedMeans | kernel/core/kernel.c:3748-3768 | For a rejected number from 2 on, some base other than the number divides it or breaks one of these two conditions. |
| MillerRabin.IsPrime | kernel/core/kernel.c:3748-3768 | Accepts every prime below 2^64, so that each rejection proves compositeness; where no base decides by division, accepts if and only if no base meets a failure of Fermat's condition or a nontrivial square root of one. |
| MillerRabin.PrimesPass | kernel/core/kernel.c:3757-3766 | Every odd prime passes every base it does not divide. |
| MillerRabin.PrimesAccepted | kernel/core/kernel.c:3748-3768 | No prime is ever rejected. |
| MillerRabin.ExactBelow1681 | kernel/core/kernel.c:3748-3768 | Below 41^2 the test accepts exactly the primes. |
| GcmField.ReduceIsRemainder | kernel/crypto/aes_gcm.c:92-94 | Horner's rule computes the remainder modulo x^128 + x^7 + x^2 + x + 1. |
| GcmField.ProductExactly | kernel/crypto/aes_gcm.c:92-106 | The product in the field is the only number below 2^128 that is congruent to the carry-less product modulo the polynomial 0x1_00..0087. |
| GcmField.GMulUnique | kernel/crypto/aes_gcm.c:94-106 | The field product is the only remainder congruent to the polynomial product. |
| GcmField.GMulCommutes | kernel/crypto/aes_gcm.c:94-106 | The multiplication commutes. |
| GcmField.GMulAssociates | kernel/crypto/aes_gcm.c:94-106 | The multiplication is associative. |
| GcmField.GMulDistributes | kernel/crypto/aes_gcm.c:94-106 | The multiplication distributes over exclusive or. |
| GcmField.PolyInjective | kernel/crypto/aes_gcm.c:94-106 | In GCM bit order a block is determined by its polynomial. |
| GcmField.ShiftReduce | kernel/crypto/aes_gcm.c:101-104 | The byte-wise right shift with the conditional 0xe1 is multiplication by x in the field. |
| GcmField.GfMult | kernel/crypto/aes_gcm.c:95-106 | The bit-serial loop over bytes computes the field product. |
| Gcm.HornerIsSum | kernel/crypto/aes_gcm.c:113-130 | A Horner loop is the sum of blocks times powers of H. |
| Gcm.TimesPowIsProduct | kernel/crypto/aes_gcm.c:113-130 | Repeated multiplication by H is multiplication by a power of H. |
| Gcm.GhashIsHorner | kernel/crypto/aes_gcm.c:109-131 | The three-part loop is one Horner loop over padded data, padded ciphertext and the length block. |
| Gcm.BlockAt | kernel/crypto/aes_gcm.c:114-125 | Block j is bytes 16j to 16j + 15, the last block padded with zeros, and there are as many blocks as it takes. |
| Gcm.LengthBlockIs | kernel/crypto/aes_gcm.c:126-128 | The first eight bytes of the length block are eight times the length of the associated data, the last eight eight times that of the ciphertext, big-endian. |
| Gcm.IndexFits | kernel/crypto/aes_gcm.c:114-125 | The 32-bit index of the block loops never wraps if and only if the length is at most 2^32 - 16. |
| Gcm.AbsorbData | kernel/crypto/aes_gcm.c:114-125 | One part of the loop absorbs all zero-padded blocks of any length up to 2^32 - 16, without wrapping its index. |
| Gcm.GhashBytes | kernel/crypto/aes_gcm.c:109-131 | The function computes GHASH of NIST SP 800-38D section 6.4 for every length of data and ciphertext the block index can count. |
| GcmSeal.Inc32Value | kernel/crypto/aes_gcm.c:133-135 | inc32 adds 1 modulo 2^32 to the last 32 bits and keeps the first 96. |
| GcmSeal.Inc32InPlace | kernel/crypto/aes_gcm.c:133-135 | The in-place loop with its early exit is that increment. |
| GcmSeal.CountersDistinct | kernel/crypto/aes_gcm.c:138-149 | Within 2^32 blocks no counter block, and so no keystream block, repeats. |
| GcmSeal.GctrInvolution | kernel/crypto/aes_gcm.c:138-149 | Counter mode from the same counter undoes itself. |
| GcmSeal.GctrBytes | kernel/crypto/aes_gcm.c:138-149 | The loop is counter mode, also when source and destination are one buffer, and touches nothing past the length. |
| GcmSeal.GcmTag | kernel/crypto/aes_gcm.c:152-162 | The tag is GHASH masked by the first keystream block. |
| GcmSeal.TagMeans | kernel/crypto/aes_gcm.c:152-178 | The tag is GHASH under the encryption of the zero block, masked by the encryption of the IV followed by 00000001. |
| GcmSeal.SealedByte | kernel/crypto/aes_gcm.c:138-181 | Byte j of the ciphertext is byte j of the plaintext masked by byte j mod 16 of the encryption of the IV followed by 2 + j / 16, big-endian modulo 2^32. |
| GcmSeal.TagUnique | kernel/crypto/aes_gcm.c:152-162 | A ciphertext has at most one tag, so the one that the tag computation produces is the tag. |
| GcmSeal.Encrypt | kernel/crypto/aes_gcm.c:164-181 | The ciphertext is counter mode from J0 + 1, byte by byte with its counter written out, and the tag is the tag of that ciphertext. |
| GcmSeal.Decrypt | kernel/crypto/aes_gcm.c:183-201 | Accepts exactly when the supplied tag is the tag; then decrypts, and otherwise leaves the output untouched. |
| GcmSeal.SealThenOpen | kernel/crypto/aes_gcm.c:164-201 | Open undoes seal for every key, IV, associated data and plaintext. |
| HeapModel.GrowthHoldsRequest | user/libc.c:103-110 | A grown block holds the request, and its increment is positive as a signed number, if and only if the request is at most 2^63 - 8216 bytes. |
| HeapModel.SizesMean | user/libc.c:103-136 | Requests are rounded up to the next multiple of eight, growth to whole pages of 4096: one if the block fits, else with one to two to spare. |
| HeapModel.HugeRequestsUnmet | user/libc.c:103-110 | Every larger request goes unmet: no block holds it, and growing for it adds one or two pages, or adds nothing and may give memory back while sbrk reports success. |
| HeapModel.HugeRequestsMisbehave | user/libc.c:127-129 | Concrete inputs of that kind: the largest request rounds to 0, and 2^63 makes sbrk give memory back while reporting success. |
| HeapModel.LiveDisjoint | user/libc.c:127-165 | Two live allocations are disjoint, with a header's room between. |
| HeapModel.MallocKeeps | user/libc.c:127-165 | Every malloc keeps the invariant and returns null or fresh, aligned, sufficient memory that nobody held, taking nothing from anyone. |
| HeapModel.MallocMeans | user/libc.c:127-165 | malloc takes the first free block that is large enough; if there is none it grows the heap at its end by one block, at the very first call by two. |
| HeapModel.PlaceMeans | user/libc.c:127-165 | A block with 40 bytes to spare is split behind the request, any other is taken whole. |
| HeapModel.NullExactly | user/libc.c:127-165 | malloc fails exactly when no free block fits and the heap cannot grow (twice, for the very first call). |
| HeapModel.FreeKeeps | user/libc.c:167-183 | free keeps the invariant and takes back exactly the block behind the pointer, coalescing both neighbours. |
| HeapModel.ReallocKeeps | user/libc.c:190-201 | realloc moves, stays, frees or fails leaving the old block alone, and keeps every other block. |
| HeapModel.ReallocStays | user/libc.c:190-201 | realloc to a positive size stays in place if and only if the block holds the new size. |
| HeapModel.RunKeeps | user/libc.c:88-201 | After any sequence of legal calls the blocks tile all memory obtained in address order, no two neighbours are both free, and live pointers lie in used blocks that are large enough. |
| HeapModel.RunLosesOnlyFirst | user/libc.c:132-135 | In every run the used blocks are the live ones and the block of the first growth, which is never handed out. |
| HeapModel.BreakMeans | kernel/core/syscall.c:760-784 | The break moves by the increment, not at all past 0x30000000, and down to the start at most. |
| Heap.Allocator.Sbrk | kernel/core/syscall.c:760-784 | The kernel's break, shrinking for negative increments and refusing to pass the shared libc. |
| Heap.Allocator.GrowHeap | user/libc.c:103-125 | Appends one used block of whole pages at the end of the linked list, or fails changing nothing; no used byte changes. |
| Heap.Allocator.SearchFrom | user/libc.c:137-164 | The walk over links is first fit, then growth; no other used byte changes. |
| Heap.Allocator.Malloc | user/libc.c:127-165 | The pointer-linked allocator does what the block-list model says, and changes no byte of any used block. |
| Heap.Allocator.Free | user/libc.c:167-183 | Likewise for free: both merges, and no byte of a remaining block changes. |
| Heap.Allocator.Realloc | user/libc.c:190-201 | Likewise for realloc: the old contents are at the result, up to the smaller size, and all other used blocks are unchanged. |
| Heap.Allocator.Poke | user/libc.c:88-99 | A program that writes only inside memory it holds cannot damage a header. |
| Stdio.OverwriteTwice | kernel/fs/vfs.c:643-676 | Two adjacent writes are one write of both, gap filling included. |
| Stdio.ReadBack | user/libc.c:620-642 | On the plain file, what was put is got back after seeking to where it was put. |
| Stdio.SeekMeans | kernel/core/syscall.c:814-832 | Where each of the three origins leads, with negative offsets, the failures, and files whose size is no signed 32-bit number. |
| Stdio.AppendAtEnd | user/libc.c:710-718 | What is put after a seek to the end is appended to the content. |
| Stdio.LastBytes | user/libc.c:710-718 | After a seek to n bytes before the end the next n bytes read are the last n, and then comes the end of the file. |
| Stdio.FlagsMean | user/libc.c:620-642 | What one get or put does to position and flags, and what it returns, in all cases. |
| Stdio.OsFile.Write | kernel/core/syscall.c:550-558 | The kernel writes at the file offset, fills gaps with zeros, and refuses to pass 2^32. |
| Stdio.OsFile.LSeek | kernel/core/syscall.c:814-832 | The kernel's seek from start, position or end, with its 32-bit truncation and its signed size. |
| Stdio.Stream.FFlush | user/libc.c:610-618 | Flushing changes nothing the stream stands for and puts all of it in the kernel file; if the pending bytes reach past the largest file they are dropped with an error. |
| Stdio.Stream.FGetc | user/libc.c:620-629 | Returns what an unbuffered read of one byte returns, across a switch from writing; if pending bytes cannot be written it fails and drops them. |
| Stdio.Stream.FPutc | user/libc.c:631-642 | Does what an unbuffered write of one byte does, across a switch from reading; a byte no kernel file can hold stays pending until a flush, which drops it and all bytes pending with it. |
| Stdio.Stream.FSeek | user/libc.c:710-718 | Seeks as the plain file does, and leaves everything written in the kernel file. |
| Stdio.Stream.FTell | user/libc.c:722-729 | Tells the plain file's position. |
| Stdio.Play | user/libc.c:610-729 | Over any interleaving of the five calls and a final flush the kernel file ends with the contents of the plain file if and only if no byte was put at or past the largest file offset, and then every call has returned what the plain file returns. |
| DiffModel.LcsUpper | user/diff.c:65-73 | No common subsequence is longer than the table entry. |
| DiffModel.KeptIsCommon | user/diff.c:75-81 | The kept lines are a common subsequence of both files. |
| DiffModel.Optimal | user/diff.c:65-81 | The script rewrites file 1 into file 2, keeps as many lines as any common subsequence has, and is no longer than any other script. |
| DiffModel.FewestLines | user/diff.c:65-103 | No hunks that turn file 1 into file 2 remove or insert fewer lines than those of a script that keeps as many lines as the table says. |
| DiffModel.OnlyKeeps | user/diff.c:75-81 | The files are equal if and only if the script only keeps. |
| DiffModel.BalancedAll | user/diff.c:83-102 | Hunks that account for both files patch each into the other. |
| Diff.Load | user/diff.c:22-36 | The line records are the lines of the first 32768 bytes, at most 200. |
| Diff.CutLines | user/diff.c:28-34 | Loading at most n lines loads the lines of the text up to its n-th newline. |
| Diff.StatusZeroExactly | user/diff.c:4-9 | For any two files diff finds nothing to report if and only if the first 32768 bytes of each, up to the 200th newline, are the same but for a missing final newline. |
| Diff.SeesAll | user/diff.c:4-9 | For a file within the limits that is the whole file. |
| Diff.MissesFinalNewline | user/diff.c:4-9 | Two different files that diff calls identical: they differ in the final newline. |
| Diff.MissesPastLines | user/diff.c:28-34 | Whatever follows 200 complete lines goes unnoticed. |
| Diff.MissesPastLimits | user/diff.c:22-36 | Two different over-long files that diff calls identical. |
| Diff.UnlinesLines | user/diff.c:28-34 | Writing the split lines out again gives the file, newline-terminated. |
| Diff.FillTable | user/diff.c:65-73 | Every table entry is the length of the longest common subsequence of the two suffixes, and fits 16 bits. |
| Diff.Walk | user/diff.c:75-81 | The recorded path is a complete edit script with as many keeps as the table says is possible; it keeps where it can, and otherwise adds as long as that loses no keep. |
| Diff.Hunks | user/diff.c:83-103 | The hunks remove and insert exactly the lines that the script deletes and adds, none is empty, and a kept line stands between any two; applying them at their printed line numbers turns file 1 into file 2, in reverse file 2 into file 1. |
| Diff.PrintHunk | user/diff.c:92-101 | Change, delete and add headers name the lines they cover on both sides. |
| Diff.DiffFiles | user/diff.c:59-104 | The hunks turn the loaded lines of either file into those of the other, no hunks that do so remove or insert fewer lines, a kept line stands between any two, and the status is 0 if and only if the loaded lines are equal. |
| FutexMutex.StepInv | user/threads.c:30-43 | Every step of every worker, spurious wake-ups included, keeps the invariant. |
| FutexMutex.MutualExclusion | user/threads.c:30-43 | At most one worker is inside the lock, and the word is 1 while one is. |
| FutexMutex.NoLostWakeUp | user/threads.c:30-43 | While a worker sleeps, the lock is held, an awake worker is acquiring it, or one is about to wake a sleeper. |
| FutexMutex.SomeStep | user/threads.c:30-70 | Until all workers are done some worker can step without a spurious wake-up. |
| FutexMutex.FinalValues | user/threads.c:62-69 | When all are done the counter is workers times increments and `done` the number of workers, exactly below 2^31 and modulo 2^32 above, although both increments are separate reads and writes. |
| FutexMutex.RunsEnd | user/threads.c:30-70 | Every run is finite: with n workers it has at most n((iterations + 1)(2n + 11) + 3) steps, plus four for each spurious wake-up. |
| Crc.MsbIsRemainder | user/cksum.c:12-24 | The MSB-first register is the remainder of the message polynomial modulo x^32 + 0x04C11DB7, from any start value. |
| Crc.BigEndianAt | user/cksum.c:21-24 | The bytes of the message are the digits of its number in base 256, the first one highest. |
| Crc.CrcByteIs | user/cksum.c:21-24 | One table lookup equals eight polynomial steps for every register and byte. |
| Crc.BurstDetected | user/cksum.c:5-8 | Messages of one length that differ only within 32 consecutive bits have different checksums. |
| Cksum.CrcInit | user/cksum.c:12-19 | The loop fills the table with eight steps of each byte. |
| Cksum.CksumFile | user/cksum.c:26-40 | The program computes the complement of the register over the file and its length bytes. |
| Cksum.LengthBytesAre | user/cksum.c:36-38 | The appended bytes are the digits of the length in base 256, lowest first, without leading zeros. |
| Cksum.LsbStepIs | kernel/core/kernel.c:3797-3798 | A reflected right-shift step mirrors a left-shift step. |
| Cksum.ReflectedIsMirror | kernel/core/kernel.c:3793-3801 | The reflected CRC is the bit-reversed complement of the MSB-first CRC run from all ones over the bit-reversed bytes. |
| Cksum.RevBytesAre | kernel/core/kernel.c:3793-3801 | Bit i of a mirrored byte is bit 7 - i of the byte. |
| Cksum.Crc32Calc | kernel/core/kernel.c:3793-3801 | The loop computes the reflected CRC for every message. |
| Radix.GroupExact | kernel/crypto/base64.c:51-75 | A group of symbols denotes bytes exactly if it is their canonical encoding. |
| Radix.GroupInjective | kernel/crypto/base64.c:18-43 | Different groups of bytes have different texts. |
| Radix.DecodeEncode | kernel/crypto/base64.c:18-78 | Decoding undoes encoding, for every byte string. |
| Radix.DecodeExact | kernel/crypto/base64.c:45-78 | A text decodes to s if and only if it is the encoding of s. |
| Base64.ValueIs | kernel/crypto/base64.c:4-16 | The value function inverts the alphabet and rejects everything else. |
| Base64.AlphabetCodes | kernel/crypto/base64.c:4-5 | The alphabet, by the codes of its 64 characters. |
| Base64.EncodeMeans | kernel/crypto/base64.c:18-43 | Bytes 3g to 3g + 2 are symbols 4g to 4g + 3, six bits each from the highest on; a symbol whose bits start past the last byte is padding, and n bytes have 4 * ceil(n / 3) characters. |
| Base64.Base64Encode | kernel/crypto/base64.c:18-43 | The kernel encoder writes the encoding, NUL-terminated, of length 4 * ceil(n / 3). |
| Base64.Base64Decode | kernel/crypto/base64.c:45-78 | The kernel decoder accepts exactly the encodings and returns the bytes they encode. |
| Base64.DecQuartet | user/base64.c:86-106 | Accepts exactly the texts of one to three bytes. |
| Base64.EncodeWrapped | user/base64.c:60-82 | The userland encoder emits the encoding in lines of the wrap width and one final newline. |
| Base64.WrappedLines | user/base64.c:53-82 | Newlines stand behind every `wrap` characters and at the very end, with width 0 only there, and nothing else is added. |
| Base64.DecodeStream | user/base64.c:108-121 | The streaming decoder accepts exactly the texts that are encodings once white space is removed, with the same bytes. |
| Base64.WrapRoundTrip | user/base64.c:53-121 | For every wrap width, decoding the wrapped output recovers the input. |
| Base32.ValueIs | kernel/crypto/base32.c:3-12 | The value function inverts the alphabet and rejects everything else. |
| Base32.AlphabetCodes | kernel/crypto/base32.c:3-4 | The alphabet, by the codes of its 32 characters. |
| Base32.EncodeMeans | kernel/crypto/base32.c:14-31 | Bytes 5g to 5g + 4 are symbols 8g to 8g + 7, five bits each from the highest on; a symbol whose bits start past the last byte is padding, and n bytes have 8 * ceil(n / 5) characters. |
| Base32.Octet | kernel/crypto/base32.c:17-29 | Packing and slicing five or fewer bytes gives the group's text. |
| Base32.Base32Encode | kernel/crypto/base32.c:14-31 | The kernel encoder writes the encoding, NUL-terminated, of length 8 * ceil(n / 5). |
| Base32.Base32Decode | kernel/crypto/base32.c:33-59 | The kernel decoder accepts exactly the encodings and returns the bytes they encode. |
| Base32.DecOctet | user/base32.c:91-110 | Accepts exactly the texts of one to five bytes: padding count, symbols and unused bits. |
| Base32.EncodeWrapped | user/base32.c:58-87 | The userland encoder emits the encoding in lines of the wrap width. |
| Base32.WrappedLines | user/base32.c:51-87 | Newlines stand behind every `wrap` characters and at the very end; with width 0 there is none. |
| Base32.DecodeStream | user/base32.c:112-125 | The streaming decoder accepts exactly the texts that are encodings once white space is removed, with the same bytes. |
| Base32.WrapRoundTrip | user/base32.c:51-125 | For every wrap width, decoding the wrapped output recovers the input. |
| Wrapping.StripLayout | user/base64.c:53-58 | Breaking lines adds nothing but white space. |
| Wrapping.StripAround | user/base64.c:112-115 | The decoders skip newlines, carriage returns, tabs and spaces, wherever they stand, and nothing else. |
| Wrapping.LayoutLines | user/base64.c:53-58 | Newlines stand exactly after every `wrap` characters, so every line but the last is full and the last has what remains. |
| Wrapping.Writer.Put | user/base64.c:25-30 | The output buffer neither loses nor reorders a byte. |
| Numerals.NumeralExactly | kernel/core/numparse.c:51-67 | A string denotes v if and only if the scan succeeds with v: there is one way to read it. |
| Numerals.ValueAt | kernel/core/numparse.c:22-37 | The digits are those of the value in base ten, the first one highest. |
| Numerals.AroundDigit | kernel/core/numparse.c:16-67 | Before a digit may stand a space, a tab, a sign or a digit, behind it a space, a tab or a digit, and the minus sign negates. |
| Numerals.UnsignedExactly | kernel/core/numparse.c:39-49 | The unsigned numerals are those without a minus sign. |
| Numerals.NpMag | kernel/core/numparse.c:22-37 | The overflow test fires exactly when the true value exceeds the limit, and the accumulator never wraps. |
| Numerals.ParseI64 | kernel/core/numparse.c:51-67 | Succeeds with v exactly on blank-padded, optionally signed decimals denoting a v in the signed 64-bit range; on failure the result is untouched. |
| Numerals.ParseU64 | kernel/core/numparse.c:39-49 | The same for unsigned 64-bit numbers, without a minus sign. |
| Numerals.ParseU32Max | kernel/core/numparse.c:69-76 | The same up to a given maximum, never truncating. |
| Numerals.NyxStr.FmtI64 | user/nyxrt.c:27-41 | Appends the decimal text, or the part that fits, and terminates it. |
| Numerals.SignedMeans | user/nyxrt.c:27-41 | The decimal text has a minus sign just for negative numbers, denotes the absolute value, and has no leading zero but in `0`. |
| Numerals.PrintThenParse | user/nyxrt.c:27-41 | Parsing the printed text of any 64-bit number returns it, the least one included, for every capacity that holds the text and its terminator. |
| Tabs.FlushFewest | kernel/core/kernel.c:1174-1186 | A flushed run is no longer than any other blanks that cover the same columns. |
| Tabs.FlushMeans | kernel/core/kernel.c:1174-1186 | A flushed run has a tab just where the next stop is not past its end and at least two columns away. |
| Tabs.ExpandUnexpand | kernel/core/kernel.c:1213-1233 | Expanding the output of unexpand, in either mode, gives what expanding the original gives. |
| Tabs.UnexpandCanonical | kernel/core/kernel.c:1213-1233 | Texts that expand alike have the same `-a` output. |
| Tabs.UnexpandShortest | kernel/core/kernel.c:1188-1190 | The `-a` output is the shortest of all texts with that expansion. |
| Tabs.CmdExpand | kernel/core/kernel.c:1159-1171 | The loop expands every tab to the next stop. |
| Tabs.ExpandMeans | kernel/core/kernel.c:1142-1171 | Character by character: a tab adds one to w spaces and ends at a multiple of w behind the last newline; every other character is copied. |
| Tabs.UnexpandFlush | kernel/core/kernel.c:1178-1186 | The two loops emit exactly the run's minimal blanks. |
| Tabs.CmdUnexpand | kernel/core/kernel.c:1213-1233 | Each maximal convertible run is flushed as one, the rest is copied, and the expansion is unchanged. |
| Tabs.LeadingOnly | kernel/core/kernel.c:1213-1233 | Without `-a` the blanks that a line starts with are flushed as one run and the rest of the line is copied. |
| Tabs.RunFlushed | kernel/core/kernel.c:1213-1233 | With `-a` every run of blanks is flushed and the character behind it copied. |
| ShellModel.ProtectionExactly | user/sh.c:67-108 | A word comes back from quote protection unchanged if and only if it contains no placeholder byte. |
| ShellModel.ProtectsExactly | user/sh.c:66-86 | Single quotes protect exactly the characters special to the later passes, double quotes all of these but `$`, `(` and `)`, and no two are confused. |
| ShellModel.DequoteLine | user/sh.c:112-141 | Quote removal turns single-quoted words into their protected forms. |
| ShellModel.DequotePlain | user/sh.c:112-141 | Text outside quotes is copied. |
| ShellModel.DequoteDoubleWord | user/sh.c:112-141 | A word in double quotes becomes its text, protected but for dollar signs and parentheses. |
| ShellModel.DequoteCommand | user/sh.c:112-141 | A command outside single quotes is copied as it is, with the quotes in it. |
| ShellModel.SplitPlain | user/sh.c:30-40 | Splitting protected words gives them back one by one; with fewer slots than words the last slot takes all that is left. |
| ShellModel.WordsMean | user/sh.c:30-40 | The first word of a stage is its first run of characters other than spaces; in the last slot it runs to the end. |
| ShellModel.TrimMeans | user/sh.c:21-27 | Trimming takes the spaces at both ends and nothing else. |
| ShellModel.BackgroundMeans | user/sh.c:506-512 | A line runs in the background if and only if its last character other than a space is `&`, which is taken off. |
| ShellModel.StagesExactly | user/sh.c:518-525 | The stages are the only list of at most four that joins back to the line at its first bars. |
| ShellModel.StageOfPlain | user/sh.c:30-40 | A stage of more than eleven quoted words is run with ten of them and an eleventh word made of all others with spaces between, cut to 95 characters. |
| ShellModel.QuotedWordsReachArgv | user/sh.c:505-732 | For every list of quotable words that fits the buffers, the line of those words in single quotes passes every stage, and the program gets exactly these words if and only if there are at most eleven. |
| ShellModel.SplitExactly | user/sh.c:619-634 | Splitting a line into segments gives the only list that joins back to the line, whose every segment but the last ends at the first operator of what follows it, and whose last holds an operator only for want of room. |
| ShellModel.SegmentMeans | user/sh.c:619-634 | Text without a semicolon or a doubled ampersand or bar is one segment; followed by one of them it is the first, and the rest is split on. |
| ShellModel.CommandReplaced | user/sh.c:681-704 | A line whose first `$(` is closed by the matching parenthesis becomes the text before it, the output of the first 255 characters of the command, and the expansion of the text after it. |
| ShellModel.UnclosedReplaced | user/sh.c:685-700 | An unclosed command runs to the end of the line. |
| ShellModel.LineForms | user/sh.c:683-702 | Every line has no command, a closed first command, or an unclosed one. |
| ShellModel.VariableReplaced | user/sh.c:264-270 | The first `$name`, with the longest name of at most 31 characters, becomes the value of the name; the text before it is kept and expansion goes on after it. |
| ShellModel.NamesMean | user/sh.c:250-276 | Names are the longest runs of letters, digits and underscores of at most 31 characters; an unset or empty HOME is /home/user. |
| ShellModel.PositionMeans | user/sh.c:257-282 | What one position becomes, in all cases: `$?`, a dollar sign with a name, a tilde, any other character. |
| ShellModel.TildeReplaced | user/sh.c:271-276 | A tilde that is a word or is followed by a slash becomes the home directory. |
| ShellModel.TextForms | user/sh.c:259-279 | From every position on, nothing is expanded, or a variable, `$?` or such a tilde is the first thing that is. |
| ShellModel.RedirectsOnce | user/sh.c:146-165 | Taking redirections out of the words a second time changes nothing. |
| ShellModel.OneRedirection | user/sh.c:146-165 | A stage with one redirection, its name in the next token or attached: the other tokens are the words, and `<`, `>` and `>>` give the input, the output, and the output to append to. |
| ShellModel.LastCounts | user/sh.c:146-165 | A further redirection replaces the name, and for output the append flag, and leaves the words and the other kind alone. |
| ShellModel.LiteralMatch | user/sh.c:428-446 | A pattern without wildcards matches only itself. |
| ShellModel.MatchesJoin | user/sh.c:428-446 | Two patterns one after the other match exactly the texts that can be cut into a match of each. |
| ShellModel.OneCharacterMatches | user/sh.c:428-446 | `*` matches every text, `?` every single character, any other character only itself. |
| ShellModel.GlobMeans | user/sh.c:448-500 | A word with a wildcard becomes what it matches, any other word itself. |
| Shell.QUnprotect | user/sh.c:90-108 | Restores every placeholder in place. |
| Shell.PreprocessQuotes | user/sh.c:112-141 | The state machine with its bounded output is quote removal, substitutions copied verbatim. |
| Shell.ExpandCmdsubst | user/sh.c:681-704 | Text without a command is copied; a first command, closed or not, is replaced by the output of its first 255 characters; all up to the size of the buffer. |
| Shell.ExpandVariables | user/sh.c:257-282 | Text in which nothing is expanded is copied; the first variable, `$?` or tilde is replaced by its value and expansion goes on after it; all up to the size of the buffer. |
| Shell.SplitLine | user/sh.c:619-634 | The segments with their operators between them give the line back, and each ends at the first operator of what is left. |
| Shell.SplitWords | user/sh.c:30-40 | Words are cut at spaces; the word in the last slot runs to the end of the line. |
| Shell.ParseRedirections | user/sh.c:146-165 | The words are, in order, the tokens that are neither redirections nor the names that bare ones take; the input and output names and the append flag come from the last redirection of each kind. |
| Shell.GlobMatch | user/sh.c:428-446 | The recursive matcher decides the meaning of * and ?. |

## Left out

- Weak memory: shared accesses take effect in program order on all cores; the fences and barriers of the source are what makes that so.
- TLB runs after a timeout: the source itself says a TLB may then be stale. A sender preempted by the scheduler inside `tlb_shootdown` is not modelled either, apart from interrupts by the shootdown IPI.
- Scheduler: the BSP's own scheduler (`irq_scheduler_tick`), CR3, ring and TSS switching in `sched_target`, and processes freed while still named by a table slot. A tick is two atomic steps, the save and the scan under `sched_lock`.
- GcmSeal.Encrypt: takes AES as a parameter E of key and block; key expansion and the rounds of FIPS 197 are not modelled. Lengths go up to 2^32 - 16, past which the block index would wrap.
- Curve25519.X25519: computes the ladder of RFC 7748; the group law and the agreement of two parties are not part of this model. Primality of 2^255 - 19 is a hypothesis of Curve25519.PowerIsInverse only.
- MillerRabin.IsPrime: that the twelve bases reject every composite below 2^64 rests on an external computation; MillerRabin.ExactBelow1681 proves it below 1681.
- Heap.Allocator.Malloc: requires requests of at most 2^63 - 8216 bytes; for larger ones HeapModel.HugeRequestsUnmet states what growth gives, and the allocator then writes a header outside the memory it has, which is not modelled; calloc, and programs that call sbrk themselves, are left out.
- Stdio: append mode, pipes, terminals and read errors are left out, and so are fopen, fclose and the loops over fgetc and fputc.
- Diff: the decimal text of the hunk headers and the `< ` and `> ` prefixes; hunks are values that hold the printed numbers and lines.
- FutexMutex: main's wait on `done`, which reads it twice, and the heap and descriptor checks of the worker.
- Cksum.CksumFile: reads whole files in blocks of 4096; the printed line is left out.
- Base64.Base64Encode: requires the encoded length to be below 2^32, as do the C index variables; so does Base32.Base32Encode.
- Base64.DecodeStream: what was written before a rejection is not described; nor is it for Base32.DecodeStream.
- Tabs.CmdUnexpand: columns are unbounded integers; 2047 tabs of a width of 2^20 or more would overflow the C int.
- ShellModel.QuotedWordsReachArgv: is about a line that is no builtin; the builtins, job control, execution, the sequencing of segments by status, and how a wildcard word becomes file names (a parameter) are left out.
- Shell.ExpandCmdsubst: the output of a command, made into one line of at most 511 characters, is a parameter.
- Boot, interrupt controllers, paging, the file systems, the network stack, random numbers, hashing and the simple coreutils: hardware, I/O or code with only easy properties.
