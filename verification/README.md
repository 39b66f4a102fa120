# Verification of the RTAI arithmetic, FIFO and synchronisation core

Dafny models of the parts of RTAI whose correctness depends on exact integer reasoning or on
the order in which tasks take their steps, with the properties they are meant to have:

- the mathematics library used by real-time tasks: `sqrt`, `fmod`, `remainder` and the argument
  reduction of the trigonometric functions, all of which work on the words of a double;
- the real-time FIFOs: the ring of bytes, the semaphores with their queues, the wakeups, and the
  whole protocol between senders and receivers;
- bit-flag synchronisation with waiters on a linked queue;
- the encoding of six-character names in 32 bits.

`dafny verify dfyconfig.toml` checks everything.

## How the parts are modelled

**Words and doubles** (`Words`, `Doubles`). The words of the C code are the integers of the types
`u32` and `i32`, so every sum that must not overflow is shown not to; wrapping, shifting and the
bit operations are written out. A double is its two words. Magnitudes are integers, counted in
units of 2^-1074, which makes every finite double an integer and "correctly rounded" a statement
about integers. `Exact` stands for a floating-point operation whose result is representable;
every use of it is proved to be such a case.

**sqrt, fmod, remainder** (`Sqrt`, `Fmod`, `Remainder`). The methods follow the C code line by
line. The square root is specified as the double that the standard asks for in each of the four
rounding modes, among all doubles, not only among those of the same exponent; where the C code
shifts by 32 places, which C leaves undefined, both usual outcomes are allowed and shown
not to matter. `fmod` is specified by the remainder of integers, `remainder` by the multiple of
p nearest to x with ties to even, in each rounding mode.

**Argument reduction** (`Digits`, `KernelRemPio2`, `RemPio2`). All the doubles in these lines
hold integers or integers over a power of two and are modelled as such; the contracts state the
bounds that keep them exact in 53 bits. One unit is the weight of 1 in the product x * 2/pi.

**FIFOs** (`RingBuffer`, `Mailbox`, `LinkedRing`, `SemaphoreSpec`, `Semaphore`, `RequestQueue`).
The mailbox is a class over an array that refines a bounded sequence of bytes. The semaphore is
a class over a circular, doubly linked queue on the heap that refines the value `SemaphoreSpec.Sem`;
properties of all runs are proved of that value. Queue members and the records they
are embedded in are one object, and the null `task` pointer of the queue head is a constructor of
its own. Tickets and the ghost sequences exist only for the proofs. The runs of `SemaphoreSpec`
also follow the tasks that `mbx_sem_delete` has taken off a queue until they have left.

**The protocol** (`Protocol`, `ProtocolInvariant`, `ProtocolTheorems`, `ProtocolProgress`,
`ProtocolCalls`, `ProtocolCompletion`, `SharedRequests`). Any number of tasks send and receive; a step is a protected
section, one byte of a `memcpy`, one locked update or one test of a shared counter, and the steps
of different tasks interleave freely. `Inv` is what every step keeps. The theorems then hold in
every reachable state. `ProtocolCalls` says that what happens is what the tasks called for: the
message, the size, the priority and whether the call may wait. `ProtocolProgress` shows that no run goes on for ever without new calls,
`ProtocolCompletion` which calls have returned when it has come to its end. `SharedRequests` puts
any number of FIFOs side by side, with the one ring of wakeups that they share.

**Bit flags** (`BitsSpec`, `Bits`). A word is its 32 bits. The class walks the queue and unlinks
members while doing so; each operation refines an event of `BitsSpec`, which says what the walk
amounts to and what follows over runs.

**Names** (`Names`). The decoder writes from the end of a buffer and then moves the text forward
in place.

## Findings

Some properties that one would expect do not hold of the code as written; each comes with
inputs on which it fails and with the exact condition under which it holds.

- `mbx_sem_wait` marks the caller interruptible only after the protected section
  (`fifos/rtai_fifos.c:257-258`), and the handler wakes only interruptible tasks (line 722). A
  wakeup delivered in between is lost, and the caller sleeps for good while owning the
  semaphore: `LostWakeupHappens`, `StuckExactlyWhenMissed`, `StuckForGood`. `mbx_wait` sets the
  state inside its protected section and loses nothing.
- A wait can fail in three ways (`FailedWaits`). A task still in the queue that gives up leaves
  the semaphore free, or owned by one task that is still in its call, if and only if another one
  stays in the queue; the only waiter sets it free although it has an owner (`TwoOwners`). A task
  that was handed the semaphore and then finds a signal pending (lines 260-262 and 278) leaves
  without signalling, and the semaphore stays taken with nobody to release it (`NobodyOwns`,
  `OrphanedStays`). The third way follows.
- After `mbx_sem_delete` every waiter still takes itself off the queue, through its stale links.
  Whatever the queue has become, it is a proper circle afterwards if and only if it was one but for
  the task that leaves: the links of that task name neighbours in it, or nobody in it
  (`LinkedRing.Unlink`, `Sem.AfterSleep`). For a queue in order that is so if and only if nobody was
  dismissed behind the task and nobody has queued since (`StepKeepsQueue`, `Sem.AfterSleep`); after
  several departures, in whatever order, it is asked of the one that left last
  (`DeparturesKeepQueue`). Otherwise the head leads to tasks that have left (`WrongOrder`), and
  whoever had queued is cut off and not woken any more (`NewcomerCutOff`, `StaysCutOff`). The departure leaves
  one owner if and only if the semaphore was free already or others were dismissed behind the
  task; when the whole of a queue has left, the semaphore is free with its owner still in its call
  (`FailedWaits`, `DeletedQueue`).
- `mbx_receive_if` compares the request with the free bytes instead of the available ones:
  `ReceiveIfIsExact`, `ReceiveIfFails`.
- Exit functions of bit-flag waits change the flags without looking at the queue, so a waiter
  whose condition now holds may stay asleep: `HarmlessExits`, `AWaiterIsStranded`.
- `remainder` gives a zero the sign of x unless rounding is toward minus infinity and x is an odd
  multiple of p other than p and -p: `Remainder`, `TriplesLoseSign`, `WrongSign`.

The ring of pending wakeups cannot tell 64 requests from none (`NothingLost`); the number of
tasks bounds what can be pending, over all FIFOs that share it (`SharedRequests.RequestsFit`).

## Model

| member | source | states |
|---|---|---|
| Words.BitwiseOperations | libm/e_sqrt.c:132-134 | each bit of an or is the or of the bits, each bit of an and the and |
| Doubles.Classes | libm/e_remainder.c:52-58 | zero, finite, infinite and NaN by the bits below the sign as one number |
| Doubles.Subnormal | libm/e_sqrt.c:122-132 | below the smallest normal number the bits count units of 2^-1074 |
| Doubles.RepresentableExactly | libm/e_sqrt.c:189-193 | the representable magnitudes are those of the finite doubles |
| Doubles.SignificandAndExponent | libm/e_sqrt.c:122-134 | the magnitude of a normal double is its 53-bit significand scaled by the biased exponent less one |
| Doubles.GridGap | libm/e_sqrt.c:189-193 | from 2^52 units of 2^t upward every double is a multiple of 2^t; no double lies between neighbours of the grid |
| Doubles.Sterbenz | libm/e_remainder.c:67-74 | the difference of two doubles within a factor of two is a double, so the subtractions are exact |
| Sqrt.RootIsUnique | libm/e_sqrt.c:121-194 | the definition of the correctly rounded root leaves one double |
| Sqrt.FillHighWord | libm/e_sqrt.c:124-127 | moving the low word up 21 bits at a time ends, keeps the value and counts the shifts |
| Sqrt.NormalizeSubnormal | libm/e_sqrt.c:123-132 | a subnormal is scaled until bit 20 of the high word is its top bit, whatever a shift by 32 places yields |
| Sqrt.Normalize | libm/e_sqrt.c:122-139 | every finite positive double is w * 4^m * 2^-52 with 2^52 <= w < 2^54 |
| Sqrt.HighDigit | libm/e_sqrt.c:148-156 | one digit of the high word: the next root, or the same, and the remainder that goes with it |
| Sqrt.HighDigits | libm/e_sqrt.c:142-157 | the first loop leaves the upper digits of the integer square root and the scaled remainder |
| Sqrt.AddDigit | libm/e_sqrt.c:164-165 | the top-bit test recognises the one carry out of s1 that can occur |
| Sqrt.Subtract | libm/e_sqrt.c:166-168 | the borrow by hand subtracts 64-bit pairs |
| Sqrt.LowDigit | libm/e_sqrt.c:161-172 | one digit of the low word: the next root, or the same, and the remainder that goes with it |
| Sqrt.LowDigits | libm/e_sqrt.c:159-174 | the second loop completes the root; s0:s1 is twice the root so far and ix0:ix1 the remainder |
| Sqrt.Digits | libm/e_sqrt.c:141-174 | together q:q1 is the integer square root of w * 2^54, with its remainder |
| Sqrt.RootDigits | libm/e_sqrt.c:142-177 | the digits satisfy q^2 <= n < (q+1)^2, and the remainder is zero exactly for perfect squares |
| Sqrt.RoundingIsCorrect | libm/e_sqrt.c:176-191 | dropping the guard bit rounds correctly in all four modes: an exact root is even and a tie cannot occur |
| Sqrt.NearestNeverCarries | libm/e_sqrt.c:176-194 | rounding to nearest never carries out of 53 bits: the digits are at most 2^54 - 2 |
| Sqrt.Round | libm/e_sqrt.c:177-188 | the two floating-point probes select the digits that the rounding mode asks for |
| Sqrt.Pack | libm/e_sqrt.c:189-193 | the packed words decode to the rounded root with exponent m, also when rounding carries into the next binade |
| Sqrt.Neighbours | libm/e_sqrt.c:189-194 | where any other double can lie beside k * 2^t |
| Sqrt.DigitsRoundCorrectly | libm/e_sqrt.c:176-194 | a root rounded digit by digit is the correctly rounded root among all doubles |
| Sqrt.PositiveRoot | libm/e_sqrt.c:121-194 | for every finite positive double, normal or subnormal, the result is the correctly rounded square root |
| Sqrt.Sqrt | libm/e_sqrt.c:97-195 | the same, with NaN, infinities, zeros and negative arguments |
| Fmod.CountDown | libm/e_fmod.c:60-64 | the doubling loops end at the bit length of the word |
| Fmod.Ilogb | libm/e_fmod.c:58-65 | ix is floor(log2 \|x\|), for subnormals too |
| Fmod.ExponentIsLogarithm | libm/e_fmod.c:58-74 | the exponent so defined is the binary logarithm of the value, rounded down |
| Fmod.Align | libm/e_fmod.c:76-88 | the aligned pair has its top bit at bit 20 and stands for the same magnitude |
| Fmod.FixedPoint | libm/e_fmod.c:103-114 | shift and subtract leaves the remainder of x * 2^n by y |
| Fmod.FixedPointStep | libm/e_fmod.c:104-112 | one round keeps x below 2y and the remaining doublings congruent modulo y |
| Fmod.RemIsModulus | libm/e_fmod.c:52-115 | the recursive remainder of the specification is the modulus of integers |
| Fmod.Renormalize | libm/e_fmod.c:119-122 | the normalising loop ends and keeps the value that iy and the pair stand for |
| Fmod.Denormalize | libm/e_fmod.c:127-135 | the right shift to a subnormal drops only zero bits, in its three ranges |
| Fmod.Restore | libm/e_fmod.c:116-139 | the result has exactly the magnitude of the remainder and the sign of x |
| Fmod.Reduce | libm/e_fmod.c:58-139 | for \|x\| > \|y\| the result is \|x\| mod \|y\| with the sign of x |
| Fmod.Fmod | libm/e_fmod.c:33-140 | fmod is exact for finite x and finite non-zero y; NaN otherwise |
| Remainder.RemainderIsUnique | libm/e_remainder.c:61-79 | the definition by the nearest multiple with ties to even leaves one result |
| Remainder.FoldedIsNearest | libm/e_remainder.c:65-76 | subtracting p up to twice from a number below 2p gives the nearest-multiple remainder |
| Remainder.SignsOfRemainder | libm/e_remainder.c:63-78 | signs of x and p carry over to the remainder |
| Remainder.TwiceIsDouble | libm/e_remainder.c:61 | p + p is exact below the threshold of line 61 |
| Remainder.HugeDivisor | libm/e_remainder.c:61 | above it, every finite x is below 2p already |
| Remainder.FoldSmall | libm/e_remainder.c:65-69 | the branch for small p, in doubles, is the folding on integers, with the sign of a zero in each rounding mode |
| Remainder.FoldHalf | libm/e_remainder.c:70-75 | so is the branch with p_half |
| Remainder.FiniteRemainder | libm/e_remainder.c:61-79 | for finite x and finite non-zero p the result is the IEEE remainder; a zero has the sign of x if and only if LosesSign does not hold |
| Remainder.TriplesLoseSign | libm/e_remainder.c:61-78 | a double that is three times the double p is an x whose zero has the wrong sign when rounding toward minus infinity |
| Remainder.WrongSign | libm/e_remainder.c:37-80 | two positive doubles whose remainder is -0 in that mode |
| Remainder.Remainder | libm/e_remainder.c:37-80 | the same for all doubles and rounding modes: NaN for NaN, infinite x or zero p, and x itself for infinite p |
| RemPio2.ScaleArgument | libm/e_rem_pio2.c:172-176 | \|x\| is z * 2^e0 with 2^23 <= z < 2^24 |
| RemPio2.SplitPieces | libm/e_rem_pio2.c:177-183 | the pieces are integers below 2^24 that sum up to z, and trailing zero pieces are dropped |
| RemPio2.Pieces | libm/e_rem_pio2.c:172-183 | the pieces with weights 2^(e0-24i) are exactly \|x\| |
| RemPio2.LargeArgument | libm/e_rem_pio2.c:169-184 | the pieces of a large argument meet what the kernel asks for; after all the passes of the kernel their product with all 66 digits of 2/pi is n + g or n - g modulo 8, 0 <= g <= 1/2, up to an error below \|pieces\| * 2^24 units of the last weight used; only the arrays of 20 can become too short, never the table |
| KernelRemPio2.FirstDigitSkips | libm/k_rem_pio2.c:181-184 | exactly the digits of 2/pi are skipped whose product with x[0] has a weight of 8 or more |
| KernelRemPio2.FillFactors | libm/k_rem_pio2.c:186-188 | f holds the digits p[jv-jx], p[jv-jx+1], ... of 2/pi, zero before the first |
| KernelRemPio2.Convolve | libm/k_rem_pio2.c:192 | a coefficient of the product; all products and partial sums are integers below 2^53 |
| KernelRemPio2.FillProducts | libm/k_rem_pio2.c:190-193 | q[i] is the coefficient of weight q0 - 24i of the product, an integer below 2^53 |
| KernelRemPio2.KeptEntries | libm/k_rem_pio2.c:190-193 | the entries of q are the lower end of the product |
| KernelRemPio2.SkippedIsMultipleOfEight | libm/k_rem_pio2.c:181-193 | what lies above them is a multiple of 8 |
| KernelRemPio2.Distill | libm/k_rem_pio2.c:197-202 | carry propagation keeps the value, every iq[i] is a digit, for any number of digits; z stays below 2^53 |
| KernelRemPio2.Trim | libm/k_rem_pio2.c:205-208 | z becomes its fraction, in the same units and not larger than before, and n its integer part modulo 8 |
| KernelRemPio2.TakeTopBits | libm/k_rem_pio2.c:211-212 | the integer bits of the highest digit move to n |
| KernelRemPio2.HalfIsExact | libm/k_rem_pio2.c:216-238 | a fraction of at least one half kept in z has q0 >= -53, so that one - z is exact |
| KernelRemPio2.ExtractInteger | libm/k_rem_pio2.c:204-216 | the value is 8k + n + fraction below one, and ih > 0 exactly when the fraction is at least one half, for each sign of q0; ih == 2 only for q0 >= -53 |
| KernelRemPio2.ComplementDigits | libm/k_rem_pio2.c:219-227 | the digits are subtracted from BASE^jz, with carry telling a non-zero number |
| KernelRemPio2.ClearWholeUnits | libm/k_rem_pio2.c:228-235 | the masks cut off what the complement left above one unit |
| KernelRemPio2.NegateFraction | libm/k_rem_pio2.c:220-239 | fraction becomes one minus fraction, wherever it is stored, in numbers below 2^53 |
| KernelRemPio2.IntegerPart | libm/k_rem_pio2.c:204-240 | afterwards the value is n + g or n - g modulo 8 with 0 <= g <= 1/2, according to ih |
| KernelRemPio2.DistillAndReduce | libm/k_rem_pio2.c:196-240 | the two together, as they stand at the label recompute |
| KernelRemPio2.FirstPass | libm/k_rem_pio2.c:177-240 | from the entry of the kernel to line 240 the product is reduced modulo 8 |
| KernelRemPio2.TakeMoreDigits | libm/k_rem_pio2.c:249-254 | recomputation starts from the next digits of p and their correct coefficients |
| KernelRemPio2.TestDigits | libm/k_rem_pio2.c:243-245 | tells whether z and all digits from jk on are zero |
| KernelRemPio2.TermsNeeded | libm/k_rem_pio2.c:247 | finds the first digit below jk that is not zero, if there is one |
| KernelRemPio2.NextPass | libm/k_rem_pio2.c:249-256 | with k more digits the product is reduced again |
| KernelRemPio2.Reduce | libm/k_rem_pio2.c:177-257 | after any number of passes the product with all digits is reduced, and something is left of the fraction; or all the digits have cancelled, or more are needed than the arrays or the table have |
| KernelRemPio2.ProductByDigits | libm/k_rem_pio2.c:190-193 | the coefficients collect every digit of x times a prefix of 2/pi |
| KernelRemPio2.PrefixIsHorner | libm/k_rem_pio2.c:188 | the digits read are those of the number p, in the order in which they stand |
| KernelRemPio2.WholeUnits | libm/k_rem_pio2.c:184 | a unit of the kernel is the unit of the product of x and p, x[0] counting 2^e0 and p[0] 2^-24 |
| KernelRemPio2.FullProduct | libm/k_rem_pio2.c:190-193 | taken to the end they are the product of the two numbers |
| KernelRemPio2.Truncation | libm/k_rem_pio2.c:190-195 | stopping earlier loses less than nx * 2^24 units of the last weight |
| KernelRemPio2.WholeReduction | libm/k_rem_pio2.c:177-240 | so the product of the pieces with all digits is n + g or n - g modulo 8 up to an error below nx * 2^24 units of the last weight used |
| RingBuffer.WindowGrows | fifos/rtai_fifos.c:376-384 | bytes copied behind the readable window lengthen it, also across the end of the buffer |
| RingBuffer.WindowShrinks | fifos/rtai_fifos.c:453-461 | bytes in front of it can be read in one piece and taken away |
| Mailbox.Mailbox.constructor | fifos/rtai_fifos.c:526-528 | a new mailbox is empty and valid |
| Mailbox.Mailbox.Put | fifos/rtai_fifos.c:364-390 | appends exactly min(message, room) bytes and returns the rest |
| Mailbox.Mailbox.Get | fifos/rtai_fifos.c:441-467 | removes exactly min(request, available) bytes from the front and returns the rest |
| Mailbox.Mailbox.Eavesdrop | fifos/rtai_fifos.c:469-493 | returns what Get would and changes nothing |
| Mailbox.Mailbox.OverwritingPut | fifos/rtai_fifos.c:392-439 | terminates and leaves the last size bytes of contents and message, also for messages longer than the buffer |
| Mailbox.Mailbox.FillUp | fifos/rtai_fifos.c:402-420 | one copy into the free part loses nothing |
| Mailbox.Mailbox.MakeRoom | fifos/rtai_fifos.c:422-436 | the oldest bytes are given up until the rest fits, and no more than that |
| Mailbox.SurvivorsAreLast | fifos/rtai_fifos.c:392-439 | what survives the dropping is the tail of everything |
| Mailbox.Mailbox.SendIf | fifos/rtai_fifos.c:578-593 | all of the message or nothing |
| Mailbox.Mailbox.ReceiveIf | fifos/rtai_fifos.c:663-678 | what it delivers and leaves, with the comparison it makes |
| Mailbox.ReceiveIfIsExact | fifos/rtai_fifos.c:663-678 | it is all-or-nothing on the available bytes if and only if a condition on the counters holds |
| Mailbox.ReceiveIfFails | fifos/rtai_fifos.c:663-678 | two states of a mailbox in which it refuses what is there or delivers a part |
| LinkedRing.InsertBefore | fifos/rtai_fifos.c:172-178 | linking in front of q inserts at its place of the circle |
| LinkedRing.Unlink | bits/rtai_bits.c:46-52 | unlinking removes the member from the circle and leaves its own links alone; whatever its links are, the others form a circle afterwards if and only if they did but for it |
| SemaphoreSpec.EnqueuedSplits | fifos/rtai_fifos.c:168-179 | a new waiter goes behind all of at least its priority and before all others |
| SemaphoreSpec.StepKeepsQueue | fifos/rtai_fifos.c:168-279 | whatever happens to the owners, an event keeps: the queue leads to all who wait and to nobody else, by priority and arrival; it does so if and only if it is not a dismissed task leaving with others dismissed behind it or with a newcomer queued |
| SemaphoreSpec.StepKeepsInvariant | fifos/rtai_fifos.c:188-279 | an event also keeps: free or one owner in its call, and free means nobody waits; it does so if and only if it is not a failed wait, or one from a queue with another waiter, or one of the last task dismissed while the semaphore is free |
| SemaphoreSpec.RunKeepsInvariant | fifos/rtai_fifos.c:188-279 | so it holds in every run from a new semaphore of value 1 with such events |
| SemaphoreSpec.WaitersAsked | fifos/rtai_fifos.c:251-256 | in every run each record is of one call of mbx_sem_wait: with its task, its priority and its number |
| SemaphoreSpec.SignalServesFirst | fifos/rtai_fifos.c:188-200 | each signal hands over to a waiting task, the one of the highest priority it called with, and the earliest call among these |
| SemaphoreSpec.AskingForIt | fifos/rtai_fifos.c:230-276 | who asks owns the semaphore at once if and only if it is free; otherwise the task waits, or is refused and nothing changes |
| SemaphoreSpec.OutsidersMayAsk | fifos/rtai_fifos.c:230-276 | any task that neither owns the semaphore nor waits may ask |
| SemaphoreSpec.ReturnedMaySignal | fifos/rtai_fifos.c:276-278 | a task that was handed the semaphore can give it on when its wait has returned |
| SemaphoreSpec.HighestFirst | fifos/rtai_fifos.c:174-176 | a run in which the last to come, of the highest priority, is served first |
| SemaphoreSpec.FailedWaits | fifos/rtai_fifos.c:260-278 | for a task in the queue, one that was handed the semaphore and one dismissed by mbx_sem_delete: exactly when a failed wait leaves one owner or a free semaphore, exactly when it leaves the queue in order, and what it leaves otherwise |
| SemaphoreSpec.OrphanedStays | fifos/rtai_fifos.c:260-278 | a semaphore without owner stays taken until a wait fails that leaves nobody behind |
| SemaphoreSpec.Departures | fifos/rtai_fifos.c:264-268 | dismissed tasks leave in any order: the head leads to the records behind the one that left last; the semaphore is set free if and only if one of them had none behind it |
| SemaphoreSpec.DeparturesKeepQueue | fifos/rtai_fifos.c:264-268 | from any queue: it is in order after some departures if and only if nobody had queued and the last to leave was the last of those dismissed with it; whoever had queued is cut off |
| SemaphoreSpec.DeletedQueue | fifos/rtai_fifos.c:504-519 | a whole queue is deleted and leaves: it is in order if and only if the last of the queue leaves last; the semaphore is free with an owner; two tasks or more lead the head astray on the way in any order |
| SemaphoreSpec.StaysCutOff | fifos/rtai_fifos.c:168-279 | no wait, signal or deletion, nor the failed wait of a queued, owning or dismissed task, leads the queue back to a task that was cut off |
| SemaphoreSpec.TwoOwners | fifos/rtai_fifos.c:264-268 | a run in which the only waiter gives up and a second task gets the semaphore |
| SemaphoreSpec.NobodyOwns | fifos/rtai_fifos.c:260-278 | a run in which a task leaves after the semaphore was handed to it, with another one waiting |
| SemaphoreSpec.WrongOrder | fifos/rtai_fifos.c:504-519 | a run in which two dismissed tasks leave and the queue leads to one of them |
| SemaphoreSpec.NewcomerCutOff | fifos/rtai_fifos.c:504-519 | a run in which a task that queued after a deletion is cut off, and two others own the semaphore |
| Semaphore.EnqueuedAt | fifos/rtai_fifos.c:174-176 | the place where the walk stops is the place of the specification |
| Semaphore.Sem.constructor | fifos/rtai_fifos.c:495-502 | a new semaphore has the given value and an empty queue |
| Semaphore.Sem.Walk | fifos/rtai_fifos.c:173-176 | the loop finds the first waiter of lower priority, or the head |
| Semaphore.Sem.Enqueue | fifos/rtai_fifos.c:168-179 | refines Enqueued on the heap |
| Semaphore.Sem.Wait | fifos/rtai_fifos.c:244-279 | refines Wait with the priority of the caller and tells whether it sleeps, which is when it joins the queue |
| Semaphore.Sem.WaitIf | fifos/rtai_fifos.c:230-242 | refines WaitIf: acquired if and only if it was free, taken afterwards |
| Semaphore.Sem.Dequeue | fifos/rtai_fifos.c:181-186 | takes a waiter out of the queue and clears its flag; off the queue, the two writes through its links |
| Semaphore.Sem.Signal | fifos/rtai_fifos.c:188-212 | refines Signal; the woken task is off the queue with its flag clear |
| Semaphore.Sem.AfterSleep | fifos/rtai_fifos.c:260-278 | a wait fails if and only if a signal is pending or the flag is still set; what it then does to a queue it is in or has left, and, off the queue, exactly which circles of waiters there are afterwards; dismissed by Delete, it leads the head of whatever queue there is on to those behind it, and the queue is in order if and only if there are none |
| Semaphore.Sem.Delete | fifos/rtai_fifos.c:504-519 | wakes every waiter once, in the order of the queue, and leaves their flags set, their next links as they were and their prev links at the head |
| RequestQueue.TaskQueue.Request | fifos/rtai_fifos.c:196-198 | appends a request, or empties a ring of 63 |
| RequestQueue.TaskQueue.Drain | fifos/rtai_fifos.c:721-726 | serves all pending requests in order |
| RequestQueue.WhatIsLeft | fifos/rtai_fifos.c:142-143 | of n requests the last n mod 64 are left |
| RequestQueue.NothingLost | fifos/rtai_fifos.c:142-143 | nothing is lost if and only if fewer than 64 are made |
| ProtocolInvariant.CopiesStayApart | fifos/rtai_fifos.c:379-459 | senders write free bytes and receivers read available ones, byte for byte |
| ProtocolInvariant.SlotIsFree | fifos/rtai_fifos.c:286-288 | the slot is empty when a task is about to enter it |
| ProtocolInvariant.StepKeepsInv | fifos/rtai_fifos.c:188-303 | every step of every task keeps the whole invariant |
| ProtocolInvariant.RunKeepsInv | fifos/rtai_fifos.c:544-593 | it holds in every reachable state of sends and receives without timeouts and without overwriting |
| ProtocolTheorems.FirstInFirstOut | fifos/rtai_fifos.c:544-627 | bytes received followed by bytes buffered are the bytes sent, in order |
| ProtocolTheorems.MutualExclusion | fifos/rtai_fifos.c:546-558 | one sender and one receiver at a time |
| ProtocolTheorems.SenderWritesOnlyFreeBytes | fifos/rtai_fifos.c:379 | no copied byte lands on a readable one |
| ProtocolTheorems.MessagesStayTogether | fifos/rtai_fifos.c:544-559 | messages are not mixed, and an unconditional send sends all of its message |
| ProtocolTheorems.ReceiversGetContiguousBytes | fifos/rtai_fifos.c:612-644 | a receiver gets a contiguous piece of the stream |
| ProtocolTheorems.SlotNeverOverwritten | fifos/rtai_fifos.c:286-288 | waiting_task is never overwritten |
| ProtocolTheorems.SlotSleepersAreWoken | fifos/rtai_fifos.c:214-228 | a task asleep in mbx_wait has nothing to do, or its wakeup is pending, or its peer will signal |
| ProtocolTheorems.NeverBothAsleep | fifos/rtai_fifos.c:281-303 | sender and receiver never both sleep without a pending wakeup |
| ProtocolTheorems.NobodyGivesUp | fifos/rtai_fifos.c:264-298 | without signals and timeouts no wait is broken off |
| ProtocolTheorems.PendingIsBounded | fifos/rtai_fifos.c:196-223 | there is at most one pending wakeup per task |
| ProtocolTheorems.RequestsFit | fifos/rtai_fifos.c:142-143 | with fewer than 64 tasks the requests of one FIFO never fill the ring |
| ProtocolTheorems.AwakeTasksGoOn | fifos/rtai_fifos.c:544-627 | a task in a call can go on unless it is asleep |
| ProtocolTheorems.StallsOnlyForAPeer | fifos/rtai_fifos.c:544-627 | no deadlock: if nothing can happen and no wakeup was missed, the holder waits for a side that is not there |
| ProtocolTheorems.WhenWakeupsAreMissed | fifos/rtai_fifos.c:721-726 | a wakeup is dropped if and only if it comes between lines 257 and 258 |
| ProtocolTheorems.StuckExactlyWhenMissed | fifos/rtai_fifos.c:257-259 | a task is stuck if and only if it fell asleep after its wakeup was missed |
| ProtocolTheorems.StuckForGood | fifos/rtai_fifos.c:257-259 | no step of anybody ends that, and the semaphore stays taken |
| ProtocolTheorems.LostWakeupHappens | fifos/rtai_fifos.c:257-259 | a run of two senders in which it happens |
| ProtocolCalls.TasksOnTheirWay | fifos/rtai_fifos.c:544-661 | in every reachable state a task in a call has the role, message and size of the last call it made, and what it has moved and has left add up to it |
| ProtocolCalls.WhoMayCall | fifos/rtai_fifos.c:544-661 | any idle task may call; a conditional call goes on only where the semaphore is free |
| ProtocolCalls.CallGetsSemaphore | fifos/rtai_fifos.c:251-276 | a call has its semaphore at once if and only if that is free, otherwise it waits for it |
| ProtocolCalls.ConditionalCallsNeverWait | fifos/rtai_fifos.c:561-593 | from its call to its release a task in mbx_send_wp, mbx_send_if, mbx_receive_wp or mbx_receive_if holds the semaphore, is awake, in no queue and not in the slot, and can go on |
| ProtocolCalls.WaitsForBytes | fifos/rtai_fifos.c:549-550 | the loop is left if and only if nothing is left to move; it sleeps if and only if something is and the counter is 0 |
| ProtocolCalls.LeavesWhenNothingCanMove | fifos/rtai_fifos.c:369 | mbx_put and mbx_get are left if and only if nothing is left to move or the counter is 0 |
| ProtocolCalls.MovesAsMuchAsPossible | fifos/rtai_fifos.c:370-375 | a memcpy moves all that is wanted, all there is, or up to the end of the buffer |
| ProtocolCalls.GoesRoundAgain | fifos/rtai_fifos.c:548-555 | after mbx_signal exactly the blocking calls go round again |
| ProtocolCalls.SentAsCalled | fifos/rtai_fifos.c:544-593 | the stream ends with the first bytes of the message of the call, all of them after a blocking send |
| ProtocolCalls.ReceivedAsCalled | fifos/rtai_fifos.c:612-661 | what a receiver has and what it reports as left are what it asked for; nothing is left after a blocking receive |
| ProtocolCalls.LinesOfCalls | fifos/rtai_fifos.c:251-256 | the queues hold the calls with their own priorities, ordered by priority and then by time |
| ProtocolCalls.HighestPriorityFirst | fifos/rtai_fifos.c:188-200 | a released semaphore goes to the waiting call of the highest priority, the earliest among these |
| ProtocolProgress.StepsUseUp | fifos/rtai_fifos.c:188-303 | every step inside a call decreases the bytes left to be moved, or the work until the next ones are |
| ProtocolProgress.RunsEnd | fifos/rtai_fifos.c:544-627 | no run goes on for ever without a new call, whatever the order of the steps |
| ProtocolProgress.SomeRunStalls | fifos/rtai_fifos.c:544-627 | every reachable state leads to a stalled one without new calls |
| ProtocolCompletion.BalanceIsOffered | fifos/rtai_fifos.c:544-627 | in runs of unconditional calls the bytes to be sent and in the buffer, less those to be received, are the bytes offered by the calls less those asked for |
| ProtocolCompletion.Completion | fifos/rtai_fifos.c:544-627 | when such a run has come to its end without a missed wakeup, all calls have returned if and only if that difference is between nothing and the size of the buffer |
| SharedRequests.SystemKeepsInv | fifos/rtai_fifos.c:142-143 | any number of FIFOs: each keeps its invariant, a task is in one call at a time, and the shared ring holds what all of them have pending, each task once |
| SharedRequests.OneRequestPerTask | fifos/rtai_fifos.c:196-226 | the shared ring never holds more requests than there are tasks |
| SharedRequests.RequestsFit | fifos/rtai_fifos.c:142-143 | with fewer than 64 tasks the shared ring never runs over |
| SharedRequests.FrontIsFirst | fifos/rtai_fifos.c:721-726 | the handler serves the requests of each FIFO in the order in which that FIFO made them |
| BitsSpec.TestsBits | bits/rtai_bits.c:57-75 | the four tests say that all, or some, bits of the mask are set, or clear |
| BitsSpec.SatisfiedExactly | bits/rtai_bits.c:57-75 | so a task waits for its own test of its own mask |
| BitsSpec.ChangesBits | bits/rtai_bits.c:137-157 | a change treats each flag by itself: outside the mask nothing changes, in it all are set, or all cleared |
| BitsSpec.KeptExactly | bits/rtai_bits.c:263-273 | a signal leaves exactly the waiters whose test fails, in their old order |
| BitsSpec.WokenExactly | bits/rtai_bits.c:263-273 | and wakes exactly the others, each once |
| BitsSpec.SplitConserves | bits/rtai_bits.c:263-273 | nobody is lost |
| BitsSpec.ReadyExactly | bits/rtai_bits.c:268 | a waiter becomes runnable if and only if its state is READY with SEMAPHORE or DELAYED or both |
| BitsSpec.StateBits | bits/rtai_bits.c:268 | the state word of a woken task loses the bits SEMAPHORE and DELAYED and no others |
| BitsSpec.ReadiedExactly | bits/rtai_bits.c:268-269 | of the woken tasks exactly these are made ready, each once |
| BitsSpec.FlagsAfter | bits/rtai_bits.c:217-334 | the flags after every operation, one by one; a wait that finds its test true runs its exit function at once |
| BitsSpec.QueueAfter | bits/rtai_bits.c:217-334 | the queue after every operation: a signal leaves exactly those whose test fails under the new flags |
| BitsSpec.QueueInOrder | bits/rtai_bits.c:291-297 | in every run the queue holds tasks of the calls of rt_bits_wait in their order, with the bit SEMAPHORE set and nothing else changed |
| BitsSpec.WokenIsReadied | bits/rtai_bits.c:263-295 | a task that was READY, perhaps with a time limit, when it queued is made ready by the signal that makes its test true, or by a reset |
| BitsSpec.StepConserves | bits/rtai_bits.c:217-334 | over every operation each waiter is queued or leaving, once |
| BitsSpec.StepIsQuiet | bits/rtai_bits.c:217-334 | a step that runs no flag-changing exit function leaves no queued waiter's test true |
| BitsSpec.NobodyWaitsInVain | bits/rtai_bits.c:217-334 | in runs with NOP_BITS exit functions no queued waiter's test ever holds |
| BitsSpec.HarmlessExits | bits/rtai_bits.c:302-313 | an exit function is harmless for every queue if and only if it changes nothing |
| BitsSpec.AWaiterIsStranded | bits/rtai_bits.c:281-313 | a run in which an exit function leaves a waiter behind |
| Bits.Bits.constructor | bits/rtai_bits.c:172-179 | a new object has the given flags and no waiters |
| Bits.Bits.Exec | bits/rtai_bits.c:137-154 | the flags after the change |
| Bits.Bits.Wake | bits/rtai_bits.c:46-52 | one waiter is unlinked, its own link still leading on |
| Bits.Bits.Walk | bits/rtai_bits.c:263-273 | the walk that unlinks on its way visits everybody once |
| Bits.WalkedIsFilter | bits/rtai_bits.c:263-273 | and amounts to filtering the queue |
| Bits.MembersAfterSignal | bits/rtai_bits.c:263-273 | after the walk those are awake whose test holds, with their new state words; the others wait as before |
| Bits.MembersAfterReset | bits/rtai_bits.c:232-239 | after a reset all are |
| Bits.Bits.Signal | bits/rtai_bits.c:248-279 | refines the event Signal: flags, queue, woken and runnable tasks after a signal, and the returned mask; nothing on a deleted object |
| Bits.Bits.Reset | bits/rtai_bits.c:217-246 | refines the event Reset: everybody is woken, the queue is empty, the old mask is returned |
| Bits.Bits.Enqueue | bits/rtai_bits.c:39-44 | a waiter is linked in at the end |
| Bits.Bits.Wait | bits/rtai_bits.c:281-310 | refines the event Wait: either the condition holds and the exit function runs, or the caller is queued last |
| Bits.Bits.Resume | bits/rtai_bits.c:299-313 | refines the event Leave for a woken waiter, which runs its exit function; one still queued gets an error |
| Bits.Bits.WaitIf | bits/rtai_bits.c:315-334 | refines the event WaitIf: never sleeps; runs the exit function exactly when the condition holds |
| Names.Nam2Num | include/rtai_nam2num.h:24-47 | computes the code of the first six characters |
| Names.Num2Nam | include/rtai_nam2num.h:49-71 | writes the name of a number, terminated |
| Names.OneCharacter | include/rtai_nam2num.h:32-40 | 1 to 10 for the decimal digits, 11 to 36 for the letters of either case, 37 for the underscore, 38 for the rest, and what these are decoded to |
| Names.MoreCharacters | include/rtai_nam2num.h:41 | each further character is a digit to the base 39 |
| Names.MagicName | bits/rtai_bits.c:31 | the number stated there for BITSMG |
| Names.ZeroDigit | include/rtai_nam2num.h:57-66 | a digit zero is decoded to the character before 0 |
| Names.Shift | include/rtai_nam2num.h:67-70 | the text moves to the front of its own buffer unharmed |
| Names.CodesFit | include/rtai_nam2num.h:24-47 | codes are below 39^6 and never the code of no name |
| Names.NamesRoundTrip | include/rtai_nam2num.h:24-71 | decoding a code gives the normal form of the name |
| Names.SameCodes | include/rtai_nam2num.h:24-47 | codes are equal if and only if the normal forms are |
| Names.NumbersRoundTrip | include/rtai_nam2num.h:24-71 | encoding undoes decoding if and only if the number has at most six digits and no digit zero, or is the code of no name |

## Left out

- That the table of `libm/e_rem_pio2.c` holds the digits of 2/pi: it is taken as it stands there.
- Polynomial and rational approximations of libm (exp, log, pow, the sin, cos and tan kernels, Bessel, gamma): floating-point error analysis.
- Medium arguments of `__ieee754_rem_pio2` (lines 91-165), and `__kernel_rem_pio2` from line 259 on: sums of rounded doubles.
- KernelRemPio2.Reduce: that `recompute` (lines 243-257 of `libm/k_rem_pio2.c`) never runs out of digits depends on the digits of 2/pi; Reduce says what is computed as long as it does not, and what the digits are when it does.
- NaN payloads and the floating-point status flags; a NaN result is any NaN.
- Signals, timeouts and the `*_timed` calls in the protocol; failed waits of `mbx_sem_wait` are covered by FailedWaits and AfterSleep. `mbx_sem_wait_timed` (lines 305-336), which returns on a signal without leaving the queue, is not part of this model.
- SemaphoreSpec.StaysCutOff: in the runs of SemaphoreSpec the wait of a task that was cut off does not fail, which can bring back others cut off with it; and nobody queues while the head leads to dismissed tasks, among whose records it would be linked in (some of them on stacks that are used again). Sem.AfterSleep holds in these states too.
- Semaphore.Sem.Signal: on the heap it is given a queue in order, and so is Sem.Delete; SemaphoreSpec says what they make of one that leads to dismissed tasks.
- `mbx_delete` and `rtf_reset` in the protocol; SemaphoreSpec has the deletion of one semaphore.
- The user semaphore of a FIFO (`rtf_sem_wait` and the like) in the protocol: its wakeups go to the shared ring too, and SharedRequests counts only those of the mailboxes.
- `mbx_ovrwr_put` together with a receiver: it moves `fbyte` from the sender's side, so it is proved sequentially.
- The semaphore field `qtype`, which is never anything but 0; the queue is always ordered by priority.
- ProtocolInvariant.RunKeepsInv: the timed calls and `mbx_ovrwr_send` take no part in the runs. `pending` is unbounded in the protocol; SharedRequests.RequestsFit says when the ring of 64 requests is as good. The free counter is read once where lines 373-374 read it twice, and a mailbox has at least one byte.
- `rtf_resize`, `rtf_get_if`, `rtf_create_named`, poll and asynchronous notification, and the copying between kernel and user space.
- Scheduler and Linux calls: sleeping, waking and making runnable are steps or results of the operations.
- The tests of two masks and SET_CLR_BITS (`bits/rtai_bits.c:77-135` and lines 147-150): they read a word behind their parameter.
- `rt_bits_delete` and the timed waits of bits; deleted objects appear through the `magic` field.
- The `schedmap` of processors in the bit-flag operations.
- LXRT and net_rpc wrappers, POSIX, comedi, labview, leds and trace.
