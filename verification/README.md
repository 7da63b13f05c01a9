# A model of stress-ng's computing core

stress-ng loads a machine with many small workers ("stressors"). Most of them are system calls
in a loop; a few contain real algorithms and data structures, and the shared helpers decide
which numbers, names and options the workers see. This project models those parts in Dafny and
proves what they compute, for all inputs and for whole runs.

System calls, allocation, the clock and the scheduler appear as arbitrary choices: a method
takes either outcome wherever the program has to cope with both. Loops that run until the user
stops the program take the number of rounds as a parameter, so every statement about them holds
for runs of every length. Machine words are natural numbers with explicit wrap-around, and their
bit operations are defined and proved in `Bits`.

| module | what it models |
|---|---|
| `Queens`, `Fft`, `Crc`, `Parity`, `Sieve` | methods of the CPU stressor |
| `Stride`, `Primes`, `Dentry` | striding over file names with a prime, and the directory entry stressor |
| `DirDeep` | building and removing the deep directory tree |
| `Chains`, `RecyclingList`, `LockContention`, `CloneReaping` | the linked lists of the lockf and clone stressors, and the loops that use them |
| `CloneRuns` | every run of the clone stressor's child as a sequence of turns: clones, records and waits |
| `Settings` | the store of command-line settings, and the parser that fills it |
| `Mwc` | the multiply-with-carry random number generator and its byte and half-word buffers |
| `CacheSweep` | the memory walk of the cache stressor |
| `MmapPages` | unmapping and remapping pages in random order |
| `MessageQueue` | sender and receiver of the message queue stressor as a state machine |
| `IcmpChecksum` | the Internet checksum of the ICMP flood stressor |
| `PipeProbe` | finding the largest pipe size |
| `Basics`, `Bits` | shared vocabulary |

## Where the code does not do what it says

Each of these is proved with its exact condition, and where the condition can fail an input or a
run shows it.

- `stress_get_prime64` is described as finding a prime that is not a multiple of `n`; what
  striding needs is a prime that does not divide `n`. The code moves on only when `n` equals
  its prime, so for 2018 files it strides by 1009 and leaves files behind
  (`Dentry.StrideRemovesAll`, `Dentry.LeavesFilesBehind`).
- The sieve stops one short of the square root. It is exact if and only if the integer square
  root of its size is not prime or its square is the size itself; 10000000 is an exact size, 10
  is not (`Sieve.SieveExactIff`, `Sieve.SieveSizes`).
- The writing cache walk masks with `size - 1`. It reaches every byte if and only if the size is
  a power of two (`CacheSweep.WriteSweepCoverage`). The reading walk divides instead and reads
  every byte, and then each twice, if and only if the size shares no factor with 32769
  (`CacheSweep.ReadSweepCoverage`). A cache of three megabytes defeats both
  (`CacheSweep.ThreeMegabytes`).
- The result of `waitpid` is ignored. When the signal that ends a run interrupts the wait for a
  clone, its record is dropped and the clone can stay un-waited. When no record is left, every
  clone has been waited for if and only if none is lost in this way (`CloneRuns.EveryRun`,
  `CloneRuns.CloneLeftBehind`).
- A failed `clone()` is recorded with process id -1 and the oldest record is reaped. Reaping that
  record later waits for any clone. All clones are waited for in the order of starting if and
  only if none is lost and each wait that can go wrong took the oldest one
  (`CloneRuns.WaitsInOrder`, `CloneRuns.WaitsOutOfOrder`). The maximum the program prints counts
  records, so it can exceed the number of clones there ever were at once; it is that number if
  and only if the list was once that long with nothing but un-waited clones in it
  (`CloneRuns.ReportVersusClones`, `CloneRuns.ReportTooHigh`).
- The search windows of the mmap stressor shrink with the pages left, so a pass is certain to
  find a page if and only if more than half of them are left (`MmapPages.AlwaysFinds`,
  `MmapPages.PassMisses`). Some draw always finds one (`MmapPages.SomeDrawFinds`).
- The mmap stressor ignores the result of `munmap`. A round leaves exactly those pages mapped on
  which a call failed and that were not mapped anew since (`MmapPages.Round`).
- A pipe whose resizing is refused is never closed, so the chop for the largest pipe size uses
  up descriptors and takes an allowed size for refused when they run out. It is right if and
  only if as many are free as it needs, which is never more than 62 (`PipeProbe.ChoppedIff`,
  `PipeProbe.AlwaysEnough`, `PipeProbe.Starved`). A size found by probing is not remembered
  (`PipeProbe.Prober.Probe`).

The list code behind the settings would lose a setting made by a stressor once another one has
made a setting after its first (`Settings.SetThenGet`, `Settings.StaleValue`). The program never
gets there: the parser makes a new owner for every stressor option, so owners do not come back
(`Settings.ParsedOwners`), and every setting is read back (`Settings.ParsedLookup`,
`Settings.ParsedSetThenGet`).

## Model

| member | source | states |
|---|---|---|
| Queens.QueensTry | stress-cpu.c:2091-2110 | from masks that encode any partial board, the result is the number of full peaceful boards extending it, modulo 2^32 |
| Queens.CountQueens | stress-cpu.c:2117-2130 | started on the empty board of `n` columns it counts the set of all solutions, exactly for the sizes the stressor tries |
| Queens.EncodesNext | stress-cpu.c:2106-2107 | shifting the diagonal masks after placing a queen gives masks that encode the longer board |
| Queens.PossIsSafe | stress-cpu.c:2098 | the mask of candidates holds exactly the columns no queen attacks |
| Queens.PickColumn | stress-cpu.c:2101-2104 | `poss & -poss` picks one untried safe column and subtracting it removes exactly that one |
| Queens.LastRow | stress-cpu.c:2105 | the column mask is full if and only if every row is placed |
| Queens.ThroughOneMore | stress-cpu.c:2100-2108 | trying one more column adds exactly the completions of the board extended by it, none twice |
| Queens.CompletionsBound | stress-cpu.c:2091-2110 | a board with `r` rows to fill has at most `r!` completions |
| Queens.CountFits | stress-cpu.c:2121-2126 | for sizes up to 12 the 32-bit counter cannot wrap |
| Fft.FftPartial | stress-cpu.c:446-468 | the in-place recursion leaves in `data` the discrete Fourier transform of the strided input and changes nothing off its stride in either buffer |
| Fft.Transform | stress-cpu.c:474-486 | the transform of a whole buffer: every output is the defining sum over the old contents; an impulse at index 1 comes out as a wave that starts with its value and turns by the square of the root from one output to the next |
| Fft.Combine | stress-cpu.c:458-466 | the loop pairs every even-half and odd-half value once and writes sum and difference to the two output halves |
| Fft.SplitSum | stress-cpu.c:456-457 | the defining sum splits into the sums of the even and of the odd inputs |
| Fft.Periodic | stress-cpu.c:464-465 | the half-length sums repeat with half the period, so one product serves two outputs |
| Fft.Butterfly | stress-cpu.c:460-465 | `v + t` and `v - t` are outputs `k` and `k + n/2` of the defining sum |
| Fft.ImpulseResponse | stress-cpu.c:446-468 | an impulse at index 0 transforms to a constant, and one at index 1 to the wave of successive products with the square of the root |
| Fft.TransformTwice | stress-cpu.c:446-486 | transforming twice gives `n` times the input, each value at the opposite index, so no input is lost |
| Fft.QuarterTurns | stress-cpu.c:461-463 | for two points the successive twiddle factors are the four quarter turns clockwise |
| Fft.ComplexNumbers | stress-cpu.c:463-465 | sum and product are those of the complex numbers: the real ones among them, and the imaginary unit, whose square is -1 |
| Crc.Ccitt | stress-cpu.c:1321-1354 | the byte loop computes the complemented, byte-swapped shift register after all message bits, also for the empty message |
| Crc.GoodFcs | stress-cpu.c:1335-1353 | a message followed by its checksum leaves the register at the CCITT constant 0xf0b8 |
| Crc.OnlyTheChecksumFits | stress-cpu.c:1335-1353 | two bytes appended to a message leave that constant if and only if they are its checksum |
| Crc.FeedComplements | stress-cpu.c:1345-1349 | feeding the register its own complemented bits shifts it out and leaves a constant |
| Crc.BitsReadBack | stress-cpu.c:1345-1349 | up to 16 bits can be read back from the top of the register, whatever it held before |
| Crc.BurstDetected | stress-cpu.c:1335-1353 | two different messages of one length whose bits differ only within 16 places in a row have different checksums |
| Crc.OddErrorsDetected | stress-cpu.c:1335-1353 | two messages of one length whose bits differ in an odd number of places have different checksums |
| Crc.StepParity | stress-cpu.c:1346-1348 | a step changes the parity of the register exactly by the message bit |
| Crc.RegisterIsRemainder | stress-cpu.c:1324-1349 | the bit-reversed register is the remainder of the message polynomial on division by x^16 + x^12 + x^5 + 1 |
| Crc.RemainderUnique | stress-cpu.c:1324-1335 | that remainder is the only one below degree 16 |
| Crc.RegisterIsTheRemainder | stress-cpu.c:1324-1349 | a polynomial below degree 16 is the remainder of the message only if it is the reversed register |
| Parity.Naive | stress-cpu.c:1877-1883 | toggling on every set bit yields the parity of the word |
| Parity.Kernighan | stress-cpu.c:1889-1894 | toggling once per cleared lowest bit yields the parity of the word |
| Parity.Shapira | stress-cpu.c:1904-1908 | the multiply method yields the parity of every 32-bit word |
| Parity.Parallel | stress-cpu.c:1917-1922 | the folding method with the magic number yields the parity of every 32-bit word |
| Parity.Lookup | stress-cpu.c:1932-1935 | the table method on the folded word yields the parity of every 32-bit word |
| Parity.LookupBytes | stress-cpu.c:1945-1946 | the table method on the four bytes yields the parity of every 32-bit word |
| Parity.TableParity | stress-cpu.c:1853-1859 | the table built by the nested macros has 256 entries and entry `i` is the parity of `i` |
| Parity.Fold | stress-cpu.c:1918-1920 | xoring the upper half onto the lower keeps the parity, at every width |
| Parity.ShapiraProduct | stress-cpu.c:1907-1908 | the top nibble of the wrapped product is the sum of the eight nibble bits |
| Parity.MagicNumber | stress-cpu.c:1921-1922 | bit `v` of 0x6996 is the parity of `v` |
| Parity.DropLowest | stress-cpu.c:1893 | `v & (v - 1)` is smaller than `v` and has the opposite parity |
| Sieve.CountPrimes | stress-cpu.c:1476-1492 | the bit array ends with exactly the numbers no smaller prime crosses off; the count is never below the number of primes, and equal to it if and only if the square root is not missed |
| Sieve.CrossOff | stress-cpu.c:1485-1486 | one inner loop clears every `i`th bit from the wrapped square of `i` on and no other; up to 65535 these are the multiples from the square on |
| Sieve.SieveExactIff | stress-cpu.c:1478-1486 | exactly the primes survive if and only if the root of the size is not prime or its square is the size |
| Sieve.SieveSizes | stress-cpu.c:1478-1483 | the size in use is exact; at size 10 the number 9 would survive |
| Sieve.SurvivorsVersusPrimes | stress-cpu.c:1488-1492 | the survivors number at least the primes, and as many if and only if they are the primes |
| Sieve.CountByTrialDivision | stress-cpu.c:1522-1529 | counting by trial division gives the number of primes below the bound |
| Primes.TrialDivision | stress-cpu.c:1503-1516 | answers true exactly on the primes, for every natural number |
| Primes.StridePrime.Get | helper.c:891-905 | keeps its prime unless `n` is that prime; then moves to the next prime below 2^32, or wraps round to 3 when there is none; the result is never `n` |
| Primes.StridePrime.constructor | helper.c:893 | the first prime is 1009 |
| Primes.Advanced | helper.c:899-903 | one turn of the search, with 32-bit wrap-around: what has been passed holds no prime, and `n` itself is never met again |
| Primes.PrimeGcd | helper.c:886-890 | a prime shares a factor with `n` only by dividing it |
| Stride.Euclid | stress-cpu.c:185-191 | the loop returns a common divisor that every common divisor divides |
| Stride.StrideCoverage | stress-dentry.c:113-115 | in `n` strides of `p` modulo `n` every index congruent to the start modulo gcd(p, n) is met gcd(p, n) times and every other index never |
| Stride.VisitClass | stress-dentry.c:113-115 | the strides that meet an index are one residue class modulo n / gcd(p, n) |
| Stride.HitsPositive | stress-dentry.c:113-115 | an index is counted as met if and only if some stride lands on it |
| Dentry.GrayInjective | stress-dentry.c:165 | distinct indices give distinct file names |
| Dentry.GrayNeighbours | stress-dentry.c:165 | the names of neighbouring indices differ in exactly one bit |
| Dentry.StrideMeets | stress-dentry.c:112-121 | name `k` is unlinked by the strided pass if and only if gcd(prime, n) divides `k` |
| Dentry.StrideRemovesAll | stress-dentry.c:112-121 | the strided pass unlinks all names if and only if its prime does not divide their number |
| Dentry.StrideMeetsOnce | stress-dentry.c:112-121 | and then it unlinks each name exactly once |
| Dentry.LeavesFilesBehind | stress-dentry.c:112-121 | with 2018 names and the first prime, name 1 is left |
| Dentry.Directory.UnlinkReverse | stress-dentry.c:98-110 | the reverse pass unlinks the names of the `n` indices from the last to the first and no other |
| Dentry.Directory.UnlinkForward | stress-dentry.c:123-133 | the forward pass unlinks the names of the `n` indices from the first to the last and no other |
| Dentry.Directory.UnlinkStride | stress-dentry.c:111-122 | the strided pass unlinks the strided names in the order of the strides, without 64-bit wrap-around, and nothing when `n` is zero |
| Dentry.Directory.UnlinkAll | stress-dentry.c:87-136 | which of the three passes runs, for a fixed and for a random order, and the order in which names go |
| Dentry.Directory.CreateAll | stress-dentry.c:163-184 | names are created for exactly the first `n` indices, where it stops at the first failure or after the first file when told to, and for all of them otherwise |
| Dentry.Directory.Stress | stress-dentry.c:160-195 | after any number of rounds only names of the run are left, none if the closing pass is not strided or its prime does not divide the number of names, and none of the strided names otherwise; with no failure and no stop every round has unlinked as many names as it created |
| DirDeep.Make | stress-dirdeep.c:63-132 | builds only entries of the tree shape, named by the letters and digits of the code, changes nothing outside, restores the path buffer, and notes the smallest number of free inodes; a directory is made only after an answer above the target; when no call fails, the flag stays up and every answer is above the target, the link target and the whole tree down to the path limit are built |
| DirDeep.MayGoOn | stress-dirdeep.c:77-87 | goes on only with an answer above the target, a path that fits and the flag up, and stops only for want of one of them |
| DirDeep.FillDirectory | stress-dirdeep.c:115-132 | both links and all sub-trees are added to a directory just made, and the path buffer is as before |
| DirDeep.MakeSubTrees | stress-dirdeep.c:125-130 | the loop adds the numbered sub-trees one by one beside the links |
| DirDeep.MakeLeaf | stress-dirdeep.c:115-123 | a link adds at most its own entry |
| DirDeep.Tidy | stress-dirdeep.c:209-244 | on every file system it removes exactly the one-letter files of the directories it can walk to by digits, and those of these directories that become empty; it restores the path buffer |
| DirDeep.MadeTreeGoes | stress-dirdeep.c:209-244 | of a tree of the shape that is built everything goes, and nothing elsewhere |
| DirDeep.TidyTwice | stress-dirdeep.c:209-244 | a second walk changes nothing |
| DirDeep.DigitStep | stress-dirdeep.c:233-234 | the walk of a numbered name does the part of its first letter and no more, also when another name with that letter came before |
| DirDeep.LeafStep | stress-dirdeep.c:235-236 | for any other name only the file of its first letter goes |
| DirDeep.LastStep | stress-dirdeep.c:240-243 | the directory itself goes if and only if nothing is left in it |
| DirDeep.MakeThenTidy | stress-dirdeep.c:261-289 | making builds such a tree, and tidying it then gives back the file system as it was, whatever failed on the way; the tree was complete if no call failed, the flag stayed up and fewer inodes were gone than were to be used |
| DirDeep.FullGrows | stress-dirdeep.c:125-130 | a complete sub-tree stays complete while its siblings are built |
| RecyclingList.List.Append | stress-lockf.c:51-75 | a record from the free list, else a new one, becomes the last; the number of nodes ever allocated is the largest length so far |
| RecyclingList.List.Obtain | stress-lockf.c:55-64 | allocation happens only when the free list is empty, and its failure changes nothing |
| RecyclingList.List.Link | stress-lockf.c:66-74 | the chain stays acyclic and NULL-terminated with `tail` last |
| RecyclingList.List.RemoveHead | stress-lockf.c:82-100 | the oldest record goes to the front of the free list; on an empty list nothing happens |
| RecyclingList.List.FreeAll | stress-lockf.c:106-121 | every node of both lists is released exactly once, and none is read or released after its release |
| LockContention.Contention | stress-lockf.c:150-191 | never more than 1024 locks are on record, offsets are below 65528, and locks are undone oldest first: those held before and taken since are those undone and those still held, in order; what the file has locked and unlocked is what was recorded and taken off; every round locks once or is refused once; the run is cut short if and only if an allocation, a seek or an unlock fails |
| LockContention.Unlock | stress-lockf.c:127-144 | unlocks the file at the oldest offset and takes off exactly that record; on failure nothing is unlocked |
| LockContention.Attempt | stress-lockf.c:164-187 | one round: a full list first gives up its oldest lock; then the offset is locked and recorded last, or the lock is refused and the oldest remaining one is undone; the loop ends if and only if anything else fails |
| LockContention.MakeRoom | stress-lockf.c:164-166 | a lock is undone if and only if the list is full, and it is the oldest |
| LockContention.LockOne | stress-lockf.c:168-187 | either the file is locked at the offset and the record is added last, or the refusal is counted and the oldest lock undone |
| LockContention.Record | stress-lockf.c:181-186 | the new offset is the last record, or allocation failed and nothing changed |
| CloneReaping.Child | stress-clone.c:298-333 | what happens is a run of turns within the limit and then of reaps; the maximum printed is that of the run and at most the limit; the clones left un-waited are those lost to interrupted waits, none if no wait was interrupted; the loop is cut short only by a refused allocation or a signal; every node is released once and not touched after |
| CloneReaping.Loop | stress-clone.c:298-324 | the loop is a run of turns within the limit that shows in list and kernel; it takes all its turns unless an allocation is refused or a signal comes |
| CloneReaping.TryClone | stress-clone.c:299-317 | one turn below the limit: a clone recorded and counted, or a failed one recorded and the oldest record reaped, or nothing when allocation fails |
| CloneReaping.Drain | stress-clone.c:329-331 | reaps record after record, one turn each, until none is left |
| CloneReaping.Reap | stress-clone.c:162-183 | waits as `waitpid` does for the oldest record, which for -1 takes any clone and takes none when interrupted, and drops the record in any case; does nothing on an empty list |
| CloneReaping.Start | stress-clone.c:304-309 | the new record is the last and holds the process id of a new un-waited clone, or -1 |
| CloneReaping.Kernel.Clone | stress-clone.c:308-309 | a new child with a process id no un-waited child has, or a failure that changes nothing |
| CloneReaping.Kernel.WaitPid | stress-clone.c:168 | takes that child if it is un-waited, and for -1 an arbitrary one, unless a signal comes first, which is then remembered |
| CloneRuns.EveryRun | stress-clone.c:298-331 | in every run the clones waited for and the un-waited ones are the clones started, each once; with no record left the un-waited ones are the lost ones, so all have been waited for if and only if none is lost, as without an interrupted wait |
| CloneRuns.CloneLeftBehind | stress-clone.c:168 | a clone is started, its wait at a limit of 1 is interrupted, and the child ends with it un-waited |
| CloneRuns.WaitsInOrder | stress-clone.c:162-183 | a finished run waited for all clones in the order of starting if and only if none is lost and every wait for a failed record, for a process id recorded twice, or after a loss took the oldest clone or none |
| CloneRuns.WaitsOutOfOrder | stress-clone.c:298-331 | a success, a failure and two successes within a limit of 3, after which the younger clone can be waited for first, for good out of order |
| CloneRuns.ReportVersusClones | stress-clone.c:318-319 | the maximum printed is at least the largest number of un-waited clones, and equal to it if and only if the list was once that long with only un-waited clones in it |
| CloneRuns.ReportTooHigh | stress-clone.c:298-331 | success, failure, success within a limit of 2: the report is 2 though there was never more than one clone, and in the drain the wait for the second clone finds none |
| CloneRuns.NoFailures | stress-clone.c:298-331 | without a failed clone the report is exact, and as long as no wait is interrupted every record is of an un-waited clone and waits are in order |
| Settings.Store.Set | setting.c:59-169 | appends one entry for the current stressor; a missing value is an error, and so is a refused allocation; on either error the history is unchanged |
| Settings.Store.Link | setting.c:158-163 | the new entry is the last of the chain, whether or not the chain was empty |
| Settings.Store.Get | setting.c:175-290 | whether the name occurs before the end of the current stressor's first run of entries, and the last defined value there, else the caller's own |
| Settings.Store.Free | setting.c:40-53 | every entry is released once and not touched after, and the store is empty and usable again |
| Settings.OwnLatestWins | setting.c:183-187 | a stressor reads its own latest value if and only if its entries up to that one are not interrupted by another's |
| Settings.SetThenGet | setting.c:59-187 | a value just set is read back if and only if all entries since the setter's first are its own; otherwise the set changes nothing for it |
| Settings.EarlierEntriesAreDefaults | setting.c:183-187 | with no value of its own a stressor reads the last one set before its first entry |
| Settings.NoLeak | setting.c:183-187 | what one stressor sets never reaches another that has an entry already |
| Settings.StaleValue | setting.c:183-187 | three entries, which the parser cannot make, after which the list code would read an old value |
| Settings.ParsedOwners | stress-ng.c:2674-2700 | in every parse each owner's entries are together and the current owner's are the last ones, because every stressor option makes a new owner |
| Settings.ParsedIs | stress-ng.c:2895-2920 | after every parse the current stressor is that of the last stressor option, and each setting belongs to the last stressor option before it |
| Settings.ParsedLookup | stress-ng.c:2895-2920 | so after every parse a stressor reads the last value given after its own option and before the next stressor option, else the last one given before its first setting, which is the last of all if it has none |
| Settings.ParsedSetThenGet | stress-ng.c:2907-2920 | and a setting just parsed is read back at once by the stressor whose option came last before it |
| Settings.TwoStressors | stress-ng.c:2895-2920 | two stressors with the same option set to different values read each their own |
| Mwc.Sequence | mwc.c:87-88 | after `k` steps the state times 2^(16k) is the seed modulo a * 2^16 - 1: the generator is a Lehmer generator run backwards |
| Mwc.StepFits | mwc.c:87-88 | a step never leaves 32 bits, so the C arithmetic does not wrap |
| Mwc.StaysInside | mwc.c:87-88 | from a seed strictly between zero and the modulus no step reaches either |
| Mwc.StepPermutes | mwc.c:87-88 | on the states strictly between zero and the modulus a step has an inverse, so it permutes them |
| Mwc.SeedComesBack | mwc.c:87-88 | every such seed comes back after fewer steps than the modulus |
| Mwc.StuckStates | mwc.c:87-88 | zero and the modulus are the only states a step does not change |
| Mwc.StepsAreWords | mwc.c:85-135 | over any sequence of draws the generator steps once per word fetched and never otherwise |
| Mwc.BytesConserved | mwc.c:123-135 | over any mix of draws every byte of every word fetched for bytes is delivered once, low byte first, or still pending |
| Mwc.HalvesConserved | mwc.c:105-117 | the same for half-words |
| Mwc.WordsConserved | mwc.c:85-90 | the words drawn directly are delivered in order, none lost to the buffers |
| Mwc.WideConserved | mwc.c:96-99 | a 64-bit draw delivers two consecutive words |
| Mwc.SeedDetermines | mwc.c:71-77 | after seeding, all later output depends on the seed and the draws alone, whatever was buffered before |
| Mwc.FirstWord | mwc.c:71-90 | the first word after seeding, in terms of the two seeds and the multipliers 36969 and 18000 |
| Mwc.FourBytes | mwc.c:123-135 | with no byte pending, four byte draws are the bytes of the word a 32-bit draw would give, lowest first |
| Mwc.HalvesAndWords | mwc.c:96-117 | with no half pending, two 16-bit draws are its halves, lowest first; a 64-bit draw is two words, the first on top |
| Mwc.Generator.constructor | mwc.c:27-32 | starts from the two seeds with both buffers empty |
| Mwc.Generator.Flush | mwc.c:34-38 | both buffers are emptied |
| Mwc.Generator.Seed | mwc.c:71-77 | each seed becomes the half of the state it is meant for and the buffers are empty |
| Mwc.Generator.Next32 | mwc.c:85-90 | one step of the state machine and its output, the sum of both halves with the first one shifted up, in 32 bits |
| Mwc.Generator.Next64 | mwc.c:96-99 | two steps and their joined output |
| Mwc.Generator.Next16 | mwc.c:105-117 | the half-word step and its output |
| Mwc.Generator.Next8 | mwc.c:123-135 | the byte step and its output |
| CacheSweep.WriteSweepCoverage | stress-cache.c:28-43 | from any start the writing walk reaches every byte if and only if the size is a power of two |
| CacheSweep.ReadSweepCoverage | stress-cache.c:122-128 | from any start the reading walk, which reads an index and its mirror each turn, reads every byte, and each exactly twice, if and only if the size has no factor in common with 32769 |
| CacheSweep.SweepOrder | stress-cache.c:28-43 | both walks go around the buffer in steps of 32769, the writing one on powers of two, the reading one at every size |
| CacheSweep.ReadSweep | stress-cache.c:122-128 | the 32-bit total grows by the bytes read in the turns taken: all of them, or up to and with the one in which it is told to stop |
| CacheSweep.ReadSweepTotal | stress-cache.c:122-128 | on such a size a whole walk adds up twice the sum of the buffer, wherever it starts |
| CacheSweep.ThreeMegabytes | stress-cache.c:28-43 | at 3145728 bytes neither walk reaches every byte, from any start |
| CacheSweep.WriteInBounds | stress-cache.c:33-40 | the masked index stays inside the buffer, at every size |
| CacheSweep.WriteSweep | stress-cache.c:28-43 | the buffer ends as the fold of the steps taken: all of them, or up to and with the one in which it is told to stop |
| CacheSweep.WriteOnce | stress-cache.c:40 | on a power of two no byte is written twice in a walk |
| CacheSweep.SweptBytes | stress-cache.c:33 | the closed form of every byte after the walk: its old value plus `r` plus the mirrored byte, new if that one came earlier, modulo 256 |
| MmapPages.WindowMeets | stress-mmap.c:164-167 | a window of `n` pages meets any set of pages that does not fit beside it |
| MmapPages.AlwaysFinds | stress-mmap.c:163-178 | a pass finds one of `n` pages left, whichever they are and whatever is drawn, if and only if `n` is more than half of all |
| MmapPages.PassMisses | stress-mmap.c:163-178 | with at most half of the pages left, a set of them and a draw that miss each other |
| MmapPages.SomeDrawFinds | stress-mmap.c:164-167 | as long as a page is left some draw finds it |
| MmapPages.Search | stress-mmap.c:164-177 | a search not stopped finds a page if and only if one is in its window, and then the first one there; it stops only when the flag is down, and then at the first miss |
| MmapPages.UnmapPass | stress-mmap.c:163-178 | flags, count and kernel mappings stay in step, up to pages whose `munmap` failed; a pass that finds a page makes exactly one `munmap` call, for that page, and clears its flag, and a pass that finds none changes nothing; a pass not stopped finds one if and only if its window meets a mapped page, as it must with more than half the pages left |
| MmapPages.RemapPass | stress-mmap.c:185-221 | the same for mapping back: exactly one `mmap` call for the page found, whose flag then says whether that call succeeded |
| MmapPages.UnmapPages | stress-mmap.c:163-178 | the calls of step 1 are one `munmap` for each page logged, no page twice, and while pages are left the passes that are certain to find one have found one |
| MmapPages.RemapPages | stress-mmap.c:184-222 | the calls of step 2 are one `mmap` for each page logged, no page twice, and the pages flagged as mapped are those whose call succeeded |
| MmapPages.MapBack | stress-mmap.c:180-222 | between the steps one `munmap` call for the whole region; if it succeeds nothing is left mapped, and step 2 starts with no page flagged |
| MmapPages.Loops | stress-mmap.c:163-222 | both steps: when finished each has handled every page once, and neither stops unless the flag is down |
| MmapPages.CleanUp | stress-mmap.c:228-234 | one `munmap` call for every page flagged as mapped, after which exactly the pages are mapped on which an `munmap` failed |
| MmapPages.Round | stress-mmap.c:163-234 | no page is unmapped or mapped back twice in its loop, and the calls made are exactly one for each page handled there and in the clean-up, and one for the region; it stops only when the flag is down; a round that ends, stopped or not, leaves exactly the pages mapped on which an `munmap` failed, none if none failed; a finished one has handled every page, and the clean-up has unmapped exactly those mapped back with success |
| MessageQueue.ConsistentStep | stress-mq.c:148-230 | every step of sender, receiver, kernel or signal keeps the values queued consecutive, from the receiver's expected one to the sender's counter |
| MessageQueue.EveryRun | stress-mq.c:171-180 | no run makes the receiver complain, and when it sees the stop message it has received everything sent |
| MessageQueue.LossIsNoticed | stress-mq.c:173-180 | the check is not idle: in every run, if the queue lost its oldest messages the next receipt would make the receiver complain, unless the loss is a multiple of 2^64 |
| MessageQueue.SendsAreReceipts | stress-mq.c:181-220 | in every run the messages sent are those received and those queued, and every receipt but the stop message was one of them |
| MessageQueue.StopsOnce | stress-mq.c:181-228 | in every run the sender tries to send the stop message at most once, after a failed send or when told to stop, and is gone if and only if it has tried |
| MessageQueue.StopCanBeSent | stress-mq.c:215-228 | after a failed send, or when told to stop, the stop message can be sent as soon as there is room, and is then the last one queued |
| MessageQueue.StopMessage | stress-mq.c:171-228 | in every run the stop message was sent if and only if it is the last one queued or the receiver is done, and only a failed receive makes a receiver quit without it |
| MessageQueue.Takes | stress-mq.c:151-182 | a receiver still receiving can take everything that is queued, in order |
| MessageQueue.ReceiverIsTold | stress-mq.c:151-228 | once the sender has sent the stop message, a receiver no call fails sees it after taking what is queued, and has then received all that was sent |
| MessageQueue.GoesThrough | stress-mq.c:148-221 | any number of messages can go through a queue of any capacity |
| MessageQueue.StopsAfter | stress-mq.c:148-228 | and after any number of them the sender can stop, with every message received and the receiver told |
| IcmpChecksum.Checksum | stress-icmp-flood.c:50-66 | the low half of the result is the complemented ones' complement sum of the data, odd lengths included, as long as the 32-bit sum does not wrap |
| IcmpChecksum.OnesSumIsNorm | stress-icmp-flood.c:54-63 | adding first and folding later is ones' complement addition word by word |
| IcmpChecksum.OnesLaws | stress-icmp-flood.c:54-63 | what ones' complement addition is: the carry out of 16 bits is added back in, and the first byte of a word is the low one |
| IcmpChecksum.TwoFolds | stress-icmp-flood.c:62-63 | two folds suffice for every 32-bit sum |
| IcmpChecksum.Seal | stress-icmp-flood.c:132-133 | the checksum is stored low byte first at offset 2 of the ICMP part, which then sums to 0xffff, and no other byte has changed |
| IcmpChecksum.ReceiverAccepts | stress-icmp-flood.c:132-133 | a stored field makes the packet sum to 0xffff if and only if it is the checksum, or 0xffff where that is zero |
| IcmpChecksum.ByteOrderIndependent | stress-icmp-flood.c:54-60 | summing in the other byte order gives the same sum with its bytes swapped |
| PipeProbe.Kernel.Check | helper.c:1083-1101 | when a size is accepted, and that a refused one costs two descriptors |
| PipeProbe.Prober.Chop | helper.c:1137-1150 | returns within 33 turns; what it reports above the page size is allowed; it is the largest such size below INT_MAX if and only if the descriptors it needs are free; at most two descriptors are lost per turn |
| PipeProbe.Prober.Probe | helper.c:1108-1158 | a published size that works is cached and returned; otherwise nothing is cached and the result is the largest size if and only if the chop's needs, and two for a refused published size, are free |
| PipeProbe.Shrinks | helper.c:1140-1149 | a repeated middle means a window of at most one; otherwise the window halves whichever way the probe goes |
| PipeProbe.LargestIs | helper.c:1137-1150 | the size the chop looks for is allowed and below INT_MAX, and no larger such size is allowed; the page size if none is |
| PipeProbe.ChoppedIff | helper.c:1137-1150 | on every window the chop finds the largest allowed size if and only if its needs do not exceed the free descriptors |
| PipeProbe.AlwaysEnough | helper.c:1137-1150 | 62 free descriptors are enough for every limit and page size |
| PipeProbe.Starved | helper.c:1137-1150 | with three free descriptors and a limit of one megabyte the result is wrong |

## Left out

- Fft.FftPartial: works over exact complex numbers and takes the root of unity as a parameter in place of `cexp`, because rounding is not what the recursion is about.
- Mwc.Generator.Next64: draws the upper word first, because C leaves the order of the two calls open.
- Primes.TrialDivision: uses the exact integer square root; the rounding of `sqrt` on 64-bit arguments above 2^53 is not modelled, since the program only passes 32-bit ones.
- DirDeep.Tidy: the reading order of `scandir` is arbitrary and no system call fails while removing.
- DirDeep.Make: takes the number of free inodes as an arbitrary answer each time, not related to the entries made.
- Dentry.Directory.Stress: does not say which of the names a strided closing pass misses had been created; `Dentry.StrideMeets` says which ones it misses.
- MmapPages.Round: is stated for a given number of passes, because the random search has no bound on them; contents of the pages, `madvise`, `mprotect` and `msync` are not modelled.
- PipeProbe.Prober.Chop: does not say exactly how many descriptors are lost, only a bound.
- CacheSweep.WriteSweep: leaves out prefetch, flush and fence, which do not change the bytes.
- CloneReaping.Kernel.WaitPid: the only signals that interrupt a wait are those whose handler ends the loop.
- Time-based reseeding (`mwc_reseed`) and everything else read from the clock.
- The exercise phase of the deep directory stressor, which creates nothing.
- The twins of the recycling list in the other lock stressors.
- Settings values are integers; the C types they are copied through are not modelled.
- The other methods of the CPU stressor: mostly floating-point series, or loops without state.
- The remaining stressors: mostly one system call in a loop.
- Option parsing, process start-up, scheduling, statistics and the reporting of results.
