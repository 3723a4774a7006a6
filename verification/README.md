# GridOS: verified models of its run-time algorithms

This project models the parts of GridOS whose correctness cannot be seen by reading one function:
the registry, sort and search of C++ unwind information; the argv-permuting option scanner; the
open-addressing hash table and the thread-specific data built on it; the bookkeeping of C++
exceptions and of array construction under exceptions; the one-time initialisation protocols; and
the bounded arithmetic and bitmap scans of the kernel's support code.

Code that changes things step by step is modelled by methods, classes and arrays that change the
same things, and each is proved against a reference that knows nothing of its tricks: a scan of all
registered sections, a single pass over the arguments, a mathematical map, a stack of handlers and
flying exceptions, the history of calls, exact division, a scan bit by bit. The target is a 32-bit
machine; every wrap-around and truncation the code relies on is written out. Memory allocation is a
parameter or a nondeterministic choice, so every result holds whether or not it succeeds.

| files | subject |
|---|---|
| `FdeModel`, `FdeSort`, `FdeSearch`, `FdeObject`, `FdeRegistry`, `FdeRun`, `FdeLayout` | unwind information: decoding, sorting, searching, registration, whole runs, records as bytes |
| `GetoptSpec`, `GetoptExchange`, `Getopt`, `GetoptLaws` | option scanning: the reference scan, the block exchange, the scanner, the meaning of option strings |
| `IHash`, `ThreadSpecific` | the hash table and thread-specific data |
| `EhNesting`, `CxaExceptions`, `EhRun`, `VecArrays` | exceptions: the nesting, the bookkeeping, whole runs, arrays |
| `PthreadOnce`, `CxaGuard` | one-time initialisation by interleaved threads |
| `Div64`, `ClockSource`, `BitScan` | 64-bit division, clock conversion, bitmap scans |
| `Options`, `Powers` | shared definitions |

## Main results

- Every allowed run of registrations, lookups and deregistrations gives the results of a registry
  that asks every registered section (`FdeRun.Run`, with `FdeRun.CorrectIsUnique`), although objects
  are classified lazily, moved between lists, and sorted only when there is memory; and a function
  written as bytes in any fixed-size encoding is found where it was written (`FdeLayout.FoundAsWritten`).
- A complete getopt scan, in each of the three orderings, returns the events of one pass over the
  unpermuted arguments and leaves argv stably partitioned with optind in between
  (`Getopt.ScanAll`, `GetoptSpec.ScanIsStable`); the laws in `GetoptLaws` say what that pass means for
  every option string and argument.
- The hash table is a map on every run (`IHash.Run`); every thread reads the last value it stored
  since the key was created, recycled keys included (`ThreadSpecific.Run`).
- Every run of throw, catch, leave and rethrow ends in the nesting its events mean, with exactly the
  exceptions destroyed that are neither handled nor in flight (`EhRun.Run`).
- Both initialisation protocols are safe for any number of threads and any schedule, the guards as
  long as fewer than 255 acquires were refused (`PthreadOnce.OnceOnly`, `CxaGuard.InitialisedOnce`).

Eight promises turn out to be false of the code. Each comes with the exact condition under which it
holds, and with a failing input or run where the condition does not name one itself:

- The sorted index misses a function that ends at the top of memory, where begin + range wraps to
  zero (`FdeSearch.TopFunctionIsMissed`); it agrees with the scan for every pc if and only if no FDE
  ends there (`FdeSearch.BinaryAgreesIff`).
- `div64_u64` is not exact for every divisor (`Div64.SmallDivisorFails`); it is for a given divisor
  and all dividends if and only if a condition on the divisor holds (`Div64.ExactIff`), which every
  divisor below 2^32 or from 2^34 on meets.
- `clocks_calc_mult_shift` pairs shift 0 with the multiplier of shift 1 when no shift fits
  (`ClockSource.FallThroughFails`); the contract of `ClockSource.CalcMultShift` says for which
  arguments the pair is accurate.
- A guard whose initialisation was entered recursively and then aborted refuses every acquire until
  its count byte wraps, after 255 more (`CxaGuard.RecursionThenAbort`, `CxaGuard.StuckUntil`,
  `CxaGuard.AcquiredAgain`), and 255 refusals within an initialisation let it start a second time
  (`CxaGuard.BoundReached`); `CxaGuard.ThrowsIff` and `CxaGuard.InitialisedOnce` give the exact
  condition and bound.
- Rethrowing an exception that is propagating already turns its handler count back to positive, and
  it is then destroyed in flight (`CxaExceptions.RethrownTwice`); `CxaExceptions.RethrowAndLand` and
  `CxaExceptions.RethrowAndLeave` say that this happens exactly then.
- A table without sections is registered and cannot be deregistered (`FdeRun.EmptyTableStays`); every
  other object, if not registered at address 0, comes back: the last clause of
  `FdeRegistry.Registry.DeregisterFrameInfo` is the exact condition (`FdeRun.ReturnRegistered`).
- The run that `fde_split` keeps need not have the longest possible length its comment promises
  (source/libs/c++/cxxabi/unwind-dw2-fde.c:400-402, `FdeSort.NotLongest`); `FdeSort.KeepsLongestIff`
  says when it does, and `FdeSort.DecreasingGapsKeepLongest` gives a simple sufficient condition.
- NULL stored as a thread's value, which the hash table reserves, can make another key of that thread
  unreadable (`IHash.NullLosesKey`); `ThreadSpecific.Tsd.SetSpecific` and `IHash.ReservedStored` say
  for whom, and exactly when.

## Model

| member | source | states |
|---|---|---|
| `FdeSort.Unlink` | source/libs/c++/cxxabi/unwind-dw2-fde.c:427-437 | the inner loop of the split removes from the chain exactly the elements larger than the new one; what is left is still linked through ERRATIC, increasing in index and nondecreasing in key |
| `FdeSort.BuildChain` | source/libs/c++/cxxabi/unwind-dw2-fde.c:427-440 | after the first pass a cell of ERRATIC is non-NULL exactly for the elements that no smaller one follows |
| `FdeSort.FdeSplit` | source/libs/c++/cxxabi/unwind-dw2-fde.c:412-453 | the second pass, which overwrites the chain while reading it, leaves in LINEAR the kept elements and in ERRATIC the others, each in original order |
| `FdeSort.PartsPermute` | source/libs/c++/cxxabi/unwind-dw2-fde.c:400-453 | the two parts of the split together are a permutation of the input |
| `FdeSort.KeptPartSorted` | source/libs/c++/cxxabi/unwind-dw2-fde.c:400-453 | the kept part is sorted |
| `FdeSort.NotLongest` | source/libs/c++/cxxabi/unwind-dw2-fde.c:400-402 | a family of inputs for which the kept run has two elements and a run of three exists |
| `FdeSort.KeepsLongestIff` | source/libs/c++/cxxabi/unwind-dw2-fde.c:400-402 | the kept run is a longest nondecreasing one if and only if every run of elements that are not kept blocks at least as many kept elements as it has |
| `FdeSort.DecreasingGapsKeepLongest` | source/libs/c++/cxxabi/unwind-dw2-fde.c:400-402 | it is a longest one if between neighbouring kept elements the others strictly decrease |
| `FdeSort.KeptCount` | source/libs/c++/cxxabi/unwind-dw2-fde.c:442-452 | its length is the count left in LINEAR |
| `FdeSort.FrameDownheap` | source/libs/c++/cxxabi/unwind-dw2-fde.c:460-484 | pushing the root down turns a semi-heap into a heap and only rearranges it |
| `FdeSort.HeapTop` | source/libs/c++/cxxabi/unwind-dw2-fde.c:486-514 | the root of a heap bounds every element |
| `FdeSort.FrameHeapsort` | source/libs/c++/cxxabi/unwind-dw2-fde.c:486-514 | sorts the first n cells and rearranges nothing else |
| `FdeSort.FdeMerge` | source/libs/c++/cxxabi/unwind-dw2-fde.c:518-542 | the backward in-place merge computes the merge of the two old contents and leaves the rest alone |
| `FdeSort.MergeSorts` | source/libs/c++/cxxabi/unwind-dw2-fde.c:518-542 | the merge of sorted inputs is sorted |
| `FdeSort.MergePermutes` | source/libs/c++/cxxabi/unwind-dw2-fde.c:518-542 | the merge is a permutation of its inputs |
| `FdeSort.MergeStable` | source/libs/c++/cxxabi/unwind-dw2-fde.c:518-542 | elements of equal key keep their order, those of the first vector first |
| `FdeSort.SplitThenMerge` | source/libs/c++/cxxabi/unwind-dw2-fde.c:544-574 | splitting, sorting the erratic part and merging yields a sorted permutation |
| `FdeSort.EndFdeSort` | source/libs/c++/cxxabi/unwind-dw2-fde.c:544-574 | with or without the second vector the result is a sorted permutation; it aborts exactly when the numbers announced and accumulated differ |
| `FdeModel.ReadsOwnEncoding` | source/libs/c++/cxxabi/unwind-dw2-fde.c:295-352 | under the flags found by classification every reader sees an FDE as its own CIE describes it |
| `FdeLayout.RoundTrip` | source/libs/c++/cxxabi/unwind-pe.h:154-245 | a record of two words, begin and range, written in any format and relative to nothing, to the begin field itself, or to the text or data base, is read as the function written, and covers exactly its addresses unless it was removed |
| `FdeLayout.ZeroIsRemoved` | source/libs/c++/cxxabi/unwind-pe.h:234-241 | a displacement that is zero as an address is read as a removed function |
| `FdeLayout.FieldReads` | source/libs/c++/cxxabi/unwind-pe.h:181-232 | a field of any format reads as the signed or unsigned number written, wrapped to an address |
| `FdeLayout.FoundAsWritten` | source/libs/c++/cxxabi/unwind-dw2-fde.h:149-154 | a lookup anywhere in a function finds the record written for it and reports where it begins |
| `FdeModel.CoverIsUnique` | source/libs/c++/cxxabi/unwind-dw2-fde.c:758-827 | separated ranges leave at most one FDE for a pc |
| `FdeModel.NaiveFindLive` | source/libs/c++/cxxabi/unwind-dw2-fde.c:786-822 | leaving out the FDEs of removed functions changes no answer |
| `FdeSearch.LinearSearchFdes` | source/libs/c++/cxxabi/unwind-dw2-fde.c:758-827 | the scan, with its cached CIE, returns the reference answer |
| `FdeSearch.BinarySearchFdes` | source/libs/c++/cxxabi/unwind-dw2-fde.c:832-922 | the loop computes the recursive search and ends; over a sorted index what it returns covers pc, and it misses only an FDE that ends at the top of memory |
| `FdeSearch.BinaryFindCovers` | source/libs/c++/cxxabi/unwind-dw2-fde.c:832-922 | an answer is an FDE that covers pc; no answer means that none does, but for one that ends at the top of memory |
| `FdeSearch.BinaryAgrees` | source/libs/c++/cxxabi/unwind-dw2-fde.c:832-922 | the index answers like the scan unless the covering FDE ends at the top of memory |
| `FdeSearch.BinaryAgreesIff` | source/libs/c++/cxxabi/unwind-dw2-fde.c:832-922 | index and scan agree for every pc if and only if no FDE ends at the top of memory |
| `FdeSearch.TopFunctionIsMissed` | source/libs/c++/cxxabi/unwind-dw2-fde.c:846-858 | a one-byte function at address 2^32 - 1 that the scan finds and the index misses |
| `FdeObject.SummaryStep` | source/libs/c++/cxxabi/unwind-dw2-fde.c:591-631 | one more FDE updates flags and pc_begin to those of the longer section |
| `FdeObject.SummarySuits` | source/libs/c++/cxxabi/unwind-dw2-fde.c:581-634 | the flags found tell every reader how to read every FDE |
| `FdeObject.SummaryIdempotent` | source/libs/c++/cxxabi/unwind-dw2-fde.c:710-730 | classifying an object again, as happens when its count did not fit, finds the same |
| `FdeObject.Object.ClassifyObjectOverFdes` | source/libs/c++/cxxabi/unwind-dw2-fde.c:581-634 | the count is that of the live FDEs; flags and pc_begin summarise all FDEs seen |
| `FdeObject.AddFdes` | source/libs/c++/cxxabi/unwind-dw2-fde.c:636-697 | appends exactly the live FDEs, in order, so as many as classification counted |
| `FdeObject.Object.Classify` | source/libs/c++/cxxabi/unwind-dw2-fde.c:710-730 | the object is classified and the true count returned, even where the 21-bit field cannot hold it |
| `FdeObject.Object.BuildVector` | source/libs/c++/cxxabi/unwind-dw2-fde.c:732-751 | the source is replaced by a sorted permutation of the live FDEs that remembers the source; no abort fires |
| `FdeObject.Object.InitObject` | source/libs/c++/cxxabi/unwind-dw2-fde.c:704-752 | neither abort fires, whatever memory there is; the registration data survive |
| `FdeObject.Object.SearchObject` | source/libs/c++/cxxabi/unwind-dw2-fde.c:925-967 | sorted or not, the answer is the reference one |
| `FdeObject.Object.SearchClassified` | source/libs/c++/cxxabi/unwind-dw2-fde.c:940-966 | binary search, table scan and section scan give the same answer |
| `FdeRegistry.OthersMiss` | source/libs/c++/cxxabi/unwind-dw2-fde.c:978-988 | of non-interleaved objects only the one with the highest pc_begin not above pc can answer |
| `FdeRegistry.Registry.RegisterFrameInfo` | source/libs/c++/cxxabi/unwind-dw2-fde.c:52-77 | adds the object, except for an empty section |
| `FdeRegistry.Registry.RegisterFrameInfoTable` | source/libs/c++/cxxabi/unwind-dw2-fde.c:102-121 | adds the object, even for an empty table |
| `FdeRegistry.Registry.SearchSeen` | source/libs/c++/cxxabi/unwind-dw2-fde.c:978-988 | trying one seen object answers for all of them |
| `FdeRegistry.Registry.MoveFirst` | source/libs/c++/cxxabi/unwind-dw2-fde.c:995-1003 | the object moves to its place; the seen list stays in descending order and no object is lost |
| `FdeRegistry.Registry.FindFde` | source/libs/c++/cxxabi/unwind-dw2-fde.c:969-1027 | reports an FDE, bases and function start exactly when some registered object has one, and keeps every registration |
| `FdeRegistry.Registry.DeregisterFrameInfo` | source/libs/c++/cxxabi/unwind-dw2-fde.c:148-196 | returns the very object registered under the key, sorted or not, exactly when the key is not null and the object is not an empty table; aborts exactly when none is registered there |
| `FdeRun.CorrectIsUnique` | source/libs/c++/cxxabi/unwind-dw2-fde.c:52-196 | the reference determines every result |
| `FdeRun.StepKeepsCoherent` | source/libs/c++/cxxabi/unwind-dw2-fde.c:52-196 | allowed operations keep the units separate |
| `FdeRun.Run` | source/libs/c++/cxxabi/unwind-dw2-fde.c:925-1027 | every allowed run gives exactly the reference results; the word tested by deregistration is that of the registered memory |
| `FdeRun.ReturnRegistered` | source/libs/c++/cxxabi/unwind-dw2-fde.c:148-196 | in any registry, deregistering a registered object by its address gives it back, and removes it and no other, if and only if it is not an empty table and the address is not null |
| `FdeRun.EmptyTableStays` | source/libs/c++/cxxabi/unwind-dw2-fde.c:154-156 | a table without sections is registered in any registry, and deregistering it leaves it there |
| `GetoptExchange.Exchange` | source/libs/grid/stdlib/getopt.c:75-152 | swapping the shorter block into place, again and again, exchanges the two blocks, each kept in order |
| `GetoptExchange.BottomShorter` | source/libs/grid/stdlib/getopt.c:110-128 | one swap of a shorter bottom block leaves the same exchange to do |
| `GetoptExchange.TopShorter` | source/libs/grid/stdlib/getopt.c:129-145 | likewise for a shorter top block |
| `GetoptSpec.LongMatch` | source/libs/grid/stdlib/getopt.c:429-486 | an exact name wins; otherwise all options it abbreviates must mean the same |
| `GetoptSpec.DenotesUnique` | source/libs/grid/stdlib/getopt.c:429-486 | at most one outcome is right for a name |
| `Getopt.LookUp` | source/libs/grid/stdlib/getopt.c:429-486 | the one-pass search finds the right outcome |
| `GetoptSpec.ScanInPlace` | source/libs/grid/stdlib/getopt.c:377-383 | unless permuting, the operands follow the options where they are |
| `GetoptSpec.ScanIsStable` | source/libs/grid/stdlib/getopt.c:313-390 | options and operands are complementary subsequences of the arguments |
| `GetoptLaws.FlagsLaw` | source/libs/grid/stdlib/getopt.c:583-602 | an element of options whose declaration has no colon, or that are not declared, yields one event for each character and takes one element |
| `GetoptLaws.AttachedLaw` | source/libs/grid/stdlib/getopt.c:744-767 | an option declared with one or two colons takes the rest of its element as its argument |
| `GetoptLaws.OptionalLaw` | source/libs/grid/stdlib/getopt.c:746-757 | with two colons and nothing attached it has no argument |
| `GetoptLaws.RequiredLaw` | source/libs/grid/stdlib/getopt.c:758-787 | with one colon and nothing attached it takes the next element; at the end of argv the argument is reported missing, by colon or question mark |
| `GetoptLaws.EveryElementSplits` | source/libs/grid/stdlib/getopt.c:583-790 | every element is covered by these laws |
| `GetoptLaws.LongLaw` | source/libs/grid/stdlib/getopt.c:425-581 | a long option alone: has_arg 1 takes the next element or reports it missing, otherwise no argument; 0 is returned if it sets a variable, else its value; unknown and ambiguous names |
| `GetoptLaws.LongValueLaw` | source/libs/grid/stdlib/getopt.c:492-525 | a long option with a value: accepted exactly if has_arg is not 0 |
| `GetoptLaws.OperandLaw` | source/libs/grid/stdlib/getopt.c:168-186 | an operand is returned, ends the scan or is moved, by the first character of the option string and POSIXLY_CORRECT |
| `GetoptLaws.OptionsLaw` | source/libs/grid/stdlib/getopt.c:168-186 | a leading dash or plus is not part of the declarations |
| `GetoptLaws.TerminatorLaw` | source/libs/grid/stdlib/getopt.c:343-360 | `--` ends the options |
| `GetoptLaws.EveryArgumentCovered` | source/libs/grid/stdlib/getopt.c:310-411 | every argument is an operand, the terminator, a long option or an element of short options |
| `Getopt.OptionsFirst` | source/libs/grid/stdlib/getopt.c:324-333 | exchanging moves the options found since the last operands before them |
| `Getopt.SkipOperand` | source/libs/grid/stdlib/getopt.c:335-341 | skipping an operand adds it to the skipped ones |
| `Getopt.AtTerminator` | source/libs/grid/stdlib/getopt.c:343-360 | at `--` the scan is over, with `--` before the skipped operands |
| `Getopt.AtOperand` | source/libs/grid/stdlib/getopt.c:374-383 | an operand ends the scan, or is returned in order |
| `Getopt.CharGoesOn` | source/libs/grid/stdlib/getopt.c:583-602 | an option that leaves others in its element yields their first event and keeps the rest |
| `Getopt.CharEnds` | source/libs/grid/stdlib/getopt.c:744-790 | the last option of an element takes its argument, if any, with it |
| `Getopt.GetoptData.DecodeChar` | source/libs/grid/stdlib/getopt.c:583-602 | returns the first event of the text left; optarg and optopt are those of the event |
| `Getopt.GetoptData.TakeArgument` | source/libs/grid/stdlib/getopt.c:744-789 | the four ways a short option's argument is present, absent or missing |
| `Getopt.GetoptData.DecodeLong` | source/libs/grid/stdlib/getopt.c:425-581 | returns the event of the long option, in all its error cases |
| `Getopt.GetoptData.EndAtTerminator` | source/libs/grid/stdlib/getopt.c:343-372 | `--` leaves argv partitioned and optind behind it |
| `Getopt.GetoptData.Advance` | source/libs/grid/stdlib/getopt.c:313-391 | moving to the next element ends the scan rightly, returns an operand, or stops at an option |
| `Getopt.GetoptData.Next` | source/libs/grid/stdlib/getopt.c:313-790 | every return other than -1 is the next reference event, with its optarg and optopt, keeps first_nonopt <= last_nonopt <= optind <= argc, and makes progress; -1 leaves optarg NULL |
| `Getopt.GetoptData.Call` | source/libs/grid/stdlib/getopt.c:276-298 | the first call initialises; an empty argv ends at once |
| `Getopt.ScanAll` | source/libs/grid/stdlib/getopt.c:276-390 | calling until -1 terminates, in every ordering, with the reference events, argv partitioned stably and optind at the first operand |
| `IHash.LiveKeyUnique` | source/libs/pthread/ihash.c:37-62 | two live slots never hold the same key |
| `IHash.ProbeFinds` | source/libs/pthread/ihash.c:37-62 | a probe ends at a live slot of its key exactly when the map binds the key, and the slot holds the bound value |
| `IHash.EntryRemoved` | source/libs/pthread/ihash.c:68-75 | a tombstone removes exactly one binding and breaks no probe sequence |
| `IHash.EntryPlaced` | source/libs/pthread/ihash.c:176-225 | writing an unbound key into a free slot on its probe sequence, even over a tombstone, adds exactly one binding |
| `IHash.ReservedStored` | source/libs/pthread/ihash.c:208-222 | a reserved value stored in a free slot binds nothing and spoils nr_items; after all-ones every key reads right, after NULL if and only if no probe sequence passes over the slot |
| `IHash.LostKey` | source/libs/pthread/ihash.c:37-62 | a table with a broken probe sequence has a bound key that no probe finds |
| `IHash.RightReadsIff` | source/libs/pthread/ihash.c:37-62 | every key reads as the bindings say if and only if the probe sequence of every live key is whole |
| `IHash.NullLosesKey` | source/libs/pthread/ihash.c:176-308 | a run of two adds and a store of NULL under the first key, after which the second, still in the table, reads as NULL |
| `IHash.LoadIsBinaryPercent` | source/libs/pthread/ihash.h:161-166 | the shifted load equals nr_items * 128 / size for every power of two |
| `IHash.SlotsBound` | source/libs/pthread/ihash.c:232-290 | with fewer live slots than slots, one is free |
| `IHash.IHash.FindIndex` | source/libs/pthread/ihash.c:37-62 | the cyclic probe stops at the first slot that ends it, or back at the start when none does |
| `IHash.IHash.LocpRemove` | source/libs/pthread/ihash.c:68-75 | removes one binding, with cleanup of its value, and keeps the stale key |
| `IHash.IHash.AddOne` | source/libs/pthread/ihash.c:176-225 | binds the key, with cleanup of a displaced value, or changes nothing; succeeds if a slot is empty; a reserved value unbinds the key and leaves the reads right exactly under the condition above |
| `IHash.IHash.Rehash` | source/libs/pthread/ihash.c:263-272 | moves the whole map without cleanup; the error exit cannot be reached |
| `IHash.IHash.Add` | source/libs/pthread/ihash.c:232-290 | binds the key; grows to 32 slots or twice the size exactly when the load is too high or no slot is found; without memory nothing changes; reserved values as above |
| `IHash.IHash.Find` | source/libs/pthread/ihash.c:295-308 | the bound value, or NULL |
| `IHash.IHash.Lookup` | source/libs/pthread/ihash.c:295-308 | what a lookup reads in any state of the table |
| `IHash.IHash.Remove` | source/libs/pthread/ihash.c:310-328 | unbinds the key and says whether it was bound |
| `IHash.Run` | source/libs/pthread/ihash.c:176-328 | on every run of adds, removes and finds the results are those of a map |
| `ThreadSpecific.FindElemIndexAndAddToArry` | source/libs/pthread/pthread_key.c:26-81 | stores into the first free slot; when there is none the array becomes 8 or twice its size, with free slots; without memory nothing changes |
| `ThreadSpecific.Tsd.KeyCreate` | source/libs/pthread/pthread_key.c:93-102 | the new key is the first free number, no thread has a value under it, and the destructor is stored there; a destructor of all ones leaves the number marked as free |
| `ThreadSpecific.Tsd.KeyDelete` | source/libs/pthread/pthread_key.c:114-139 | removes the key from every thread's values, or refuses a dead key; the key equal to the number of slots is reported as read past the end |
| `ThreadSpecific.Tsd.SetSpecific` | source/libs/pthread/pthread_specific.c:26-66 | changes exactly one binding of one thread, or nothing, whichever of three allocations fails; NULL or all-ones unbinds the key, leaves every other thread reading right, and the thread itself exactly as its table says |
| `ThreadSpecific.Tsd.GetSpecific` | source/libs/pthread/pthread_specific.c:71-86 | the calling thread's value, or NULL, for every key number |
| `ThreadSpecific.Step` | source/libs/pthread/pthread_key.c:93-139 | each call keeps the tables explained by the history of calls |
| `ThreadSpecific.Run` | source/libs/pthread/pthread_specific.c:26-86 | for any threads in any order, a read returns the thread's last value since the key was created; new keys are not in use, dead ones are refused |
| `EhNesting.EndNested` | source/libs/c++/libsupc++/eh_catch.cc:64-104 | leaving the innermost handler, normally or by an exception, keeps the nesting well formed |
| `EhNesting.EndCounts` | source/libs/c++/libsupc++/eh_catch.cc:84-103 | it takes one handler from one exception, which leaves the stack exactly when that was its last |
| `EhNesting.CatchNested` | source/libs/c++/libsupc++/eh_catch.cc:18-61 | catching keeps the nesting well formed |
| `CxaExceptions.EhGlobals.Throw` | source/libs/c++/libsupc++/eh_throw.cc:30-50 | a new exception is in flight and counted as uncaught |
| `CxaExceptions.EhGlobals.BeginCatch` | source/libs/c++/libsupc++/eh_catch.cc:18-61 | the flight becomes a handler; counts, stack and uncaught count stay those of the nesting |
| `CxaExceptions.EhGlobals.EndCatch` | source/libs/c++/libsupc++/eh_catch.cc:64-104 | the innermost handler ends; its exception is destroyed exactly when it is neither handled nor in flight; the terminate branch is never taken |
| `CxaExceptions.EhGlobals.DoEndCatch` | source/libs/c++/libsupc++/eh_catch.cc:64-104 | end_catch in any state of the header; it terminates exactly at count zero |
| `CxaExceptions.EhGlobals.Rethrow` | source/libs/c++/libsupc++/eh_throw.cc:52-84 | the innermost handler's exception is in flight again; without one the program terminates |
| `CxaExceptions.EhGlobals.DoRethrow` | source/libs/c++/libsupc++/eh_throw.cc:52-84 | rethrow in any state of the header: the count is negated |
| `CxaExceptions.EhGlobals.UncaughtException` | source/libs/c++/libsupc++/eh_catch.cc:107-112 | true exactly when an exception is in flight |
| `CxaExceptions.EhGlobals.Uncatch` | source/libs/c++/libsupc++/vec.cc:29-37 | uncatching the exception whose handler is on top, however many handlers it has: one handler less, and uncaught |
| `CxaExceptions.EhGlobals.Recatch` | source/libs/c++/libsupc++/vec.cc:18-18 | catching it again restores the exception state |
| `CxaExceptions.UncaughtIsFlightIff` | source/libs/c++/libsupc++/vec.cc:29-37 | meanwhile the state is that of the exception in flight exactly when it has one handler |
| `CxaExceptions.EhGlobals.UncatchAndCatch` | source/libs/c++/libsupc++/vec.cc:15-37 | uncatching and catching restores the state exactly when the handler count was positive |
| `CxaExceptions.RethrowMarksIff` | source/libs/c++/libsupc++/eh_throw.cc:64-68 | negating the count marks a rethrow rightly exactly when the exception was not propagating |
| `CxaExceptions.RethrowAndLand` | source/libs/c++/libsupc++/eh_throw.cc:52-84 | such a rethrow and landing restores the header if and only if its count was positive |
| `CxaExceptions.RethrowAndLeave` | source/libs/c++/libsupc++/eh_throw.cc:52-84 | a rethrow in any state that lands in a handler of its own, followed by the end of all handlers of the exception, destroys it; it is in flight then if and only if its count was not positive, that is, if it was propagating already |
| `CxaExceptions.RethrownTwice` | source/libs/c++/libsupc++/eh_throw.cc:64-68 | a run of throw, catch, rethrow and a second rethrow caught on the way, after which an exception in flight is destroyed |
| `CxaExceptions.EndStep` | source/libs/c++/libsupc++/eh_catch.cc:84-103 | the sign and size of the count tell which of the four ends applies |
| `EhRun.ThrowAndCatchLaw` | source/libs/c++/libsupc++/eh_catch.cc:18-61 | in the nesting a script means, a throw is a new flight on top and a catch makes it a handler |
| `EhRun.LeaveLaw` | source/libs/c++/libsupc++/eh_catch.cc:64-104 | leaving removes the handler on top, or the one below the exception that leaves it |
| `EhRun.ThrowAgainLaw` | source/libs/c++/libsupc++/eh_throw.cc:52-84 | rethrowing puts the exception of the innermost handler in flight again |
| `EhRun.SameHandlers` | source/libs/c++/libsupc++/eh_catch.cc:18-104 | the machine's handlers are those of the abstract nesting |
| `EhRun.Run` | source/libs/c++/libsupc++/eh_catch.cc:18-104 | any list of events ends in the nesting it means; exactly the exceptions neither handled nor in flight have been destroyed, each once |
| `VecArrays.VecCleanup` | source/libs/c++/libsupc++/vec.cc:224-250 | each destructor runs once in reverse order; terminates exactly when one throws |
| `VecArrays.VecDtor` | source/libs/c++/libsupc++/vec.cc:189-219 | each destructor starts once in reverse order even if one throws or rethrows, whose exception goes on; terminates exactly when two throw, or the last element that throws rethrows outside any handler |
| `VecArrays.VecCtor` | source/libs/c++/libsupc++/vec.cc:130-155 | if a constructor throws or rethrows, exactly the elements before it are destroyed in reverse and the exception goes on |
| `VecArrays.Resume` | source/libs/c++/libsupc++/vec.cc:146-153 | the end of the handler around an element loop leaves the exception in flight, new or rethrown, as if nothing had caught it |
| `VecArrays.VecNew` | source/libs/c++/libsupc++/vec.cc:53-89 | a failed construction releases the storage once, after the destructors, and its exception goes on; a terminated one releases nothing; an allocator may return null or throw, and its exception goes on unless it rethrows outside any handler |
| `VecArrays.VecDelete` | source/libs/c++/libsupc++/vec.cc:264-295 | releases once whether or not a destructor throws, whose exception goes on; null does nothing, no padding means no destructors |
| `VecArrays.NewThenDelete` | source/libs/c++/libsupc++/vec.cc:53-295 | the cookie written by new makes delete destroy the elements constructed; the numbers agree exactly when no member function and no cookie is missing |
| `VecArrays.BalancedIff` | source/libs/c++/libsupc++/vec.cc:53-295 | as many destructors as constructors for every element, and one release, exactly when the numbers agree |
| `PthreadOnce.StepKeeps` | source/libs/pthread/pthread_once.c:11-28 | every step of every thread keeps the protocol invariant |
| `PthreadOnce.OnceOnly` | source/libs/pthread/pthread_once.c:11-28 | in every schedule the routine starts at most once, and no call returns before it has finished |
| `PthreadOnce.EndsFinished` | source/libs/pthread/pthread_once.c:11-28 | in every schedule, however a call ends, the routine has been started and has finished once |
| `PthreadOnce.Completes` | source/libs/pthread/pthread_once.c:11-28 | from every state in which nobody else holds the lock, at most eight steps of a thread end its call with the routine finished |
| `PthreadOnce.FirstCall` | source/libs/pthread/pthread_once.c:11-28 | a first call, alone, runs the routine once to its end |
| `PthreadOnce.Exclusive` | source/libs/pthread/pthread_once.c:11-28 | one thread at a time is past the lock, and the routine never runs beside a returned call |
| `PthreadOnce.NoDeadlock` | source/libs/pthread/pthread_once.c:11-28 | while some call is under way, some thread can step |
| `CxaGuard.StepKeeps` | source/libs/c++/libsupc++/guard.cc:114-203 | every step of every thread keeps the protocol invariant: the byte is, modulo 256, the number of initialisations under way plus the acquires ever refused |
| `CxaGuard.InitialisedOnce` | source/libs/c++/libsupc++/guard.cc:114-203 | one thread at a time initialises under a guard; under way and completed together it is at most one plus a 255th of the acquires refused, so at most one below 255; and 0 is returned only after it completed |
| `CxaGuard.ThrowsIff` | source/libs/c++/libsupc++/guard.cc:126-142 | acquire throws exactly when the guard is not done and the initialisations under way plus the acquires ever refused are no multiple of 256, and opens the guard exactly when they are |
| `CxaGuard.ThrowsOnlyUndone` | source/libs/c++/libsupc++/guard.cc:126-142 | in every run a thread comes to throw only where the guard is not done |
| `CxaGuard.AcquireEnds` | source/libs/c++/libsupc++/guard.cc:144-182 | in every run a call of acquire ends by returning 0 with the guard done, by throwing, or by returning 1 with the guard opened for the caller, which it was free to be |
| `CxaGuard.AcquireAlone` | source/libs/c++/libsupc++/guard.cc:144-182 | the whole outcome of an uninterrupted acquire, from the call to its end, with the mutex and the byte it leaves |
| `CxaGuard.DoneReturnsZero` | source/libs/c++/libsupc++/guard.cc:151-152 | on a guard that is done acquire returns 0 after two steps, whoever holds the mutex, and changes nothing |
| `CxaGuard.LeaveOutcome` | source/libs/c++/libsupc++/guard.cc:184-203 | release makes the guard done and abort does not; both end the innermost initialisation and release one level of the mutex |
| `CxaGuard.StuckUntil` | source/libs/c++/libsupc++/guard.cc:114-203 | a guard left with a leaked count stays unusable, on every continuation, until the acquires refused reach the next multiple of 256 |
| `CxaGuard.RecursionThenAbort` | source/libs/c++/libsupc++/guard.cc:126-192 | a run that leaves a guard so |
| `CxaGuard.AcquiredAgain` | source/libs/c++/libsupc++/guard.cc:126-192 | from there a thread that keeps trying is refused exactly until that multiple, and then acquires and initialises |
| `CxaGuard.BoundReached` | source/libs/c++/libsupc++/guard.cc:114-203 | the bound is reached for every n: a run with 255 n refusals in which the initialisation completes n + 1 times |
| `Div64.Div64By32` | source/drivers/hal/libs/div64.c:10-41 | exact quotient and remainder for every 64-bit dividend and nonzero 32-bit divisor |
| `Div64.Scale` | source/drivers/hal/libs/div64.c:25-28 | the doubling stops before it overflows, past half the dividend |
| `Div64.Div64ByU64` | source/drivers/hal/libs/div64.c:74-92 | computes the corrected estimate, with the wrapping subtraction; for a divisor that meets the condition it is the exact quotient |
| `Div64.EstimateIs` | source/drivers/hal/libs/div64.c:82-83 | the estimate is the quotient by the divisor with its low bits cleared |
| `Div64.CorrectionWorksIff` | source/drivers/hal/libs/div64.c:82-88 | the estimate is never too small, and the result is right exactly when it is at most one too large |
| `Div64.ExactIff` | source/drivers/hal/libs/div64.c:74-92 | right for every dividend if and only if (2^64 - 1) / w * r <= divisor, where r is what the shift drops and w the rest |
| `Div64.LargeDivisorsExact` | source/drivers/hal/libs/div64.c:74-92 | every divisor from 2^34 on meets the condition |
| `Div64.SmallDivisorFails` | source/drivers/hal/libs/div64.c:82-88 | (2^64 - 1) / (2^32 + 3) comes out two too large |
| `ClockSource.MultiplierAccurate` | source/drivers/hal/time/clocksource.c:26-29 | the rounded multiplier is off by at most half a unit |
| `ClockSource.MultiplierGrows` | source/drivers/hal/time/clocksource.c:26-32 | a larger shift never has a smaller multiplier |
| `ClockSource.RangeBounds` | source/drivers/hal/time/clocksource.c:16-20 | the bits left for the multiplier are as many as the range allows |
| `ClockSource.LimitingShift` | source/drivers/hal/time/clocksource.c:16-20 | the first loop counts the bits of the range above one word |
| `ClockSource.Search` | source/drivers/hal/time/clocksource.c:26-32 | the first shift from 32 down whose multiplier fits, or 0 with the multiplier of shift 1 |
| `ClockSource.CalcMultShift` | source/drivers/hal/time/clocksource.c:6-35 | if a shift fits, the pair is accurate and converts the range within 64 bits, and every larger shift has too many bits for the search; it is the largest shift that converts if and only if the next one does not, always for a range of one word; otherwise the pair is accurate exactly when both frequencies are nearly the same |
| `ClockSource.LargestIff` | source/drivers/hal/time/clocksource.c:26-32 | converting within 64 bits is monotone in the shift, so the next shift decides |
| `ClockSource.LargerConverts` | source/drivers/hal/time/clocksource.c:16-32 | arguments for which shift 32 would convert and the search stops at 31 |
| `ClockSource.FallThroughFails` | source/drivers/hal/time/clocksource.c:26-34 | a clock that gets multiplier 0 although its exact multiplier fits a word |
| `BitScan.FindNextBit` | source/libs/common/cpu/bit.c:60-101 | equals the scan bit by bit, for every bitmap, size and offset |
| `BitScan.FindNextZeroBit` | source/libs/common/cpu/bit.c:14-55 | likewise for a clear bit |
| `BitScan.FindLastBit` | source/libs/common/cpu/bit.c:103-129 | equals the backward scan bit by bit |
| `BitScan.ScanFinds` | source/libs/common/cpu/bit.c:57-60 | the scan bit by bit returns the first bit of the value sought, and the size exactly when there is none |
| `BitScan.ScanBackFinds` | source/libs/common/cpu/bit.c:103-129 | the backward one returns the last bit, and the size exactly when there is none |
| `BitScan.WordDecides` | source/libs/common/cpu/bit.c:73-98 | a masked word is zero exactly when its range holds no such bit, and otherwise its lowest bit is the first |

## Left out

- Unwind information: LEB128, aligned and indirect encodings, the bytes of a CIE, and how a section is divided into records; the fields of an FDE are modelled for the fixed-size formats. A CIE is compared as a record rather than by address. The sorted vector is kept as a snapshot and the two lists as sequences, so node links are not modelled, nor is the width of the heap sort's index.
- Lookups require what callers guarantee: decodable FDEs, nonempty and separate ranges that end below the top of memory, objects whose code does not interleave, distinct keys.
- getopt: option strings with `W;`, printing of errors, storing through `flag`, callers that move optind or change argv between calls or call again after -1, an optind above argc, and the environment (whether POSIXLY_CORRECT is set is a parameter).
- Hash table: masking is taken as the remainder by the power-of-two size, tables too large for a 32-bit size are not excluded by an overflow check, location pointers, destroy and iterate are not modelled, and the cleanup function is a log of its arguments.
- Thread-specific data: each call is one atomic step. Where a check reads past the last slot the model reports it and stops. Destructors are stored and never run, as in the code.
- ThreadSpecific.Run: callers use keys they were given, with a destructor other than all ones, and store no reserved value; what single calls do otherwise is in the contracts of `ThreadSpecific.Tsd`.
- Exceptions: foreign exceptions, the unwinder, the emergency buffers and the terminate path after a failed raise.
- EhRun.Run: a rethrow of an exception that is in flight already is left out of a run, because it breaks the bookkeeping as `CxaExceptions.RethrowAndLeave` shows.
- VecArrays.VecCtor: like the other array operations, requires that a member function which rethrows does not rethrow an exception in flight already; one that rethrows outside any handler ends the program, and that is modelled.
- Arrays: the copying form of construction and the forms with a sized release differ only in arguments passed on; sizes in bytes are not modelled, and member functions that return leave the exception state as it was.
- One-time initialisation: sequential consistency is assumed. Each of the guard's operations under the mutex is one step.
- PthreadOnce.NoDeadlock: the init routine is one step that ends. A routine that calls pthread_once on the same control spins for ever in the code.
- div_s64_rem and div64_s64: sign handling around the divisions modelled here.
- Device, interrupt, memory, string and system-call code: hardware access and plumbing.
