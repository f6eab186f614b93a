# Proofs about a DDS inspector and the runtime below it

This project models seven parts of the repository and proves what they are for. Every file is one module.
`dafny verify dfyconfig.toml` checks all of them.

| files | what they model |
|---|---|
| `Lifo.dfy`, `LifoCalls.dfy`, `LifoWindow.dfy`, `LifoProgress.dfy`, `LifoLimits.dfy` | the lock-free stack of `ddsrt/src/atomics.c`: any number of threads, one memory access per step, a head of counter and pointer that a double-width compare-and-swap replaces |
| `Bits.dfy`, `Atomic64.dfy`, `AtomicMeaning.dfy` | the 64-bit atomics that the same file emulates with 16 mutexes, on a machine whose 64-bit accesses are two 32-bit accesses |
| `Cdtors.dfy`, `CdtorsProgress.dfy` | the once-only start and stop of `ddsrt/src/cdtors.c`, all of it in one 32-bit word |
| `Wire.dfy`, `Sedp.dfy`, `Rtps.dfy`, `Registry.dfy`, `Payloads.dfy`, `Output.dfy`, `Frames.dfy`, `Numbers.dfy`, `Inspector.dfy` | the packet inspector `inspector.cpp`, from link header to CDR string, and its registry of endpoints |
| `Layout.dfy`, `Dynsub.dfy`, `Printer.dfy` | the type cache of `dynsub.c` and the printer that walks samples by its own offsets |
| `Strings.dfy`, `RepoMapping.dfy`, `RepoMappingFile.dfy`, `Runfiles.dfy`, `RunfilesAnswers.dfy` | the runfiles library of the C++ rules: the manifest, the repository mapping and the search for a path |
| `Circlist.dfy` | the circular list of `ddsrt/src/circlist.c`, on the heap |
| `Getopt.dfy`, `CommandLines.dfy` | the resumable option scanner `compat/getopt.c` |

`Options.dfy`, `Sequences.dfy` and `WordMath.dfy` hold shared definitions.

How the models are built:

* The concurrent parts are step relations. A thread has a program counter with its local variables; a label of a run
  names the thread that moves; a run is a sequence of labels. The theorems are about all runs of any number of threads.
  Memory is sequentially consistent. The counter of the stack has w values, for any w; how many compare-and-swaps have
  succeeded is a history variable that no step reads, and where a theorem needs it, it bounds how many go by during one
  successful pop.
* The parts that update their data in place are classes with those fields, and their methods are proved against
  functions whose properties are proved as lemmas: round trips with an encoder, a rule, a layout, a sequence.
* Captured bytes, lines of a file, the map of listed files, the type objects behind their identifiers and the sizes of
  primitive types are parameters. What the programs print is a sequence of events or of memory accesses.

## Where the code differs from what it says

* `inspector.cpp:368` says that user data is always printed; in the reannounce mode it is only counted
  (`Output.AllUserDataIsPrintedIff`, `Output.UserDataIsLeftOut`).
* `inspector.cpp:292-293` takes a zero length of any submessage to mean "to the end of the message". Section 9.4.5.1.3 of
  DDSI-RTPS 2.3 excepts PAD and INFO_TS. `Rtps.NothingMissedIff` says exactly when items are missed, and
  `Rtps.PadHidesData` is such a message.
* `inspector.cpp:305` tests the fixed fields of a DATA against the message, not the submessage
  (`Rtps.FixedFieldsInsideSubmessageIff`). No read leaves the captured bytes.
* `dynsub.c:146` passes its two result pointers in the other order, so a simple type object gets its size as alignment
  and its alignment as size (`Layout.BuilderIsRightIff`, `Printer.PrinterIsRightIff`, `Layout.TargetDecides`).
* `runfiles.cc:228-229` looks for a wildcard in the floor entry only; any entry of the same target between the wildcard
  and the source hides it (`RepoMapping.WildcardFoundIff`, `RepoMapping.ShadowingExample`). The test at line 221 cannot
  distinguish "nothing smaller" from "the first entry is the floor", which makes `RepoMapping.BareWildcardFoundIff`.
* `runfiles.cc:255-264` does not end for a path that begins with a slash when none of its prefixes is listed: at position
  0 the next search starts again at the end (`Runfiles.RunsForEverIff`). A mapping file with an empty name makes such a path
  out of one that is not refused (`Runfiles.RlocationEndsIff`, `Runfiles.RlocationMayNotEnd`).
* `cdtors.c:51-61`: two callers that arrive while the runtime is being destroyed wait for ever (`Cdtors.RecoversIff`), and
  a caller whose count reaches the status bit retries without reading (`Cdtors.SpinsIffOutOfRange`,
  `Cdtors.SpinIsReachable`).

## Model

| member | source | states |
|---|---|---|
| Lifo.StepKeepsInv | bazel-dds/external/+cyclonedds_repository+cyclonedds/src/ddsrt/src/atomics.c:114-147 | One memory access of any thread, from any state of any interleaving (a pop that succeeds doing so within the bound on the counter), changes the stack seen by walking the links from the head by exactly one whole operation (a push, a chain prepended, the top popped, an empty stack seen) or not at all, and the answer given is the one the sequential stack would give. |
| Lifo.PushCasKeeps | bazel-dds/external/+cyclonedds_repository+cyclonedds/src/ddsrt/src/atomics.c:118-147 | A push whose swap succeeds puts its chain in front of the whole stack, whatever the counter says: pushing needs no bound on the counter. |
| Lifo.PopCasKeeps | bazel-dds/external/+cyclonedds_repository+cyclonedds/src/ddsrt/src/atomics.c:127-138 | A pop whose swap succeeds with fewer than w swaps since its read of the counter takes the top node and leaves exactly the rest of the stack, although it may have read the link of a node that had left the stack meanwhile. |
| Lifo.RunIsAtomic | bazel-dds/external/+cyclonedds_repository+cyclonedds/src/ddsrt/src/atomics.c:114-147 | Every run of any number of threads, in which pops may fail after any number of swaps but succeed only with fewer than w, is an atomic stack: the completed operations, in the order of their swaps (for a pop of an empty stack, of its read of b), are a legal history of a sequential stack, and the walk from the head is the stack of that history. |
| Lifo.OneEffectPerCall | bazel-dds/external/+cyclonedds_repository+cyclonedds/src/ddsrt/src/atomics.c:118-147 | A step ends a call exactly when it has the effect of that call; until then the thread keeps the operation and the chain that were called. |
| LifoCalls.CallsAreDone | bazel-dds/external/+cyclonedds_repository+cyclonedds/src/ddsrt/src/atomics.c:118-147 | Over whole runs: the calls of each thread are exactly its operations in the history, one for each, in the order of the calls and with their chains, followed by the call it is still in; and it has returned exactly once for each operation. |
| Lifo.NothingLostOrDuplicated | bazel-dds/external/+cyclonedds_repository+cyclonedds/src/ddsrt/src/atomics.c:118-147 | In every state of every such run the chain from the head has no duplicates, and counting repetitions what was pushed is what was popped plus what is on the chain. |
| LifoWindow.SuccessMeansUnchanged | bazel-dds/external/+cyclonedds_repository+cyclonedds/src/ddsrt/src/atomics.c:121-136 | In any run, also one in which the counter has wrapped for others: a swap that succeeds, with fewer than w others since its read of a, finds that at every moment since then the head was the pair it read. |
| LifoWindow.SuccessMeansLinkUnchanged | bazel-dds/external/+cyclonedds_repository+cyclonedds/src/ddsrt/src/atomics.c:130-136 | And for a pop the link of the top node was the link it read, in runs whose pops succeed in time only. |
| LifoWindow.SucceedsIffUndisturbed | bazel-dds/external/+cyclonedds_repository+cyclonedds/src/ddsrt/src/atomics.c:121-136 | A swap with fewer than w others since its read of a succeeds if and only if there were none. |
| LifoWindow.FailureMeansProgress | bazel-dds/external/+cyclonedds_repository+cyclonedds/src/ddsrt/src/atomics.c:121-136 | In every run, without any bound on the counter: a swap that fails does so because a swap of another thread succeeded since this thread read a, so that some thread always gets on. |
| Lifo.ChainIsUnique | bazel-dds/external/+cyclonedds_repository+cyclonedds/src/ddsrt/src/atomics.c:118-147 | A walk of the links from the head finds one chain only, so "the stack" is a function of the memory. |
| LifoLimits.RunPartitionsNodes | bazel-dds/external/+cyclonedds_repository+cyclonedds/src/ddsrt/src/atomics.c:118-147 | In every state of every such run the stack, the clients' nodes and the chains being pushed have no node in common, and together they are all the nodes there are. |
| LifoLimits.PopIsRightIff | bazel-dds/external/+cyclonedds_repository+cyclonedds/src/ddsrt/src/atomics.c:130-136 | Without any bound on the counter: a successful pop leaves the rest of the stack if and only if the link it read is still the link of the top node. |
| LifoLimits.WrappedCounterBreaksPop | bazel-dds/external/+cyclonedds_repository+cyclonedds/src/ddsrt/src/atomics.c:127-138 | The bound is tight: for every even w from 4 on there is a run in which one pop sees exactly w swaps go by, still succeeds, and leaves the head pointing to a node that a client owns. |
| LifoProgress.FinishesAlone | bazel-dds/external/+cyclonedds_repository+cyclonedds/src/ddsrt/src/atomics.c:118-147 | An operation that is left to itself returns, after at most four more accesses, or eight if what it has read of the head may be out of date. |
| LifoProgress.EveryOperationCanFinish | bazel-dds/external/+cyclonedds_repository+cyclonedds/src/ddsrt/src/atomics.c:118-147 | So it is in every state of every run, whatever the counter did: no operation depends on another thread to get on. |
| Cdtors.StepKeepsInv | bazel-dds/external/+cyclonedds_repository+cyclonedds/src/ddsrt/src/cdtors.c:33-88 | Every atomic access of init or fini by any thread keeps the global invariant that ties the word, the phase of the runtime and the place of every thread together. |
| Cdtors.RunIsSafe | bazel-dds/external/+cyclonedds_repository+cyclonedds/src/ddsrt/src/cdtors.c:33-88 | In every state of every run: at most one thread initialises or destroys; initialisations and destructions strictly alternate, each ended by the thread that began it; from the return of its init until its own fini takes effect a thread finds everything set up; and the low 31 bits count exactly the initialiser, the waiters, the holders and the destroyer. |
| Cdtors.ResourcesArePaired | bazel-dds/external/+cyclonedds_repository+cyclonedds/src/ddsrt/src/cdtors.c:41-86 | No mutex, condition variable, random state or atomics table is set up while it is up or taken down while it is down. |
| Cdtors.SpinsIffOutOfRange | bazel-dds/external/+cyclonedds_repository+cyclonedds/src/ddsrt/src/cdtors.c:36-62 | The endless retry on a value that is never read again happens exactly to the call of init whose count no longer fits in 31 bits. |
| Cdtors.SpinIsReachable | bazel-dds/external/+cyclonedds_repository+cyclonedds/src/ddsrt/src/cdtors.c:36-62 | A run within the 31 bits after which the next caller of init retries for ever. |
| Cdtors.RecoversIff | bazel-dds/external/+cyclonedds_repository+cyclonedds/src/ddsrt/src/cdtors.c:37-62 | When nobody is at work and nobody holds, an initialisation can ever begin again if and only if at most one caller of init is waiting. |
| Cdtors.TwoWaitersWaitForEver | bazel-dds/external/+cyclonedds_repository+cyclonedds/src/ddsrt/src/cdtors.c:51-61 | With two or more callers waiting after a destruction, no continuation of the run whatever, of any length and with further callers, initialises anything. |
| Cdtors.TwoWaitersAreReachable | bazel-dds/external/+cyclonedds_repository+cyclonedds/src/ddsrt/src/cdtors.c:33-88 | That situation occurs: two threads call init while a third is destroying. |
| Cdtors.LoneWaiterInitialises | bazel-dds/external/+cyclonedds_repository+cyclonedds/src/ddsrt/src/cdtors.c:37-62 | A single waiter becomes the initialiser with its next read; with no waiter, the next caller does. |
| CdtorsProgress.CallInitDoes | bazel-dds/external/+cyclonedds_repository+cyclonedds/src/ddsrt/src/cdtors.c:33-50 | In any state that a run can reach: a call of init within the range returns with its one access if the runtime is up, begins the initialisation, and logs it, if nobody else is counted and the runtime is down, and otherwise waits; it is counted, and touches nobody else and no resource. |
| CdtorsProgress.InitReturnsWhenUp | bazel-dds/external/+cyclonedds_repository+cyclonedds/src/ddsrt/src/cdtors.c:36-39 | On a runtime that is up init returns at once, with everything set up and nothing done. |
| CdtorsProgress.WaiterDoes | bazel-dds/external/+cyclonedds_repository+cyclonedds/src/ddsrt/src/cdtors.c:51-61 | A waiter returns with its next read if and only if the runtime is up, initialises if and only if the runtime is not and it is the only one counted, and otherwise changes nothing. |
| CdtorsProgress.WordIsCount | bazel-dds/external/+cyclonedds_repository+cyclonedds/src/ddsrt/src/cdtors.c:33-88 | The word is the number of those counted, with the status bit exactly while the runtime is up. |
| CdtorsProgress.InitialiserFinishes | bazel-dds/external/+cyclonedds_repository+cyclonedds/src/ddsrt/src/cdtors.c:41-49 | An initialiser, wherever it is, brings everything up and returns without needing anybody. |
| CdtorsProgress.FirstInitBringsUp | bazel-dds/external/+cyclonedds_repository+cyclonedds/src/ddsrt/src/cdtors.c:33-50 | The first call of all, left to itself, initialises once and returns with everything up. |
| CdtorsProgress.FiniUndisturbed | bazel-dds/external/+cyclonedds_repository+cyclonedds/src/ddsrt/src/cdtors.c:65-88 | A fini that nobody disturbs: if others are counted, its load and swap make the count one lower and it returns with everything still up; if it is the only one, they begin the destruction. |
| CdtorsProgress.FiniSwaps | bazel-dds/external/+cyclonedds_repository+cyclonedds/src/ddsrt/src/cdtors.c:71-78 | A swap of a fini whose value is current takes effect like that; one whose value is not makes it load again and changes nothing else. |
| CdtorsProgress.DestroyerFinishes | bazel-dds/external/+cyclonedds_repository+cyclonedds/src/ddsrt/src/cdtors.c:79-87 | A destroyer, wherever it is, takes everything down and returns without needing anybody. |
| CdtorsProgress.LastFiniTakesDown | bazel-dds/external/+cyclonedds_repository+cyclonedds/src/ddsrt/src/cdtors.c:65-88 | The last holder, left to itself, destroys once and returns with everything down and nobody counted. |
| CdtorsProgress.ResourceOrder | bazel-dds/external/+cyclonedds_repository+cyclonedds/src/ddsrt/src/cdtors.c:41-86 | The condition variable is up only with its mutex, and the others come up and go down in the order of the code. |
| Atomic64.LockIndex | bazel-dds/external/+cyclonedds_repository+cyclonedds/src/ddsrt/src/atomics.c:202-207 | The hash of any address is one of the 16 mutexes. |
| Atomic64.OneMutexPerVariable | bazel-dds/external/+cyclonedds_repository+cyclonedds/src/ddsrt/src/atomics.c:202-207 | All bytes of a variable give the same mutex, and variables 2^19 bytes apart share one. |
| Atomic64.HashIs | bazel-dds/external/+cyclonedds_repository+cyclonedds/src/ddsrt/src/atomics.c:202-207 | The mutex is the top four of the lower 32 bits of the product of the lowest 16 bits of the address in words of eight bytes and 3028382565. |
| Atomic64.MutexesExclude | bazel-dds/external/+cyclonedds_repository+cyclonedds/src/ddsrt/src/atomics.c:209-260 | Two threads inside their critical sections never use the same mutex, and no thread holds two. |
| Atomic64.ReadSeesWhole | bazel-dds/external/+cyclonedds_repository+cyclonedds/src/ddsrt/src/atomics.c:209-252 | The two halves that an operation reads one after the other, with others at work on other variables under the same hash, join to one value that the variable really had. |
| Atomic64.StepKeepsInv | bazel-dds/external/+cyclonedds_repository+cyclonedds/src/ddsrt/src/atomics.c:209-278 | One memory access of any thread changes the 64-bit memory by one whole atomic operation, with the answer of that operation, or not at all. |
| Atomic64.RunIsAtomic | bazel-dds/external/+cyclonedds_repository+cyclonedds/src/ddsrt/src/atomics.c:209-278 | Every interleaving is a legal history of atomic compare-and-swap, load, store, add, sub, or and and on whole 64-bit variables. |
| Atomic64.OneEffectPerCall | bazel-dds/external/+cyclonedds_repository+cyclonedds/src/ddsrt/src/atomics.c:209-278 | A step has the effect of a call exactly when the thread goes on to unlock, with the answer of that moment, which is what it returns. |
| Atomic64.CallsAreDone | bazel-dds/external/+cyclonedds_repository+cyclonedds/src/ddsrt/src/atomics.c:209-278 | Over whole runs: the calls of each thread are exactly its operations in the history, in order, followed by the call that has not taken effect; and what it was given back are exactly the answers of those operations, in order. |
| Atomic64.QuiescentCount | bazel-dds/external/+cyclonedds_repository+cyclonedds/src/ddsrt/src/atomics.c:226-278 | When no operation is under way, a variable that was only added to, subtracted from and read holds its first value plus the sum, modulo 2^64: no update was lost. |
| AtomicMeaning.OperationMeans | bazel-dds/external/+cyclonedds_repository+cyclonedds/src/ddsrt/src/atomics.c:209-278 | What every operation does to the value and answers, in arithmetic: compare-and-swap, load and store; add and sub up to one 2^64; and of or and and every bit from the bits of the variable and the operand; the answer is the new or the old value as asked, and no other variable changes. |
| AtomicMeaning.QuiescentBits | bazel-dds/external/+cyclonedds_repository+cyclonedds/src/ddsrt/src/atomics.c:226-278 | When no operation is under way, a variable that was only or-ed and read has exactly the bits set that were set at first or in some operand, and one that was only and-ed and read those that were set at first and in every operand. |
| AtomicMeaning.FinishesAlone | bazel-dds/external/+cyclonedds_repository+cyclonedds/src/ddsrt/src/atomics.c:209-278 | An operation that has its mutex, or finds it free, returns after at most six accesses without needing anybody. |
| AtomicMeaning.NoDeadlock | bazel-dds/external/+cyclonedds_repository+cyclonedds/src/ddsrt/src/atomics.c:209-278 | While operations are under way some thread can move. |
| Wire.Reads16 | inspector.cpp:125-141 | What is written in either byte order as 16 bits is read back in that order. |
| Wire.Reads32 | inspector.cpp:133-142 | What is written in either byte order as 32 bits is read back in that order. |
| Wire.BytesOf16 | inspector.cpp:125-141 | Little-endian takes the first byte as the lower one, big-endian the second. |
| Wire.BytesOf32 | inspector.cpp:133-142 | Of four bytes the first counts least in little-endian and most in big-endian. |
| Wire.CdrString | inspector.cpp:148-158 | For any bytes, length word and limit the string is empty or a stretch strictly inside the limit. |
| Wire.CdrStringIs | inspector.cpp:148-158 | The string is the bytes behind the length word without the last one, if that word is above one and inside the limit, and otherwise empty. |
| Wire.CdrStringRoundTrip | inspector.cpp:148-158 | A string written with its length, its NUL and its padding is read back, in either byte order. |
| Wire.GuidTextInjective | inspector.cpp:87-110 | Different 16-byte GUIDs have different texts, so the registry keyed by text is a registry keyed by GUID. |
| Wire.PrefixReads | inspector.cpp:87-96 | Read as hexadecimal digits, high one first, the text of a prefix gives its twelve bytes in order, with colons after the fourth and eighth. |
| Wire.EntityReads | inspector.cpp:98-104 | That of an entity gives its four bytes in order, with the bar before the last. |
| Wire.GuidReads | inspector.cpp:87-110 | That of a GUID gives its sixteen bytes in order, with colons at 8, 17 and 26 and the bar at 33. |
| Sedp.DecodeFields | inspector.cpp:167-195 | The loop over the parameters, for any bytes: every read is inside the payload, every iteration moves on by four bytes or more, and the result is the parameter walk on which the round trip is proved. |
| Sedp.SedpRoundTrip | inspector.cpp:164-206 | An announcement is recovered from its parameter list in either byte order, with its parameters in any order and repeated, unknown ones between them, anything after the sentinel and any option bytes. |
| Sedp.OrderDoesNotMatter | inspector.cpp:177-195 | Every list of parameters that says the same of topic, type and GUID is noted as the same fields. |
| Sedp.ListIsRead | inspector.cpp:177-195 | Whatever ends a list, the sentinel, the end of the payload or a parameter that does not fit, the fields are what the parameters before it say. |
| Numbers.ParameterNumbers | inspector.cpp:80-84 | On the wire a topic is parameter 5, a type 7 and a GUID 90, and 1 ends a list. |
| Rtps.NextOff | inspector.cpp:287-294 | The next submessage starts four bytes or more further on, and no further than the end of the message, whatever the length word says. |
| Rtps.EndsWithTheMessageIff | inspector.cpp:287-294 | A submessage ends with its message if and only if its length word is zero or reaches that far, and otherwise where the length word says, read in the order of bit 0 of its flags. |
| Rtps.SkipQos | inspector.cpp:325-334 | The walk over inline QoS moves on by whole headers of at least four bytes. |
| Rtps.PayloadInsideSubmessage | inspector.cpp:285-337 | For any bytes, the payload that is handed on is the end part of its submessage, which is inside the message. |
| Rtps.FixedFieldsInsideSubmessageIff | inspector.cpp:300-318 | The fixed fields of a DATA are always inside the message, and inside their own submessage exactly when its length word is zero or at least 20. |
| Rtps.FixedFieldsMayOverrun | inspector.cpp:305-305 | A message in which they are not: a DATA that declares one byte. |
| Rtps.SeqNoRoundTrip | inspector.cpp:315-318 | Every signed 64-bit sequence number written as two words is read back, in either byte order. |
| Rtps.SkipsQos | inspector.cpp:324-334 | A parameter list ended by a sentinel of length zero is skipped to its exact end. |
| Rtps.SubRoundTrip | inspector.cpp:285-403 | Each kind of submessage, with or without inline QoS, with any other flag bits, options and extra fields, in either byte order, is read as what it says, and the walk goes on behind it. |
| Rtps.MessageRoundTrip | inspector.cpp:265-403 | Of a whole message, with a byte order per submessage, the walk recovers the encoded list of items in order, up to and including the first whose length word is zero. |
| Rtps.NothingMissedIff | inspector.cpp:292-294 | Nothing that was sent is missed if and only if no submessage but the last has a zero length word. |
| Rtps.PadHidesTheRest | inspector.cpp:292-294 | A PAD of length zero, as the standard allows it, hides everything behind it in its message. |
| Rtps.PadHidesData | inspector.cpp:292-294 | A message in which it hides a DATA. |
| Numbers.HeaderNumbers | inspector.cpp:265-276 | A message begins with the letters RTPS, and its participant is in bytes 8 to 19. |
| Numbers.SubmessageNumbers | inspector.cpp:286-305 | A DATA is 21 and a HEARTBEAT 7, and bits 0, 1 and 2 of the flags are byte order, inline QoS and data. |
| Numbers.WriterNumbers | inspector.cpp:72-75 | The writers of discovery data are 000003c2, which announces writers, and 000004c2; participants are announced by 000100c2. |
| Registry.RegisterAgrees | inspector.cpp:203-206 | Registering an announcement changes the entry of its own GUID and of no other. |
| Registry.RegistryIsLatest | inspector.cpp:203-206 | After any sequence of messages, well formed or not, and in any print mode, the registry maps every GUID to the latest announcement with a topic that the messages make of it, and holds nothing else. |
| Registry.RepeatFlagIsTrue | inspector.cpp:203-220 | In every print mode: an announcement is shown, except in the traffic mode, and as a repetition exactly when its GUID was announced before. |
| Registry.UserDataIsLabelled | inspector.cpp:367-386 | In every print mode: user data is shown, except in the reannounce mode, with the latest announced topic of its writer, or as unknown when there is none, and decoded by that topic. |
| Registry.WarnsIffNothingAnnounced | inspector.cpp:389-400 | In every print mode: the warning about missed discovery is shown by a discovery heartbeat exactly when nothing has been announced and the mode is not the traffic mode. |
| Registry.HandleAllRegisters | inspector.cpp:203-206 | The items of a message change the registry by what they announce, one after the other, and by nothing else. |
| Output.CaptureShows | inspector.cpp:208-400 | After any sequence of messages, well formed or not, and in every print mode, exactly the events have been printed that the messages mean: each announcement flagged by the announcements before it, each piece of user data labelled by the latest announcement of its writer, each warning only while there is none. |
| Output.CapturePrints | inspector.cpp:367-386 | Over any sequence of messages: every piece of user data in them is counted, in every mode, and all of them are printed, or in the reannounce mode none. |
| Output.AllUserDataIsPrintedIff | inspector.cpp:367-386 | As much user data is printed as the messages hold if and only if the mode is not the reannounce mode or they hold none. |
| Output.UserDataIsLeftOut | inspector.cpp:367-386 | A message whose one piece of user data the reannounce mode leaves out and the mode for both prints. |
| Output.ModesSplit | inspector.cpp:208-400 | Of any capture the traffic mode prints just the user data that the mode for both prints, and the reannounce mode just the rest, each in order. |
| Payloads.NumberIsShown | inspector.cpp:226-246 | A signed 32-bit number sent on one of the number topics, in either byte order and with anything behind it, is shown as that number. |
| Payloads.TextIsShown | inspector.cpp:234-248 | A text sent on the text topic, in either byte order and with anything behind it, is shown as that text. |
| Payloads.HexIsInjective | inspector.cpp:250-254 | Different bytes are shown differently. |
| Payloads.HexReadsAll | inspector.cpp:250-254 | Digits 2i and 2i + 1, read as a number with the first counting 16, are byte i. |
| Payloads.DumpTellsTheBytes | inspector.cpp:249-256 | On any other topic two payloads are shown the same if and only if they agree in their first 24 bytes and in having more, or are the same. |
| Registry.LatestIffAnnounced | inspector.cpp:203-206 | A GUID has a latest announcement exactly when it has one at all. |
| Frames.MessageInsidePacket | inspector.cpp:415-478 | For any captured bytes and link type the message handed on is a stretch of the captured bytes. |
| Frames.FrameRoundTrip | inspector.cpp:423-466 | Through every supported link type, with or without a VLAN tag, any IPv4 options and any padding after the datagram, exactly the UDP payload is handed on. |
| Numbers.LinkNumbers | inspector.cpp:423-447 | Which bytes select IPv4 on each link type, and from where on the packet is handed on, for any bytes. |
| Numbers.UdpNumbers | inspector.cpp:449-466 | Which bytes of an IPv4 packet give version, header length, protocol and datagram length, and what is handed on for them, for any bytes. |
| Numbers.CutDatagram | inspector.cpp:466-466 | A datagram of which only the first part was captured is handed on as far as it was. |
| Frames.MessageArrives | inspector.cpp:261-478 | Whatever submessages a framed message has, it changes the registry by the announcements that the walk reaches in it, in their order, and by nothing else, from any state and in any mode. |
| Frames.AnnouncementArrives | inspector.cpp:164-478 | End to end: an announcement with a topic, in a parameter list of any form, in any submessage that the walk reaches of a message with any others beside it, in a frame, is what the registry says of its GUID afterwards, if no later submessage announces that GUID again. |
| Frames.CaptureArrives | inspector.cpp:164-478 | Of any sequence of such frames, from any participants over any supported links, the registry holds the latest announcement of each GUID, and exactly the events that the frames mean have been printed. |
| Inspector.Inspector.DecodePayload | inspector.cpp:242-257 | The loop that fills the hexadecimal text, and the two known formats, show what the payload says for its topic; every read is inside the payload. |
| Inspector.Inspector.DecodeSedp | inspector.cpp:164-221 | The update in place registers the decoded fields under the GUID they carry or else the sender's, and nothing when the topic is empty. |
| Inspector.Inspector.SkipInlineQos | inspector.cpp:324-334 | The loop in place ends where the parameter walk ends; every read is below the limit. |
| Inspector.Inspector.HandleData | inspector.cpp:339-388 | The classification of a DATA updates registry, counters and output as the meaning of that item does. |
| Inspector.Inspector.HandleSubmessage | inspector.cpp:286-403 | One iteration, reading in place, does what the item at this offset means and moves to the next offset. |
| Inspector.Inspector.HandleRtps | inspector.cpp:261-405 | The one pass over the bytes leaves registry, counters and output as parsing the message and then folding over its items does. |
| Inspector.Inspector.StripLink | inspector.cpp:423-447 | The IPv4 packet of every link type, or nothing, with every read inside the capture. |
| Inspector.Inspector.StripUdp | inspector.cpp:449-466 | The UDP payload, cut to the smaller of declared and captured length, or nothing. |
| Inspector.Inspector.HandlePackets | inspector.cpp:580-595 | Over any packets of any links, from the start: the registry is the latest announcement of each GUID in the messages that the packets hold, and exactly what they mean has been printed. |
| Inspector.Inspector.HandlePacket | inspector.cpp:415-478 | A packet counts as captured exactly when it has a UDP payload, which is then handled as a message. |
| Layout.Up | bazel-dds/external/+cyclonedds_repository+cyclonedds/examples/dynsub/dynsub.c:172-176 | Rounding gives the least multiple of the alignment that is not smaller. |
| Layout.MembersFit | bazel-dds/external/+cyclonedds_repository+cyclonedds/examples/dynsub/dynsub.c:163-177 | In the C layout members are aligned, in order, without overlap and inside the struct, whose alignment is at least theirs. |
| Layout.StructIsTight | bazel-dds/external/+cyclonedds_repository+cyclonedds/examples/dynsub/dynsub.c:163-177 | And nothing is wasted: the struct is the least multiple of its alignment that holds its members, its alignment is 1 or that of some member, the first member is at 0, and each other one at the first place behind the one before that is aligned for it. |
| Layout.MemberIsAligned | bazel-dds/external/+cyclonedds_repository+cyclonedds/examples/dynsub/dynsub.c:163-177 | With power-of-two alignments a member is aligned in memory wherever a properly aligned struct stands. |
| Layout.BuildIsSizeTi | bazel-dds/external/+cyclonedds_repository+cyclonedds/examples/dynsub/dynsub.c:103-142 | For every type in which each simple type object is as aligned as it is large, the builder computes the C layout, at every depth. |
| Layout.BuilderIsRightIff | bazel-dds/external/+cyclonedds_repository+cyclonedds/examples/dynsub/dynsub.c:144-189 | The builder computes the C layout of every supported type if and only if every primitive of the target is as aligned as it is large: on the others the exchanged arguments show. |
| Layout.TargetDecides | bazel-dds/external/+cyclonedds_repository+cyclonedds/examples/dynsub/dynsub.c:144-189 | On 64-bit x86 the builder is right for every type; on 32-bit x86 it is wrong for a 64-bit integer as a type object. |
| Dynsub.AddKeepsCoherent | bazel-dds/external/+cyclonedds_repository+cyclonedds/examples/dynsub/dynsub.c:122-135 | Adding an entry whose parts are cached keeps every entry closed and equal to a fresh computation. |
| Dynsub.TypeCache.constructor | bazel-dds/external/+cyclonedds_repository+cyclonedds/examples/dynsub/dynsub.c:103-189 | The empty cache is coherent. |
| Dynsub.TypeCache.BuildTypeId | bazel-dds/external/+cyclonedds_repository+cyclonedds/examples/dynsub/dynsub.c:103-142 | From any coherent cache: the cache stays coherent and only grows, everything reachable from the type is cached, the result is what building without a cache gives, and the program aborts exactly on types that have an unsupported part. |
| Dynsub.TypeCache.BuildTypeObj | bazel-dds/external/+cyclonedds_repository+cyclonedds/examples/dynsub/dynsub.c:144-189 | The same for type objects, with their exchanged arguments. |
| Dynsub.TypeCache.BuildStruct | bazel-dds/external/+cyclonedds_repository+cyclonedds/examples/dynsub/dynsub.c:157-183 | The loop over the members, which adds entries while the struct itself is not cached yet. |
| Printer.Context.Align | bazel-dds/external/+cyclonedds_repository+cyclonedds/examples/dynsub/dynsub.c:216-225 | The next object is at the next multiple of its alignment, and the offset moves past it. |
| Printer.JsonPrinter.PrintSimple | bazel-dds/external/+cyclonedds_repository+cyclonedds/examples/dynsub/dynsub.c:229-253 | A primitive or string is read at its aligned place and shown exactly when the sample is valid or it is a key field. |
| Printer.JsonPrinter.PrintTypeId | bazel-dds/external/+cyclonedds_repository+cyclonedds/examples/dynsub/dynsub.c:255-298 | For every supported type in the cache: every lookup succeeds, and the running offset and alignment move by the type alone, whether or not anything is shown; the objects are read at the places on which the next rows are proved. |
| Printer.JsonPrinter.PrintElems | bazel-dds/external/+cyclonedds_repository+cyclonedds/examples/dynsub/dynsub.c:283-287 | Both loops over elements, with and without the extra rounding, each from its own running offset. |
| Printer.ElemsEndIs | bazel-dds/external/+cyclonedds_repository+cyclonedds/examples/dynsub/dynsub.c:283-287 | Element i of a sequence is read at i times the element size, with or without the extra rounding of the other loop. |
| Printer.JsonPrinter.PrintTypeObj | bazel-dds/external/+cyclonedds_repository+cyclonedds/examples/dynsub/dynsub.c:300-344 | The same for type objects, with a struct's extent taken from the cache. |
| Printer.JsonPrinter.PrintMembers | bazel-dds/external/+cyclonedds_repository+cyclonedds/examples/dynsub/dynsub.c:331-341 | Each member is read from a running offset of its own, as a key field exactly when it and everything above it are. |
| Printer.MembersEndIs | bazel-dds/external/+cyclonedds_repository+cyclonedds/examples/dynsub/dynsub.c:331-341 | The running offset behind any number of members is where they end in the C layout. |
| Printer.PrintedIsVisitsTo | bazel-dds/external/+cyclonedds_repository+cyclonedds/examples/dynsub/dynsub.c:255-344 | Every object, down to any depth, is read where the C layout puts it and with its extent, for every type whose simple type objects are as aligned as they are large. |
| Printer.ValidIsShownTo | bazel-dds/external/+cyclonedds_repository+cyclonedds/examples/dynsub/dynsub.c:229-344 | Of a valid sample every object is shown, down to any depth. |
| Printer.PrinterIsRightIff | bazel-dds/external/+cyclonedds_repository+cyclonedds/examples/dynsub/dynsub.c:144-344 | The printer reads the samples of every supported type so if and only if every primitive of the target is as aligned as it is large. |
| Printer.TargetDecidesPrinter | bazel-dds/external/+cyclonedds_repository+cyclonedds/examples/dynsub/dynsub.c:144-344 | On 64-bit x86 the printer is right for every type, on 32-bit x86 it is not. |
| Printer.JsonPrinter.PrintSample | bazel-dds/external/+cyclonedds_repository+cyclonedds/examples/dynsub/dynsub.c:346-351 | A whole sample, from offset 0. |
| Printer.BuildAndPrint | bazel-dds/external/+cyclonedds_repository+cyclonedds/examples/dynsub/dynsub.c:144-351 | Building the cache and then printing: it aborts exactly on unsupported types; else every lookup succeeds, and every object is found where the C layout puts it under the condition above. |
| Printer.VisitsToSound | bazel-dds/external/+cyclonedds_repository+cyclonedds/examples/dynsub/dynsub.c:300-344 | Every object of the C layout, at every depth and through any number of sequences, is aligned, and inside the stretch given for its own block or inside the buffer, of as many elements as the sequence has, that it belongs to. |
| Printer.EveryObjectIsInside | bazel-dds/external/+cyclonedds_repository+cyclonedds/examples/dynsub/dynsub.c:346-351 | In a whole sample every object is aligned and inside the sample or the buffer that it belongs to. |
| Printer.VisitsElemsSound | bazel-dds/external/+cyclonedds_repository+cyclonedds/examples/dynsub/dynsub.c:283-287 | The elements of a sequence of n are inside n times the element size. |
| Printer.VisitsMembersSound | bazel-dds/external/+cyclonedds_repository+cyclonedds/examples/dynsub/dynsub.c:333-339 | The members of a struct are inside the struct. |
| RepoMapping.UpperBound | bazel-dds/external/rules_cc+/cc/runfiles/runfiles.cc:216-217 | The first entry above the key. |
| RepoMapping.MatchesIff | bazel-dds/external/rules_cc+/cc/runfiles/runfiles.cc:228-234 | A wildcard entry p* applies exactly to the sources that p begins, for its own target. |
| RepoMapping.ExactIsFound | bazel-dds/external/rules_cc+/cc/runfiles/runfiles.cc:224-227 | An exact entry is always found. |
| RepoMapping.WildcardFoundIff | bazel-dds/external/rules_cc+/cc/runfiles/runfiles.cc:228-240 | Without an exact entry, the matching wildcard with the longest prefix is found if and only if no entry of the same target sorts between it and the source; if one does, nothing is found. |
| RepoMapping.BareWildcardFoundIff | bazel-dds/external/rules_cc+/cc/runfiles/runfiles.cc:217-223 | A wildcard whose prefix is the whole source is found if and only if it is the first entry of the map. |
| RepoMapping.LookupFollowsRuleIff | bazel-dds/external/rules_cc+/cc/runfiles/runfiles.cc:214-240 | For every map and source the single floor lookup is the rule "exact entry, else the wildcard with the longest matching prefix, else none" exactly under these conditions. |
| RepoMapping.LookupFollowsRule | bazel-dds/external/rules_cc+/cc/runfiles/runfiles.cc:214-240 | In particular it follows the rule when no other entry of the target starts with the wildcard's prefix and the source is not that prefix. |
| RepoMapping.ShadowingExample | bazel-dds/external/rules_cc+/cc/runfiles/runfiles.cc:228-240 | A map of two entries in which the rule names a wildcard and the lookup finds nothing. |
| RepoMappingFile.InsertKeepsOrder | bazel-dds/external/rules_cc+/cc/runfiles/runfiles.cc:372-372 | An assignment keeps the map ordered, as the floor search needs it. |
| RepoMappingFile.ParseRepoMapping | bazel-dds/external/rules_cc+/cc/runfiles/runfiles.cc:328-377 | The parser fails exactly when a line before the first empty one has fewer than two commas; else the map is ordered and holds for every key the value of the last line for it, and nothing else. |
| RepoMappingFile.LineIsReadIff | bazel-dds/external/rules_cc+/cc/runfiles/runfiles.cc:339-372 | A written entry is read back if and only if there is no comma in its source or apparent target. |
| RepoMappingFile.LastLineIsUsed | bazel-dds/external/rules_cc+/cc/runfiles/runfiles.cc:214-227 | What the file says last of a target and a source is what the lookup uses. |
| Runfiles.Unescape | bazel-dds/external/rules_cc+/cc/runfiles/runfiles.cc:162-193 | The loop over the characters undoes the escapes of the recursive definition that is proved to invert the escaping. |
| Runfiles.EscapeRoundTrip | bazel-dds/external/rules_cc+/cc/runfiles/runfiles.cc:162-193 | Unescaping inverts the escaping of every string, and escaped text has no space and no line end. |
| RunfilesAnswers.OtherPairsStay | bazel-dds/external/rules_cc+/cc/runfiles/runfiles.cc:165-191 | A backslash before any other character, or at the end, stays, and so does every other character. |
| Runfiles.ParseManifest | bazel-dds/external/rules_cc+/cc/runfiles/runfiles.cc:285-326 | The loop over the lines reads them as their line-by-line meaning: the first bad line fails, an empty line ends, a later line for a source replaces an earlier one. |
| RunfilesAnswers.BadLineIff | bazel-dds/external/rules_cc+/cc/runfiles/runfiles.cc:300-320 | A line is bad if and only if it has no space, not counting one at its start. |
| RunfilesAnswers.ManifestFailsIff | bazel-dds/external/rules_cc+/cc/runfiles/runfiles.cc:285-326 | The parser fails if and only if there is such a line before the first empty one. |
| Runfiles.LineRoundTrip | bazel-dds/external/rules_cc+/cc/runfiles/runfiles.cc:291-320 | An entry rendered in the escaped form, or in the plain form where that can be, is read back. |
| Runfiles.ManifestRoundTrip | bazel-dds/external/rules_cc+/cc/runfiles/runfiles.cc:285-326 | Every finite map of strings, with spaces, line ends and backslashes, rendered in any order and followed by anything after an empty line, is read back. |
| Runfiles.RlocationUnchecked | bazel-dds/external/rules_cc+/cc/runfiles/runfiles.cc:243-269 | When the search ends, it gives the exact entry, else the longest listed prefix that ends at a slash with the rest of the path behind it, else the directory, else nothing. |
| RunfilesAnswers.BelowListedDirectory | bazel-dds/external/rules_cc+/cc/runfiles/runfiles.cc:255-263 | For a listed directory q with nothing longer above q/t listed, and q/t not listed itself, the answer is the target of q, a slash and t. |
| RunfilesAnswers.NothingListedFits | bazel-dds/external/rules_cc+/cc/runfiles/runfiles.cc:265-268 | With nothing listed that fits the answer is the directory, a slash and the path, or nothing if the directory is empty. |
| RunfilesAnswers.NameIsReplaced | bazel-dds/external/rules_cc+/cc/runfiles/runfiles.cc:209-240 | The part before the first slash is replaced by the name that the lookup gives, and the rest stays. |
| RunfilesAnswers.ReplacedNameIsAnswered | bazel-dds/external/rules_cc+/cc/runfiles/runfiles.cc:209-269 | For a replaced name the answer is the target of the new path, of the longest listed directory above it with the rest behind a slash, or the place in the directory. |
| RunfilesAnswers.RefusedIff | bazel-dds/external/rules_cc+/cc/runfiles/runfiles.cc:201-205 | A path is refused if and only if it is empty, begins with `../` or `./`, has `/..`, `/./` or `//` in it, or ends in `/.`. |
| RunfilesAnswers.AbsoluteIff | bazel-dds/external/rules_cc+/cc/runfiles/runfiles.cc:136-145 | A path is absolute if and only if it begins with a slash and not with two, or with a letter, a colon and a slash or backslash. |
| Runfiles.RunsForEverIff | bazel-dds/external/rules_cc+/cc/runfiles/runfiles.cc:255-264 | The search over a path that is not listed goes on for ever if and only if the path begins with a slash and no prefix of it is listed. |
| Runfiles.RlocationEndsIff | bazel-dds/external/rules_cc+/cc/runfiles/runfiles.cc:199-269 | The search begun by Rlocation ends if and only if the mapping selects no entry for the path, or that entry names something that is neither empty nor begins with a slash, or the resolved path or a prefix of it is listed, or nothing is. |
| Runfiles.RlocationMayNotEnd | bazel-dds/external/rules_cc+/cc/runfiles/runfiles.cc:199-269 | It does not end for the path t/x of the repository s with the line "s,t," in the mapping file and some other file listed. |
| Runfiles.MappingOfOneLine | bazel-dds/external/rules_cc+/cc/runfiles/runfiles.cc:214-264 | The mapping of that one line is such a mapping. |
| Runfiles.LongestListed | bazel-dds/external/rules_cc+/cc/runfiles/runfiles.cc:255-263 | The reference answer: the longest prefix bounded by a slash that is listed. |
| Runfiles.Runfiles.Rlocation | bazel-dds/external/rules_cc+/cc/runfiles/runfiles.cc:199-241 | Refused paths give nothing, absolute ones themselves, and the others what the search finds after the repository name is replaced. |
| Runfiles.Runfiles.RlocationEnds | bazel-dds/external/rules_cc+/cc/runfiles/runfiles.cc:199-241 | A search begun by Rlocation ends whenever no mapped name is empty or begins with a slash. |
| Circlist.CircList.constructor | bazel-dds/external/+cyclonedds_repository+cyclonedds/src/ddsrt/src/circlist.c:18-21 | The new list is empty. |
| Circlist.CircList.IsEmpty | bazel-dds/external/+cyclonedds_repository+cyclonedds/src/ddsrt/src/circlist.c:23-26 | Whether there are no elements. |
| Circlist.CircList.Append | bazel-dds/external/+cyclonedds_repository+cyclonedds/src/ddsrt/src/circlist.c:28-47 | The list is a ring again, with the element at the end and the others as they were; the debug check passes. |
| Circlist.CircList.Remove | bazel-dds/external/+cyclonedds_repository+cyclonedds/src/ddsrt/src/circlist.c:49-70 | The list is a ring again, without the element and with the others in their order; the element keeps its old links; the debug check passes. |
| Circlist.CircList.Oldest | bazel-dds/external/+cyclonedds_repository+cyclonedds/src/ddsrt/src/circlist.c:72-76 | The first of the list. |
| Circlist.CircList.Latest | bazel-dds/external/+cyclonedds_repository+cyclonedds/src/ddsrt/src/circlist.c:78-82 | The last of the list. |
| Circlist.CircList.Contains | bazel-dds/external/+cyclonedds_repository+cyclonedds/src/ddsrt/src/circlist.c:36-57 | The walk of the debug checks ends, and tells whether the element is in the list. |
| Circlist.CircList.Walk | bazel-dds/external/+cyclonedds_repository+cyclonedds/src/ddsrt/src/circlist.c:37-38 | A walk from the latest visits it and then the others from the oldest on, each once, and ends. |
| Circlist.RingIsClosed | bazel-dds/external/+cyclonedds_repository+cyclonedds/src/ddsrt/src/circlist.c:30-45 | next and prev undo each other at every element and do not leave the ring; an element is its own successor exactly when it is alone. |
| Circlist.WithoutKeepsOrder | bazel-dds/external/+cyclonedds_repository+cyclonedds/src/ddsrt/src/circlist.c:59-69 | Removing one element keeps the order of any two others. |
| Circlist.WithoutUndoesAppend | bazel-dds/external/+cyclonedds_repository+cyclonedds/src/ddsrt/src/circlist.c:28-70 | Removing what was just appended gives back the list. |
| Getopt.IndexOf | bazel-dds/external/+cyclonedds_repository+cyclonedds/compat/getopt.c:57-57 | The first place of a letter in the option letters. |
| Getopt.KindIs | bazel-dds/external/+cyclonedds_repository+cyclonedds/compat/getopt.c:57-65 | A letter takes an argument if and only if a colon follows its first place in the option letters; a colon and a letter that is not among them are refused. |
| Getopt.Scanner.Next | bazel-dds/external/+cyclonedds_repository+cyclonedds/compat/getopt.c:37-83 | One call tells the head of the parse of what is left and leaves exactly the rest of it; EOF means that nothing was left and optind is the first operand; every other call moves (optind, sp) strictly on; and sp is inside the current word afterwards. |
| Getopt.Scanner.Drain | bazel-dds/external/+cyclonedds_repository+cyclonedds/compat/getopt.c:37-83 | Calling until EOF ends, and gives exactly the options and arguments of the parse. |
| CommandLines.LineIsRead | bazel-dds/external/+cyclonedds_repository+cyclonedds/compat/getopt.c:47-82 | The parse of a line written as any groups of letters with their arguments attached or detached, and then operands, "--" or a last option without its argument, is what the line means. |
| CommandLines.ExampleLine | bazel-dds/external/+cyclonedds_repository+cyclonedds/compat/getopt.c:37-83 | What the caller of the scanner sees of -xa -bv -b w -- -a for the letters "ab:". |
| CommandLines.EveryLineHasAForm | bazel-dds/external/+cyclonedds_repository+cyclonedds/compat/getopt.c:47-82 | Every sequence of words is such a line, so that the parse is determined by the meaning for all inputs. |
| CommandLines.MeaningDecides | bazel-dds/external/+cyclonedds_repository+cyclonedds/compat/getopt.c:47-82 | Two lines with the same meaning give the same options. |
| CommandLines.GroupedOrSeparate | bazel-dds/external/+cyclonedds_repository+cyclonedds/compat/getopt.c:75-81 | Letters in one word or in two mean the same, and they may stand in two words exactly when they may stand in one and each of the two is an option word. |
| CommandLines.AttachedOrDetached | bazel-dds/external/+cyclonedds_repository+cyclonedds/compat/getopt.c:65-74 | A non-empty argument means the same in the word of its option and in the next, and may stand in either, except that "--" is not an option word. |

## Left out

- Lifo.RunIsAtomic: sequential consistency is taken for granted, and a pop that succeeds must have seen fewer than w swaps since it read the counter; one that fails may have seen any number. Without that bound on the successful ones it is false (LifoLimits.WrappedCounterBreaksPop, proved for even w from 4 on, which includes every word size).
- Lifo.PopCasKeeps: a pop may read the link of a node that a client owns by then; the model lets that read succeed always, so nodes must stay mapped as long as anyone may pop.
- Cdtors.RecoversIff: says whether an initialisation can begin, not that a fair scheduler makes it begin; the sleep between two reads has no length.
- Atomic64.RunIsAtomic: locks are ideal, and the low half is always accessed before the high half.
- Printer.PrinterIsRightIff: an extent that the printer takes wrongly counts as wrong even where no later place depends on it.
- Runfiles.RlocationUnchecked: stated for searches that end; Runfiles.RunsForEverIff says which those are.
- Runfiles.Runfiles.Rlocation: likewise, by Runfiles.RlocationEndsIff; the variant with the default source repository only adds that argument.
- Getopt.Scanner.Next: the messages on stderr and opterr are not modelled; optarg is the argument's text and not a pointer into argv.
- Weak memory orders, the SPARCv8 copies of the compiler's atomics, real mutexes and the Windows callbacks and resources.
- inspector.cpp: time stamps, addresses and ports in the output, verbose messages, box drawing, libpcap, select and the options of main; the out-parameter of cdr_string, which no caller uses.
- inspector.cpp: the counters are unbounded.
- dynsub.c: the text of the JSON, the discovery of topics, the hash table behind the cache, recursive types (a type is a finite tree here), and the extra entry that main adds for the top-level type. Sizes do not overflow.
- runfiles.cc: Create, PathsFrom, the environment, opening files and the messages of the parsers, which get their lines as a sequence.
- RepoMapping.LookupFollowsRuleIff: the source repository has only characters above the asterisk, as the comment in the source says of all names; the keys of the map are not restricted.
- The other programs of the repository (ping, pong, baz, hoge, the second inspector) are loops around a library whose behaviour is not part of this model.
