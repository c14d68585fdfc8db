# jmpxx, modelled and proved in Dafny

jmpxx moves failures up a call chain in two ways: as values of `result<T, E>` returned by every call, and
as a forced unwind from `unwind::eject` to the nearest `unwind::escape_scope`. This project models both,
the diagnostic layer beside them, the two clients of the arm, and the tools that must agree with each
other, and proves what each promises for all inputs, all programs or all runs. `dafny verify
dfyconfig.toml` checks everything.

- **The unwind arm.** `EscapeMachine` is a step machine over a stack of frames at concrete addresses: calls,
  automatic objects with destructors, handlers, scopes and ejects, with the thread's `active()` pointer,
  its in-flight flag and the carriers in memory. `EscapeProtocol` states the landing protocol as an
  automaton over the events of a run and proves that every reachable state of every program obeys it, with
  any handlers on the path and ejects from cleanups included. `EscapeRefinement` gives every program a
  meaning without carriers, addresses or unwinding and proves that every run is exactly that meaning, each
  diagnosed termination at its point and for its reason included; and that for the programs the portable
  surface can express the meaning is the same program written with returned results. `EscapeThreads` lifts
  the protocol to every interleaving of threads over one memory. `EscapeArm` is the mutable form, one method per source function.
- **The transport.** `Transport` is the union and its flag as a mutable memory with a ledger of objects built
  and destroyed and an oracle for everything that may throw, against a plain sum type whose operations are
  in turn proved to keep what each promises of the objects before and after it.
- **Diagnostics.** `DiagnosticStore` is the 16-slot arena against unbounded histories; `RichErrors` is
  the rich error policy against the minimal one, over programs of failures, checks, landings and combinators.
- **Clients of the arm.** `Resolver` is the `${...}` resolver and `ResolverText` its text format; `Manifest`,
  `ManifestFormat`, `ManifestTheorems` and `ManifestBuilder` are the manifest verifier, the format byte by
  byte, the meaning of its verdicts, successes and faults, and the round trip with the host's builder. In both an escape is modelled as a failure returned by every frame after its guards have
  run. For the resolver `ResolverOnArm` makes that formal: it writes `resolve_key` and its recursion as a
  program of the arm, runs it on the machine and proves that the answer is the specified one. For the
  manifest verifier the step is informal.
- **Tools.** `CanonLabels` and `Normalize` are the assembly comparison, `UnwindTables` and `UnwindRoundTrip` the unwind-table decoder and
  the writers it inverts,
  `Reflect` the two reflection paths, `Amalgamate` the single-header generator.

Assumptions taken from outside the code: the platform unwinder offers the current frame to the stop
function before each cleanup of that frame, innermost frame first; the compiler places a scope's carrier
inside the landing frame and the body in a frame of its own (frame sizes are otherwise arbitrary); threads
have disjoint stacks. SHA-256 is an arbitrary function, the allocation of hash contexts an arbitrary oracle by
depth, a TOML table a map from keys to strings.

Where code and documentation differ:

- `store.hpp` says a handle only has to be distinct among live records and that the counter wraps after
  2^32 opens. Its period is 2^32 - 1 (0 is skipped), and a record that stays live through 2^32 - 2 further
  opens does share its handle with the next one (`WindowIsNeeded`). `HandleResolvesIff` says for every run
  which record a handle reaches and exactly when that is its own: no other stored live failure is a multiple
  of 2^32 - 1 opens away, or only older ones are while its own is there. `ArenaRefinesHistories` has the
  exact condition for hops, and `ShortRunsAreGood` a bound a caller can check beforehand: no more than
  2^32 - 1 opens in all.
- `canon_labels` agrees on a body without `#` and some texts with one that are no renamings of it
  (`HashBreaksIt`); those are exactly the exceptions (`CanonDecidesRenaming`). They cannot come up in the
  harness: `normalize` never produces a `#` (`NormalizedHasNoHash`), so its comparison is exact
  (`IdenticalMeansRenamed`).
- The comment on the reflection paths promises identical failure sets inside the scanned range. That needs
  pairwise distinct values as well, and the two together are exactly the condition, for the sets
  (`PathsAgreeIff`), for `enum_cast` (`ValuesAgreeIff`) and for `message` (`MessagesAgreeIff`).

## Model

| member | source | states |
|---|---|---|
| EscapeMachine.StepShrinks | include/jmpxx/unwind/escape.hpp:103-201 | every step of the machine strictly lowers a measure, so no escape, cleanup or nested scope can make a program of finite size run forever |
| EscapeProtocol.StopsExactlyAtTarget | include/jmpxx/unwind/backend.hpp:223-247 | on every stack laid out downwards with the target as nearest landing, the CFA comparison says stop at the target's landing frame and at no frame below it, the jump buffer it uses is that landing's, and the end of the stack is never reached |
| EscapeProtocol.OpenScopeKeepsInv | include/jmpxx/unwind/escape.hpp:154-163 | linking a fresh carrier keeps the whole invariant: frame layout, chain, single target, accepted log |
| EscapeProtocol.EjectKeepsInv | include/jmpxx/unwind/escape.hpp:103-133 | an eject, refused or carried out, keeps the invariant |
| EscapeProtocol.EjectMarks | include/jmpxx/unwind/escape.hpp:110-123 | after an eject the nearest landing is the one target, it is the innermost open scope, and the payload in flight is the one ejected |
| EscapeProtocol.LeaveScopeKeepsInv | include/jmpxx/unwind/escape.hpp:158-195 | a scope that reports a value with its carrier not ejected to, or the carried error with it ejected to, keeps the invariant; the carrier is unlinked either way |
| EscapeProtocol.StepKeepsInv | include/jmpxx/unwind/escape.hpp:103-201 | every step of every program keeps the invariant: running code, returning, unwinding, handlers of all kinds, cleanups that open scopes or eject |
| EscapeProtocol.EveryReachableStateObeys | include/jmpxx/unwind/escape.hpp:103-201 | in every reachable state the events so far are ones the protocol automaton accepts, the thread's carriers are exactly its open scopes, and control never jumps to a frame that is gone |
| EscapeProtocol.ScopeHistory | include/jmpxx/unwind/escape.hpp:165-195 | in an accepted log a scope is unopened, or open with at most the one eject in flight, or closed with a value and no eject or with exactly the payload of its one eject |
| EscapeProtocol.ObjectBalance | include/jmpxx/unwind/backend.hpp:223-247 | in an accepted log the objects built and not destroyed are exactly the open ones, counted per object |
| EscapeProtocol.EveryRunEndsFaithfully | include/jmpxx/unwind/escape.hpp:165-195 | every run ends; it ends in a diagnosed termination, or with every scope reported, every object destroyed exactly once, nothing in flight and a null chain; each scope that reports gives a value only if nothing was ejected to it and otherwise the exact payload; which runs terminate is `EveryRunIsItsMeaning` |
| EscapeProtocol.EjectReasons | include/jmpxx/unwind/escape.hpp:110-123 | an eject is refused for want of a scope, for the wrong error type, or for an escape in flight, in that order and exactly then; otherwise it starts the unwind |
| EscapeProtocol.SecondEjectTerminates | include/jmpxx/unwind/escape.hpp:117-120 | an eject while one is in flight terminates with the exact reason and changes no carrier, even towards a fresh scope opened by a cleanup |
| EscapeProtocol.LandingSkipsNothing | include/jmpxx/unwind/backend.hpp:237-247 | when the stop function jumps, nothing is left on the stack above the landing, so the jump skips no destructor, and the scope reports the carried payload |
| EscapeRefinement.FlightRules | include/jmpxx/unwind/escape.hpp:110-123 | in the meaning of every program no escape starts while one is under way or without a scope, and a failure is the escape under way |
| EscapeRefinement.Simulates | include/jmpxx/unwind/escape.hpp:103-201 | from any state of the machine every program, whatever its handlers, destructors and error types, reaches the state its meaning prescribes with stack, chain and memory restored, or terminates where and why the meaning says |
| EscapeRefinement.EveryRunIsItsMeaning | include/jmpxx/unwind/escape.hpp:103-201 | every run of every program terminates for exactly the reason, at exactly the point and after exactly the events its meaning gives (no scope, wrong error type, second eject, swallowed escape, barrier), or returns with exactly its state and events |
| EscapeRefinement.MeaningIsResults | include/jmpxx/unwind/escape.hpp:135-143 | for programs with matching error types, transparent handlers and no eject from a cleanup, the meaning is that of the program written with results and a check at every call |
| EscapeRefinement.ArmRefinesResults | include/jmpxx/unwind/escape.hpp:103-201 | for every program with matching error types, transparent handlers and no eject from a cleanup, the arm ends normally with the same state, the same outcome at every scope and the same constructions and destructions in the same order as the program written with results and a check at every call |
| EscapeThreads.ChainIsOpenScopes | include/jmpxx/unwind/backend.hpp:151-157 | following `prev` from `active()` visits exactly the open scopes, innermost first, and ends; without an open scope nothing is in flight |
| EscapeThreads.EjectTouchesInnermostOnly | include/jmpxx/unwind/escape.hpp:110-123 | an eject that goes ahead writes the innermost carrier of its own thread and no other memory |
| EscapeThreads.StepIsLocal | include/jmpxx/unwind/backend.hpp:151-172 | a step reads and writes only its own thread's part of the shared memory |
| EscapeThreads.ThreadsAreIndependent | include/jmpxx/unwind/backend.hpp:151-172 | in every interleaving every thread is where it would be had it run alone for as many steps, its chain is its own open scopes, and with none open its chain is null and nothing is in flight |
| EscapeArm.Arm.Eject | include/jmpxx/unwind/escape.hpp:103-133 | the mutable form does the machine's eject; with no scope or an escape in flight it terminates and writes nothing |
| EscapeArm.Arm.Open | include/jmpxx/unwind/escape.hpp:154-163 | the new carrier heads the chain and points to the previous head; invariant kept |
| EscapeArm.Arm.Leave | include/jmpxx/unwind/escape.hpp:158-195 | the machine's exit of a scope: previous scope restored, outcome delivered |
| EscapeArm.Arm.StopFunction | include/jmpxx/unwind/backend.hpp:237-247 | answers land if and only if the innermost frame left is the target's landing frame |
| EscapeArm.Arm.UnwindOne | include/jmpxx/unwind/backend.hpp:237-247 | one stop of the forced unwind is the machine's step and keeps the invariant |
| EscapeArm.Arm.Execute | include/jmpxx/unwind/escape.hpp:144-201 | running the thread-local state to the end is the machine's run; afterwards the thread has halted or has a null chain and nothing in flight |
| Transport.Memory.DestroyAlternative | include/jmpxx/core/transport.hpp:547-552 | destroys the alternative the flag names, which is there to be destroyed, and books it |
| Transport.Memory.Switch | include/jmpxx/core/transport.hpp:558-570 | the cross-state half of assignment: old alternative destroyed, new one built, flag flipped, local destroyed, ledger balanced, destination equal to the incoming alternative |
| Transport.ApplyKeepsPromise | include/jmpxx/core/transport.hpp:163-253 | every operation of the sum-type model keeps its promise: a non-throwing assignment leaves the destination holding exactly what the source or the bare value held, nothing but destination and moved-from source changes, a throwing cross-state copy changes nothing, a throwing same-state assignment keeps the alternative, a destroyed object is gone |
| Transport.LegalIff | include/jmpxx/core/transport.hpp:163-253 | an operation is in a program exactly when what it uses is there and what it makes is not; source and destination may be the same |
| Transport.UnnamedStays | include/jmpxx/core/transport.hpp:163-253 | over a whole program an object no operation names stays as it is |
| Transport.Memory.AssignCopy | include/jmpxx/core/transport.hpp:553-571 | copy assignment with aliasing allowed: equal to the sum-type assignment, its promise kept, a throwing cross-state copy leaves everything untouched, the flag always names the live alternative |
| Transport.Memory.AssignMove | include/jmpxx/core/transport.hpp:572-590 | move assignment with aliasing allowed: the destination holds what the source held unless a same-state move threw, the source keeps its alternative, nothing else changes; between alternatives it cannot throw |
| Transport.Memory.AssignBare | include/jmpxx/core/transport.hpp:236-253 | assigning a bare value or failure: the destination holds it unless building it or a same-state move threw, nothing else changes, and the temporary is destroyed on every path |
| Transport.Memory.Construct | include/jmpxx/core/transport.hpp:163-192 | a constructor that throws leaves no object, otherwise the result holds what it was given |
| Transport.Memory.Drop | include/jmpxx/core/transport.hpp:197-204 | the destructor removes the object and destroys its one live alternative |
| Transport.Memory.Program | include/jmpxx/core/transport.hpp:163-253 | over any sequence of constructions, copies, moves, assignments and destructions with anything throwing that may, every result holds the alternative its flag names, contents equal the sum-type model, and when all results are gone as many values and errors were destroyed as built |
| DiagnosticStore.HandlesFollow | include/jmpxx/diagnostic/store.hpp:64-66 | the counter's successive values are the closed-form handles, never 0 |
| DiagnosticStore.HandlesCollideIff | include/jmpxx/diagnostic/store.hpp:55-66 | two opens share a handle if and only if a multiple of 2^32 - 1 opens lies between them |
| DiagnosticStore.Store.Open | include/jmpxx/diagnostic/store.hpp:64-77 | issues a nonzero handle, room or not, steps the counter past 2^32 - 1 to 1, and appends a fresh record when fewer than 16 are in use |
| DiagnosticStore.Store.FindSlot | include/jmpxx/diagnostic/store.hpp:82-87 | the backward scan finds the newest live record with the handle, or none |
| DiagnosticStore.Store.Hop | include/jmpxx/diagnostic/store.hpp:91-99 | appends a hop to that record alone, or marks it truncated at 16, or changes nothing for a handle that does not resolve |
| DiagnosticStore.Store.TruncateTo | include/jmpxx/diagnostic/store.hpp:107-109 | releases the records above the mark; a stale or negative mark changes nothing |
| DiagnosticStore.HopRefinesIff | include/jmpxx/diagnostic/store.hpp:91-99 | a hop in the arena is a hop on that failure's own history and on no other if and only if no alias stands in for the failure, or neither of the two records could still change |
| DiagnosticStore.ExitKeepsRefinement | include/jmpxx/diagnostics.hpp:111-124 | leaving a landing releases exactly the failures opened since it was entered |
| DiagnosticStore.ArenaRefinesHistories | include/jmpxx/diagnostic/store.hpp:52-110 | over every run of opens, hops and nested landings the arena holds exactly the bounded shadows of the unbounded histories at every moment, if and only if every hop is a good one where it stands |
| DiagnosticStore.ArenaRefinesRecorded | include/jmpxx/diagnostic/store.hpp:52-110 | over every run without any condition the arena holds the shadows of histories in which a hop goes to the newest stored live failure with the handle |
| DiagnosticStore.OwnIffNoAlias | include/jmpxx/diagnostic/store.hpp:79-87 | the newest stored live failure with a handle is the handle's own, or there is none and its own is not there, if and only if no alias stands in for it |
| DiagnosticStore.HandleResolvesIff | include/jmpxx/diagnostic/store.hpp:79-87 | after every run whatever a handle resolves to the slot of the newest stored live failure that has it; that is its own failure's slot, or nothing when it was dropped or its landing is closed, if and only if no alias stands in for it |
| DiagnosticStore.HandleShowsHistory | include/jmpxx/diagnostic/store.hpp:79-99 | when the hops were good the record a handle resolves to is the whole bounded history of the failure reached |
| DiagnosticStore.WindowSuffices | include/jmpxx/diagnostic/store.hpp:58-66 | while fewer than 2^32 - 1 opens separate the newest failure from the live ones and the one named, nothing is an alias |
| DiagnosticStore.ShortRunsAreGood | include/jmpxx/diagnostic/store.hpp:58-66 | a run of at most 2^32 - 1 opens has good hops only and no alias at its end |
| DiagnosticStore.WindowIsNeeded | include/jmpxx/diagnostic/store.hpp:58-66 | one open beyond the window two live records share a handle and the older failure resolves to the newer record, for any two sites; no smaller distance collides |
| RichErrors.Execute | include/jmpxx/diagnostics.hpp:65-76 | running a program on the mutable store is its meaning on arenas |
| RichErrors.RichErasesToPlain | include/jmpxx/diagnostics.hpp:86-98 | for every program, dropping the handle from the rich run's result gives the minimal policy's result, whatever the store holds |
| RichErrors.CombinatorLaws | include/jmpxx/core/propagation.hpp:34-59 | a check is `and_then` with its site recorded, `transform` is `and_then` with a plain function, `and_then` associates, failures pass `and_then`, values pass `or_else` and `transform_error` |
| RichErrors.ChainIsRecorded | include/jmpxx/core/propagation.hpp:34-59 | a failure opened with room that crosses n checks has recorded the first min(n, 16) sites in order and is marked truncated exactly when n > 16; no other record changes |
| RichErrors.RecordsOutlast | include/jmpxx/diagnostics.hpp:65-76 | whatever a program does, records opened before it keep their handles and origins, and their sites only grow |
| RichErrors.LandingReleases | include/jmpxx/diagnostics.hpp:111-124 | a landing gives its body's result, releases exactly the records opened under it and leaves the outer ones |
| RichErrors.RemappedContext | include/jmpxx/diagnostics.hpp:70-76 | an error built on the way has a context of its own opened where it was built, one handed back keeps the context it had |
| RichErrors.RichFollowsTrace | include/jmpxx/diagnostics.hpp:134-138 | every rich run is a well-nested sequence of opens, hops and landings that the store's contents never influence |
| RichErrors.InspectShowsOwnHistory | include/jmpxx/diagnostics.hpp:159-180 | for every program, inspecting the failure it ends with reads the newest stored live failure with its handle; that is the failure itself, or nothing when it was dropped or its landing is closed, if and only if no alias stands in for it; with good hops what is read is its whole history |
| Resolver.FindsTheFirst | reference_app/src/resolve.hpp:93-100 | both searches return the first match and miss none |
| Resolver.SucceedsIffAllPathsGood | reference_app/src/resolve.hpp:67-106 | a key resolves if and only if every reference path below it is closed, well formed, repeat-free and at most 64 edges long |
| Resolver.ValuesAreTheSubstitution | reference_app/src/resolve.hpp:88-106 | the resolved values solve the substitution equations of the table, and every other solution agrees with them |
| Resolver.ReportsTheFirstFailure | reference_app/src/resolve.hpp:67-106 | the reported kind, depth and key are those of the first failing place of the reference tree in left-to-right depth-first order, both directions |
| Resolver.CycleIsReal | reference_app/src/resolve.hpp:70-73 | a reported cycle comes with a reference path from the reported key back to itself |
| Resolver.FailureTellsTruth | reference_app/src/resolve.hpp:67-106 | a reported failure is at depth 65 exactly when it is too deep, a missing key is not in the table, a malformed text has a reference that never closes, a cycle is one |
| ResolverText.ParseSpells | reference_app/src/resolve.hpp:89-106 | the pieces of every text spell it out by position: literals in which no reference opens, references up to the first closing brace, and at the end nothing or one that never closes |
| Resolver.ResolverObject.ResolveKey | reference_app/src/resolve.hpp:55-58 | the answer depends on the table and the key alone, the path set is empty afterwards on every outcome, and the offending key is left for the caller |
| Resolver.ResolverObject.ResolveAt | reference_app/src/resolve.hpp:67-86 | at every call the path set is exactly the keys of the current path, and it is restored however the call ends |
| Resolver.ResolverObject.InterpolateAt | reference_app/src/resolve.hpp:89-106 | the loop computes the interpolation of the parsed text and restores the path set |
| ResolverOnArm.ArmResolves | reference_app/src/resolve.hpp:55-114 | `resolve_key` and its recursion as a program of the arm, on any stack and with any frame sizes: it returns, hands back exactly the specified answer, leaves the offending key, and restores the path set, the buffers and the memory |
| Manifest.Reader.ReadU32 | reference_app/optee_ta/ta/manifest_ta.cpp:125-152 | reads four bytes inside the buffer, little endian, and advances past them |
| Manifest.FindEntryScan | reference_app/optee_ta/ta/manifest_ta.cpp:240-268 | the scan reads only inside the buffer, terminates, and returns the first entry with the name, giving up at the first entry that does not fit |
| Manifest.Verifier.OnPath | reference_app/optee_ta/ta/manifest_ta.cpp:220-231 | the path scan answers whether the name is on the path |
| Manifest.Verifier.VerifyEntry | reference_app/optee_ta/ta/manifest_ta.cpp:273-311 | the verdict is a function of buffer, path and entry; path and hash contexts held are as on entry, whatever the verdict; the counter rises by the entries verified |
| Manifest.Verifier.VerifyManifest | reference_app/optee_ta/ta/manifest_ta.cpp:314-336 | for every buffer it terminates, reads inside the buffer, gives a verdict that depends on the buffer alone, leaves the path empty and every allocated hash context freed, and reports the fault's name cut to 24 bytes |
| ManifestFormat.HeaderMeans | reference_app/optee_ta/ta/manifest_ta.cpp:319-331 | for every buffer, in numbers: the header is taken if and only if the magic, version, count and first name are right, and refused with each code if and only if it should be |
| ManifestFormat.FieldsMean | reference_app/optee_ta/ta/manifest_ta.cpp:279-286 | the fields of an entry are read if and only if 37 bytes and the counted reference fit, and are exactly those bytes |
| ManifestFormat.EntryMeans | reference_app/optee_ta/ta/manifest_ta.cpp:247-259 | a whole entry is read if and only if its name, fields and image fit |
| ManifestFormat.FindMeans | reference_app/optee_ta/ta/manifest_ta.cpp:240-268 | on every buffer a name is found at a place if and only if whole entries stand in a row up to there, no more than the header counts, the last being the first with the name |
| ManifestTheorems.DescentFromTop | reference_app/optee_ta/ta/manifest_ta.cpp:220-231 | the chain as the descent meets it, with its path, is the chain stated link by link: distinct names, at most 7, each referring to the next |
| ManifestTheorems.CheckFirst | reference_app/optee_ta/ta/manifest_ta.cpp:273-311 | an entry verifies with count n if and only if a sound reference chain of exactly n links starts at it |
| ManifestTheorems.VerifiedIffChain | reference_app/optee_ta/ta/manifest_ta.cpp:314-336 | a buffer verifies with count n if and only if its header is good and the chain from the first entry has n entries, at most 7, with pairwise distinct names, ends without a reference, every image in bounds, of length 1 to 2^20 and with a matching digest |
| ManifestTheorems.FaultIffFirst | reference_app/optee_ta/ta/manifest_ta.cpp:273-336 | on every buffer the fault is a given code, depth and name if and only if the header is refused so, or the chain from the first entry leads to an entry refused so on the way in, or on the way out above a part that verifies |
| ManifestBuilder.Builder.Put | reference_app/optee_ta/host/verify_client.c:57-60 | appends the bytes to what has been written, in place |
| ManifestBuilder.Builder.PutU32 | reference_app/optee_ta/host/verify_client.c:62-65 | appends the little-endian bytes, high bits dropped |
| ManifestBuilder.Builder.Begin | reference_app/optee_ta/host/verify_client.c:67-72 | starts over with exactly the header |
| ManifestBuilder.Builder.Entry | reference_app/optee_ta/host/verify_client.c:90-99 | appends the counted name, the declared length, the digest, a zero byte for no reference or the counted reference, and as many bytes of the image as the length declares |
| ManifestBuilder.Builder.Write | reference_app/optee_ta/host/verify_client.c:67-99 | a header and its entries are the built manifest's bytes |
| ManifestBuilder.EntryReadsBack | reference_app/optee_ta/ta/manifest_ta.cpp:246-264 | from the bytes of an entry, wherever they stand, the parser reads exactly the name, length, digest, reference and image the builder was given |
| ManifestBuilder.CallReadsBack | reference_app/optee_ta/host/verify_client.c:90-99 | what one call wrote is read back field by field, with an empty reference if and only if none was given |
| ManifestBuilder.FindRecovers | reference_app/optee_ta/ta/manifest_ta.cpp:240-268 | `find_entry` on a built manifest returns the first entry with the name, at the offset the builder wrote it, and nothing for an absent name |
| ManifestBuilder.BuiltVerdict | reference_app/optee_ta/ta/manifest_ta.cpp:314-336 | for every manifest whose lengths fit, the verdict on the bytes, fault or success, is the verdict on the entries themselves |
| ManifestBuilder.RoundTrip | reference_app/optee_ta/host/verify_client.c:67-99 | a built manifest with unique names, correct digests and an acyclic chain of at most 7 from the first entry verifies with the chain length as its count, and every entry is found where it was written |
| CanonLabels.CanonLabelsLoop | verify/main.cpp:529-552 | the loop with its index, map and buffer computes the canonical form of the tokenised body |
| CanonLabels.LexReads | verify/main.cpp:537-549 | a text is the rendering of its tokens, and its tokens are whole labels with none hidden among the characters |
| CanonLabels.RenamedIsSame | verify/main.cpp:522-528 | bodies that differ by an injective renaming of labels have the same canonical form, whatever else they contain |
| CanonLabels.CanonDecidesRenaming | verify/main.cpp:522-552 | for every body without `#` and every text, an injective renaming of labels turns the body into the text if and only if their canonical forms are equal and the text has no `#` |
| CanonLabels.HashBreaksIt | verify/main.cpp:543-544 | a text with a `#` that is no renaming of a body and agrees with it |
| CanonLabels.LabelIsWhole | verify/main.cpp:530-541 | ".L" and any letters, digits, underscores and dollars are one label, which ends at the first other character |
| CanonLabels.CanonIsIdempotent | verify/main.cpp:529-552 | canonicalising twice changes nothing, for every body |
| Normalize.TrimMeans | verify/support.hpp:13-18 | trimming takes away the blanks at both ends and nothing else, and there is one way to do it |
| Normalize.TrafficTouchesStack | verify/main.cpp:507-517 | the searches for stack traffic are occurrences and prefixes, per architecture |
| Normalize.EndMeans | verify/main.cpp:498 | a body ends at a line that starts with one of the two directives once trimmed |
| Normalize.CleanMeans | verify/main.cpp:490-500 | what is left of a line is its trimming, cut at the first `#` and trimmed again |
| Normalize.BodyMeans | verify/main.cpp:489-505 | on every text, by position: between the first line that is the label and the first ending directive a line contributes if and only if what is left of it is not empty and is a label or no directive, exactly that, in order; without a label line nothing |
| Normalize.InstructionsCount | verify/main.cpp:505-506 | the instructions are the kept lines that do not end with a colon |
| TextLines.SplitsBack | verify/main.cpp:503-504 | splitting a text at its line ends gives back the lines it was put together from, in order |
| Normalize.NormalizeLoop | verify/main.cpp:481-520 | text, instruction count and spill flag describe exactly the kept lines between the symbol's label and the end of the function, the flag if and only if a kept instruction touches the stack; found if and only if the label is there |
| Normalize.NormalizedHasNoHash | verify/main.cpp:498-504 | no normalised body contains `#` |
| Normalize.IdenticalMeansRenamed | verify/main.cpp:481-552 | for every two assembly texts and symbols, the normalised bodies canonicalise equal if and only if one is the other with labels renamed |
| UnwindTables.UlebRoundTrip | tests/scripts/unwind_metadata_audit.py:79-87 | decoding inverts encoding for every natural, wherever the bytes stand, and consumes exactly them |
| UnwindTables.SlebRoundTrip | tests/scripts/unwind_metadata_audit.py:89-99 | the same for every integer |
| UnwindTables.Reader.ReadUleb | tests/scripts/unwind_metadata_audit.py:79-87 | the shifting loop computes the unsigned decoding, or raises where the data ends |
| UnwindTables.Reader.ReadSleb | tests/scripts/unwind_metadata_audit.py:89-99 | the shifting loop with its sign correction computes the signed decoding |
| UnwindTables.Reader.ReadEncoded | tests/scripts/unwind_metadata_audit.py:107-132 | the reader computes the decoding of one pointer in every format and application |
| UnwindRoundTrip.EncodedReadsBack | tests/scripts/unwind_metadata_audit.py:107-132 | for every format, relation and indirect bit, a number that fits comes back from its written bytes plus base and position, plus the function, or plus nothing, modulo 2^32 or 2^64, and exactly those bytes are consumed |
| UnwindRoundTrip.SignedReadsBack | tests/scripts/unwind_metadata_audit.py:71-77 | n little-endian bytes of a number of either sign are read back with their sign |
| UnwindRoundTrip.UnknownIsRefused | tests/scripts/unwind_metadata_audit.py:109-131 | an omitted pointer is 0 and takes no byte; an unknown format or relation raises |
| UnwindRoundTrip.LebRaisesIff | tests/scripts/unwind_metadata_audit.py:79-99 | a LEB number raises if and only if the data ends before a byte without the top bit |
| UnwindTables.Reader.ReadRows | tests/scripts/unwind_metadata_audit.py:303-313 | the call-site loop terminates and counts the rows up to the table's end |
| UnwindTables.ParseLsdaScan | tests/scripts/unwind_metadata_audit.py:292-315 | the imperative decoder is its specification on every input, raised errors included |
| UnwindRoundTrip.LpReadsBack | tests/scripts/unwind_metadata_audit.py:293-296 | a landing-pad base left out is the function's start, one in any encoding is read back |
| UnwindRoundTrip.AreaReadsBack | tests/scripts/unwind_metadata_audit.py:286-315 | behind a landing-pad base in any encoding, on every call-site table in any format, with or without a type table, it returns the table's counts and the base and stops at the table's end |
| UnwindRoundTrip.CountsAreExact | tests/scripts/unwind_metadata_audit.py:303-313 | when the pads fit the pointer size the counts are the numbers of sites, of sites with a pad, and of pads without an action |
| Reflect.InsertionFailures | include/jmpxx/reflect.hpp:300-318 | the in-place insertion loop builds the sorted set |
| Reflect.PlaceOne | include/jmpxx/reflect.hpp:309-314 | the shifting loop inserts behind the values that are not larger |
| Reflect.InsertAllOrders | include/jmpxx/reflect.hpp:300-318 | for every enum the insertion-built set is an ordered permutation of the declarations, strictly increasing if and only if the values are distinct |
| Reflect.ScanFailures | include/jmpxx/reflect.hpp:191-205 | count and fill agree: the array is filled exactly, with what the scan meets |
| Reflect.CountEnumerators | include/jmpxx/reflect.hpp:153-159 | the count is the size of the set the scan collects |
| Reflect.ScanHolds | include/jmpxx/reflect.hpp:188-205 | the scan's set is strictly increasing and holds exactly the named values of the range |
| Reflect.PathsAgreeIff | include/jmpxx/reflect.hpp:188-205 | the two paths build the same set if and only if the values are pairwise distinct and inside the scanned range |
| Reflect.CastOfName | include/jmpxx/reflect.hpp:161-186 | casting the name of a value gives the value back on both paths, whenever it has one there |
| Reflect.NamesAgreeIff | include/jmpxx/reflect.hpp:262-268 | the name lookups of the paths agree for every value if and only if the enum is inside the scanned range |
| Reflect.ValuesAgreeIff | include/jmpxx/reflect.hpp:270-278 | the value lookups agree for every name if and only if the values are distinct and in range |
| Reflect.MessagesAgreeIff | include/jmpxx/reflect.hpp:381-397 | the messages agree for every integer if and only if the values are distinct and in range |
| Reflect.NameTable | include/jmpxx/reflect.hpp:243-250 | slot `v - min` names `v` |
| Reflect.TableMessage | include/jmpxx/reflect.hpp:389-395 | for every integer the table-indexed message is the scanning path's, and the declarations' own when the values are distinct and in range |
| Amalgamate.Walker.InlineHeader | packaging/amalgamate.py:29-43 | the recursive walk over shared state terminates on every graph and adds exactly what the walk's specification says, or names the missing file |
| Amalgamate.Amalgamated | packaging/amalgamate.py:46-68 | the output is the notice, the include guard and the text of the walk from the roots, every line terminated |
| Amalgamate.WrappedMeans | packaging/amalgamate.py:55-68 | the guard opens right behind the notice and closes right behind the body, and nothing else is added |
| Amalgamate.OwnTexts | packaging/amalgamate.py:30-43 | as text a header contributes the line saying where it is from and its text lines as they are, its local includes left out |
| Amalgamate.SucceedsIffAllExist | packaging/amalgamate.py:29-54 | the generator succeeds if and only if every header the roots reach exists; a failure names a reachable header that does not |
| Amalgamate.EachReachableOnce | packaging/amalgamate.py:29-54 | on every graph, cyclic ones too, the output holds each reachable header's lines once, in order, and of no other header |
| Amalgamate.OutputIsIncludeOnce | packaging/amalgamate.py:29-54 | on every acyclic graph the output is the full expansion of the roots in order with each line kept where it first occurs |
| Amalgamate.IncludesComeFirst | packaging/amalgamate.py:36-43 | a line after an include comes out behind every line the included header expands to |

## Left out

- Compiler and linker facts behind the arm (landing pads that survive optimisation, `noinline`, the volatile guard in `drive_unwind`): the unwinder's contract is assumed instead.
- The WebAssembly and Windows backends as separate machines: a handler that consumes the escape and returns is the WebAssembly case (`Swallow`), one that terminates on the spot is what the Itanium cleanup callback does (`Terminate`).
- Handlers that replace an escape in flight with another exception: runtime behaviour outside the landing protocol.
- Address-space limits: addresses are unbounded integers, and the stack never overflows.
- Unbounded loops and recursion in programs under the arm: a program is a finite tree, which covers every finite run of one that loops, since branches depend on the state.
- EscapeRefinement.ArmRefinesResults: a handler that swallows or terminates, and an eject from a destructor, have no counterpart in returned results; `EveryRunIsItsMeaning` covers them.
- EscapeProtocol.EveryRunEndsFaithfully: does not say which runs terminate; `EscapeRefinement.EveryRunIsItsMeaning` does, for every program.
- The byte copy of the payload and its 32-byte limit: the payload is one value, checked by its type tag.
- Captured stack traces in the store, and the release build in which the layer is empty.
- Algebraic laws of the combinators of `result`: each is one expression; their effect on diagnostics is in `RichErrors`.
- Manifest positions: naturals, as under a 64-bit `size_t`; the wrap of a 32-bit `size_t` is not modelled.
- Names in a fault report that contain zero bytes, and the deepest-level counter.
- ManifestBuilder.Builder.Put: writing past the 4096-byte buffer is undefined in the source and a precondition here.
- ManifestBuilder.Builder.Entry: the image is a parameter where the source has the fixed bytes of `IMG0`; a length beyond the image at hand reads past it in the source and is a precondition here.
- The manifest verifier as a program of the arm: only the resolver is run on the machine.
- `std::getline` in `normalize`: the input is the sequence of lines.
- Amalgamate.Amalgamated: the fixed comment lines are a parameter, and the regular expression that recognises an include and the resolution of its path are not modelled; a header is its lines, each text or an include of a resolved path.
- UnwindRoundTrip.AreaReadsBack: a table whose rows are relative to their own position is not covered; its pointers one by one are, by `EncodedReadsBack`.
- UnwindTables.ParseLsdaScan: starts inside the section; the lookup of `.gcc_except_table` and its address range is not modelled, nor are the ELF and frame-table readers.
- Reflect.NameOfIsFirst: how a compiler spells an enumerator's name is not modelled; a value reads as the first enumerator declared with it.
- The interop bridges, the type-erased error, the lint, the Godot module, `config_validate`, the embedded application, the benchmarks and the size, latency and ABI probes: conversions, plumbing or measurements.
