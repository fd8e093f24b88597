# Sigla, verified models

Sigla is a code-search server. This project models the parts of it whose correctness is not
obvious from reading them, one module per component, and proves what each part promises:

| file | component | what it is |
|---|---|---|
| `Wildcard.dfy` | `src/query.rs` | the matcher that only remembers the last star |
| `EditDistance.dfy` | `src/navigation.rs` | the rolling-row distance with its early exits |
| `Admission.dfy`, `AdmissionRuns.dfy`, `Budget.dfy` | `src/memory.rs` | the admission queue: protocol, whole runs, objects |
| `Sweep.dfy` | `src/search.rs` | the sweep for the shortest enclosing declaration |
| `Watch.dfy` | `src/watch.rs` | the bounded event history with independent readers |
| `SignatureSyntax.dfy`, `SignatureGrammar.dfy`, `SignatureDecoder.dfy`, `SignatureTrees.dfy`, `SignatureEntry.dfy`, `SignatureTable.dfy` | `src/signature.rs` | the decoder of ECMA-335 II.23.2 signatures |
| `QueryLexer.dfy`, `QueryReading.dfy`, `QueryPrinter.dfy` | `src/query.rs`, `src/navigation.rs` | the query lexer against quoting and suggestions |
| `Minify.dfy` | `src/minify.rs` | edit application and whitespace compaction |
| `Allocation.dfy` | `src/navigation.rs` | the shares of a directory listing's budget |
| `CacheMigration.dfy` | `src/cache_migration.rs` | the crash ordering of the migration marker |
| `NestedNames.dfy` | `src/metadata.rs` | the nested-name passes |
| `Selection.dfy` | `src/selection.rs` | the best N results |
| `PolicyScope.dfy` | `src/msbuild.rs` | the memoised search for an SDK policy |
| `Positions.dfy` | `src/model.rs` | lines, columns and byte offsets |

Strings are sequences of characters, paths are sequences of components. The file system, the
kernel's event queue, cancellation, power losses and failing operations are parameters or free
choices, so the proofs cover all of them. Code that changes state is a class or a method with
loops, proved against a specification that is stated without it: fillings of a pattern, edit
scripts, a linear search, an unbounded log, a grammar, a walk without memory.

To verify: `dafny verify dfyconfig.toml`. Long proofs begin with `hide`, which keeps definitions
that they do not need out of sight.

## Findings

- A migration that is killed as a process (not by a power loss) leaves its unsynced operations
  behind, and the next run trusts the marker it sees. That run is safe exactly if it does not see
  a complete marker whose directory entry is not durable (`ResumedRunIsSafeExactly`), and a killed
  run does leave such a disk (`KilledRunsAreTrusted`). Every other mix of kills and power losses is
  safe (`EveryRunIsSafe`).
- A power loss while the marker is written can leave a partial marker, which every later run
  refuses; a run clears a recognised cache exactly if the marker is not partial (`ClearsExactly`,
  `PartialMarkersHappen`).
- The nested-name loop stops when a pass changes no name, although scopes may still be on their
  way. A row is final after as many passes as it is late (`Late`): one, and one more for each
  enclosing type whose own row stands behind the row it encloses. A nested reference loses its
  scope exactly if the pass it needs does not take place any more, which the table at the start
  tells (`ReferencesGetTheirScopesExactly`, `PassTakesPlace`, `ScopeCanBeLost`). Tables whose
  nested rows have no namespace lose none (`ScopesOfWellFormedTables`).
- Names are complete exactly if every row's name stems, after at most 32 passes, from its
  outermost type or from a row that was complete at the start (`NamesAreSolvedExactly`); without
  namespaces that means that no row is more than 32 passes late
  (`UnqualifiedNamesAreSolvedExactly`). Nesting at most 32 deep always is complete
  (`NamesAreSolved`), a deeper chain with its innermost row first never
  (`DeeperChainsAreNotSolved`).
- Compaction is idempotent unless the end of the range cuts a longer token down to an opening
  brace behind a line break (`CompactedTwice`).
- A list of tokens survives printing and lexing exactly if each token does: it is not empty, has
  no C0 control character if it is quoted, and if it is not, has no apostrophe where a value
  begins and is balanced or taken literally (`RoundTripExactly`, `FeedExactly`). What any other input
  is read as, or which error it is, is told from the input alone (`LexExactly`).
- A search that ends at a remembered directory adds no watched paths for the directories above it,
  so the set a caller passes is complete exactly if it already had those (`Session.Search`).
- `offset` reads line 0 as line 1 (`PositionOfOffset`).

## Model

| member | source | states |
|---|---|---|
| Wildcard.Wildcard | src/query.rs:735-762 | true exactly when some choice of byte strings for the stars turns the pattern into the value; terminates |
| Wildcard.LaterStarSuffices | src/query.rs:741-755 | once a later star is reached the earlier star need never be tried again (the exchange argument) |
| Wildcard.StepRetry | src/query.rs:748-752 | after a mismatch the last star has to swallow at least one byte more, and nothing else has to be reconsidered |
| Wildcard.ValueUsedUp | src/query.rs:757-761 | when the value is used up the match depends on the rest of the pattern alone |
| Wildcard.MatchesStar | src/query.rs:734-746 | a star stands for every byte string: matching is a choice of where it ends |
| Wildcard.MatchesWithoutStars | src/query.rs:736-738 | a pattern without stars matches only itself |
| EditDistance.EditDistance | src/navigation.rs:211-239 | `Some(d)` only for the least cost of an edit script within the cutoff, `None` only if every script costs more |
| EditDistance.OsaIsDistance | src/navigation.rs:222-232 | the tabulated recurrence is the minimum over all scripts that edit no character twice |
| EditDistance.ScriptCostsAtLeast | src/navigation.rs:222-232 | no script, transpositions included, beats the recurrence |
| EditDistance.CheapestLast | src/navigation.rs:226-231 | the recurrence is always attained by some last edit |
| EditDistance.RowMinimumIsFinal | src/navigation.rs:233-235 | once a whole row exceeds the cutoff every later entry does, although transpositions reach two rows back |
| EditDistance.LengthsDiffer | src/navigation.rs:214-216 | the distance is at least the difference of the lengths |
| EditDistance.OsaIsSymmetric | src/navigation.rs:211-239 | the distance does not depend on the order of the two texts |
| EditDistance.NextRow | src/navigation.rs:219-232 | the in-place inner loop turns the row for i characters into the row for i + 1 |
| EditDistance.DistanceIsUnique | src/navigation.rs:211-239 | there is only one least cost |
| Admission.Clip | src/memory.rs:224-226 | an empty request becomes one byte, an oversized one the whole capacity, and every other one stays as it is |
| Admission.InitialInv | src/memory.rs:203-216 | a new budget satisfies the invariant |
| Admission.StepConserves | src/memory.rs:226-310 | free bytes plus bytes held or owed equal the capacity after every step, and likewise for workers |
| Admission.StepOrderly | src/memory.rs:226-261 | queued tickets stay strictly increasing and a waiter holds neither resource |
| Admission.StepInRange | src/memory.rs:245-247 | no counter leaves the range from zero to its limit |
| Admission.StepInv | src/memory.rs:226-310 | every step of every client keeps all of it |
| Admission.WorkersAreCounted | src/memory.rs:244-250 | free workers and the clients that have one or owe one add up to the limit |
| AdmissionRuns.RunInv | src/memory.rs:202-310 | the invariant holds at every time of every interleaving |
| AdmissionRuns.QueueStep | src/memory.rs:229-253 | a step adds only the next ticket to the queue and removes only the one that rechecks, cancelled or admitted |
| AdmissionRuns.AdmissionIsFifo | src/memory.rs:242-253 | when a ticket is admitted every smaller ticket was admitted or cancelled before |
| AdmissionRuns.IdleAdmitsHead | src/memory.rs:224-245 | with nothing held the first waiter is admissible whatever it asked for |
| AdmissionRuns.HeadStep | src/memory.rs:242-253 | while the first waiter waits nobody else is admitted, so holders can only become fewer |
| AdmissionRuns.HeadLeaves | src/memory.rs:235-261 | the first waiter leaves the queue if holders keep releasing and waiters keep rechecking |
| AdmissionRuns.NoOvertaking | src/memory.rs:229-231 | nobody enters the queue in front of an issued ticket |
| AdmissionRuns.WaiterLeaves | src/memory.rs:235-261 | every waiter leaves the queue under the same fairness |
| AdmissionRuns.EveryWaiterIsAdmitted | src/memory.rs:235-261 | a waiter that is never cancelled is admitted: no deadlock and no starvation |
| BudgetObjects.Budget.constructor | src/memory.rs:203-216 | a new budget is the initial protocol state |
| BudgetObjects.Budget.Enqueue | src/memory.rs:223-232 | takes the next ticket, or none if the call is already cancelled |
| BudgetObjects.Budget.Recheck | src/memory.rs:235-261 | one turn of the waiting loop is one protocol step; admitted is exactly the first in the queue that fits, and takes what it asked for; cancellation wins, waiting changes nothing |
| BudgetObjects.Budget.Report | src/memory.rs:263-276 | the reported reserved bytes and active workers are the sums over all holders |
| BudgetObjects.Budget.AddBack | src/memory.rs:287-287 | what a holder owes becomes available |
| BudgetObjects.Reservation.ReleaseWorker | src/memory.rs:284-290 | gives the worker back and keeps the bytes |
| BudgetObjects.Reservation.ShrinkTo | src/memory.rs:293-301 | keeps the smaller of target and holding, and returns exactly the difference |
| BudgetObjects.Reservation.Discard | src/memory.rs:303-310 | returns everything, and the ticket holds nothing any more |
| Sweep.ContainingDeclarations.constructor | src/search.rs:32-44 | the stack holds exactly the non-local declarations, deepest start last |
| Sweep.ContainingDeclarations.At | src/search.rs:46-65 | for nondecreasing positions the answer is the first shortest non-local declaration around the position |
| Sweep.ContainingDeclarations.Reach | src/search.rs:47-56 | afterwards no started declaration is left on the stack and ended ones were dropped for good |
| Sweep.Linear | src/search.rs:2476-2479 | the linear minimum search gives that same reference answer |
| Sweep.ShortestIsUnique | src/search.rs:2472-2486 | there is one such answer, so sweep and linear search agree, ties included |
| Watch.Monitor.Record | src/watch.rs:62-69 | appends to the log, keeps its newest 8192 events, and coverage is the newest evicted generation |
| Watch.Monitor.Register | src/watch.rs:99-128 | counts users of a watched directory, or falls back when the kernel refuses |
| Watch.Monitor.Unregister | src/watch.rs:129-153 | the last user's leaving is recorded as a change of the whole tree in a new generation |
| Watch.Monitor.ReadEvents | src/watch.rs:160-204 | the log grows by exactly what draining the kernel queue yields, all of it strictly newer, and the monitor falls back exactly if events may have been lost |
| Watch.Monitor.Changes | src/watch.rs:158-228 | never reports less than the unbounded log, and exactly that unless full validation is required; it is required exactly if events may have been lost or the reader misses an evicted one |
| Watch.Monitor.Fence | src/watch.rs:154-157 | something changed exactly if full validation is required or the whole log reports some path |
| Watch.Monitor.Collect | src/watch.rs:210-226 | the backward walk stops early without missing a retained event |
| Watch.RetainedSuffices | src/watch.rs:205-226 | if coverage reaches back far enough the retained events report what the whole log does, even in a split generation |
| Watch.CoverageIsNeeded | src/watch.rs:62-69 | coverage forces full validation exactly on readers that miss an evicted event |
| Watch.EvictOne | src/watch.rs:64-68 | evicting the oldest event moves coverage to its generation |
| Watch.FenceLosesNothing | src/watch.rs:154-157 | what is newer than a fence is exactly what was recorded behind it |
| Watch.OneFence | src/watch.rs:154-228 | in any run of operations a fence tells its reader what was recorded since its own last fence, and nothing else unless full validation is required |
| Watch.ChainsLoseNothing | src/watch.rs:154-228 | over any run of operations with any other readers, a reader that chains fences is told of every change between its first and its last fence, and of no other unless full validation is required |
| Watch.ExtendsIsTransitive | src/watch.rs:129-228 | the growth guarantee of single operations carries over to any run of them |
| Watch.FallbackExactly | src/watch.rs:162-203 | draining falls back if and only if the queue is unreadable, a read that is reached fails, the eighth batch is not empty, or an event read reports an overflow or a watched directory gone |
| Watch.DrainIsComplete | src/watch.rs:162-203 | otherwise the queue was read to its end and no event in it was alarming |
| Watch.KernelEventsAreReported | src/watch.rs:158-228 | of what a drain adds, a reader that is not ahead is told exactly the paths that events read in its directories concern: their own path, the directory if entries came or went, the tree below a directory |
| SignatureGrammar.IntSound | src/signature.rs:50-68 | an accepted compressed integer was written in one, two or four bytes with that value |
| SignatureGrammar.IntComplete | src/signature.rs:50-68 | every 7, 14 and 29 bit integer is read back in front of any bytes |
| SignatureGrammar.ShapeComplete | src/signature.rs:130-149 | every array shape is read back, its counts never being refused |
| SignatureGrammar.TypeSound | src/signature.rs:93-172 | an accepted type is well formed within the depth limit and its bytes are what was read |
| SignatureGrammar.TypeComplete | src/signature.rs:93-172 | every well-formed type is accepted, whatever follows it, and nothing else is read |
| SignatureGrammar.MethodSound | src/signature.rs:173-206 | the same for methods, with calling convention, generic count and sentinel |
| SignatureGrammar.MethodComplete | src/signature.rs:173-206 | every well-formed method is accepted, whatever follows it |
| SignatureGrammar.ParamsSound | src/signature.rs:189-198 | at most one sentinel is accepted, only for varargs and only in front of a parameter |
| SignatureGrammar.ParamsComplete | src/signature.rs:189-198 | every parameter list with such a sentinel is read back |
| SignatureDecoder.Decoder.UnsignedWithWidth | src/signature.rs:50-65 | the cursor moves over exactly one compressed integer or fails where the grammar does |
| SignatureDecoder.Decoder.TypeToken | src/signature.rs:73-84 | reads a token with its table and a row between 1 and 0xffffff |
| SignatureDecoder.Decoder.Count | src/signature.rs:85-92 | refuses counts larger than the remaining input |
| SignatureDecoder.Decoder.Signeds | src/signature.rs:69-72 | reads signed integers by undoing the rotation |
| SignatureDecoder.Decoder.Ty | src/signature.rs:93-172 | returns the meaning of exactly the type the grammar reads, and consumes at least one byte |
| SignatureDecoder.Decoder.ArrayTy | src/signature.rs:130-149 | the array case: element, rank, sizes, lower bounds |
| SignatureDecoder.Decoder.InstanceTy | src/signature.rs:150-160 | the generic instance case |
| SignatureDecoder.Decoder.Method | src/signature.rs:173-206 | returns the meaning of exactly the method the grammar reads |
| SignatureDecoder.Decoder.Parameters | src/signature.rs:187-198 | the parameter loop places the sentinel where the grammar does |
| SignatureTrees.ShortestSigned | src/signature.rs:69-72 | every value of 29 signed bits has a rotated form that means it |
| SignatureTrees.Coded | src/signature.rs:73-84 | every type token with a row has a coded form that means it |
| SignatureTrees.CanonicalMeans | src/signature.rs:93-172 | the canonical syntax of every writable tree means that tree |
| SignatureTrees.MeaningIsWritable | src/signature.rs:93-172 | every tree that is read is writable, so the limits are exact |
| SignatureTrees.NodesTakeBytes | src/signature.rs:93-172 | every node of a decoded tree took at least one byte |
| SignatureEntry.ParseMethodSignature | src/signature.rs:215-220 | accepts exactly a method that fills the input |
| SignatureEntry.ParseFieldSignature | src/signature.rs:221-227 | accepts exactly the field prefix and a type that fills the rest |
| SignatureEntry.ParseTypeSpecSignature | src/signature.rs:228-233 | accepts exactly a type that fills the input |
| SignatureEntry.ParsePropertySignature | src/signature.rs:234-249 | accepts exactly a property that fills the input |
| SignatureEntry.NoPrefixIsAccepted | src/signature.rs:207-249 | no entry point accepts both a signature and a longer input that starts with it |
| SignatureEntry.TypeIsStable | src/signature.rs:93-172 | decoding a type is unaffected by appended bytes |
| SignatureEntry.TypeRoundTrip | src/signature.rs:221-233 | encoding any writable type and decoding it yields the type, as type spec and as field |
| SignatureEntry.MethodRoundTrip | src/signature.rs:215-220 | encoding any writable method and decoding it yields the method |
| SignatureEntry.PropertyRoundTrip | src/signature.rs:234-249 | encoding any writable property and decoding it yields the property |
| SignatureEntry.AcceptedTypes | src/signature.rs:228-233 | only writable trees are accepted, with no more nodes than the input has bytes |
| SignatureEntry.AcceptedMethods | src/signature.rs:215-220 | the same for methods |
| SignatureTable.PrimitiveCodes | src/signature.rs:97-120 | each of the eighteen codes is its primitive |
| SignatureTable.NoOtherCodes | src/signature.rs:121-171 | bytes that are no element type of this decoder begin nothing |
| SignatureTable.WrapperCodes | src/signature.rs:122-170 | pointers, references, vectors and pinned types are their code and one type one level down |
| SignatureTable.NumberCodes | src/signature.rs:50-65 | one, two and four byte integers, most significant byte first, read as numbers of generic parameters |
| SignatureTable.TokenCodes | src/signature.rs:73-84 | the two low bits name the table and the others the row of a type token |
| SignatureTable.SignedExamples | src/signature.rs:69-72 | the examples of signed integers of section II.23.2 |
| SignatureTable.ArrayCode | src/signature.rs:130-149 | an array is its element, rank, sizes and lower bounds, none more than the rank and that at most 32 |
| SignatureTable.InstanceCode | src/signature.rs:150-160 | a generic instance is class or value type, token, count and arguments |
| SignatureTable.ModifierCodes | src/signature.rs:162-169 | required and optional modifiers are a token and a type |
| SignatureTable.FunctionCode | src/signature.rs:161-161 | a function pointer is a method, which puts its types two levels down |
| SignatureTable.MethodCode | src/signature.rs:173-206 | a method is convention, generic count, parameter count, return type and parameters, with a sentinel only for varargs and at its place |
| SignatureTable.PropertyCode | src/signature.rs:234-249 | a property is 8 or 28 hexadecimal, parameter count, type and parameters |
| SignatureTable.DepthLimitIsSharp | src/signature.rs:94-94 | sixty-four levels below the outermost type are accepted and no more |
| QueryLexer.Lex | src/query.rs:651-732 | the loop with its look-ahead computes the specified reading or the same error |
| QueryReading.LexExactly | src/query.rs:651-732 | the result for every input, told from the input alone: the words, and each of the four errors if and only if the input is at fault in that way |
| QueryReading.LexReads | src/query.rs:658-669 | of the input only the kept characters, which of them were quoted, and whether a quote is open at the end matter |
| QueryReading.BracketsExactly | src/query.rs:688-718 | the stack ends empty if and only if the word is balanced, and not empty if and only if a bracket dangles; operators and brackets inside braces open no angle bracket, arrows close none |
| QueryReading.OnwardExactly | src/query.rs:670-718 | reading goes through one word exactly if it is one, or the beginning of one with an open bracket |
| QueryReading.ReadExplains | src/query.rs:651-732 | from any point of the reading the result is explained by the input |
| QueryLexer.ReadStays | src/query.rs:651-732 | finished tokens stay finished and a begun token only grows |
| QueryPrinter.JsonMeans | src/navigation.rs:116-125 | a quoted name is a JSON string that means the name |
| QueryPrinter.ReadsJson | src/navigation.rs:116-125 | a quoted name is read back with C0 control characters left as escapes |
| QueryPrinter.FeedsToken | src/query.rs:651-732 | an unquoted name is read as it is, leaving its brackets open |
| QueryPrinter.NoMoreTokens | src/query.rs:719-731 | a printed list never yields more tokens than it has |
| QueryPrinter.FeedExactly | src/query.rs:670-718 | an unquoted name is read without an open bracket or an error if and only if it is one word by itself |
| QueryPrinter.RoundTripExactly | src/query.rs:146-164 | reading back printed tokens yields the list if and only if every token survives by itself |
| QueryPrinter.OrdinaryTokensSurvive | src/query.rs:651-732 | nonempty tokens without C0 characters, and without brackets and apostrophes if unquoted, survive |
| QueryPrinter.SuggestionsAreRead | src/query.rs:146-164 | reading a suggestion yields its tokens in canonical form if and only if these survive |
| QueryPrinter.CanonicalExactly | src/query.rs:122-160 | any number of dashes becomes one, each of the twelve aliases what it stands for, and the value stays |
| QueryPrinter.CanonicalTwice | src/query.rs:111-164 | canonical tokens are canonical already, with signs and values untouched |
| QueryPrinter.Qualifier | src/query.rs:111-120 | a qualifier splits a token at a single colon behind letters and dashes, and there is none only if no colon of the token is such a one |
| Minify.Apply | src/minify.rs:59-73 | the result is the source with the accepted edits spliced in |
| Minify.ApplicationIsMaximal | src/minify.rs:59-73 | accepted edits are disjoint and in range; every other edit is out of range or starts inside an accepted one |
| Minify.RejectionHasAReason | src/minify.rs:64-67 | the reason for each single rejection; of edits that start together the longest is tried first |
| Minify.SortIsStable | src/minify.rs:60-60 | edits of one range keep their order |
| Minify.Spacing | src/minify.rs:81-112 | one edit for every blank gap between neighbouring tokens |
| Minify.Compact | src/minify.rs:75-79 | exactly the overlapping tokens are considered, all their edits are applied, and the result is their compacted text with straddling tokens cut at the range |
| Minify.SplicedIsAfter | src/minify.rs:59-112 | splicing the edits keeps every token, as far as it is in the range, and every other gap in place |
| Minify.SeparatedStayApart | src/minify.rs:91-105 | in the compacted text tokens that were apart are apart exactly if other text, a kept line break, verbatim text or characters that would be read together demand it |
| Minify.BraceIsAlone | src/minify.rs:114-142 | nothing is ever read together with an opening brace behind it |
| Minify.GapsExactly | src/minify.rs:81-142 | the whole text between any two tokens of the compacted text, from the characters of the source alone |
| Minify.OnlyWhitespaceShrinks | src/minify.rs:86-105 | only whitespace changes, to nothing, a space, or a line break that was there |
| Minify.LineBreaksStay | src/minify.rs:91-98 | a line break stays unless only an opening brace follows text that is not kept verbatim |
| Minify.MovedToken | src/minify.rs:75-112 | in the compacted text every token has its text, as far as it is in the range, and stands in its order behind its shortened gap |
| Minify.CompactedTwice | src/minify.rs:75-112 | compacting compacted text changes nothing, unless the range cuts the last token down to an opening brace behind a line break |
| Allocation.Allocate | src/navigation.rs:403-417 | spends all there is to spend within each cost, nobody short has less than another's share minus one, and odd units go to the costlier or later ones |
| Allocation.AllocationIsUnique | src/navigation.rs:403-417 | these properties leave exactly one allocation |
| Allocation.NobodyGainsForFree | src/navigation.rs:403-417 | in any other affordable allocation a gain costs somebody who had at most one unit more |
| Allocation.Fill | src/navigation.rs:412-417 | one turn: shares stay level from the first subdirectory that comes up short |
| Allocation.Filled | src/navigation.rs:403-417 | at the end nothing is left over unless everybody has its cost |
| CacheMigration.Cache.LegacyAnalysis | src/cache_migration.rs:20-86 | goes through a prefix of the planned disk states whatever operation fails, and refuses exactly a partial marker |
| CacheMigration.Cache.RemoveAnalysis | src/cache_migration.rs:88-109 | files, sync, marker, directory, in that order |
| CacheMigration.RunIsSafe | src/cache_migration.rs:20-109 | at every step of a run any loss of unsynced operations leaves both files, a complete marker, or neither file; so it does when the run resumes a killed one |
| CacheMigration.EveryRunIsSafe | src/cache_migration.rs:20-109 | the same after any number of power losses and kills at any points of repeated runs, as long as no kill leaves a complete marker that is not durable |
| CacheMigration.RemovalIsSafe | src/cache_migration.rs:88-109 | once the marker is durable every state of the removal can be resumed, whichever removals become durable, and the end is an empty or absent directory |
| CacheMigration.ClearsExactly | src/cache_migration.rs:20-109 | one uninterrupted run clears a recognised cache if and only if its marker is not partial |
| CacheMigration.PartialMarkersHappen | src/cache_migration.rs:74-81 | a power loss can leave a partial marker from its creation until its contents are synced, and not later |
| CacheMigration.UnrecognizedIsKept | src/cache_migration.rs:58-86 | an unmarked cache that is not recognised is never changed |
| CacheMigration.ResumedRunIsSafeExactly | src/cache_migration.rs:42-44 | whatever state a killed run leaves, the next run is safe against power losses if and only if it does not see a complete marker that is not durable |
| CacheMigration.KilledRunsAreTrusted | src/cache_migration.rs:74-81 | a process killed between writing the marker and syncing the directory leaves such a disk, and the next run is not safe |
| NestedNames.Resolve | src/metadata.rs:554-571 | the loop over two maps with its flag computes the specified rounds |
| NestedNames.PassesReach | src/metadata.rs:554-567 | the value of every row after any number of passes, names and scopes alike, told from the table at the start and the row order |
| NestedNames.PassesSolveExactly | src/metadata.rs:554-567 | a map is complete after some passes if and only if each row has its final value by then |
| NestedNames.ReachSettles | src/metadata.rs:556-567 | a row that has had as many passes as it is late keeps its value |
| NestedNames.SolvedMeansFinal | src/metadata.rs:554-571 | the final values are a complete naming and the only one |
| NestedNames.SolutionIsUnique | src/metadata.rs:554-571 | there is only one such naming |
| NestedNames.RoundsSettle | src/metadata.rs:554-571 | whatever is nested at most n deep is final after n passes, and stays final |
| NestedNames.NamesAreSolved | src/metadata.rs:554-571 | in any row order nesting at most 32 deep ends with every name its parent's full name qualified with its own |
| NestedNames.NameIsFinalExactly | src/metadata.rs:560-565 | a name is final after some passes if and only if it stems from the outermost type or from a row that was final at the start |
| NestedNames.NamesAreSolvedExactly | src/metadata.rs:554-571 | for any depth and row order: the loop ends with a complete naming if and only if that holds for every row after the pass limit |
| NestedNames.UnqualifiedNamesAreSolvedExactly | src/metadata.rs:554-571 | without namespaces: if and only if no row is later than the pass limit |
| NestedNames.DeeperChainsAreNotSolved | src/metadata.rs:554-554 | so every chain deeper than 32 with its innermost row first keeps a wrong name |
| NestedNames.DepthAtMostRows | src/metadata.rs:554-554 | nesting is never deeper than the number of rows, so that limit loses nothing |
| NestedNames.BusyExactly | src/metadata.rs:560-570 | a pass changes a name if and only if some name was not final before it |
| NestedNames.RoundsArePasses | src/metadata.rs:554-571 | both maps get the same number of passes, which the names alone decide |
| NestedNames.PassTakesPlace | src/metadata.rs:554-571 | pass k takes place if and only if the limit allows it and some name is not final after k - 2 passes |
| NestedNames.ScopesAreSolvedExactly | src/metadata.rs:557-559 | scopes are complete if and only if each is final after the passes that take place |
| NestedNames.ScopeReached | src/metadata.rs:557-559 | after pass k a nested reference has its outermost type's scope if and only if it is at most k late |
| NestedNames.ReferencesGetTheirScopesExactly | src/metadata.rs:557-570 | in the tables that are built, scopes are complete if and only if for every nested reference below a scope the pass it needs takes place |
| NestedNames.ScopesOfWellFormedTables | src/metadata.rs:557-559 | so they are when nested rows have names but no namespace |
| NestedNames.ScopeCanBeLost | src/metadata.rs:568-570 | otherwise the loop can stop with a scope missing |
| Selections.Selection.Insert | src/selection.rs:35-43 | the entries are always the smallest keys ever inserted, each with its first value |
| Selections.Selection.Accepts | src/selection.rs:17-31 | accepts exactly new keys that would enter, and counts every key offered |
| Selections.Selection.IntoParts | src/selection.rs:44-46 | returns the best entries and the number of distinct keys |
| Selections.BestIsUnique | src/selection.rs:9-47 | keys and first values determine the entries, whatever the order |
| Selections.EvictedNeverReturns | src/selection.rs:17-43 | a key that is out of the selection stays out |
| PolicyScope.Session.Search | src/msbuild.rs:207-261 | finds what a walk without memory finds; a failed search leaves the memory alone but has watched all that the walk looks at; no directory is probed twice; a successful one watches enough exactly if the remembered part was watched |
| PolicyScope.WalkFinds | src/msbuild.rs:217-255 | the policy found is the nearest one, of the workspace included, if every policy path up to it is available and it is in place and readable; none if there is no such file up to the workspace or root; a failure otherwise |
| PolicyScope.WatchedExactly | src/msbuild.rs:228-231 | a walk watches the policy of every directory it arrives in |
| PolicyScope.Session.Remember | src/msbuild.rs:257-259 | the result is remembered for every directory passed, and nothing else changes |
| PolicyScope.TrailHits | src/msbuild.rs:224-227 | a remembered directory ends the search with the walk's own result |
| PolicyScope.TrailEndsHere | src/msbuild.rs:236-255 | a policy, the workspace or the root ends the walk for all directories passed |
| PolicyScope.WatchesEnough | src/msbuild.rs:224-231 | the watched paths cover the whole walk if and only if those above the remembered directory were there before |
| Positions.ByteAtIsEncodedLength | src/model.rs:187-204 | byte offsets are lengths of the UTF-8 encoded text in front of them |
| Positions.PositionSteps | src/model.rs:198-204 | positions count from one, a newline begins the next line, any other character the next column |
| Positions.Offset | src/model.rs:187-196 | the byte offset of the specified boundary, or none |
| Positions.OffsetOfPosition | src/model.rs:187-204 | the position of every boundary before the end leads back to it |
| Positions.PositionOfOffset | src/model.rs:187-204 | every line and column with an offset is the position of it, line 0 being read as line 1 |
| Positions.OffsetExists | src/model.rs:187-204 | the pairs with an offset are exactly the positions of boundaries before the end |
| Positions.RoundTripFromByte | src/model.rs:187-204 | the same from byte offsets, for characters of any width |
| Positions.RoundTripFromPosition | src/model.rs:187-204 | and back |

## Left out

- BudgetObjects.Budget.Enqueue: does not model the wrap-around of the 64-bit ticket counter, which needs 2^64 requests.
- BudgetObjects.Budget.Recheck: the condition variable is not modelled; a waiter rechecks when the run says so, and the progress lemmas assume that it does so again and again.
- BudgetObjects.Budget.Report: does not report the age of the oldest waiter, which is a clock reading.
- Watch.Monitor.Register: assumes that the kernel gives each watched directory a descriptor of its own.
- Minify.Compact: characters stand for byte positions.
- QueryLexer.Lex: the texts of error messages are not modelled.
- CacheMigration.Cache.LegacyAnalysis: kinds of files other than plain ones, and what opening the database does to the lock file, are not modelled; they count as failing operations.
- Selections.Selection.Insert: changing a stored value through `get_mut` is not modelled.
- SignatureDecoder.Decoder.Ty: error messages are not modelled; a failure is a missing result.
- Path ranking in `matches`, directory rendering around the allocation loop, and the C# and Rust rewrites that feed `apply`.
- The generic-arity distribution in `Types::written` and everything else that reads metadata tables.
- The rest of the migration: scoped directories, selectors and retired Git stores.
- Process spawning, sandboxing, HTTP and MCP service, storage, Git, the parsers, and all other I/O.
