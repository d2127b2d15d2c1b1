# TeaAgent: verified models of its integrity-critical code

This project models the parts of TeaAgent whose correctness rests on more than one function, and proves
what those parts promise.

- **The hash-chained audit log.** Loggers append lines to one file under a lock: each append re-reads the
  tip, clamps its timestamp, links to the tip and writes. Disk errors start a cooldown and count towards a
  halt. A replay verifier accepts or rejects a log, two older verifiers sit beside it, and three readers
  find the tip in the file's bytes. `AuditChain`, `ChainTheorems`, `ChainTampering`, `RawChain`,
  `AuditLog`, `LogProtocol`, `DiskFaults`, `LoggerMemory`, `TipReaders`.
- **Two graph gates.** Import cycles by depth-first search with three colours (`ImportCycles`,
  `CycleCompleteness`), and
  reachability from the entry surfaces by a worklist (`Wiring`).
- **Smaller cores.** The crash-safe directory swap (`BundleSwap`), the per-endpoint circuit breaker
  (`CircuitBreaker`), bottom-up splicing of imports (`MigrateImports`,
  `MigrationText`), byte capping (`CollectorCap`), the
  JSONL store (`JsonlStore`), and redaction (`Redaction`).
- **Shared ground.** JSON values (`Json`), UTF-8 as in RFC 3629 with Python's replacement of ill-formed
  bytes and its strict decoder (`Utf8`), `str.splitlines` (`TextLines`), string order and sorting (`Strings`),
  facts about sequences (`Sequences`).

Code that changes state step by step is a class or a method with loops, proved against a specification;
expressions are functions. What lies outside (digests, HMAC, JSON text, timestamps, clocks, faults) enters
as a parameter. `Ideal` says that a digest has no collisions and never prints `genesis`; lemmas that need
it say so, and acceptance, interleaving and agreement of the verifiers do not.
Strict acceptance means that lines without chain fields are failures: `strict` on, `allow_legacy_reset` off.

`dafny verify dfyconfig.toml` checks the whole project.

## Model

| member | source | states |
|---|---|---|
| AuditChain.VerifyAuditChain | teaagent/audit_chain.py:310-448 | the report is valid exactly on accepted logs (fields, links, hashes, HMACs, sorted times; legacy lines by mode); an exception escapes exactly if some line raises and every line before it is JSON; totals equal the counts among the listed failures; legacy total counts legacy lines; an absent file is valid |
| AuditChain.ReplayLoop | teaagent/audit_chain.py:336-448 | the loop lists the replay's failures, stops at the first line that is not JSON, and raises exactly where the replay does |
| AuditChain.ReplayRaisesIff | teaagent/audit_chain.py:288-291 | whether the replay raises depends on no anchor and no clock: the first offending line is JSON but no object, carries a signature over a hash that is no string, or has a number that is no timestamp |
| AuditChain.BadLineReport | teaagent/audit_chain.py:346-369 | at the first line that is not JSON the report keeps all failures and totals of the lines before it, adds that one failure (line n + 1, event n) and counts n + 1 events; nothing behind it counts |
| AuditChain.CountIsCardinality | teaagent/audit_chain.py:389-402 | a total is the number of listed failures of its category |
| AuditChain.LegacyIsCardinality | teaagent/audit_chain.py:423-425 | the legacy total is the number of objects that lack `prev_hash` or `hash` |
| AuditChain.Tally | teaagent/audit_chain.py:377-394 | numbering one line's failures keeps the three category totals equal to their counts |
| AuditChain.ReplayDecides | teaagent/audit_chain.py:192-448 | in every mode the replay ends without failure or exception exactly on accepted logs, and then holds the last anchor and the latest readable time |
| AuditChain.StepIsClean | teaagent/audit_chain.py:192-285 | one line passes without failure exactly if it is a permitted legacy line or a linked, sealed and signed one, and not earlier than the last time |
| AuditChain.LastTimeIsLatest | teaagent/audit_chain.py:396-421 | in a sorted log the last readable time is the latest one |
| ChainTheorems.StrictAcceptsChains | teaagent/audit_chain.py:203-285 | strict acceptance is being one chain from genesis with sorted times |
| ChainTheorems.ResetAcceptsRuns | teaagent/audit_chain.py:203-224 | with legacy reset, acceptance means every maximal run between legacy lines is a chain from genesis and times are sorted across the whole log |
| ChainTheorems.AcceptedPrefix | teaagent/audit_chain.py:346-434 | every prefix of an accepted log is accepted, so truncation alone is not detected |
| ChainTheorems.SameTipSameChain | teaagent/audit_chain.py:161-180 | under an ideal digest two strictly accepted logs with one tip have equal chain fields on every line and equal length |
| ChainTheorems.TamperingIsReported | teaagent/audit_chain.py:22-27 | an edit, insertion, deletion or reordering that keeps the tip is reported |
| ChainTheorems.EditsAreIsolated | teaagent/audit_chain.py:255-285 | editing id, type, run or payload of any set of lines gives exactly one hash mismatch per edited line, in order |
| ChainTheorems.OneEditOneFailure | teaagent/audit_chain.py:285 | the one-line case: a single hash mismatch, on that line |
| ChainTampering.RemovalIsOneBrokenLink | teaagent/audit_chain.py:226-239 | removing an inner line of a strictly accepted log gives exactly one failure, a broken link where it was |
| ChainTampering.BareLineStaysLocal | teaagent/audit_chain.py:396-434 | a line without chain fields, with any time, put anywhere gives one missing-fields failure (and a regression if it is before the latest time), one broken link after it exactly if it has the other five hashed fields, and one regression on the first later line with a time if that is earlier |
| ChainTampering.BareLineAnchor | teaagent/audit_chain.py:431-434 | under an ideal digest the anchor recomputed from a bare line in an accepted log differs from the old one exactly if the line has the five other hashed fields |
| ChainTampering.RewrittenHashStaysLocal | teaagent/audit_chain.py:255-285 | rewriting one stored hash gives one hash mismatch there (and an HMAC mismatch if the signature is looked at and differs), and one broken link on the next line unless the new value is null; a signed line whose hash is not a string raises |
| ChainTampering.RewrittenSignature | teaagent/audit_chain.py:268-283 | rewriting a signature gives exactly one HMAC mismatch when the key is known |
| ChainTampering.RewrittenLink | teaagent/audit_chain.py:226-266 | rewriting a link gives a broken link and a hash mismatch on that line only |
| ChainTampering.DroppedField | teaagent/audit_chain.py:203-253 | removing any hashed or chain field from a line gives one missing-fields failure, and one broken link after it exactly if the field is no chain field |
| ChainTampering.DisturbedTail | teaagent/audit_chain.py:396-430 | a chain replayed after anything adds at most one broken link, on its first line, and at most one regression, on its first line with a time |
| ChainTampering.HashesMoveOn | teaagent/audit_chain.py:161-180 | under an ideal digest no accepted line stores the hash it links to |
| RawChain.VerifyRawChain | teaagent/audit.py:733-763 | the older loop returns its link and hash errors in order |
| RawChain.VerifyChainIntegrity | teaagent/audit.py:636-698 | no file, an unreadable file and a checked file are told apart |
| RawChain.RawErrorsIff | teaagent/audit.py:733-763 | a link error at i means the link differs from what event i - 1 left, a hash error that the hash differs from the recomputed one |
| RawChain.RawErrorsInOrder | teaagent/audit.py:733-763 | the errors come in file order, link before hash, none twice |
| RawChain.OlderVerifiersAgree | teaagent/audit.py:655-686 | on logs of objects the strict replay has no missing-field, link or hash failure and does not raise exactly if the older loops have no error, every line has the hashed fields and no timestamp raises |
| RawChain.OlderVerifiersMissAbsentFields | teaagent/audit.py:667-678 | the older loops accept some line without its fields |
| AuditLog.AuditLogger.Open | teaagent/audit.py:226-257 | a new logger recovers tip and stamp from the last line with a hash, searched from the end; the search raises on a JSON line it cannot look into |
| AuditLog.RecoverFrom | teaagent/audit.py:231-245 | behind lines without a hash field, an object with one gives tip and stamp and any other JSON value raises |
| AuditLog.RecoverNothing | teaagent/audit.py:231-245 | without a hash field in any line the logger starts from genesis, with no stamp |
| AuditLog.TipIsLastHashed | teaagent/audit.py:119-133 | the tip is the hash and stamp of the last object whose hash is a string other than "" |
| AuditLog.AuditLogger.WriteUnderLock | teaagent/audit.py:470-547 | the critical section's new state and file, for each place a fault can strike |
| AuditLog.AuditLogger.Record | teaagent/audit.py:448-628 | a call's whole effect on logger and file: gate, critical section, error state, raise or event |
| LoggerMemory.OneCall | teaagent/audit.py:448-628 | one call told by the attempts so far: it tries the disk unless the last attempt failed less than 30 seconds ago, lands its line unless it fails before writing, raises exactly at the third failure in a row (the first in compliance mode), and leaves its events and stamp |
| LoggerMemory.MemoryTellsTheRun | teaagent/audit.py:549-608 | up to the first raise memory holds exactly one event per call, in order and with its id, type, run and payload, and an error event directly before the event of each failed attempt; stamps of calls that did not fail at the lock never go backwards |
| LoggerMemory.StampsSortedIff | teaagent/audit.py:463-490 | whatever the clocks, all stamps are in order exactly if each call that failed at the lock fits between its neighbours, for nothing clamps its stamp |
| LoggerMemory.LockFaultCanGoBack | teaagent/audit.py:463-467 | two calls whose events are out of order, the second failing at the lock |
| LoggerMemory.MemoryOnly | teaagent/audit.py:588-608 | a logger without a file holds exactly one event per call, in order, with stamps that never go backwards |
| LoggerMemory.AnswerIsLastEvent | teaagent/audit.py:599-628 | a call that does not raise answers with the event it left last in memory |
| LoggerMemory.CachedHash | teaagent/audit.py:543-547 | the cached hash is that of the landed line once it is safe on disk, and unchanged before |
| LogProtocol.AppendAcceptedIff | teaagent/audit.py:471-490 | an appended entry is accepted exactly if it links to the tip just read and is not stamped before it; a stale cached hash forks the chain |
| LogProtocol.TipOfGoodLog | teaagent/audit.py:95-135 | on a good log the tip read for appending is the verifier's final anchor, with the latest time |
| LogProtocol.WriteKeepsGood | teaagent/audit.py:470-547 | the critical section keeps the log good wherever it fails |
| LogProtocol.NextKeepsGood | teaagent/audit.py:463-608 | every atomic step of any logger keeps the system good |
| LogProtocol.RunKeepsGood | teaagent/audit.py:463-608 | so does every run |
| LogProtocol.EveryInterleavingVerifies | teaagent/audit.py:466-553 | any interleaving of any loggers, clocks and faults leaves a log that strict verification passes, with and without the key |
| LogProtocol.LogOnlyGrows | teaagent/audit.py:530-537 | an earlier file is a prefix of every later one |
| LogProtocol.ThreeStepsAreOneCall | teaagent/audit.py:448-628 | the three steps of a call, undisturbed, are the call |
| DiskFaults.DiskDiscipline | teaagent/audit.py:259-272 | for a logger opened on any file, up to its first raise: attempts wait 30 seconds after every earlier failure, the counter is the trailing run of failures, never three in a row, none in compliance mode |
| DiskFaults.PlayRemembers | teaagent/audit.py:549-557 | the error state is that of the last attempt at every moment of a run |
| DiskFaults.FewFailures | teaagent/audit.py:564-581 | the third failure in a row, or the first in compliance mode, raises |
| DiskFaults.LandedLinesAreEvents | teaagent/audit.py:599-608 | up to the first raise the landed lines are, in order, a subsequence of the in-memory events |
| DiskFaults.RaiseForgetsAtMostOneLine | teaagent/audit.py:553-581 | the raising call leaves at most one line that memory lacks |
| TipReaders.ChainTipScan | teaagent/audit.py:95-135 | for every content and size the windowed scan returns the last hashed line of the whole file, and terminates |
| TipReaders.WindowText | teaagent/audit.py:112-115 | a window decodes to replacement characters followed by a suffix of the text |
| TipReaders.WindowLines | teaagent/audit.py:115-118 | all lines of a window but the first are the last lines of the file |
| TipReaders.LastChainHash | teaagent/audit_chain.py:478-510 | the tail reader's answer, decoding with replacement, and its fallback to the strict full scan |
| TipReaders.TailAnswers | teaagent/audit_chain.py:494-506 | if the tail's last readable line is an object, its hash if both chain fields are there and it is a string other than "", else genesis |
| TipReaders.LastChainHashFull | teaagent/audit_chain.py:535-550 | the full scan keeps the last usable hash, and raises on a file that is not UTF-8 |
| TipReaders.FullAnswers | teaagent/audit_chain.py:535-550 | the full scan answers from the last object that has a usable hash or lacks a chain field |
| TipReaders.FullHashFindsTip | teaagent/audit_chain.py:535-550 | on lines of objects the full scan finds a hash other than genesis exactly if some line has one and no legacy line follows it |
| TipReaders.TailDisagreesIff | teaagent/audit_chain.py:486-510 | exactly when tail reader and full scan differ: the file is not UTF-8 and the tail reader answers by itself, or the last readable line, in the tail, has an unusable hash and an earlier one has a hash with no legacy line after it |
| TipReaders.TailCanDisagree | teaagent/audit_chain.py:504-506 | a two-line UTF-8 file on which they do |
| TipReaders.IllFormedCanDisagree | teaagent/audit_chain.py:490-537 | a four-byte file that is not UTF-8 on which the full scan raises and the tail reader answers |
| TipReaders.ReadersAgreeOnAccepted | teaagent/audit_chain.py:323-550 | on strictly accepted UTF-8 logs, blank lines around the events included, all three readers return the verifier's anchor |
| TipReaders.AppendAddsLine | teaagent/audit.py:530-537 | writing a printed line adds exactly one line to what readers see and leaves a file of whole lines |
| TextLines.CutLines | teaagent/audit.py:115-118 | a text cut anywhere keeps all later lines and a suffix of the cut one |
| TextLines.LineThenBreak | teaagent/audit.py:115 | each of Python's line breaks ends a line, a carriage return together with a line feed |
| Utf8.DecodeEncode | teaagent/automation_collector.py:88-91 | decoding undoes encoding |
| Utf8.StrictDecodesEncodings | teaagent/audit_chain.py:537 | the strict decoder accepts exactly the encodings of texts and gives back the text |
| Utf8.DecodeSplits | teaagent/audit.py:113-114 | decoding never straddles the first byte of a character |
| Utf8.DecodedIsEncoded | teaagent/automation_collector.py:91 | a decoding step yields a character other than U+FFFD only from that character's own encoding |
| CollectorCap.CapIsExact | teaagent/automation_collector.py:85-92 | a negative limit and an unencodable text are the only errors; otherwise the cap keeps exactly the fitting characters and one U+FFFD for a cut one, stays within max_bytes + 2, and flags exactly the long inputs |
| ImportCycles.FindCycles | scripts/check_circular_imports.py:71-115 | nothing is returned exactly on acyclic graphs; every tuple is a cycle of real edges; no two are rotations; on every graph the finish order is topological once the closing edges of the returned tuples are dropped |
| ImportCycles.SearchAll | scripts/check_circular_imports.py:100-102 | the searches report cycles that run down the search tree but for their last edge, and finish every module in an order topological but for those edges |
| ImportCycles.CycleFinder.Dfs | scripts/check_circular_imports.py:85-98 | gray is the path, black the finished nodes; the call restores the path, whitens nothing, and finishes its node or closes a cycle |
| ImportCycles.CycleFinder.VisitDeps | scripts/check_circular_imports.py:94-95 | every import of the node ends up finished, or closed a reported cycle |
| ImportCycles.Deduplicate | scripts/check_circular_imports.py:104-115 | one of each class of rotations is kept |
| ImportCycles.TopologicalIsAcyclic | scripts/check_circular_imports.py:94-98 | a topological order excludes every closed walk |
| ImportCycles.TrailFixesRotation | scripts/check_circular_imports.py:104-115 | reported cycles that are rotations of each other are equal, so de-duplication drops only repeated tuples |
| ImportCycles.RotationIsSymmetric | scripts/check_circular_imports.py:108-111 | being a rotation of a closed walk is symmetric |
| ImportCycles.RotationIsCycle | scripts/check_circular_imports.py:109 | the slices used to rotate give the same cycle from its i-th node |
| CycleCompleteness.CycleMeetsReport | scripts/check_circular_imports.py:71-72 | on every graph each simple cycle uses the closing edge of a returned tuple |
| CycleCompleteness.ReportedExactly | scripts/check_circular_imports.py:85-98 | for one order of modules and imports, the returned tuples are exactly the simple cycles that run down the search tree but for their last edge |
| CycleCompleteness.FoundIff | scripts/check_circular_imports.py:85-115 | so a simple cycle is returned, up to rotation, exactly if from one of its nodes it runs down the search tree |
| CycleCompleteness.CompleteExactlyWhenDisjoint | scripts/check_circular_imports.py:71-102 | if no two simple cycles share an edge, every search returns all of them; if two do, there is an order of the modules, without repetitions, in which every search misses one |
| CycleCompleteness.OneOfTwo | scripts/check_circular_imports.py:85-98 | of two cycles that leave the first root by different edges and meet again the search returns at most one |
| CycleCompleteness.DiamondMissesOne | scripts/check_circular_imports.py:71-115 | a four-module graph on which the returned list misses a simple cycle |
| Wiring.ExpandToModules | scripts/validate_wiring.py:113-125 | exactly the modules an import name stands for: itself, or what lies below a package of ours without a module of its own |
| Wiring.StartQueue | scripts/validate_wiring.py:129-140 | exactly the root modules are queued |
| Wiring.ReachableModules | scripts/validate_wiring.py:128-152 | the worklist ends with the least set that holds the roots and is closed under expanded imports |
| Wiring.ReachableIffOnPath | scripts/validate_wiring.py:142-152 | that set is what import paths from the roots lead to |
| Wiring.AnalyzeWiring | scripts/validate_wiring.py:161-195 | `unlabeled` is empty exactly if every known watched module is reachable or labelled; the missing mandatory roots are exact |
| BundleSwap.GenerateBundle | scripts/generate_okf_docs_bundle.py:281-316 | with a fault at any operation, the disk goes from the start to the end by a trace of atomic operations and every disk on it is safe; a normal return leaves the validated bundle alone; if placing raises an exception and the rename back works, the old bundle is back at output and no backup remains, else it stays at the backup path; if no other operation raises, the call succeeds exactly on a valid bundle that can be placed |
| BundleSwap.Swap | scripts/generate_okf_docs_bundle.py:296-310 | the try body continues a trace of safe disks; without a raise it ends with the new bundle and no backup, and a failed placing leaves the old bundle rolled back or at the backup path |
| BundleSwap.PlaceNew | scripts/generate_okf_docs_bundle.py:303-308 | the inner try places the new tree; after an ordinary exception it puts the old one back, after an interrupt or if that fails too it changes nothing |
| BundleSwap.CleanUp | scripts/generate_okf_docs_bundle.py:311-315 | the finally clause continues the trace, never touches the output, and keeps a backup as long as there is no output |
| BundleSwap.WriteTree | scripts/generate_okf_docs_bundle.py:254-258 | file by file, each half written first, the tree grows in the temporary directory only; a write that does not raise leaves it complete |
| BundleSwap.RemoveTree | scripts/generate_okf_docs_bundle.py:299-315 | a directory no guarantee needs any more disappears file by file, the rest untouched; it is gone exactly if nothing raises |
| CircuitBreaker.EndpointCircuit.RecordFailure | teaagent/agentcard.py:40-43 | one more failure, opening at the threshold |
| CircuitBreaker.EndpointCircuit.RecordSuccess | teaagent/agentcard.py:45-47 | a success closes the circuit |
| CircuitBreaker.FederatedAgentRegistry.Refresh | teaagent/agentcard.py:448-471 | the circuits, errors and cards after a refresh, endpoints listed twice included |
| CircuitBreaker.RefreshAnswers | teaagent/agentcard.py:448-471 | a refresh returns the error of every endpoint contacted in vain and caches the card of every one that answered, in order; an endpoint is contacted unless its own visits opened its circuit less than the timeout ago |
| CircuitBreaker.FederatedAgentRegistry.StateIsOpen | teaagent/agentcard.py:473-484 | the reported state is whether a refresh would skip the endpoint |
| CircuitBreaker.EndpointsAreIndependent | teaagent/agentcard.py:451-468 | a refresh treats each endpoint as if it were alone |
| CircuitBreaker.BreakerHolds | teaagent/agentcard.py:30-47 | over any run the count is the trailing run of failed contacts, the circuit is open exactly at the threshold, and no contact starts within the reset timeout of an opening |
| CircuitBreaker.RegistryBreakerHolds | teaagent/agentcard.py:448-471 | the same for each endpoint over any sequence of refreshes |
| CircuitBreaker.HalfOpenFailureReopens | teaagent/agentcard.py:21-23 | over any run, the contact after the timeout of an open circuit is a trial: its failure opens the circuit again from that moment, its success closes it |
| CircuitBreaker.ThresholdMustBePositive | teaagent/agentcard.py:42 | the count and the opening agree from the start exactly if the threshold is at least one |
| MigrateImports.Separate | scripts/migrate_imports.py:139-151 | the loop splits a statement's names into the three groups, in order |
| MigrateImports.NamesAreConserved | scripts/migrate_imports.py:143-151 | names with aliases are conserved across the groups |
| MigrateImports.BuildReplacement | scripts/migrate_imports.py:153-170 | the replacement statements with the indentation of the original |
| MigrationText.ReplacementText | scripts/migrate_imports.py:139-170 | type symbols are imported from `teaagent.types`, approval symbols that are no types from `teaagent.approval`, all other names from the original module, each with its alias, as often as in the statement, sorted, and indented like it |
| MigrationText.TextKeepsNames | scripts/migrate_imports.py:143-151 | the three places together hold every name of the statement as often as it does |
| MigrationText.SplitJoined | scripts/migrate_imports.py:156-166 | the names can be read back from the text |
| MigrationText.NeedsMigrationIff | scripts/migrate_imports.py:109-123 | a statement is migrated exactly if its module is a legacy one and it names a canonical symbol |
| MigrationText.ToReplaceExactly | scripts/migrate_imports.py:109-123 | exactly those statements are replaced, each as often as the tree holds it |
| MigrationText.RangesAreReplaced | scripts/migrate_imports.py:172-173 | each replaced range holds its new lines, at its shifted place |
| MigrationText.LengthAfter | scripts/migrate_imports.py:172-173 | and nothing else is added or lost |
| MigrateImports.SortDescending | scripts/migrate_imports.py:129 | the stable sort: descending line numbers, statements of one line in their original order |
| MigrateImports.StableSortIsUnique | scripts/migrate_imports.py:129 | descending line numbers and the original order on each line leave only one list |
| MigrateImports.SpliceAll | scripts/migrate_imports.py:133-174 | the loop is one clipped splice after the other, with no IndexError; when no two statements share a line, that equals one pass in original coordinates |
| MigrateImports.SpliceLast | scripts/migrate_imports.py:172-173 | splicing the last range leaves the pass over the earlier ones unchanged |
| MigrateImports.OutsideLinesAreKept | scripts/migrate_imports.py:172-173 | every line outside the ranges is kept at its shifted place |
| MigrateImports.SharedLineIsOverwritten | scripts/migrate_imports.py:128-173 | two statements on one line: the later splice overwrites what the earlier wrote, so disjointness is needed |
| MigrateImports.MigrateLines | scripts/migrate_imports.py:109-181 | nothing changes exactly if no statement needs migration; else the result is the splices in stable order from the last line up, and, if no two statements share a line, the one-pass rewrite |
| Strings.SortedSorts | scripts/migrate_imports.py:156 | `sorted` orders and permutes |
| Strings.BeforeIff | teaagent/audit.py:476-488 | strings compare by the first character that differs, a proper prefix first |
| JsonlStore.Store.ReadAll | teaagent/abstract_store.py:107-122 | the loop reads the dictionary a file holds, or raises |
| JsonlStore.Store.Save | teaagent/abstract_store.py:76-81 | answer and new file of a save |
| JsonlStore.Store.Delete | teaagent/abstract_store.py:86-94 | answer and new file of a delete |
| JsonlStore.Store.Clear | teaagent/abstract_store.py:102-105 | answer and new file of a clear |
| JsonlStore.RoundTrip | teaagent/abstract_store.py:124-128 | re-reading a written dictionary of JSON values that carry their keys gives the same entries in order, the empty one included |
| JsonlStore.WriteTextIs | teaagent/abstract_store.py:124-128 | every entry is its printed value and a line feed, the empty store a line feed alone |
| JsonlStore.ReadRaisesIff | teaagent/abstract_store.py:107-122 | reading raises exactly if some line is JSON but no object |
| JsonlStore.SkippedLinesDoNotCount | teaagent/abstract_store.py:111-121 | a line that is not JSON, or has no string key, changes nothing wherever it stands |
| JsonlStore.LastLineWins | teaagent/abstract_store.py:116-121 | of several lines with one key the last has the say |
| JsonlStore.DeleteTells | teaagent/abstract_store.py:86-94 | `delete` answers whether the key was there, afterwards it is not, and other keys are not touched |
| JsonlStore.RefusalsKeepTheFile | teaagent/abstract_store.py:76-105 | a readonly store refuses every change and keeps its file |
| JsonlStore.StoreIsAMap | teaagent/abstract_store.py:76-105 | over any sequence of operations the three queries agree with an insertion-ordered map |
| JsonlStore.LoadAfterSaveIff | teaagent/abstract_store.py:76-84 | a saved value loads back exactly if it carries its key |
| JsonlStore.UpdatesKeepOrder | teaagent/abstract_store.py:80-92 | an update or removal happens in place |
| JsonlStore.LookupLaws | teaagent/abstract_store.py:80-92 | what an update or removal does to every lookup |
| Redaction.RedactAt | teaagent/audit.py:857-972 | the output has a value exactly at the original's places not below a replaced one, redacted by that place's rules |
| Redaction.RedactNode | teaagent/audit.py:868-972 | a value is replaced or keeps its kind, keys or length |
| Redaction.SensitiveWords | teaagent/audit.py:983-985 | the six words that make a key sensitive |
| Redaction.SensitiveStringsAreRedacted | teaagent/audit.py:935-939 | strings directly under a sensitive key never show |
| Redaction.ArgumentsAreRedacted | teaagent/audit.py:940-944 | nor, at any depth of an `arguments` object, non-primitives under `command`, `content`, `new`, `old` |
| Redaction.ResultsAreRedacted | teaagent/audit.py:842-843 | nor, at any depth of a `result` object, non-primitives under `content`, `stderr`, `stdout`, `text` |
| Redaction.HarmlessLeavesShow | teaagent/audit.py:832-972 | every leaf outside `arguments` and `result` shows unless it is a string directly under a sensitive key, and inside `result` unless a key down to it is sensitive or one of the four; a string shows scrubbed, cut after 20,000 characters with `[truncated]` behind them, any other value unchanged |
| Redaction.HarmlessArgumentsShow | teaagent/audit.py:868-972 | the same inside an `arguments` object |
| Redaction.PayloadAt | teaagent/audit.py:832-846 | a payload keeps its fields and each follows its own rules |
| Redaction.RedactTwice | teaagent/audit.py:935-972 | redaction is idempotent if string scrubbing is and nothing is truncated |

## Left out

- Record: tiered level filtering, sinks, chmod, key files and the L3 encryption step are not modelled; the payload arrives filtered and redacted, and what is written may differ from it (level L3).
- Record: the stamp of a call that fails at the lock is the reading it came with, which nothing clamps, so the events in memory can be out of time order (StampsSortedIff, LockFaultCanGoBack).
- Record: a line lands whole or not at all, so torn lines are outside the model, as are threads racing inside one logger and a `created_at` in the file that is not a string.
- EveryInterleavingVerifies: assumes of the clock's dates that their printed forms parse back, compare as strings like their times, and are not empty. `isoformat` leaves out the microseconds when they are zero; the order still holds, because `+` sorts before `.`.
- VerifyAuditChain: failure messages and severities are not modelled. The documentation calls `event_number` 0-based; the code stamps it after the increment (before it on a parse error) and the model follows the code.
- VerifyAuditChain: JSON equality is structural. Python also equates 1, 1.0 and true, which can matter only on the line after one whose stored hash is not a string and was reported already.
- VerifyAuditChain: modelled strings hold no lone surrogates, so the UnicodeEncodeError of signing a stored hash with one is missing from the exceptions, as is the plain ValueError of an integer literal over Python's limit on digits. Acceptance is not affected.
- ReplayRaisesIff: the same two exceptions are missing.
- SameTipSameChain: metadata outside the hashed fields, and `chain_hmac` without the key, are not bound by the chain.
- ChainTipScan: an unreadable file (OSError) is not modelled, nor is the fallback of `last_chain_hash` to genesis on one.
- VerifyAuditChain: takes the lines of a text; the strict decoder before it raises on a file that is not UTF-8.
- Open: likewise, the constructor raises on a file that is not UTF-8 before it searches for a hash.
- TailDisagreesIff: assumes that nothing starting with U+FFFD and no proper suffix of a line parses as JSON, and that every readable line is an object.
- ReadersAgreeOnAccepted: makes the same assumption on damaged lines (CutLinesDoNotRead). Stripping the text is modelled on its lines, whose inner white space a JSON reader ignores.
- FindCycles: the docstring promises all simple cycles, which CompleteExactlyWhenDisjoint and DiamondMissesOne show to hold exactly when no two share an edge. The exact condition ranges over all orders of the modules; for one fixed order FoundIff has the condition, in terms of the search tree. Which imports count, and Python's recursion limit, are outside the model.
- AnalyzeWiring: reading files, resolving relative imports and finding labels in source text are inputs.
- GenerateBundle: manifest loading, rendering and bundle validation are inputs. The guarantee is about a bundle at the output path; one that exists only at the backup path of the same process id, after an earlier crash, is deleted before the swap.
- Refresh: the cache's time to live, lookups over cached cards and HTTP are not modelled; an outcome of each contact is an input.
- MigrateLines: Python counts lines by line feeds only while `splitlines` also breaks at form feeds and the like, so files with those are outside the model. Path filters and parsing are inputs.
- RedactAuditValue: the pattern substitutions and `lower` are parameters; bytes, tuples and non-string keys do not occur in JSON trees.
- StoreIsAMap: assumes that parsing undoes printing of JSON values and that their printed forms hold no line break.
- SHA-256, Blake3, HMAC and Fernet internals, and switching the digest while a log is in use: uninterpreted functions stand for them.
- HTTP servers, browser tools, SQLite stores, telemetry, documentation reports and benchmarks: input/output plumbing, or easy members only.
