# Mere, modelled and proved in Dafny

Mere is a Rust workspace for a personal, replicated knowledge space. This project models the parts
of it whose correctness is hardest to see from the code, and proves what they promise for every
input, every run or every reachable state:

- **Causal projection** (`Causal*.dfy`, `Worklist.dfy`, `ReadyQueue.dfy`): ordering a replicated log
  by worklist propagation of missing history and a deterministic least-key topological sort.
- **Worker pool** (`Pool*.dfy`): the mutex, condition variable and idle count as a step system over
  all interleavings.
- **Capabilities and delegation** (`Segments.dfy`, `Capability*.dfy`, `Delegation*.dfy`,
  `Authority.dfy`): the coverage order, its path encoding, certificate chains, lazy revocation, and
  the flat grant table they must agree with.
- **Watches and cascades** (`Watch.dfy`, `Cascade.dfy`): cursor-based delivery and the bounded
  reactive loop, for any runner.
- **Deadband and gate** (`Deadband*.dfy`, `Gate.dfy`): the rate limiter whose baseline moves only
  after a commit, its lines on disk, and the petition checks around it.
- **Native drops** (`Drop*.dfy`, `Chunks.dfy`): the byte framing, its reader, exactly which bytes are
  accepted, and chunk reassembly.
- **Staged import** (`StagedImport.dfy`, `ImportRuns.dfy`): stage, commit and receipt over a store
  that only has atomic batches.
- **Epochs and group sessions** (`Epoch*.dfy`, `Group*.dfy`, `Session*.dfy`): the keyring, the
  pruning proposal, per-author counters, membership, the session object that works on a copy, what
  one session sends and another takes, and what a refused frame means for the rest of a session's
  life.
- **Tile workspace** (`Tile*.dfy`, `Workspace*.dfy`): the tiling tree, its canonical form, what each
  edit changes and leaves, the floating layer, and the rule that a tile has one station.
- **Crawl** (`Crawl*.dfy`): bounded breadth-first search with de-duplication.

`StableSort.dfy` and `First.dfy` are the one stable sort and the one list lookup the others use.
`dafny verify dfyconfig.toml` checks everything; the files import each other by module name.

How the model is shaped. Code that changes objects in place is a class whose methods are tied to a
function of the old state; loops are methods with invariants, proved against specification
functions; pure code is functions. 32-byte identifiers, keys and hashes that are only compared are
natural numbers. CBOR, BLAKE3, signatures, the key-agreement engine, the graph store, URL parsing,
clocks and fetches are parameters, and where a proof needs something of them it is stated as a law
(`Lawful`, `LawfulProtector`, `CollisionFree`, `HonestMove`, `NamesGreatest`, `EngineTimed`). `f32`
shares and rectangles are reals.

Places where the code does not do what a comment or a natural reading promises are kept as the code
has them. Each has a concrete run or input and an exact condition:

- the pool does not always grow when every worker is busy (`PoolTheorems.StrandedRun`,
  `PoolTheorems.NeverStrandsIffProvided`), and its thread count is not bounded by peak concurrency
  (`PoolTheorems.ThreadsExceedPeak`, `PoolTheorems.WithinPeakIffJustified`);
- a certificate that names the table's root as its parent is taken as a root certificate whoever
  issued it (`Delegation.AnotherIssuerExample`, `Delegation.AnswersComeFromTheRootIff`);
- the domain that is to keep a denizen's certificates apart from another application's is not
  compared when the table answers (`Delegation.AnotherDomainExample`,
  `Delegation.AnswersForDenizensIff`);
- an authentic frame that is next in sequence is refused when its epochs do not end with the latest,
  and its author then stalls (`SessionExamples.SlowClockExample`, `SessionEpochs.AcceptedIff`,
  `SessionStalls.AuthorStalls`); under an engine whose latest secret has the greatest timestamp the
  stall lasts until something brings the epoch in company (`SessionExamples.WelcomeEndsTheStall`,
  `SessionStalls.OutdatedAcceptedIff`, `SessionStalls.AuthorStallsForGood`);
- a local operation is not checked for this at its end: given an engine whose fresh secret is not the
  latest, it succeeds and leaves a session that refuses everything
  (`SessionExamples.SetBackClockExample`, `SessionEpochs.UsableAfterLocalIff`,
  `SessionEpochs.UnsoundIsStuck`); these examples start from a session reached by a run
  (`SessionExamples.FoundedIsReached`) of an engine that exists (`SessionExamples.ByClocksExists`);
- a tile dropped on its own edge is lost (`TileRuns.DropOntoItselfLoses`,
  `TileRuns.ConservesIffNotDiscarding`);
- a stack that loses a tab keeps its active index, so closing a tab to the left of the one shown
  shows another (`TileEdits.ClosingShiftsExample`, `TileEdits.ShownStaysIff`);
- a certificate is still good at the instant it expires and a grant is not
  (`Authority.BoundIsWhereTheyDiffer`, `Authority.TableAnswersAsGrants`);
- an empty chunk can make reassembly depend on arrival order (`Chunks.EmptyChunkExample`,
  `Chunks.OrderIsImmaterialIffNoTie`);
- a stored keyring whose chronology repeats an epoch passes validation and leaves another epoch
  without a decision (`EpochPruning.RepeatedEpochExample`, `EpochPruning.DecidedOnceIffDistinct`).

## Model

| member | source | states |
|---|---|---|
| `CausalProjection.Project` | crates/stickleback/src/causal.rs:167-273 | The whole projection: the error for a fork or a repeated id, `Cycle` exactly when the complete part has a cycle, and otherwise the unique dependency-first, least-key-first listing of exactly the operations whose transitive history, by backlink and parents (`CausalTheorems.HistoryIsWhatIsNamed`), is present, with the rest reported |
| `CausalProjection.ValidateSequences` | crates/stickleback/src/causal.rs:388-402 | Reports a fork exactly when two different operations share author, log and sequence number, and names the first position where that shows |
| `CausalProjection.IndexEntries` | crates/stickleback/src/causal.rs:172-177 | Gives an index exactly when no operation id repeats, and then it finds every entry |
| `CausalProjection.LinkSlots` | crates/stickleback/src/causal.rs:179-191 | Each slot's dependents are exactly the slots that name it, and its gaps exactly the absent ids it names |
| `CausalProjection.SpreadRoots` | crates/stickleback/src/causal.rs:193-209 | The worklist ends, and every slot then holds exactly the absent ids its history reaches |
| `Worklist.SpreadItems` | crates/stickleback/src/causal.rs:200-209 | The propagation loop reaches the least closed assignment on any graph, cyclic ones included, and terminates |
| `CausalProjection.CountDependencies` | crates/stickleback/src/causal.rs:212-225 | A complete slot's count is the number of its dependencies, all of them complete |
| `ReadyQueue.Place` | crates/stickleback/src/causal.rs:238-246 | Placing one operation keeps every count equal to the dependencies still unplaced and readies exactly those it was the last wait of |
| `CausalProjection.Sort` | crates/stickleback/src/causal.rs:234-247 | The ready-set loop produces the greedy least-key order of the complete operations |
| `CausalProjection.ReportPending` | crates/stickleback/src/causal.rs:253-267 | The blocked operations in key order, each with the absent ids it reaches |
| `CausalGraph.MissingRootsExactly` | crates/stickleback/src/causal.rs:193-209 | An id is a missing root of an operation exactly when it is absent and a dependency walk reaches it |
| `CausalGraph.ClosedIsComplete` | crates/stickleback/src/causal.rs:211 | Completeness is the largest set of operations closed under dependencies |
| `CausalGraph.CompleteGrows` | crates/stickleback/src/causal.rs:165-166 | More history never blocks an operation that was complete |
| `CausalOrder.GreedyTopological` | crates/stickleback/src/causal.rs:234-247 | Every placed operation comes after all its dependencies |
| `CausalOrder.GreedyLeastFirst` | crates/stickleback/src/causal.rs:227-247 | Among operations that could come next, the one with the least author, log, sequence and id comes first |
| `CausalOrder.GreedyUnique` | crates/stickleback/src/causal.rs:234-247 | Any listing with those two properties is the greedy one |
| `CausalOrder.GreedyTotalIffAcyclic` | crates/stickleback/src/causal.rs:248-251 | The sort places everything exactly when there is no cycle |
| `CausalOrder.StuckHasCycle` | crates/stickleback/src/causal.rs:248-251 | When the sort stops short, a cycle exists |
| `CausalOrder.CanonicalOrderUnique` | crates/stickleback/src/causal.rs:162-166 | The deterministic legal order exists exactly without cycles and is the only one |
| `CausalOrder.GreedyStable` | crates/stickleback/src/causal.rs:234-247 | The order over more operations, read at a dependency-closed part, is that part's own order |
| `CausalOrder.ReachedComesEarlier` | crates/stickleback/src/causal.rs:234-247 | Between placed operations, being reached by dependencies means coming earlier |
| `CausalTheorems.ProjectionIgnoresArrangement` | crates/stickleback/src/causal.rs:227-272 | Any rearrangement of the entries gives the same ids in the same order and the same report, or fails for the same reason |
| `CausalTheorems.LateHistoryOnlyInserts` | crates/stickleback/src/causal.rs:162-273 | When a slice and a larger one both project, the old order is a subsequence of the new and nothing projected becomes pending |
| `CausalTheorems.PendingNamesWhatIsMissing` | crates/stickleback/src/causal.rs:253-267 | Pending are exactly the operations that reach something absent, each naming exactly what it reaches |
| `CausalTheorems.HistoryIsWhatIsNamed` | crates/stickleback/src/causal.rs:77-82 | History is exactly what entries name as backlink or parent, and what the entries so named have as theirs |
| `CausalTheorems.NamedIsMissingOrEarlier` | crates/stickleback/src/causal.rs:179-267 | Whatever a backlink or a parent names is history; if it is absent the entry is pending and names it, and an entry that is placed has it at an earlier place |
| `CausalTheorems.PlacedOrPending` | crates/stickleback/src/causal.rs:253-267 | Every entry is placed or pending, and none is both |
| `CausalTheorems.KeyIsLexicographic` | crates/stickleback/src/causal.rs:375-386 | Keys compare as the list of author, log, sequence number and id |
| `CausalTheorems.HappensBefore` | crates/stickleback/src/causal.rs:343-360 | The search ends on every input and answers yes exactly when `earlier` is in the transitive closure of `later`'s dependencies |
| `CausalTheorems.HappensBeforeIsPrecedence` | crates/stickleback/src/causal.rs:343-360 | For two projected operations, yes means coming earlier in the order |
| `Pool.StepKeepsAwaited` | crates/armillary/src/pool.rs:79-117 | Every step keeps the idle count exact and queued jobs covered by notifies and arriving workers while anyone sleeps |
| `Pool.StepKeepsConserved` | crates/armillary/src/pool.rs:79-117 | Every step keeps each submitted job queued, on a worker, or finished |
| `Pool.RunsKeepInvariants` | crates/armillary/src/pool.rs:79-117 | Both hold in every reachable state of every interleaving |
| `PoolTheorems.JobsStartInOrder` | crates/armillary/src/pool.rs:98-117 | Jobs start in submission order, each once, none lost |
| `PoolTheorems.StartedOnlyGrows` | crates/armillary/src/pool.rs:98-117 | What had started earlier is a prefix of what has started |
| `PoolTheorems.NoLostWakeup` | crates/armillary/src/pool.rs:79-117 | While any worker sleeps un-notified, queued jobs do not outnumber pending notifies plus woken, starting and returning workers; a non-empty queue always has someone to take from it |
| `PoolTheorems.HeadStartsUnlessAllBusy` | crates/armillary/src/pool.rs:98-117 | The head of the queue can start without any job ending exactly when some worker is not running one |
| `PoolTheorems.StepStrands` | crates/armillary/src/pool.rs:79-90 | A step first strands a job exactly when it is a submit that neither grew the pool nor found a free worker for each queued job |
| `PoolTheorems.NeverStrandsIffProvided` | crates/armillary/src/pool.rs:20-23 | A run never strands a job exactly when every submit in it was so provided |
| `PoolTheorems.StrandedRun` | crates/armillary/src/pool.rs:20-23 | A concrete run of submits and wakes after which a job waits behind the only, busy worker |
| `PoolTheorems.ThreadsExceedPeak` | crates/armillary/src/pool.rs:15-19 | For every n, a run with one job outstanding at a time that ends with n threads |
| `PoolTheorems.GrowthIsOutstanding` | crates/armillary/src/pool.rs:79-90 | A submit that grows the pool leaves at most one worker per outstanding job exactly when no more workers are starting or returning than jobs are queued; no other step adds a worker |
| `PoolTheorems.StepWithinPeak` | crates/armillary/src/pool.rs:79-90 | From a moment within the peak, a step leaves the threads within the peak of outstanding jobs exactly when it does not grow the pool, is settled in that sense, or the peak so far already exceeds the threads |
| `PoolTheorems.WithinPeakIffJustified` | crates/armillary/src/pool.rs:15-19 | Over a whole run, threads never exceed the peak of outstanding jobs exactly when every step of it is so justified |
| `Segments.PathCoversIsListPrefix` | crates/dramatis/personae/src/delegation.rs:414-419 | On joined slash-free segments the boundary test is list prefix |
| `Segments.PathCoversTransitive` | crates/dramatis/personae/src/delegation.rs:414-419 | Path coverage composes |
| `DelegationTrails.PrefixMeans` | crates/dramatis/personae/src/delegation.rs:414-419 | A path is covered exactly when it is the prefix itself or goes on from it with a slash |
| `Capability.CoverageIsPartialOrder` | crates/capability/src/lib.rs:220-229 | Coverage is reflexive, transitive and antisymmetric |
| `Capability.ParseParts` | crates/capability/src/lib.rs:69-86 | The segment loop accepts exactly the texts without a faulty segment, forgiving one trailing separator, and reports the first fault |
| `Capability.PartsRoundTrip` | crates/capability/src/lib.rs:104-106 | A list survives being joined and parsed exactly when no part is faulty or holds the separator |
| `Capability.WireRoundTrip` | crates/capability/src/lib.rs:200-218 | The wire form parses back to the capability exactly when the capability is well formed |
| `Capability.ParsedIsWellFormed` | crates/capability/src/lib.rs:200-209 | Everything the parser accepts is well formed |
| `Capability.ScopeTexts` | crates/capability/src/lib.rs:69-86 | A scope text, one trailing slash aside, is accepted exactly when it is empty or no part of it is empty, a dot or two dots, and then gives its parts |
| `Capability.FacetTexts` | crates/capability/src/lib.rs:120-133 | The same of facet texts and one trailing dot, where only an empty part is a fault |
| `Capability.UntaggedIsScope` | crates/capability/src/lib.rs:200-209 | A text without a tag is read as a scope; an unknown tag is an error that names it, unless a slash comes before the colon |
| `Capability.WireForms` | crates/capability/src/lib.rs:211-218 | The written forms, letter by letter |
| `CapabilityPath.EncodeInjective` | crates/servitor/src/delegation.rs:72-80 | Percent-encoding keeps segments apart |
| `CapabilityPath.EncodeSlashFree` | crates/servitor/src/delegation.rs:72-80 | An encoded segment holds no slash |
| `CapabilityPath.EncodeMeans` | crates/servitor/src/delegation.rs:72-80 | Encoding goes character by character and changes only the percent sign and the slash |
| `CapabilityPath.PathForms` | crates/servitor/src/delegation.rs:82-133 | The paths and the action sets, letter by letter; the empty scope and the empty facet are their bare tags |
| `CapabilityPath.PathIsOrderEmbedding` | crates/servitor/src/delegation.rs:82-108 | One encoded path covers another at a slash boundary exactly when the typed capability covers, whatever characters the segments hold |
| `CapabilityPath.PathIsInjective` | crates/servitor/src/delegation.rs:82-108 | No two capabilities share a path |
| `CapabilityPath.ActionsAreModeOrder` | crates/servitor/src/delegation.rs:112-133 | Holding an action, and including a set of actions, are both the mode order |
| `Delegation.AttenuationNarrows` | crates/dramatis/personae/src/delegation.rs:147-158 | A certificate that attenuates its parent never allows what the parent does not, at any time |
| `Delegation.AuthorityNeverGrows` | crates/servitor/src/delegation.rs:263-308 | Whatever a verified certificate covers, the root certificate its chain ends in covers, and the chain is no longer than that root allows |
| `Delegation.CoveredByARoot` | crates/servitor/src/delegation.rs:310-318 | If the table covers a need, a held certificate of the subject verifies and covers it, and the certificate its chain ends in is held, authentic and unrevoked, names this table's root and covers the need |
| `Delegation.AnswersComeFromTheRootIff` | crates/servitor/src/delegation.rs:283-308 | Every yes of the table traces to a root certificate the root itself issued exactly when every held, authentic, unrevoked certificate that names the root and covers anything was issued by the root |
| `Delegation.AnotherIssuerExample` | crates/servitor/src/delegation.rs:283-292 | A table with one certificate, self-issued by a stranger, that covers the root scope at the highest mode |
| `Delegation.ChainKeepsDomain` | crates/servitor/src/delegation.rs:263-308 | Along a verified chain domain and resource stay those of its root certificate |
| `Delegation.AnswersForDenizensIff` | crates/servitor/src/delegation.rs:60-62 | The table answers by denizen certificates only exactly when every held, authentic, unrevoked certificate that names the root and covers anything has their domain |
| `Delegation.AnotherDomainExample` | crates/servitor/src/delegation.rs:310-318 | A table with one certificate of any other domain, issued by the root itself, that covers the whole scope at the highest mode |
| `Delegation.HeldChainsDoNotLoop` | crates/servitor/src/delegation.rs:268-308 | The walk for a held certificate never meets itself, for any table |
| `Delegation.RevocationIsExact` | crates/servitor/src/delegation.rs:228-230 | Revoking ids disables exactly the certificates with one of them on their ancestor path; every other answer, error included, is unchanged |
| `Delegation.RootIsAncestor` | crates/servitor/src/delegation.rs:268-308 | The ids a verified chain walks through include its root's |
| `DelegationTrails.LinkMeans` | crates/dramatis/personae/src/delegation.rs:147-158 | A link is good exactly when both certificates are sound, the child names the parent, was issued by its subject, and is narrower in scope, actions, validity and depth |
| `DelegationTrails.VerdictIffTrail` | crates/servitor/src/delegation.rs:263-308 | The verdict on any certificate, error included, is exactly the one an explicit trail of authentic, unrevoked, unrepeated certificates ends with |
| `DelegationTrails.VerifiesIffChain` | crates/servitor/src/delegation.rs:263-308 | A held certificate verifies exactly when a chain leads from it to the root: each certificate authentic and unrevoked, each the child of the next, which is held and attenuated, the last naming this table's root |
| `DelegationTrails.TableCoversIffChain` | crates/servitor/src/delegation.rs:310-318 | The table says yes exactly when a held certificate names the subject, its fields allow the path and the action at this time, and it has such a chain |
| `Authority.CertificateAnswersAsGrant` | crates/servitor/src/delegation.rs:335-357 | A root certificate answers as the grant it was issued for, except at the instant that grant expires |
| `Authority.GrantsInTable` | crates/servitor/src/grant.rs:142-148 | What a mirrored grant covers, the certificate table covers |
| `Authority.TableInGrants` | crates/servitor/src/delegation.rs:310-318 | What the certificate table covers, a grant covers unless it stands alone at its bound |
| `Authority.TableAnswersAsGrants` | crates/servitor/src/grant.rs:60-75 | The table of root certificates answers every question as the grant table exactly when no grant stands alone at its expiry instant |
| `Authority.BoundIsWhereTheyDiffer` | crates/servitor/src/grant.rs:60-64 | At the expiry instant the two disagree about the very capability granted |
| `Authority.MirroredAnswersAreTheRoots` | crates/servitor/src/delegation.rs:137-144 | A table of the root certificates issued for grants answers by denizen certificates only, and every answer traces to one the root itself issued |
| `Authority.DelegationTable.VerifyInner` | crates/servitor/src/delegation.rs:268-308 | The recursive walk with its seen set terminates and returns the specified verdict, error included: the one the certificate's trail ends with (`DelegationTrails.VerdictIffTrail`) |
| `Authority.DelegationTable.CoversNeed` | crates/servitor/src/delegation.rs:310-318 | Yes exactly when some held certificate for the subject covers the need and its chain verifies |
| `Authority.DelegationTable.Adopt` | crates/servitor/src/delegation.rs:212-214 | Files the certificate under its own id and changes nothing else |
| `Authority.DelegationTable.Revoke` | crates/servitor/src/delegation.rs:228-230 | Adds one id to the revoked set and says whether it was new |
| `Authority.DelegationTable.RevokeRootGrants` | crates/servitor/src/delegation.rs:241-258 | Revokes exactly the root certificates issued to the subject and counts those not yet revoked |
| `Authority.UninstallCascades` | crates/servitor/src/delegation.rs:241-258 | After that, no held certificate whose chain ends in a root certificate for the subject verifies |
| `Authority.UninstallIsExact` | crates/servitor/src/delegation.rs:241-258 | And no other stops verifying: a verified certificate survives exactly when its chain ends in a root certificate for someone else |
| `Watch.MatchedExactly` | crates/servitor/src/watch.rs:122-129 | A position is reported exactly when it lies past the cursor, is covered by the watched scope and is not self-authored |
| `Watch.AdvancedIsPast` | crates/servitor/src/watch.rs:255-279 | A watch advanced past entries is never woken by them again |
| `Watch.DeliveredExactlyOnce` | crates/servitor/src/watch.rs:255-279 | However an increasing journal is cut into drains, the reports concatenate to exactly the matching entries past the starting cursor, each once and in order |
| `Watch.TableDeliversExactlyOnce` | crates/servitor/src/watch.rs:255-279 | The same of a whole table for any subject: over all drains, the positions its wakes report are, with multiplicity, exactly the entries past each of its watches' starting cursors that the watch matches |
| `Watch.WakesOfSubject` | crates/servitor/src/watch.rs:255-279 | Grouping by subject keeps one subject's wakes in the order its watches were registered |
| `Watch.ReportIsMatched` | crates/servitor/src/watch.rs:255-279 | A watch is woken exactly when it matches something, once, with its matches as they stand |
| `Watch.MatchedIncreasing` | crates/servitor/src/watch.rs:255-279 | Reports over an increasing journal are strictly increasing |
| `Watch.ReportAscends` | crates/servitor/src/watch.rs:255-279 | Whatever order the journal comes in, a report names the watch's subject and holds exactly its matches in ascending order |
| `Watch.BySubjectKeeps` | crates/servitor/src/watch.rs:255-279 | Wakes are sorted by subject and none is lost or added |
| `Watch.WakesNameTheWoken` | crates/servitor/src/watch.rs:287-297 | The subjects a drain wakes are exactly those the preview names |
| `Cascade.WatchTable.Register` | crates/servitor/src/watch.rs:203-223 | A watch is accepted exactly when its subject may read what it watches, and a refusal changes nothing |
| `Cascade.WatchTable.RemoveSubject` | crates/servitor/src/watch.rs:232-234 | Exactly the subject's watches go; the others keep their order |
| `Cascade.RemovalSilences` | crates/servitor/src/watch.rs:232-234 | A removed subject is never woken again, and every other is told exactly what it would have been |
| `Cascade.WatchTable.WakeAll` | crates/servitor/src/watch.rs:255-279 | Every cursor moves past the entries and the wakes are those of the old cursors, in subject order |
| `Cascade.WatchTable.WouldWake` | crates/servitor/src/watch.rs:287-297 | Names exactly the subjects with a watch some entry matches, and consumes nothing |
| `Cascade.RunCascade` | crates/servitor/src/cascade.rs:176-213 | For any runner: at most the budget of rounds, each waking somebody; settled means that what the last round left, or the entries if there was none, woke nobody, and the cursors stand past it unless the budget ran out just then; exhaustion names exactly who the next drain wakes and leaves the cursors for it; repeating the entries runs no round |
| `Cascade.NeverWokenTwice` | crates/servitor/src/cascade.rs:176-213 | Across the rounds of a cascade no watch is woken twice for one sequence number |
| `Cascade.QuietIffNobodyWoken` | crates/servitor/src/cascade.rs:188-213 | A drain is empty exactly when the preview is |
| `Cascade.CursorsRise` | crates/servitor/src/watch.rs:255-279 | Cursors never move back over the rounds of a cascade |
| `Deadband.AbsoluteChange` | crates/servitor/src/deadband.rs:364-367 | The change is the exact distance for every pair of 64-bit outputs; the clamp never bites |
| `Deadband.DeadbandTable.Register` | crates/servitor/src/deadband.rs:183-200 | The same declaration keeps its baseline, a changed one clears it, a new one is appended |
| `Deadband.DeadbandTable.RemoveSubject` | crates/servitor/src/deadband.rs:203-205 | Exactly the subject's entry goes |
| `Deadband.DeadbandTable.Check` | crates/servitor/src/deadband.rs:224-267 | Admits exactly when both dimensions clear the baseline, names each that failed, and moves nothing |
| `Deadband.DeadbandTable.Record` | crates/servitor/src/deadband.rs:271-285 | Moves the baseline only while the admitted declaration still stands |
| `Deadband.AdmittedIff` | crates/servitor/src/deadband.rs:224-267 | An actuation is admitted exactly when its subject has no declaration, or nothing accepted yet, or output and instant both lie the declared distance from the last accepted |
| `Deadband.RegisteredMeans` | crates/servitor/src/deadband.rs:183-200 | Registering, by the entries there after it: the declaration stands as given, its baseline is kept if the same one stood and is cleared otherwise, and nobody else's entry moves |
| `Deadband.RecordedMeans` | crates/servitor/src/deadband.rs:271-285 | Recording moves the subject's baseline and nothing else; removing takes the subject's entry and nothing else |
| `Deadband.CallKeeps` | crates/servitor/src/deadband.rs:183-285 | One entry per subject in every state, and a call that is not accepted moves no baseline |
| `Deadband.EntryAfter` | crates/servitor/src/deadband.rs:183-285 | What each call does to the entry of a subject whose declaration stands |
| `Deadband.AcceptedAreSpaced` | crates/servitor/src/deadband.rs:224-285 | Over any run of accepted and refused petitions, failed commits, backward clocks and restarts, consecutive accepted outputs differ by the minimum change and lie the minimum interval apart |
| `Deadband.WindowBound` | crates/servitor/src/deadband.rs:224-267 | A spaced sequence has at most T divided by the interval, plus one, outputs in any window of length T |
| `Deadband.RateBound` | crates/servitor/src/deadband.rs:224-285 | That bound for every run from every table |
| `Deadband.SortEntriesSorts` | crates/servitor/src/deadband.rs:300-302 | The sort before writing keeps the entries and orders them by subject |
| `DeadbandWire.LineRoundTrip` | crates/servitor/src/deadband.rs:303-320 | A written line reads back as its entry, negative outputs and unset baselines included |
| `DeadbandWire.LineForm` | crates/servitor/src/deadband.rs:303-320 | The line, field by field, with two dashes where there is no baseline |
| `DeadbandWire.NumbersRoundTrip` | crates/servitor/src/deadband.rs:333-352 | Every 64-bit number, signed or not, survives being printed and parsed |
| `DeadbandWire.FromWireLines` | crates/servitor/src/deadband.rs:327-361 | The loading loop skips blank lines, fails whole on one malformed or repeated line, and never yields a subject twice |
| `DeadbandWire.MalformedLineFailsAll` | crates/servitor/src/deadband.rs:324-361 | One malformed line anywhere fails the whole load |
| `DeadbandWire.RestartIsRoundTrip` | crates/servitor/src/deadband.rs:300-361 | Writing and reading a table returns the same entries, sorted: the restart step of the runs above |
| `Gate.ValidatePetition` | crates/servitor/src/gate.rs:334-391 | The checks in their order of precedence, each error naming the first offender |
| `Gate.VerdictIsPermission` | crates/servitor/src/gate.rs:334-391 | No error exactly when authority covers the claimed scope, no touched node is a projection, every touched node parses as a scope inside the claim, and every touched facet is covered |
| `Gate.PassesIff` | crates/servitor/src/gate.rs:164-186 | The same on the edits themselves: which nodes and facet each kind of edit names, both ends of a connection included, and that each lies in the claim and is granted |
| `Gate.VerdictPrecedence` | crates/servitor/src/gate.rs:341-389 | Which error is returned, exactly: a touched projection outranks missing authority, which outranks a node outside the claim, which outranks a facet not held; the node or facet named is one that fails |
| `Gate.Petition` | crates/servitor/src/gate.rs:297-312 | Accepted exactly when permitted and the revision-checked commit lands; otherwise the log is unchanged |
| `Gate.PetitionBehavior` | crates/servitor/src/gate.rs:315-332 | Accepted exactly when permitted, admitted by the deadband and committed; any refusal changes neither log nor baseline, which makes it a step of the deadband runs |
| `Gate.PermittedStaysInGrants` | crates/servitor/src/gate.rs:334-391 | Under the grant table, every node and facet a permitted petition touches is covered at write mode by an unexpired grant of the subject, and none is a grant projection |
| `Drop.WritePlainDrop` | crates/stickleback/src/drop.rs:253-313 | The writer's loops produce the specified drop, or the first limit exceeded in the order they are enforced |
| `Drop.ManifestFor` | crates/stickleback/src/drop.rs:223-239 | One entry per record, in order, with kind, criticality, digest and length |
| `Drop.BodyLength` | crates/stickleback/src/drop.rs:269-281 | The checked sum is the exact body length or reports overflow |
| `Drop.FramesLenExact` | crates/stickleback/src/drop.rs:269-281 | The length computed from the manifest is the length of the frames written |
| `Drop.VisitPlainDrop` | crates/stickleback/src/drop.rs:385-501 | The visiting loop returns the specified report or error and delivers the specified records, also when it fails part way; what is accepted is exactly the well-laid (`DropLayout.AcceptedIffWellLaid`) |
| `DropLayout.AcceptedIffWellLaid` | crates/stickleback/src/drop.rs:385-501 | The reader accepts exactly the inputs that begin with a well-laid drop: the magic, version 1 and no suite in the cover, the length and the digest of the body in it, a manifest and frames that agree in kind, criticality, length and digest, all within the limits; it then delivers the records of that layout and counts the frames skipped |
| `DropLayout.FalseDigestMeans` | crates/stickleback/src/drop.rs:492-494 | `FalseBodyDigest` exactly when the body is there, its hash is not the cover's, and with the right digest it would be accepted |
| `DropLayout.InterpretMeans` | crates/stickleback/src/drop.rs:470-486 | A frame gives a record exactly when its bytes are the encoding of one of the entry's kind and criticality, and is skipped exactly when its kind is unknown and not critical; any other is an error |
| `Drop.FieldsRoundTrip` | crates/stickleback/src/drop.rs:372-378 | Two- and eight-byte little-endian fields read back |
| `DropTheorems.PlainRoundTrip` | crates/stickleback/src/drop.rs:253-501 | Every written drop, read under the same limits, gives the same records, order and identifier, and is as long as its receipt says |
| `DropTheorems.WrittenIffWithinLimits` | crates/stickleback/src/drop.rs:258-282 | A drop is written exactly when record count, every record, the manifest and the body are within the limits |
| `DropTheorems.PrefixesAreTruncated` | crates/stickleback/src/drop.rs:349-370 | Of any accepted input: every strict prefix of the drop fails as `Truncated`, and bytes after it change nothing |
| `DropTheorems.IdPinsRecords` | crates/stickleback/src/drop.rs:125-130 | Two accepted inputs with equal identifiers deliver equal reports and record lists, under any limits, unless the hash collides on bytes they contain |
| `DropTheorems.ProtectedIdPinsRecords` | crates/stickleback/src/drop.rs:520-575 | The same of two private drops, under any suites and limits, unless the hash collides on bytes of what they recover to |
| `DropTheorems.PlainAndProtectedIdPinsRecords` | crates/stickleback/src/drop.rs:520-575 | And of a private drop against a plain one |
| `DropTheorems.HeaderRoundTrip` | crates/stickleback/src/drop.rs:241-247 | A written frame header matches its manifest entry |
| `DropTheorems.ProtectedRoundTrip` | crates/stickleback/src/drop.rs:316-575 | Through a lawful suite a private drop reads back as the same records, with the identifier of the plain drop |
| `DropLayout.PrivateAcceptedIffLaid` | crates/stickleback/src/drop.rs:520-575 | A private drop is accepted exactly when, under its cover and the digest it carries, the suite named there recovers a well-laid body, and then it delivers the records of that layout |
| `DropTheorems.ProtectedPrefixesAreTruncated` | crates/stickleback/src/drop.rs:520-575 | A private drop cut short fails as `Truncated` before the suite or the visitor sees anything |
| `Chunks.AssembleChunks` | crates/stickleback/src/drop_io.rs:817-851 | The loop joins the sorted chunks, or names the first offset that does not continue the last, or a digest mismatch |
| `Chunks.SortSorts` | crates/stickleback/src/drop_io.rs:822 | The stable sort orders by offset and loses no chunk |
| `Chunks.AssembledMeans` | crates/stickleback/src/drop_io.rs:823-850 | What is assembled hashes to the digest and holds every chunk at its offset, with no other bytes |
| `Chunks.AssembledIff` | crates/stickleback/src/drop_io.rs:817-851 | Chunks are joined exactly when, in offset order, they leave no gap and do not overflow, and what they make has the digest |
| `Chunks.OrderIsImmaterialIffNoTie` | crates/stickleback/src/drop_io.rs:817-851 | Every arrangement of accepted chunks gives the same bytes exactly when no empty chunk lies at the offset of a non-empty one |
| `Chunks.EmptyChunkExample` | crates/stickleback/src/drop_io.rs:822-833 | Two chunks accepted in one order and refused in the other |
| `Chunks.ShuffledPiecesReassemble` | crates/stickleback/src/drop_io.rs:817-851 | Any bytes cut into non-empty pieces come back whatever order the pieces arrive in |
| `StagedImport.Importer.ImportRecords` | crates/stickleback/src/drop_io.rs:625-752 | Receipt hit, refusal before staging, rejection or failed batch after it, or commit: the exact new store and answer of each, the store after a commit being what the effects say (`ImportRuns.CommitIsItsEffects`) |
| `StagedImport.Importer.StageRecords` | crates/stickleback/src/drop_io.rs:853-882 | One batch replaces any old stage by the count and exactly these records |
| `StagedImport.Importer.DiscardStaged` | crates/stickleback/src/drop_io.rs:604-620 | One batch removes exactly the drop's stage |
| `StagedImport.Importer.Resume` | crates/stickleback/src/drop_io.rs:553-601 | Reads the stage under the limits and imports it, with each way it can fail leaving the store alone |
| `StagedImport.CommitLands` | crates/stickleback/src/drop_io.rs:727-743 | The closing batch on a staged store leaves the effects, the receipt and no stage |
| `ImportRuns.RunsKeep` | crates/stickleback/src/drop_io.rs:553-752 | Over every run of imports, resumes, discards and failed batches: no drop has both a receipt and a stage, and every stage is whole |
| `ImportRuns.EmptyIsValid` | crates/stickleback/src/drop_io.rs:625-752 | Those runs may start from an empty store |
| `ImportRuns.StageReadsBack` | crates/stickleback/src/drop_io.rs:561-599 | A stage reads back as the records last staged under its id, exactly when they are within the limits |
| `ImportRuns.StageReadIff` | crates/stickleback/src/drop_io.rs:563-599 | In any store a stage reads as given records exactly when its head names the drop and their number, that number is allowed, and each record stands under its index, within the limit and readable |
| `ImportRuns.ResumeIsReimport` | crates/stickleback/src/drop_io.rs:553-601 | Resuming equals importing those records again, in store and answer; otherwise it changes nothing |
| `ImportRuns.OthersUntouched` | crates/stickleback/src/drop_io.rs:625-752 | An import changes nothing kept about another drop |
| `ImportRuns.ImportEffects` | crates/stickleback/src/drop_io.rs:727-743 | Receipts never change, and live data moves only together with a new receipt |
| `ImportRuns.EffectsLandOnce` | crates/stickleback/src/drop_io.rs:636-648 | Once a drop has moved live data, no later import or resume of it moves any, whatever happens in between |
| `ImportRuns.CommitIsItsEffects` | crates/stickleback/src/drop_io.rs:727-743 | After an import that commits, each live name is what the last effect naming it says, its bytes or absent, and one that none names is untouched; the receipt and the report say what was admitted, the stage is gone and nothing else moved |
| `ImportRuns.OtherwiseLiveStays` | crates/stickleback/src/drop_io.rs:625-752 | Any other import leaves every live name as it was; a failure leaves the store as it was, or the whole stage in it once it was written |
| `ImportRuns.ImportFailsFor` | crates/stickleback/src/drop_io.rs:625-752 | Which error an import ends with, exactly |
| `ImportRuns.DomainSeesLive` | crates/stickleback/src/drop_io.rs:660-695 | What admission and effects are decided on holds every live name, and no receipt and no stage |
| `ImportRuns.CommittedForGood` | crates/stickleback/src/drop_io.rs:636-648 | Once an import has committed, every later one of that drop, whatever came between, repeats the committed counts and leaves live data alone |
| `ImportRuns.ReceiptedImport` | crates/stickleback/src/drop_io.rs:636-648 | Importing a receipted drop leaves the whole store as it is and reports the receipt |
| `Epochs.DataKeyring.Install` | crates/stickleback/src/group_crypto.rs:111-119 | A new epoch joins the chronology once; the chronology keeps recording exactly the present epochs |
| `Epochs.DataKeyring.ForgetAuthorized` | crates/stickleback/src/group_crypto.rs:211-219 | Removes one epoch from secrets and chronology and says whether it was there |
| `Epochs.DataKeyring.ForgetAll` | crates/moot/commons/src/chat.rs:1204-1209 | Carrying out a list succeeds exactly when it repeats nothing and every epoch on it is present |
| `Epochs.ChronicledOrder` | crates/stickleback/src/group_crypto.rs:161-173 | For a keyring built by its operations the order is known exactly when the newest install is the current epoch |
| `EpochPruning.ProposeEpochPruning` | crates/stickleback/src/epoch_retention.rs:111-207 | The loops produce the specified proposal: blockers, retained epochs with all their reasons, and the list to forget |
| `EpochPruning.BlockersExactly` | crates/stickleback/src/epoch_retention.rs:116-151 | There are no blockers exactly when every gate passes and every hold names a present epoch |
| `EpochPruning.BlockerMeans` | crates/stickleback/src/epoch_retention.rs:116-151 | Each of the seven blockers is reported exactly when what it names is so |
| `EpochPruning.ForgetExactly` | crates/stickleback/src/epoch_retention.rs:163-196 | An epoch is listed exactly when nothing blocks, it is not current, no hold names it and it is older than the newest `retained` |
| `EpochPruning.ReasonsExactly` | crates/stickleback/src/epoch_retention.rs:173-186 | A retained epoch is given all the reasons that apply and no others |
| `EpochPruning.RetainedWithReasons` | crates/stickleback/src/epoch_retention.rs:173-207 | An epoch is listed as retained with exactly its reasons, and the proposal names the checkpoint it was computed from |
| `EpochPruning.HoldsOnlySave` | crates/stickleback/src/epoch_retention.rs:153-196 | Adding holds only ever takes epochs off the list |
| `EpochPruning.ProposalSplitsTheOrder` | crates/stickleback/src/epoch_retention.rs:173-196 | Retained and forgotten together are the order the proposal was computed from |
| `EpochPruning.ChronicledDecidedOnce` | crates/stickleback/src/epoch_retention.rs:173-196 | For keyrings grown by installing and forgetting, every present epoch gets exactly one decision |
| `EpochPruning.DecidedOnceIffDistinct` | crates/stickleback/src/group_crypto.rs:161-173 | For any keyring whose chronology is accepted, that holds exactly when the chronology repeats nothing |
| `EpochPruning.RepeatedEpochExample` | crates/stickleback/src/group_crypto.rs:161-173 | A stored keyring that is accepted and for which it fails |
| `EpochPruning.ForgetIsRemovable` | crates/moot/commons/src/chat.rs:1204-1209 | The proposed list can always be carried out |
| `EpochPruning.ExecutionKeepsChronology` | crates/moot/commons/src/chat.rs:1204-1224 | After carrying it out the current epoch is the same and the order is still known, so the lost-chronology error cannot occur |
| `EpochPruning.PruningIsDone` | crates/stickleback/src/epoch_retention.rs:163-196 | Proposing again with the same facts forgets nothing |
| `GroupObject.GroupMember.RegisterPrekey` | crates/stickleback/src/group_session.rs:464-491 | Works on a validated copy whose engine state is taken out and put back; whatever fails, the session is as it was, and otherwise it is the specified one, validated |
| `GroupObject.GroupMember.TryClone` | crates/stickleback/src/group_session.rs:837-839 | A copy exists exactly when the session validates, is a new object and stands for the same session |
| `GroupObject.GroupMember.Validate` | crates/stickleback/src/group_session.rs:841-874 | Holds exactly when keyring, pre-key bindings and local counter are consistent; equal sizes and one inclusion make digests and roots cover the same recipients |
| `GroupObject.GroupMember.CreateGroup` | crates/stickleback/src/group_session.rs:494-522 | Refused with the first error in order and nothing changed, or the session and the frames the specification gives, without a closing validation |
| `GroupObject.GroupMember.UpdateEpoch` | crates/stickleback/src/group_session.rs:525-536 | The same for a rotation |
| `GroupObject.GroupMember.AddMember` | crates/stickleback/src/group_session.rs:539-564 | The same for a welcome, which rotates nothing |
| `GroupObject.GroupMember.RemoveMember` | crates/stickleback/src/group_session.rs:567-590 | The same for a removal |
| `GroupObject.GroupMember.FinishLocal` | crates/stickleback/src/group_session.rs:662-692 | The loop gives one direct frame per message under the next own sequence number, addressed to that message's recipient (`GroupDispatch.DirectOpensForItsRecipient`), and the frame is applied at once |
| `GroupObject.GroupMember.ProcessInner` | crates/stickleback/src/group_session.rs:694-791 | Applies the specified frame field by field; a failing engine leaves the object without its state, and an exhausted sequence leaves the keyring installed and the counters behind |
| `GroupObject.GroupMember.Process` | crates/stickleback/src/group_session.rs:597-608 | Through that, the session is the specified one or, on any error, exactly as it was, and the reported epochs are those learned |
| `GroupDispatch.PassesIff` | crates/stickleback/src/group_session.rs:694-763 | A frame is refused by none of the checks exactly when it is of this version and group, its author is registered under the root that authenticated it, its number is next or it adds this member, and a direct half comes with it exactly when it owes one, which opens here |
| `GroupDispatch.AcceptedFrame` | crates/stickleback/src/group_session.rs:764-791 | What an accepted frame leaves in every field: the engine's new state, its secrets installed, the new membership, the author's counter one past the frame, and all else as it was |
| `GroupDispatch.LocallyIff` | crates/stickleback/src/group_session.rs:494-590 | A local operation is done exactly when its preconditions on members and pre-keys hold, the keyring is valid, the engine takes both its halves and a number is left |
| `GroupDispatch.LocalFollows` | crates/stickleback/src/group_session.rs:662-692 | What it leaves in every field is its own frame applied to the rotated keyring |
| `GroupDispatch.DispatchIs` | crates/stickleback/src/group_session.rs:662-692 | What is sent: the action under the next own number, and one direct half per message composed |
| `GroupDispatch.DirectOpensForItsRecipient` | crates/stickleback/src/group_session.rs:677-688 | For every session of the group whose engine reads what the sender's writes: a direct half decodes to its own message exactly at the member that message is for |
| `GroupDispatch.DispatchPassesIff` | crates/stickleback/src/group_session.rs:694-763 | What one session sends passes another's checks exactly when that one is of the same group, knows the sender by its root, is next to hear from it, and was composed a message exactly if it is owed one |
| `GroupDispatch.RegistersIff` | crates/stickleback/src/group_session.rs:464-491 | A pre-key is taken up exactly when it is of this group and is known already under the same digest, or the session is valid and the engine takes it |
| `GroupDispatch.RegistersBinds` | crates/stickleback/src/group_session.rs:464-491 | And then it is bound to its root, and no other binding, member, epoch or counter has moved |
| `GroupDispatch.ValidatesIff` | crates/stickleback/src/group_session.rs:841-874 | A session validates exactly when its keyring is unordered or its chronology fits its secrets and ends with the latest, its own pre-key is bound to its own root, digests and roots are of the same recipients, and its two own counters agree |
| `Epochs.DataKeyring.InstallBundle` | crates/stickleback/src/group_crypto.rs:121-133 | The loop installs a bundle by timestamp and id and reports the epochs that were not there |
| `SessionEpochs.BundleOrderIsNoMatter` | crates/stickleback/src/group_crypto.rs:121-133 | A bundle installs and reports the same whatever order its secrets come in |
| `SessionEpochs.WelcomeReportsOldestFirst` | crates/stickleback/src/group_session.rs:345-350 | The epochs a welcome reports are exactly those of the bundle the keyring lacked, once each, oldest first |
| `SessionEpochs.ReportsEpochs` | crates/stickleback/src/group_session.rs:825-835 | The epochs any frame reports, once each: its one epoch whether new or not, or those of its bundle that were not held |
| `SessionEpochs.InstallAppends` | crates/stickleback/src/group_crypto.rs:111-119 | Whatever is installed, the chronology grows by exactly the new epochs in order and stays exact |
| `SessionEpochs.AcceptedIff` | crates/stickleback/src/group_session.rs:597-608 | A frame is accepted exactly when the keyring is valid, no check refuses it, the engine takes it, its number is not the last 64-bit one and the epochs it brings end with the latest |
| `SessionEpochs.StaleEpochRefused` | crates/stickleback/src/group_crypto.rs:232-250 | With one new epoch, an otherwise good frame is refused as an invalid state unless that epoch is the latest |
| `SessionExamples.FoundedIsReached` | crates/stickleback/src/group_session.rs:494-522 | A new session, two pre-keys registered and the group created: the exact session this leaves, which validates |
| `SessionExamples.SlowClockExample` | crates/stickleback/src/group_crypto.rs:232-250 | There, an update next in sequence from a member with a slower clock passes every check, is taken by the engine, and is refused |
| `SessionStalls.AuthorStalls` | crates/stickleback/src/group_session.rs:746-763 | In every run, whatever else happens in it, nothing is accepted from an author exactly when the frame awaited from it is not, and then its counter stands |
| `SessionStalls.OutdatedAcceptedIff` | crates/stickleback/src/group_session.rs:597-608 | Where the latest is the greatest timestamp: at the end of every run, a frame with just one epoch, older than one held before the run, is accepted exactly when nothing else is wrong and that epoch is held by then |
| `SessionStalls.RefusedForGood` | crates/stickleback/src/group_session.rs:597-608 | At the end of every run in which no step installed the epoch in company, the frame is refused again |
| `SessionStalls.AuthorStallsForGood` | crates/stickleback/src/group_session.rs:746-763 | Over every such run in which the author insists on that frame, no frame of it is accepted and its counter stands |
| `SessionExamples.WelcomeEndsTheStall` | crates/stickleback/src/group_crypto.rs:121-133 | A welcome that brings the missing epoch with a later one is accepted, and after it so is the frame refused before |
| `SessionEpochs.UsableAfterLocalIff` | crates/stickleback/src/group_session.rs:662-692 | After an accepted local operation the session validates exactly when what it installed ends with the latest epoch |
| `SessionExamples.SetBackClockExample` | crates/stickleback/src/group_session.rs:525-536 | From the founded session, with a clock set back, a rotation succeeds and leaves a session that does not validate |
| `SessionEpochs.UnsoundIsStuck` | crates/stickleback/src/group_session.rs:837-839 | A session that does not validate never changes again, in any run |
| `SessionEpochs.RunKeepsChronicle` | crates/stickleback/src/group_crypto.rs:111-133 | In every run the chronology records exactly the epochs present, once each |
| `GroupSession.InnerKeepsBound` | crates/stickleback/src/group_session.rs:694-791 | An applied frame keeps the local counter equal to the own-author counter and the pre-key bindings intact |
| `GroupSession.LocallyKeepsBound` | crates/stickleback/src/group_session.rs:662-692 | So does every local operation, although its result is not validated again |
| `GroupRuns.SequencesConsecutive` | crates/stickleback/src/group_session.rs:746-791 | In every run the frames accepted from one author are consecutive, starting at zero, at the counter, or at the Add that joined this member, and the counter ends one past the last |
| `GroupRuns.NoReplay` | crates/stickleback/src/group_session.rs:746-763 | No control id is accepted twice in a run |
| `GroupRuns.OneRootPerAuthor` | crates/stickleback/src/group_session.rs:464-491 | In every run all frames accepted from one author were authenticated by the same root |
| `GroupRuns.LocalMembers` | crates/stickleback/src/group_session.rs:494-590 | What each local operation does to the members; whoever acts stays a member |
| `GroupRuns.MembersFollowTheLog` | crates/stickleback/src/group_session.rs:287-333 | In every run membership is the fold of the accepted frames |
| `GroupRuns.EntersTheLog` | crates/stickleback/src/group_session.rs:304-312 | A creator or a truthfully welcomed joiner takes up the fold at that frame |
| `GroupRuns.MembersConverge` | crates/stickleback/src/group_session.rs:287-333 | Sessions that followed the same frames have equal member sets |
| `TileTheorems.CollapseKeepsTiles` | crates/cambium/workbench/lib.rs:492-503 | Collapsing loses no tile and keeps document order |
| `TileTheorems.NormalizedSum` | crates/cambium/workbench/lib.rs:618-630 | Renormalised shares sum to 1 whatever they were |
| `TileTheorems.CollapseReachesForm` | crates/cambium/workbench/lib.rs:492-503 | Every tree collapses to one with no single-child split and no empty stack inside a split, shares summing to 1 in every split that has children; a split whose stacks were all empty is left with no child |
| `TileTheorems.CollapseIdempotent` | crates/cambium/workbench/lib.rs:492-503 | A second collapse changes nothing |
| `TileTheorems.CollapseCanonical` | crates/cambium/workbench/lib.rs:492-503 | With at most one stack emptied, collapsing restores canonical shape: two children or more, no empty stack, active tab in range |
| `TileEdits.CollapseKeepsStacks` | crates/cambium/workbench/lib.rs:492-503 | Collapsing keeps every stack that holds something, its tabs and its active tab, in order |
| `TileEdits.NormalizedKeepsProportions` | crates/cambium/workbench/lib.rs:618-630 | Renormalising keeps the children and the proportions of their shares; without a sum to go by all become equal |
| `TileTheorems.RemoveTileTakes` | crates/cambium/workbench/lib.rs:474-488 | Removing takes exactly the first tile with that id and leaves the rest in place |
| `TileEdits.RemovalIsLocal` | crates/cambium/workbench/lib.rs:474-488 | Only one stack that held the tile changes: it loses it and keeps its active index, brought into range |
| `TileEdits.ShownStaysIff` | crates/cambium/workbench/lib.rs:471-488 | When a tab other than the shown one leaves, the shown tile stays shown exactly when it stood before that tab or was the last |
| `TileEdits.ClosingShiftsExample` | crates/cambium/workbench/lib.rs:471-488 | The first of three tabs is closed while the second is shown, and the third is shown after |
| `TileTheorems.SplitAtTilePlaces` | crates/cambium/workbench/lib.rs:585-613 | The new tile lands on the edge's side of its target and nothing else moves |
| `TileEdits.SplitHalves` | crates/cambium/workbench/lib.rs:585-613 | Only the stack that held the target changes: it becomes half of an even split with the new tile, on the axis and side of the edge |
| `TileTheorems.InsertTabPlaces` | crates/cambium/workbench/lib.rs:345-362 | A docked tab lands right after its target and nothing else moves |
| `TileEdits.TabIsShown` | crates/cambium/workbench/lib.rs:345-362 | Only the stack that held the target changes, and the new tab is the one it shows |
| `TileTheorems.DropPlaces` | crates/cambium/workbench/lib.rs:553-582 | A tab drop inserts the tile into the addressed stack and keeps the shape |
| `TileEdits.ReplaceIsOnlyAt` | crates/cambium/workbench/lib.rs:510-532 | Replacing a node at a path changes what is there and nothing beside it |
| `TileEdits.DropIsShown` | crates/cambium/workbench/lib.rs:553-582 | The tab dropped into a stack stands at the place asked for or at the end, and is the one shown |
| `TileEdits.DragMeans` | crates/cambium/workbench/lib.rs:553-582 | A whole drag: when it takes effect, and that it removes the tile, inserts it or splits its target, and collapses, and changes nothing when the tile or the target is not there |
| `TileTheorems.ActivateKeeps` | crates/cambium/workbench/lib.rs:458-469 | Showing a tab moves no tile and keeps the shape |
| `TileEdits.ActivateShows` | crates/cambium/workbench/lib.rs:458-469 | One stack that holds the tile and shows another comes to show it and only that changes, or every stack that holds it shows it already |
| `TileTheorems.SetFractionsKeeps` | crates/cambium/workbench/lib.rs:534-548 | Setting shares moves no tile and keeps the shape |
| `TileEdits.DividerSetsShares` | crates/cambium/workbench/lib.rs:534-548 | Moving a divider sets exactly the shares of the addressed split and says whether they differ; a wrong path or length changes nothing |
| `TileRuns.GestureKeepsStations` | crates/cambium/workbench/lib.rs:442-455 | Every gesture keeps a canonical tree canonical and ids unique; the tiles are the same, or exactly the discarded one is gone |
| `TileRuns.ConservesIffNotDiscarding` | crates/cambium/workbench/lib.rs:553-582 | A gesture conserves the tiles exactly when it does not close a held tile or drop a tile on its own edge |
| `TileRuns.DropOntoItselfLoses` | crates/cambium/workbench/lib.rs:550-577 | A lone tile dropped on its own edge is lost |
| `TileRuns.RunsKeepStations` | crates/cambium/workbench/lib.rs:442-455 | Canonical with unique ids after any run, and no tile that was not there at the start |
| `TileRuns.RunsConserve` | crates/cambium/workbench/lib.rs:442-455 | Over any run without a discarding gesture no tile is lost |
| `Workspace.ConstrainedExtent` | crates/cambium/workbench/float.rs:82-88 | An extent fits the area, reaches its minimum where that fits, does not exceed its maximum beyond that, and is the proportional one whenever that is within bounds |
| `Workspace.Resolve` | crates/cambium/workbench/float.rs:71-80 | A resolved float lies inside the area, and where its proportional corner fits it is there |
| `WorkspaceRuns.RaiseLifts` | crates/cambium/workbench/float.rs:332-352 | A raise leaves orders 1 to n, the raised tile on top, every other tile in its old order |
| `WorkspaceEdits.RaiseChangesOnlyOrder` | crates/cambium/workbench/float.rs:332-352 | A raise changes no float in anything but its stacking order |
| `WorkspaceEdits.RenumberedInOrder` | crates/cambium/workbench/float.rs:347-352 | Renumbering goes by stacking order, and among equals by tile id |
| `WorkspaceRuns.FloatStepKeeps` | crates/cambium/workbench/float.rs:289-308 | Floating a tile moves it between layers and loses nothing |
| `WorkspaceEdits.FloatMeans` | crates/cambium/workbench/float.rs:289-308 | The float comes last and on top, at the rectangle asked for; one that was floating keeps its constraints, pin and visibility, one from the tree starts with none, unpinned and visible |
| `WorkspaceEdits.SettingMeans` | crates/cambium/workbench/float.rs:261-287 | Each of the four settings sets its field of the named float and nothing else in the workspace |
| `WorkspaceRuns.DockStepKeeps` | crates/cambium/workbench/float.rs:310-330 | Docking a float moves it into the tree and loses nothing, whether or not its target exists |
| `WorkspaceEdits.DockMeans` | crates/cambium/workbench/float.rs:310-330 | The float leaves the layer for the place in the tree it was sent to, or nothing happens: which of the two, exactly |
| `WorkspaceRuns.StepKeepsOneStation` | crates/cambium/workbench/float.rs:228-275 | Every event keeps each tile at one station; the tiles are conserved exactly when the event does not discard one |
| `WorkspaceRuns.RunsKeepOneStation` | crates/cambium/workbench/float.rs:228-275 | Over any run each tile stays at exactly one station and none appears from nowhere |
| `WorkspaceRuns.UnchangedMeansUnchanged` | crates/cambium/workbench/float.rs:228-255 | A command reported unchanged or torn out leaves the workspace as it was |
| `WorkspaceEdits.ReportedExactly` | crates/cambium/workbench/float.rs:228-255 | A command is reported applied exactly when it takes effect, as a tear-out exactly when a tile that is there is dropped outside, and as unchanged otherwise |
| `WorkspaceRuns.Host.Apply` | crates/cambium/workbench/float.rs:228-255 | The mutating dispatcher makes the specified step, keeps the station rule and reports its effect |
| `WorkspaceRuns.Host.InsertFloating` | crates/cambium/workbench/float.rs:371-378 | An arriving tile lands on top, and is refused exactly when its id is present |
| `WorkspaceRuns.Host.TakeTile` | crates/cambium/workbench/float.rs:362-367 | Takes a tile from whichever station holds it and keeps the station rule |
| `Crawl.Frontier.Next` | crates/crawl/src/frontier.rs:125-134 | Hands out the head of the queue until the page cap |
| `Crawl.Frontier.Enqueue` | crates/crawl/src/frontier.rs:138-160 | Appends exactly the unseen, in-scope links within the depth and fan-out caps, in order, and counts them |
| `Crawl.Frontier.EnqueueSeeds` | crates/crawl/src/frontier.rs:163-175 | Appends unseen in-scope seeds at depth 1, without the caps |
| `Crawl.NothingCutIffRoom` | crates/crawl/src/frontier.rs:138-160 | The fan-out cap drops no link of a page exactly when its unseen in-scope targets are no more than the room |
| `Crawl.UncutLosesNothing` | crates/crawl/src/frontier.rs:138-160 | Processing a page within the depth cap loses none of its links exactly then |
| `Crawl.EnqueueKeepsBreadth` | crates/crawl/src/frontier.rs:138-160 | The queue stays in depth order spanning at most two levels |
| `Crawl.NextKeepsBreadth` | crates/crawl/src/frontier.rs:125-134 | Taking the head keeps that order |
| `Crawl.NoDeeperThanWalk` | crates/crawl/src/frontier.rs:107-175 | A listed page lies no deeper than any walk of links to it is long |
| `Crawl.DepthIsDistance` | crates/crawl/src/frontier.rs:107-175 | Each page taken carries its exact link distance from the seed |
| `Crawl.RunCrawl` | crates/crawl/src/lib.rs:166-225 | In every run the pages taken are those of the specified run, depths never decrease, no page repeats and at most the cap is taken; where no sitemap seeds it and no page that was processed had more new targets than the fan-out cap, every page carries its shortest distance, and a run that ends by itself has taken everything in reach |
| `CrawlTrace.SubdomainIff` | crates/crawl/src/frontier.rs:253-255 | A host is in the seed's domain exactly when the labels of the seed's host are its last labels |
| `CrawlTrace.AdmitsIff` | crates/crawl/src/frontier.rs:183-193 | A page may be followed exactly when it is a web page on the seed's host, in its domain, or anywhere, as the policy says |
| `CrawlTrace.BeginsWith` | crates/crawl/src/frontier.rs:107-175 | A crawl begins with the seed at depth 0 and, where the policy asks, every page of the sitemap it may follow |
| `CrawlTrace.CrawlIsTraced` | crates/crawl/src/lib.rs:166-225 | Every crawl takes the seed and pages it may follow, keeps the links of exactly the pages it took, was allowed, could fetch and was not called off at, and ends because nothing is queued, the cap is reached or it was called off |

## Left out

- Cryptography and codecs (signatures, DCGKA, AEAD, BLAKE3, CBOR, hexadecimal): parameters, with the laws a proof needs stated.
- `observed_frontier` and `author_head` in crates/stickleback/src/causal.rs: the greatest sequence number of each author and log, which no operation modelled here reads and which does not depend on the dependency graph.
- The operation processor and store behind staged import (crates/stickleback/src/processor.rs): a parameter that admits, rejects or names live writes; only its one-batch commit is modelled.
- Pool.StepKeepsConserved: jobs return. A job that panics unwinds its worker thread (crates/armillary/src/pool.rs:114), which stays counted, and a queued job may then have no worker left; the step system has no such step.
- TileTheorems: the tree edits are functions on tree values, so update in place and borrowing are not captured; the workspace around them is a mutable object.
- TileTheorems.NormalizedSum: over the reals; `f32` rounding, NaN and infinities in shares and rectangles are not modelled.
- Drop.VisitPlainDrop: the visitor callback always succeeds, and I/O errors other than end of input are not modelled; the additions `8 + manifest_len` and `12 + byte_len` are exact, where the code could wrap for limits within twelve of the 64-bit maximum.
- DropTheorems.IdPinsRecords: (with its two private forms) collision-freedom is asked of the slices of the two inputs only, since no 32-byte hash is injective.
- DropLayout.PrivateAcceptedIffLaid: asks that every hash has 32 bytes, as BLAKE3's has.
- GroupDispatch.DirectOpensForItsRecipient: (with the lemma on whole dispatches) asks that the receiving engine decodes what the sending one encodes.
- Gate.ValidatePetition: nothing is claimed about edges, because a disconnect names no node; grant projection and its readers are not modelled.
- GroupRuns.MembersConverge: assumes the engine passes each control message to the membership operations the repository defines and that a welcome tells the truth; liveness of a late joiner towards authors it has not heard from is not claimed.
- GroupRuns.MembersFollowTheLog: asks, as `HonestWelcomes`, that each welcome this session receives tells the membership of that moment; that is the adder's engine, not this session.
- GroupRuns.EntersTheLog: asks the same of the one welcome it speaks of.
- GroupObject.GroupMember.Validate: the ways to fail are one error, `InvalidState`; the encoding of a copy cannot fail, and format versions and the recipient recorded inside the engine state are not modelled.
- GroupObject.GroupMember.RegisterPrekey: the signature checks on a pre-key happen before it.
- GroupObject.GroupMember.ProcessInner: the membership the engine keeps is computed by the repository's own operations (crates/stickleback/src/group_session.rs:287-333), to which the engine is taken to hand every control message.
- SessionStalls.OutdatedAcceptedIff: (with the two lemmas on stalls for good) asks that the latest secret has the greatest timestamp and that an epoch has one timestamp wherever it comes from; both belong to the library, and without the second a later secret could rewrite the timestamp that made the epoch old.
- EpochPruning.ExecutionKeepsChronology: relies on the secret bundle's latest entry not changing when an older one is removed, which belongs to the library.
- Workspace.ConstrainedExtent: over the reals, so that non-finite inputs, which the code reads as zero, do not occur.
- Workspace.Resolve: the same.
- Crawl.RunCrawl: fetching, robots and sitemap parsing, politeness delays and progress reports are parameters or absent.
- Wire forms of watches and grants, `joined_space.rs`, `address_book.rs`, `chirograph`, `robots.rs`, `sitemap.rs`, `tick.rs`, importers, user interface and command line: parsing glue, I/O or single loops.
