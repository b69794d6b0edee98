# Verification of IsabelleGym

IsabelleGym gives agents and people access to Isabelle: a server keeps a pool of prover sessions, splits and parses
theory texts, builds heaps and caches verified theories; an older part searches sliding puzzles whose boards are
Isabelle terms. This project models the four parts of it in which state and text are handled with care, and proves what
they keep.

**Sessions.** `SessionPool` says, on values, what each critical section of the session manager does to the pool, its
order and its leases; `SessionPoolRuns` proves what every run of such sections keeps, with requests that begin and end
at any time; `PoolMaintenance` does so for memory relief and the reaper; `SessionManager` holds the session and manager
objects, whose methods take these steps; `SessionLeases` is the holder's side of a lease. `WorkerQueue` is the job
queue behind one session with its two-phase shutdown, as steps of submitters, worker and closer; `ThreadedBackend` is
its object.

**Texts.** `TheoryLexer` and `CommandSplitter` are the incremental four-mode lexer and the cutting of a theory body
into commands. `LexerGrammar` says what the lexer recognises, `CommandCuts` where exactly a body is cut, and
`BlockStability` that no block is cut again. `HeaderParsing` and `HeaderRoundTrip` are the comment stripper, the header
parser and the header printer, and `HeaderReading` says how written headers are read; `DependencyKey` the texts that
dependency keys and theory hashes are made of. `Text` has the string functions.

**Puzzles.** `SlidingPuzzle` has boards, moves, the parity argument and the scramble; `BoardText` the printer and the
reader of boards; `VisitCounts` and `Mcts` the tree search and its early stop.

**Registries.** `HeapRegistry` and `HeapPool` are the heap registry with its manifests, as a machine and as objects,
and `HeapUse` what it does for its users; `ScratchPool` the warm scratch sessions; `BuildCache` the cache of build
results. `Collections` has what they share.

A machine has a `State`, a `Step` for every turn between two points where something else may happen, `Enabled` for what
the environment guarantees, and `Next`. A method of a class takes the state of its machine as a ghost argument,
requires that the object represents it, and ensures that afterwards the object represents the state after the step that
the contract names. What holds over every run of the machine therefore holds over every sequence of such calls.

To verify: `dafny verify dfyconfig.toml`.

## Model

| member | source | states |
|---|---|---|
| SessionPoolRuns.StepKeepsInv | server/app/services/session_manager.py:286-323 | each critical section keeps: the pool is at most its size, ids are distinct, every pooled session is open with a lease flag that matches its token, sessions are conserved, the order is the order of last use, and nothing the reaper is about to close has been leased since its scan |
| SessionPoolRuns.RunKeepsInv | server/app/services/session_manager.py:286-323 | the same over every run of critical sections and of requests that begin and end at any time |
| SessionPoolRuns.EachSessionIsTakenOutOnce | server/app/services/session_manager.py:286-338 | over every run from the empty pool each session built is either in the pool, open and never taken out, or out of it and taken out exactly once; nothing in the pool is closed; the pool never exceeds its size |
| SessionPoolRuns.StepOnlyAddsTaken | server/app/services/session_manager.py:549-570 | a session that was taken out never comes back, and a step takes out exactly the sessions of its reply |
| SessionPoolRuns.CreationEvictsLeastRecentlyUsed | server/app/services/session_manager.py:286-323 | a creation is refused exactly when the pool is full and nobody is idle, and then pool and order are as before; otherwise the new session is last and a full pool loses exactly one session, the idle one unused for longest |
| SessionPoolRuns.EvictionTakesLeastRecentlyUsed | server/app/services/session_manager_helpers.py:148-154 | a single eviction, whatever runs around it, takes the idle session unused for longest, and nothing exactly when nobody is idle |
| SessionPoolRuns.StepKeepsLease | server/app/services/session_manager.py:402-432 | while a lease lasts, no step grants the session to anybody else, whoever asks for it with another token is refused with a lease error that changes nothing, and none takes it out, save release or close with its token, a close without token, recovery or shutdown, and a scan that finds it idle for longer than the maximal age |
| SessionPoolRuns.OthersAreRefused | server/app/services/session_manager.py:498-571 | get and close with another token or none, where one is asked for, and release with another token, all answer with a lease error and leave the pool as it was |
| SessionPoolRuns.GrantIsHeld | server/app/services/session_manager.py:402-432 | the step that grants a lease starts such a lease |
| SessionPoolRuns.LeaseIsExclusive | server/app/services/session_manager.py:402-432 | lease exclusivity over every run, up to the first step that may end the lease: the session stays leased to its holder and in the pool, and everybody else is refused |
| SessionPoolRuns.StateAtIsAfter | server/app/services/session_manager.py:286-323 | the state before a step of a run is the one that the steps before it lead to, and the step can be taken there |
| SessionLeases.ReleaseFrees | server/app/services/session_manager.py:498-518 | a release with the token of the lease frees the session, unless a request is at work: it is last in the order, without lease or token, active now, and all others are as before |
| SessionLeases.ReleasedIsReused | server/app/services/session_manager.py:402-518 | the next acquisition with its key then gets that session under a token of its own; with reuse of used sessions off exactly if it has no history |
| SessionLeases.HolderGets | server/app/services/session_manager.py:520-539 | with its token the holder gets the session, which moves to the end and is otherwise as before, and stays leased |
| SessionLeases.HolderCloses | server/app/services/session_manager.py:541-571 | with its token the holder closes the session: busy exactly when a request is at work or comes up meanwhile, otherwise taken out without its lease, all others as before |
| SessionLeases.GetExactly | server/app/services/session_manager.py:520-539 | get, for any caller: not found exactly if no pooled session has the id, refused exactly if a lease is asked for and the token is not its token, otherwise the session moves to the end |
| SessionLeases.CloseExactly | server/app/services/session_manager.py:541-571 | close, for any caller: not found, refused, busy or gone, each in exactly its case, and all others as before |
| SessionLeases.GoneForGood | server/app/services/session_manager.py:541-571 | after any run, get, close and release do not find a session that was taken out |
| SessionLeases.OthersStay | server/app/services/session_manager.py:402-571 | each step that is about one session leaves all others as they are, in their order |
| SessionLeases.AcquisitionTakes | server/app/services/session_manager.py:402-432 | an acquisition takes the open, unleased session with the key that was used last, and nothing exactly when there is none |
| SessionLeases.LookupFinds | server/app/services/session_manager.py:434-459 | a lookup finds the same session without leasing it; it moves to the end and is otherwise as before |
| SessionLeases.CreatedIsUsable | server/app/services/session_manager.py:286-338 | a session created under a lease is its holder's to get; one created without is what the next acquisition with its key takes |
| SessionLeases.RequestKeepsBusy | server/app/services/session.py:126-133 | while a request is at work release and close are refused as busy; afterwards the session is as before, save its last use and its history |
| SessionPool.OldestIdle | server/app/services/session_manager.py:297-308 | the first session in the order that serves no request and is not leased, and nobody before it is |
| SessionPool.LatestMatch | server/app/services/session_manager.py:413-424 | the last session in the order that is open, unleased, has the key and, where asked for, no history |
| SessionPool.Scan | server/app/services/session_manager_helpers.py:230-247 | exactly the open sessions that have been idle longer than their limit, with the longer limit for leased ones |
| PoolMaintenance.EvictionsTakeOldestIdle | server/app/services/session_manager_helpers.py:148-154 | n evictions on their own take exactly the n oldest idle sessions, in order of last use, and leave the others in their order |
| PoolMaintenance.ReaperPass | server/app/services/session_manager_helpers.py:225-255 | one pass of the reaper with evictions, backend closes, recovery and requests of other threads between its closes: it comes exactly to the sessions that its scan finds overdue, and after it exactly those are gone that serve no request at the moment of their turn or that somebody else has taken out meanwhile |
| PoolMaintenance.TurnsTake | server/app/services/session_manager_helpers.py:249-255 | any run of steps off the event loop: a session stays exactly when it is neither out of use when the reaper comes to it nor taken out by somebody else, and the list of the reaper is worked off in order |
| PoolMaintenance.PoolLosesTaken | server/app/services/session_manager.py:549-567 | a step off the event loop puts nothing into the pool, and takes out exactly the sessions of its reply |
| PoolMaintenance.ReapAllIsRun | server/app/services/session_manager_helpers.py:249-255 | the closes of a pass during which nothing else runs are such a run |
| SessionManager.IsabelleSession.TryAcquireLease | server/app/services/session.py:145-152 | succeeds exactly on a session without lease, and changes nothing otherwise |
| SessionManager.IsabelleSession.RequireLease | server/app/services/session.py:160-169 | passes exactly the non-empty token that the session is leased under |
| SessionManager.IsabelleSession.ReleaseLease | server/app/services/session.py:171-175 | the lease and its token go, and the session counts as active now |
| SessionManager.IsabelleSession.AcquireRequests | server/app/services/session.py:126-128 | the busy counter rises by the requests that begin |
| SessionManager.IsabelleSession.Close | server/app/services/session.py:784-793 | the session is closed, and closing it again changes nothing; what its backend does is ThreadedBackend |
| SessionManager.IsabelleSession.ReleaseRequest | server/app/services/session.py:130-133 | the busy counter never goes below zero |
| SessionManager.SessionManager.EvictExcess | server/app/services/session_manager.py:296-315 | the eviction loop: a pool that is one over its size loses its oldest idle session but the new one, or the new one itself |
| SessionManager.SessionManager.CreateSession | server/app/services/session_manager.py:286-338 | insertion, lease, eviction and the closing of what was taken out: the creation step of the machine, and its outcome |
| SessionManager.SessionManager.Insert | server/app/services/session_manager.py:286-315 | the critical section of the creation, before anything is closed |
| SessionManager.SessionManager.LatestMatching | server/app/services/session_manager.py:413-424 | the walk from the most recent session finds the latest match |
| SessionManager.SessionManager.FindAndLease | server/app/services/session_manager.py:402-432 | the acquisition step: the most recent open, unleased session with the key is leased and moved to the end |
| SessionManager.SessionManager.FindSession | server/app/services/session_manager.py:434-459 | the lookup step: the same search without a lease |
| SessionManager.SessionManager.ReleaseSession | server/app/services/session_manager.py:498-518 | the release step, with its four outcomes |
| SessionManager.SessionManager.GetSession | server/app/services/session_manager.py:520-539 | the get step, with its three outcomes |
| SessionManager.SessionManager.CloseSession | server/app/services/session_manager.py:541-571 | the close step, with requests that arrive between its two looks at the busy counter |
| SessionManager.SessionManager.Detach | server/app/services/session_manager.py:549-567 | the critical section of the close, before the backend is closed |
| SessionManager.SessionManager.PopOldestIdle | server/app/services/session_manager_helpers.py:148-154 | the eviction step |
| SessionManager.SessionManager.RelieveMemoryPressure | server/app/services/session_manager_helpers.py:156-188 | run alone, closes a prefix of the idle sessions in order of last use; every reading but the last forbids admission; ends admissible or with nobody idle |
| SessionManager.SessionManager.Purge | server/app/services/session_manager.py:119-129 | recovery and shutdown take out and close every session |
| SessionManager.SessionManager.ReapIdleSessions | server/app/services/session_manager_helpers.py:231-255 | the scan and the closes of one pass of the reaper, run alone, as steps of the machine |
| SessionManager.SessionManager.RelieveIfNeeded | server/app/services/session_manager_helpers.py:257-260 | relief only under memory management and only when the probe forbids admission |
| SessionManager.SessionManager.CleanupIdleSessions | server/app/services/session_manager_helpers.py:225-269 | one round of the cleanup loop run alone: reaper, relief if needed, emptying of the pool if the gateway is dead |
| SessionManager.SessionManager.ScanOverdue | server/app/services/session_manager_helpers.py:233-247 | the scan lists exactly the overdue sessions, in order |
| WorkerQueue.StepKeepsInv | server/app/services/threaded_backend.py:42-102 | every step of submitters, worker and closer keeps: each job is in one place, the queue is first-in first-out, what leaves it is either started or cancelled |
| WorkerQueue.EveryInterleaving | server/app/services/threaded_backend.py:42-102 | for every interleaving jobs are executed in the order of their puts, none twice and none that was cancelled, and no future is resolved twice |
| WorkerQueue.StepKeepsClosing | server/app/services/threaded_backend.py:72-102 | every step keeps: after the drain the queue holds the exit job and late jobs only, and only late jobs follow the exit job |
| WorkerQueue.ShutdownSettles | server/app/services/threaded_backend.py:72-102 | after a shutdown answered in time only jobs put after the drain follow the exit job, and every unresolved future belongs to such a job or to a submitter between guard and put |
| WorkerQueue.AtomicShutdownResolvesAll | server/app/services/threaded_backend.py:42-102 | with guard and put at once and an answer in time, every future is resolved exactly once and the exit job runs last |
| WorkerQueue.LeftBehindExactly | server/app/services/threaded_backend.py:42-102 | for every interleaving that ends a shutdown, in time or not, exactly which futures no continuation resolves |
| WorkerQueue.ResolvedExactly | server/app/services/threaded_backend.py:42-102 | once the worker has stopped, the futures left behind are exactly those of queued jobs and of submitters between guard and put; all are resolved exactly when there are none |
| WorkerQueue.StrandedForEver | server/app/services/threaded_backend.py:57-70 | a job that can no longer be resolved after a shutdown is not resolved by any continuation |
| WorkerQueue.WayOutResolves | server/app/services/threaded_backend.py:57-70 | and one that can still be is resolved by a continuation |
| WorkerQueue.JobsCanBeStranded | server/app/services/threaded_backend.py:42-102 | both conditions are needed: two runs that leave a future unresolved for ever |
| ThreadedBackend.ThreadedBackend.Submit | server/app/services/threaded_backend.py:42-55 | the submit step, with an error future after the flag is set |
| ThreadedBackend.ThreadedBackend.WorkerTurn | server/app/services/threaded_backend.py:59-69 | one turn of the worker loop: at most the first job is run and its future resolved by value or exception |
| ThreadedBackend.ThreadedBackend.SubmitUnchecked | server/app/services/threaded_backend.py:49-55 | the exit step: enqueued whatever the flag says |
| ThreadedBackend.ThreadedBackend.Drain | server/app/services/threaded_backend.py:79-88 | the drain loop: exactly the queued futures are resolved, all others stay as they were |
| ThreadedBackend.ThreadedBackend.BeginShutdown | server/app/services/threaded_backend.py:77-94 | after flag and drain exactly the queued futures carry the shutdown error and the queue holds the exit job alone |
| ThreadedBackend.ThreadedBackend.FinishShutdown | server/app/services/threaded_backend.py:95-101 | the end of close, answered or timed out |
| TheoryLexer.EscapedQuote | evaluation/scripts/theory_splitter.py:118-124 | a quote is escaped exactly when an odd number of backslashes precedes it |
| TheoryLexer.LexState.Advance | evaluation/scripts/theory_splitter.py:127-186 | the loop over the text computes the run of the four-mode lexer from the state before, which LexerGrammar pins down |
| LexerGrammar.ClearExactly | evaluation/scripts/theory_splitter.py:118-186 | every text is a prefix of the grammar of nested comments, strings with escapes and two kinds of nested cartouches, and the state behind it shows the open pieces; it is clear exactly when the text is one of the grammar with all pieces closed |
| LexerGrammar.OpenPiecesAreShown | evaluation/scripts/theory_splitter.py:118-186 | behind every prefix of the grammar the state holds how many pieces of each kind are open, and whether a string is; it is clear exactly when none is |
| LexerGrammar.RunDoc | evaluation/scripts/theory_splitter.py:127-186 | from outside, or from inside pieces of the same kind at any depth, a closed text of the grammar leaves the state as it was |
| TheoryLexer.IncrementalIsWhole | evaluation/scripts/theory_splitter.py:118-186 | feeding each line and then a newline equals one pass over the whole text, from every state |
| TheoryLexer.FeedAppend | evaluation/scripts/theory_splitter.py:208-221 | feeding lines in two portions is feeding them all |
| TheoryLexer.RunStrip | evaluation/scripts/theory_splitter.py:127-186 | blanks at either end of a text do not change the final state |
| CommandSplitter.SplitCommands | evaluation/scripts/theory_splitter.py:198-226 | the method computes the block function, whose cuts CutBetween and BlocksBeginCommands pin down |
| CommandCuts.CutBetween | evaluation/scripts/theory_splitter.py:189-226 | two texts, one under the other: the blocks of the whole are the blocks of both exactly when all comments, strings and cartouches of the first are closed and the first line of the second is dots or begins with a whole word of the list |
| CommandCuts.WordCuts | evaluation/scripts/theory_splitter.py:189-195 | in particular a word of the list at the start of a line cuts, if no letter, digit, underscore or other word character follows it |
| CommandCuts.BlocksBeginCommands | evaluation/scripts/theory_splitter.py:189-226 | every block but the first begins with a whole word of the list, or its first line is dots |
| CommandCuts.LineStarterExactly | evaluation/scripts/theory_splitter.py:189-195 | a line starts a command exactly if it is one, two or three dots or begins with a whole word of the list |
| CommandCuts.CommonStarters | evaluation/scripts/theory_splitter.py:17-64 | lemma, theorem, definition, fun, proof, by, qed and end are words of the list |
| CommandCuts.LineEndsDoNotMatter | evaluation/scripts/theory_splitter.py:198-199 | lines that are ended in any of the three ways give the same text with line feeds |
| CommandSplitter.CutsAreClear | evaluation/scripts/theory_splitter.py:208-221 | a cut is made only where the lexer of the text so far is outside every comment, string and cartouche |
| CommandSplitter.RunNormalized | evaluation/scripts/theory_splitter.py:198-207 | normalising line ends and trimming the body does not change the final state of the lexer |
| CommandSplitter.BlocksBalanced | evaluation/scripts/theory_splitter.py:198-226 | every block but the last, lexed alone, ends clear, and the last ends as the whole body ends |
| CommandSplitter.BlocksKeepText | evaluation/scripts/theory_splitter.py:198-226 | the non-blank characters of all blocks, in order, are exactly those of the body |
| BlockStability.BlocksAreStable | evaluation/scripts/theory_splitter.py:198-226 | splitting is done once and for all: each block of a body, split alone, gives itself as its only block |
| BlockStability.BlockHasNoCuts | evaluation/scripts/theory_splitter.py:208-221 | no line inside a block, lexed from the start of the block alone, begins a new one |
| BlockStability.BlockIsJoined | evaluation/scripts/theory_splitter.py:198-226 | a block is its lines joined: without the first indentation, without blanks at the ends of lines, without blank lines at its end |
| HeaderParsing.StripTheoryComments | server/app/services/theory_parsing.py:37-66 | the loop computes the comment-free text |
| HeaderParsing.LeadingCommentIsIgnored | server/app/services/theory_parsing.py:37-95 | any balanced nested comment in front of any text leaves the parse as it was |
| HeaderParsing.LineNumbersDoNotShift | server/app/services/theory_parsing.py:37-66 | stripping keeps the number of lines, and each line is a subsequence of the original one |
| HeaderReading.PlainHeaderIsRead | server/app/services/theory_parsing.py:29-95 | every header that is written with any blanks and line feeds between its words, any indentation, a bare or quoted theory name and bare or quoted imports (the characters spelled out) is read as exactly that name and those imports; header words among them are left out |
| HeaderReading.CommentedHeaderIsRead | server/app/services/theory_parsing.py:37-95 | and so is every text that is such a header once its comments are gone |
| HeaderReading.CommentGoes | server/app/services/theory_parsing.py:37-66 | a balanced comment goes away wherever it stands, and leaves its line feeds |
| HeaderReading.GrammarComments | server/app/services/theory_parsing.py:37-66 | the comments of the grammar, nested to any depth, are balanced comments |
| HeaderRoundTrip.ImportsRoundTrip | server/app/services/theory_parsing.py:77-95 | printed import names, whatever characters they have, are read back exactly when each of them can be: no header word, no quote, no whole word begin, and nothing but token characters if printed bare |
| HeaderRoundTrip.HeaderRoundTrip | server/app/services/session.py:328-339 | for every theory name and every list of imports the printed header is read back as name and imports exactly when the name is not empty and made of name characters, and each import can be read back and opens no comment |
| HeaderRoundTrip.NameComesBack | server/app/services/theory_parsing.py:69-95 | no other name comes back, whatever the imports hold |
| HeaderRoundTrip.PrimedImportIsLost | server/app/services/theory_parsing.py:77-95 | an import with a prime that does not round trip |
| SlidingPuzzle.PossibleMoves | previous works/IsabelleGym1.0/IsabelleGym/sliding_puzzle/puzzle_env.py:68-84 | exactly the moves that stay on the board and do not undo the last one; none exactly for size 1 |
| SlidingPuzzle.DoMove | previous works/IsabelleGym1.0/IsabelleGym/sliding_puzzle/puzzle_env.py:87-104 | the swap in place is the move of the model |
| SlidingPuzzle.GapMoves | previous works/IsabelleGym1.0/IsabelleGym/sliding_puzzle/puzzle_env.py:30-35 | a move takes the gap one row up or down or one column left or right, exchanges it with the tile there and leaves all others; it is possible exactly if the gap stays on the board |
| SlidingPuzzle.OppositeUndoes | previous works/IsabelleGym1.0/IsabelleGym/sliding_puzzle/puzzle_env.py:30-42 | the opposite move is legal after a move and restores the board |
| SlidingPuzzle.TranspositionFlips | previous works/IsabelleGym1.0/IsabelleGym/sliding_puzzle/puzzle_env.py:87-104 | exchanging any two cells of a board of distinct numbers flips the parity of its inversions |
| SlidingPuzzle.MoveKeepsParity | previous works/IsabelleGym1.0/IsabelleGym/sliding_puzzle/puzzle_env.py:87-104 | one legal move keeps the parity of inversions plus row and column of the gap |
| SlidingPuzzle.RunKeepsParity | previous works/IsabelleGym1.0/IsabelleGym/sliding_puzzle/puzzle_env.py:68-104 | inversions plus row and column of the gap keep their parity over every run of legal moves of every size |
| SlidingPuzzle.ExchangeIsUnreachable | previous works/IsabelleGym1.0/IsabelleGym/sliding_puzzle/puzzle_env.py:68-104 | no run of legal moves exchanges two tiles of a board |
| SlidingPuzzle.ExchangedGoalIsUnreachable | previous works/IsabelleGym1.0/IsabelleGym/sliding_puzzle/puzzle_env.py:45-50 | in particular the goal with two tiles exchanged is never produced |
| SlidingPuzzle.BackUndoes | previous works/IsabelleGym1.0/IsabelleGym/sliding_puzzle/puzzle_env.py:30-42 | every legal run can be undone in as many moves |
| SlidingPuzzle.GenerateScrambledBoard | previous works/IsabelleGym1.0/IsabelleGym/sliding_puzzle/puzzle_env.py:137-149 | the result is a permutation reached by the given number of legal moves without direct reversals, and as many legal moves lead back; the two errors are met exactly for sizes 0 and 1 |
| BoardText.BoardRoundTrip | previous works/IsabelleGym1.0/IsabelleGym/sliding_puzzle/puzzle_env.py:112-134 | a board of integers comes back from its text exactly when it is not empty |
| BoardText.ExampleText | previous works/IsabelleGym1.0/IsabelleGym/sliding_puzzle/puzzle_env.py:112-121 | the text of a small board, letter by letter |
| BoardText.EmptyBoardFails | previous works/IsabelleGym1.0/IsabelleGym/sliding_puzzle/puzzle_env.py:112-134 | the text of the empty board is refused |
| BoardText.ParsePrintInt | previous works/IsabelleGym1.0/IsabelleGym/sliding_puzzle/puzzle_env.py:112-128 | every integer is read back from its decimal text |
| BoardText.SucZeroIsOne | previous works/IsabelleGym1.0/IsabelleGym/sliding_puzzle/puzzle_env.py:123-128 | the spelling with Suc is read as tile 1 |
| VisitCounts.TopTwo | previous works/IsabelleGym1.0/IsabelleGym/sliding_puzzle/mcts.py:203-213 | the two largest counts are those of one child and of its closest rival |
| VisitCounts.EarlyStopIsSound | previous works/IsabelleGym1.0/IsabelleGym/sliding_puzzle/mcts.py:203-213 | a lead of more than the simulations left cannot be lost: every way of running them gives the same child |
| VisitCounts.LeadEqualToRemainingIsNotEnough | previous works/IsabelleGym1.0/IsabelleGym/sliding_puzzle/mcts.py:203-213 | with a lead that only equals the rest the answer can change |
| Mcts.BumpKeepsAccounts | previous works/IsabelleGym1.0/IsabelleGym/sliding_puzzle/mcts.py:188-195 | backpropagation keeps, at every node, visits equal to the backpropagations started there plus the visits of the children, and adds at most one to one child of the root |
| Mcts.GrowKeepsAccounts | previous works/IsabelleGym1.0/IsabelleGym/sliding_puzzle/mcts.py:133-182 | expansion keeps parent links, distinct moves and the visit accounts |
| Mcts.MCTS.SelectChild | previous works/IsabelleGym1.0/IsabelleGym/sliding_puzzle/mcts.py:84-121 | the best scored child among those that do not undo the last move, the first on ties |
| Mcts.MCTS.SelectLeaf | previous works/IsabelleGym1.0/IsabelleGym/sliding_puzzle/mcts.py:68-82 | each step of the walk goes to the best-scored child; it ends at an unexpanded node or at the goal board, and its length is the depth |
| Mcts.MCTS.Backpropagate | previous works/IsabelleGym1.0/IsabelleGym/sliding_puzzle/mcts.py:188-195 | one visit and the value plus distance for the node and each ancestor, and for nobody else |
| Mcts.MCTS.Expand | previous works/IsabelleGym1.0/IsabelleGym/sliding_puzzle/mcts.py:133-182 | a goal board becomes the only child; otherwise every board offered becomes a child with its prior and value |
| Mcts.MCTS.Grow | previous works/IsabelleGym1.0/IsabelleGym/sliding_puzzle/mcts.py:133-182 | an expansion keeps the tree valid and leaves the root children alone once they are there |
| Mcts.MCTS.Credit | previous works/IsabelleGym1.0/IsabelleGym/sliding_puzzle/mcts.py:188-195 | a backpropagation keeps the tree valid and is one step of the counts of the root |
| Mcts.MCTS.WalkAndCharge | previous works/IsabelleGym1.0/IsabelleGym/sliding_puzzle/mcts.py:215-235 | one simulation: the leaf is where the walk by best-scored children ends; it is expanded with the boards offered, unless it holds the goal; charged is the goal found below it, or else the leaf; and every node then shows the sum of its shares of all simulations |
| Mcts.MCTS.PayShares | previous works/IsabelleGym1.0/IsabelleGym/sliding_puzzle/mcts.py:184-195 | backpropagation keeps: the value sum of each node is, over all simulations that ended at it or below, the sum of the predicted distance there and the steps down to it and back up, and its visits are their number |
| Mcts.MCTS.Simulate | previous works/IsabelleGym1.0/IsabelleGym/sliding_puzzle/mcts.py:215-235 | a simulation is one more entry of a history in which each walk goes by the scores that the simulations before it have left, each leaf is expanded once with the boards offered, and each node shows its shares; it adds one visit to the root and at most one to one of its children |
| Mcts.MCTS.OneMoreSimulation | previous works/IsabelleGym1.0/IsabelleGym/sliding_puzzle/mcts.py:201-235 | what later simulations do does not change what the earlier ones have done |
| Mcts.MCTS.ScoreOrder | previous works/IsabelleGym1.0/IsabelleGym/sliding_puzzle/mcts.py:84-121 | of two children the one with the higher mean, or with the higher prior, or with fewer visits scores higher, the other two being equal |
| Mcts.MCTS.MeanIsAverage | previous works/IsabelleGym1.0/IsabelleGym/sliding_puzzle/mcts.py:35-39 | the mean value of a visited node is the average of its shares |
| Mcts.MCTS.Run | previous works/IsabelleGym1.0/IsabelleGym/sliding_puzzle/mcts.py:197-237 | the simulations run are such a history from the first on; the answer is the first most visited child, and no way of running the simulations skipped by the early stop changes it |
| Mcts.MCTS.RunOn | previous works/IsabelleGym1.0/IsabelleGym/sliding_puzzle/mcts.py:201-235 | the simulations that an early stop skips, run after all, give the same child |
| HeapRegistry.DefaultSessionName | server/app/services/heap_pool.py:99-103 | the session name made from any directory name is accepted by the name pattern |
| HeapRegistry.StepKeepsInv | server/app/services/heap_pool.py:253-342 | every turn of the event loop keeps: one lock per build, one entry object shared with the registry, permits plus builds at work equal the limit |
| HeapRegistry.BuildsAreLimited | server/app/services/heap_pool.py:253-261 | for every interleaving at most one build per key and at most the limit overall are at work |
| HeapRegistry.StepAgreement | server/app/services/heap_pool.py:292-331 | a step keeps manifests and registry in agreement, up to interruption, exactly when it is not the end of a build whose key was deleted meanwhile |
| HeapRegistry.RunKeepsAgreement | server/app/services/heap_pool.py:292-331 | every run without such deletions keeps the agreement, and the images of ready and stale entries |
| HeapRegistry.StartAgrees | server/app/services/heap_pool.py:109-118 | the server starts in agreement with its manifests |
| HeapRegistry.CrashRecovery | server/app/services/heap_pool.py:129-145 | over every run of the server from its start without such deletions a restart restores the registry with builds at work turned into failures; and if the manifests were true of the images at the start, every ready or stale entry has its image |
| HeapRegistry.DeletedKeyComesBack | server/app/services/heap_pool.py:564-581 | for every state, a key deleted during its build is back after the build has ended and the server restarted |
| HeapRegistry.DeletedHeapIsThere | server/app/services/heap_pool.py:253-342 | a run from the start of a server without heaps that ends with a deleted heap in the registry, ready |
| HeapRegistry.StepKeepsImages | server/app/services/heap_pool.py:538-562 | image collection never removes an image that a ready or stale entry refers to |
| HeapRegistry.SessionsGetOwnHeaps | server/app/services/heap_pool.py:368-409 | the gate gives a session only a ready heap of its own group that it has named, whose image exists; a group without a matching heap is told exactly whether another group has one |
| HeapRegistry.FingerprintIsInjective | server/app/services/heap_pool.py:223-239 | for files of one directory with hashes of one length, two fingerprints with one root text agree exactly when the lists of paths and hashes do |
| HeapRegistry.StepKeepsFingerprints | server/app/services/heap_pool.py:263-306 | every step keeps: each registered, stored and held entry carries the fingerprint of the files that it records |
| HeapRegistry.RunKeepsFingerprints | server/app/services/heap_pool.py:263-342 | the same over every run whose builds scan files of their own project directories |
| HeapRegistry.StartHasFingerprints | server/app/services/heap_pool.py:109-145 | the server starts so, if its manifests are so |
| HeapRegistry.SessionsGetFreshHeaps | server/app/services/heap_pool.py:347-409 | after such a run a session that means a ready heap is given it exactly when the project can be read and its files are, by path and hash, those that the heap was built from; otherwise it is refused as not ready |
| HeapRegistry.GateOnlyMarksStale | server/app/services/heap_pool.py:347-364 | the gate changes nothing but the status of a ready heap whose sources have changed, and then refuses |
| HeapUse.BuiltHeapIsGiven | server/app/services/heap_pool.py:263-342 | a build that ends with success is given to sessions of the group that name its project, as long as the sources are as they were; entry, manifest and image are there, and all else is as before |
| HeapUse.FailedBuildIsRefused | server/app/services/heap_pool.py:263-342 | a build that fails is refused to sessions whatever the sources are, and adds no image |
| HeapUse.StaleIsMarked | server/app/services/heap_pool.py:347-364 | a look at a ready heap marks it as stale, in registry and manifest, exactly when the files are no longer those that it was built from; then it is refused whatever the files are |
| HeapUse.BuildIsAnnounced | server/app/services/heap_pool.py:263-306 | while a build is at work its entry is registered and stored with its files, and sessions are refused it |
| HeapUse.RebuildKeepsName | server/app/services/heap_pool.py:272-280 | a rebuild without a session name keeps the registered one |
| HeapUse.KeyIsFreeAgain | server/app/services/heap_pool.py:253-261 | when a build ends, is cancelled or cannot start, its lock and permit are given back, the next request of its key is accepted, and all other builds go on |
| HeapUse.KeyIsTaken | server/app/services/heap_pool.py:253-259 | while a build has the key another request for it changes nothing |
| HeapUse.ScratchRootLines | server/app/services/heap_pool.py:193-221 | the ROOT that is written for a project without one, line by line |
| HeapUse.DeletionForgets | server/app/services/heap_pool.py:538-581 | a deletion takes out the entry and its manifest and nothing else, and the image exactly when collection is on and no other entry has its name |
| HeapUse.DeletedIsNotFound | server/app/services/heap_pool.py:368-409 | after a deletion sessions that name the project are told that there is no such heap |
| HeapUse.DeletedStaysAway | server/app/services/heap_pool.py:129-145 | and so they are after a restart |
| HeapUse.RestartLoads | server/app/services/heap_pool.py:129-145 | a restart loads every manifest; builds that were at work have failed, with a note at the end of their log |
| HeapPool.LoadManifests | server/app/services/heap_pool.py:129-145 | the registry that is loaded is the recovered disk |
| HeapPool.FromManifest | server/app/services/heap_pool.py:134-143 | one manifest: a build that was at work comes back as failed, with a note in its log |
| HeapPool.HeapPool.RequestBuild | server/app/services/heap_pool.py:253-259 | a build is refused exactly when the lock of its key is held |
| HeapPool.HeapPool.StartBuild | server/app/services/heap_pool.py:263-306 | the start step: a new entry object is registered, persisted and held by the build, or the build is given up |
| HeapPool.HeapPool.EndBuild | server/app/services/heap_pool.py:328-342 | the end step: the entry object is changed in place, so the registry sees it exactly when it is still registered |
| HeapPool.HeapEntry.Finish | server/app/services/heap_pool.py:328-330 | log tail, time and status of a finished build |
| HeapPool.HeapPool.CheckStale | server/app/services/heap_pool.py:347-364 | the stale step, and whether the sources have changed |
| HeapPool.HeapPool.Delete | server/app/services/heap_pool.py:564-581 | the delete step |
| HeapPool.HeapPool.GcHeapImage | server/app/services/heap_pool.py:538-562 | the image goes exactly when collection is on and no entry refers to it |
| HeapPool.HeapPool.DeleteGroup | server/app/services/heap_pool.py:583-589 | exactly the entries and manifests of the group go; agreement and images are kept |
| HeapPool.HeapPool.ResolveForSession | server/app/services/heap_pool.py:368-409 | the method gives the answer and the state of the gate |
| ScratchPool.StepKeepsCounted | mcp_lsp_server/pool.py:249-296 | per key the count equals idle plus held plus being created and stays within the pool size |
| ScratchPool.StepKeepsExclusive | mcp_lsp_server/pool.py:249-296 | no session is idle twice, idle and held, or held twice |
| ScratchPool.EveryInterleaving | mcp_lsp_server/pool.py:249-296 | both for every interleaving at awaits |
| ScratchPool.ReleaseWakes | mcp_lsp_server/pool.py:283-286 | giving a session back lets a waiting attempt go on |
| ScratchPool.DropWakesNobody | mcp_lsp_server/pool.py:288-296 | dropping one makes a place but lets no waiting attempt go on |
| ScratchPool.WaiterIsOverlooked | mcp_lsp_server/pool.py:249-296 | a run after which an attempt waits, nothing is idle or in use, and there is room for a session |
| ScratchPool.LspPool.TakeIdle | mcp_lsp_server/pool.py:252-257 | the first half of the acquisition |
| ScratchPool.LspPool.Reserve | mcp_lsp_server/pool.py:258-265 | the second half: a place is reserved exactly under the cap |
| ScratchPool.LspPool.Get | mcp_lsp_server/pool.py:266-266 | the end of the wait |
| ScratchPool.LspPool.Undo | mcp_lsp_server/pool.py:278-281 | a failed creation gives its place back |
| ScratchPool.LspPool.ReleaseScratch | mcp_lsp_server/pool.py:283-286 | the release step |
| ScratchPool.LspPool.DropScratch | mcp_lsp_server/pool.py:288-291 | the drop step, with the count kept at zero or more |
| BuildCache.BuildsAreExclusive | server/app/services/build_verify.py:128-149 | for every interleaving no two builds of one hash are at work, no hash is ever built twice with success, nothing cached is built, and at most the limit are at work |
| BuildCache.CacheIsTransparent | server/app/services/build_verify.py:111-149 | with deterministic builds and an injective hash, an answer whose request cannot be confused with an answered one agrees with the uncached one, up to the time, exactly when it is not cached or its request gives the declared name and enough time |
| BuildCache.HashesAgree | server/app/services/build_verify.py:111-124 | for all parent sessions, two requests share a cache entry exactly when parent session, dependency key and text agree, or the parent session of one holds that of the other with its key and the texts make up for it |
| BuildCache.SharedAnswer | server/app/services/build_verify.py:124-149 | two requests that share a hash without being confused, the first a success: their uncached answers agree exactly when the second gives the declared name and enough time |
| BuildCache.WrongNameIsAnswered | server/app/services/build_verify.py:125-130 | after any success a request with another theory name is answered with it, although its own build fails whatever the process does |
| BuildCache.ParentIsConfused | server/app/services/build_verify.py:111-130 | a run in which a request with the declared name and any time is answered with the success of another text on another parent session, although its own build fails: the parent sessions can be confused |
| BuildCache.SharedSuccess | server/app/services/build_verify.py:128-132 | the run itself: a request that shares the hash of a success is answered from the cache |
| BuildCache.NameDecides | server/app/services/build_verify.py:168-184 | a build succeeds exactly when the name is the declared one and the process exits with 0 in time |
| BuildCache.BuildReports | server/app/services/build_verify.py:251-264 | the answer reports the end of the output, and on failure the end of the errors, or else of the output, or else the exit code |
| BuildCache.DependenciesAre | server/app/services/build_verify.py:118-123 | a submission depends on the theories it gives, or else on the imports of its header, or else on Main, each trimmed, once and in order |
| BuildCache.ParentIs | server/app/services/build_verify.py:117-117 | the parent session is the trimmed field, and HOL without one |
| BuildCache.BuildVerifier.FirstLook | server/app/services/build_verify.py:128-132 | the first look at the cache |
| BuildCache.BuildVerifier.SecondLook | server/app/services/build_verify.py:133-136 | the second look, under the lock |
| BuildCache.BuildVerifier.BeginBuild | server/app/services/build_verify.py:138-138 | the pass through the semaphore |
| BuildCache.BuildVerifier.FinishBuild | server/app/services/build_verify.py:139-149 | the end of a build: a success is cached, lock and permit are given back |
| DependencyKey.NormalizeTheories | server/app/services/session_manager_helpers.py:121-131 | strictly sorted, and holding exactly the trimmed non-empty names |
| DependencyKey.FieldIsNormal | server/app/services/session_manager_helpers.py:105-111 | a field is trimmed, and is HOL if it is missing, blank, or one of three words in letters of either case |
| DependencyKey.SortedIsUnique | server/app/services/session_manager_helpers.py:121-131 | two strictly sorted lists with the same elements are equal |
| DependencyKey.SameSetSameList | server/app/services/session_manager_helpers.py:121-131 | two lists of names are normalised to the same list exactly when they hold the same names |
| DependencyKey.ColonTexts | server/app/services/session_manager_helpers.py:133-141 | when two texts with a double colon in them agree, for all texts |
| DependencyKey.KeysAgree | server/app/services/session_manager_helpers.py:133-141 | when two requests get the same key, for all fields, names and extras: exactly when field and rest agree or one field is the other shifted |
| DependencyKey.KeyTextsWithoutExtra | server/app/services/build_verify.py:70-73 | for fields without a double colon, two keys without extra agree exactly when fields and joined names do, or one field is the other with a colon and the names make up for it |
| DependencyKey.KeysWithoutExtra | server/app/services/build_verify.py:70-73 | keys without extra agree exactly when normalised field and set of trimmed names do; names may hold colons |
| DependencyKey.KeysAreCanonical | server/app/services/session_manager_helpers.py:133-141 | with extras, two requests get the same key exactly when normalised field, set of trimmed names and extra agree |
| DependencyKey.NameColonCollides | server/app/services/session_manager_helpers.py:133-141 | with an extra, a colon at the end of a name gives two requests one key |
| DependencyKey.BarCollides | server/app/services/session_manager_helpers.py:133-141 | a name with a bar gives the key of two names |
| DependencyKey.TrailingColonCollides | server/app/services/session_manager_helpers.py:133-141 | two different requests with one key: a colon at the end of a field |
| DependencyKey.TheoryHashesAgree | server/app/services/build_verify.py:76-78 | for all parent sessions and texts and hexadecimal keys, two submissions share a hash exactly when parent session, dependency key and text agree, or the parent session of one swallows the other |
| DependencyKey.NoColonsNoSwallow | server/app/services/build_verify.py:76-78 | a parent session without a double colon swallows nothing |
| DependencyKey.TheoryHashIsInjective | server/app/services/build_verify.py:76-78 | so for parent sessions without a double colon two submissions share a hash exactly when parent session, dependency key and text agree |
| DependencyKey.ParentSwallows | server/app/services/build_verify.py:76-78 | the family of submissions that collide: a parent session that ends in the key of the other submission, and a text that begins with the other key |

## Left out

- The gateway process, the prover behind it, build processes, the network and clocks: their answers and the times are parameters of steps and methods.
- SHA-256 is an arbitrary function, injective where a statement says so; heap fingerprints are the hashed text itself, and a manifest path is its key. Fingerprints are compared for files of one directory, as the scan of a project lists them, with names that hold no slash and hashes of one length.
- Failing file operations and unreadable manifests: persisting, loading and deleting always succeed, and a manifest is read back as it was written.
- The scratch ROOT files that a build writes and a deletion removes.
- What a build does to images of the same session name: starting or failing the build of one group leaves on disk the image that another group's entry of that name stands for.
- The deletion of base heap images by an administrator, after which a ready entry may have no image.
- The cached text of open files, file bindings, checkpoints and big-step execution: they rest on what the prover saves and restores.
- Theory chunks, diagnostics, unicode normalisation, `split_theory` and `split_top_level_blocks`: easier members of the same kind.
- The membership of characters outside ASCII in the regular-expression class of word characters is a parameter (`wordTable`); the search for the declared theory name in `BuildCache` is a parameter too.
- The reading of board numbers knows plain decimal digits with a sign; underscores and digits outside ASCII, which Python also reads, are refused.
- The neural network and the arithmetic of scores in the tree search are arbitrary functions on reals; infinite and rounded values are not modelled.
- In the tree search the boards offered when a node is expanded come from the environment, one list with distinct moves per simulation.
- Busy counters change between critical sections and, where `close_session` looks twice, inside one; the other sections see one value of each counter.
- A critical section with several looks at other fields is one step, as the manager's lock makes it.
- SessionManager.SessionManager.CleanupIdleSessions: runs alone, and so do ReapIdleSessions and RelieveIfNeeded; PoolMaintenance.ReaperPass is about passes with steps of other threads between the closes.
- SessionManager.IsabelleSession.Close: does not shut a backend down; the queue behind the session is an object of its own, ThreadedBackend, with its shutdown.
- DependencyKey.KeysAreCanonical: asks of names, besides having no bar, that they hold no "::" and no colon at the end, because with an extra such names collide (NameColonCollides); KeysAgree says exactly when any two requests collide.
- BuildCache.CacheIsTransparent: is about requests that cannot be confused with an answered one, and so is SharedAnswer; of the others HashesAgree says which they are, and ParentIsConfused that the property fails for them. Hashes are hexadecimal and not empty.
- The printer writes `Main` for an empty list of imports, and that is what HeaderRoundTrip gets back.
- SessionManager.SessionManager.RelieveMemoryPressure: states what relief does when it runs alone; between its evictions other steps may come, and then EvictionTakesLeastRecentlyUsed applies to each of them.
- WorkerQueue.AtomicShutdownResolvesAll: is one sufficient condition, `submit` does not make its guard and its put at once; LeftBehindExactly and ResolvedExactly are exact, and JobsCanBeStranded shows runs.
- Cancelled futures and a second closing thread in the worker queue; each session is taken out of the pool once, so its queue is closed once.
- Fairness: a waiting request or attempt is not shown to go on eventually.
- Whether a reused backend is pristine: a request for a session without history only looks at the command history, and so does the model (`dirty`).
- CutLines and AdvanceLine, Put, CloseOverdue, Insert, Refusal, Detach, TakeOut, Register, Save, MarkStale, Unregister, AddKids, Grow, PayShares, Credit and WalkAndCharge are parts of one method of the original each, split off for the proofs.
- HeaderReading.PlainHeaderIsRead: in front of the theory line stand blank lines and comments only, the imports are there, and no blank is a word character of the table.
- CommandCuts.CutBetween: asks that the first text is its own normal form and the second begins with no blank; the blocks of other texts are those of their normal forms.
- HeapUse.DeletedIsNotFound: and DeletedStaysAway are about a project that no other group has registered; otherwise the answer is that of SessionsGetOwnHeaps.
- A tree node's predicted value is set once, when the node is made, and is a constant of the object.
