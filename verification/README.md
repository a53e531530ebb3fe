# PocketSphinx decoding cores, modelled and proved

PocketSphinx decodes speech by dynamic programming over hidden Markov models, on top of hand-written lists,
arenas, ring buffers and lookup tables. This project models the cores below in Dafny and proves what they
are for. `dafny verify dfyconfig.toml` checks everything.

A core is written twice where the source changes things in place: once as functions on values, once as a class
with methods and loops, each method proved to be its function. What the source promises is then proved about
the functions: for every input, every run or every reachable state.

| files | core | what is proved |
|---|---|---|
| `Hmm`, `HmmOptimal`, `HmmUnrolled`, `HmmExact`, `HmmMpx`, `HmmMpxExact`, `HmmRange`, `HmmRuns` | Viterbi step of one HMM | in-place updates from high state to low equal a simultaneous step; optimality over all state paths of any run; exactly which topologies the hand-unrolled evaluators, plain and multiplexed, get right; exactly when scores stay within int32 |
| `Fsg`, `FsgHistory`, `FsgStep`, `FsgSound`, `FsgPaths`, `FsgRun`, `FsgFloor`, `FsgLossless`, `FsgMachine` | grammar beam search | the history lists' invariant; the active list is exact; every backtrace is a path of the grammar; right-context pruning changes no in-score |
| `FsgFlow`, `FsgAligns`, `FsgOptimal`, `FsgBest`, `FsgBeams`, `FsgWords` | grammar decoding as a whole | with beams wide enough, which can be read off the models, the result is a best alignment of the utterance with the grammar, in its score and in its words, over all paths of the grammar |
| `FsgResult`, `HypString` | reading off the result | which exit is chosen; two passes fill the hypothesis buffer exactly |
| `FsgContexts`, `FsgLextree` | lexical trees of a grammar | context sets past null transitions; the trees the search receives contain every word of every transition and nothing else, trained for the contexts they are entered and left with |
| `FsgReach` | lattice of the grammar search | the worklist marks exactly the nodes that reach the end |
| `NgramTable`, `NgramSearch`, `Lattice` | back-pointer table and word lattice | the table's invariant over runs, its frame index and the exit chosen; list order is reverse topological and one pass computes reachability; exactly when links rest on their own node's entries |
| `FeatRing`, `Senones` | acoustic-model buffering, active senones, score dumps | the ring refines an unbounded sequence; the byte-delta list is exact; exactly when a dump can be read back |
| `Mdef`, `Dict2Pid` | triphone tree and context tables | lookup finds exactly what was added; which phone is the nearest, in terms of the triphones alone; compression loses nothing exactly when; incremental equals batch exactly when |
| `Jsmn`, `JsonChars`, `JsonText` | JSON tokenizer | counting and parsing agree; success is balance; token structure; resuming; what is a string and which error comes when; the tokens of a JSON text are exactly its values with their numbers of children |
| `Gauden` | top-N codewords | early abandonment selects the n best exactly when |

`Basics` holds what several of them share.

## Where the code does less than one would expect

Each of these is kept as the code has it, with a lemma that shows it and, where there is one, the exact condition
under which the expected behaviour holds.

- `src/hmm.h:121` and `src/hmm.h:133` say that topologies with a subset of the diagram's transitions "should work
  as well". `HmmExact.ExactlyCovered` says which do: the 5-state code needs exactly its fourteen transitions; the
  3-state code needs the self and next transitions, no transition from state 0 to the exit, and, because `t2` is
  reused between two tests, either the 0 to 2 skip, or no 1 to exit transition, or one that costs at least as much
  as 1 to 2. That a 1 to exit skip comes with a 0 to 2 skip is sufficient, not necessary.
- The generic evaluator does not clamp state 0, so it stays within int32 on all runs exactly when state 0 has no
  transition to itself: `HmmRange.GenericFitsExactly`, and for multiplexed records `HmmRange.MpxFitsExactly`.
- Inner nodes of the lexical trees are shared by senone sequence alone, so a word may run through another phone's
  transition matrix: `FsgLextree.MatricesMayDiffer`. It has its own exactly when the words that share nodes agree:
  `FsgLextree.MatricesExact`.
- Nothing keeps the phone and word thresholds above WORST_SCORE, which soundness needs: `FsgPaths.UnreachedExitExact`
  gives the leaf that is offered to the history without a predecessor, exactly when they are not, and
  `FsgFloor.BelowFloorIsUnsound` an utterance whose history is broken after one frame.
- `acmod_rewind` checks only the frames consumed: `FeatRing.CircularRewind` and `FeatRing.RewindTooLate`. A frame
  number that has not been fed yet is never refused by `acmod_get_frame`: `FeatRing.FutureFrameAliases`.
- A score dump counts active senones in sixteen bits: `Senones.RoundTripExact`, `Senones.AllActiveExact`.
- `compress_table` loses entries when a new value follows an empty one: `Dict2Pid.CompressionExact`, with
  `Dict2Pid.PartRowLoses` as the instance. No call in `src/dict2pid.c` passes such a row: the rows of the tables are
  full or empty, so nothing is lost of them (`Dict2Pid.FinalLossless`).
- `dict2pid_add_word` leaves a row that a single-phone word filled: `Dict2Pid.IncrementalExact` for the rows,
  `Dict2Pid.IncrementalCells` for what they hold, `Dict2Pid.ClashShows` for an instance. For a new word of one phone it
  never fills the row of right contexts after silence, which building does: `Dict2Pid.SingleIncrementalExact`.
- The top-N list is padded with unused slots when too few densities reach WORST_DIST: `Gauden.SelectionExact` and
  `Gauden.DeepIsMissed`; and it is in worsening order, as `src/ms_gauden.h:128` says, exactly when fewer codewords
  are asked for than there are, or there is only one: `Gauden.WorseningExactly`.
- A multiplexed HMM keeps one path a state, and paths with different sequence ids read different senones, so over
  whole paths it is optimal while one id is all it sees (`HmmMpx.MpxRunIsViterbi`); a later id can make an earlier,
  worse entry win: `HmmMpx.LaterIdLoses`.
- A lattice link "from" a node may rest on another node's table entry: `Lattice.LinkMayUseOtherNode` is an instance,
  `Lattice.LinksOwnExactly` says when for a lattice, and `Lattice.TableLinksOwnExactly` for a table.
- `ngram_search_find_exit` looks only at frames before the last, and its check of the end index fails on a table that
  is exactly full: `NgramSearch.NgramState.FindExit` says when, `NgramSearch.FullTableTrips` is an instance.

## Model

| member | source | states |
|---|---|---|
| Hmm.InPlaceIsSimultaneous | src/hmm.c:222-350 | updates made in place from the highest state down, each reading only its own and lower states, give what a simultaneous update of all states from the old record gives |
| Hmm.Chain3IsApplied | src/hmm.c:529-607 | the order exit, 2, 1, 0 of the 3-state code is such an update |
| Hmm.Chain5IsApplied | src/hmm.c:222-350 | so is the order of the 5-state code |
| Hmm.TiesExact | src/hmm.c:536-585 | of equally good sources the next lower state is taken before the state itself, and the one below that only when better than both |
| Hmm.HmmRecord.Clear | src/hmm.c:180-196 | all scores, the exit and the best become WORST_SCORE, all histories -1, the frame -1 |
| Hmm.HmmRecord.Enter | src/hmm.c:198-204 | state 0 gets the score and history, the record the frame, nothing else changes |
| Hmm.HmmRecord.EvalAnytopo | src/hmm.c:709-784 | the nested loops over destinations and sources compute the generic step in place |
| Hmm.HmmRecord.Eval3Lr | src/hmm.c:529-607 | the 3-state left-to-right code computes its step in place |
| Hmm.HmmRecord.Eval5Lr | src/hmm.c:222-350 | the 5-state left-to-right code computes its step in place |
| Hmm.HmmRecord.Eval3LrMpx | src/hmm.c:609-707 | the multiplexed 3-state code, with its sequence ids moving along |
| Hmm.HmmRecord.Eval5LrMpx | src/hmm.c:355-527 | the multiplexed 5-state code |
| Hmm.HmmRecord.VitEvalInPlace | src/hmm.c:786-805 | the dispatch on topology and multiplexing |
| HmmOptimal.AnyStepOptimal | src/hmm.c:709-784 | one generic step gives every state and the exit the best of all transitions into it, with the history of a best source |
| HmmOptimal.ViterbiOptimal | src/hmm.c:709-784 | after any sequence of entries and evaluations from a cleared record, each state's and the exit's score is the maximum over all state paths of entry score plus senone and transition scores, and its history is the one entered at the start of a maximising path; no condition on matrix or scores |
| HmmOptimal.OptimalUnique | src/hmm.c:709-784 | two records that are both optimal for a run agree on every live score |
| HmmUnrolled.CoveredIsOptimal | src/hmm.c:222-350 | the unrolled evaluators are Viterbi-optimal over any run clear of the floor, on the matrices they cover |
| HmmUnrolled.GuardsExact | src/hmm.c:236-300 | what the guards of the plain unrolled code leave as it was: the exit when its last source is at the floor, states 3 and 4 when the state two below is |
| HmmUnrolled.ReportedExact | src/hmm.c:231-349 | from any state at all, the best score the plain unrolled code reports is the greatest of the scores it writes, the exit among them |
| HmmUnrolled.RefinesGeneric | src/hmm.c:529-607 | there they have the same live state scores, exit and best score as the generic evaluator |
| HmmRuns.RecordIsOptimal | src/hmm.h:204-209 | from hmm_init over raw frames, each state and the exit hold the maximum over all state paths since the last clearing, a path adding the score of every state's own senone in every frame |
| HmmExact.ExactlyCovered | src/hmm.h:107-133 | an evaluator is optimal on every run clear of the floor if and only if its matrix is covered |
| HmmExact.OptimalImpliesCovered3 | src/hmm.c:529-607 | on any other 3-state matrix some short run misses the optimum |
| HmmExact.OptimalImpliesCovered5 | src/hmm.c:222-350 | likewise on any matrix other than the 5-state diagram |
| HmmExact.SkipUnsafeShows | src/hmm.c:560-585 | the reused `t2`: with a cheap 1 to exit and no 0 to 2 transition a run goes wrong |
| HmmMpx.MpxRefinesGeneric | src/hmm.c:355-527 | the multiplexed evaluators choose the same scores, exit and best as the generic one, each the best over sources with the source's history and sequence id |
| HmmMpx.MpxRunIsOptimal | src/hmm.c:609-707 | over any run from hmm_init, with clearing, entries and new sequence ids, a state without a sequence never holds a path, and on covered matrices every evaluation is one optimal step |
| HmmMpx.MpxRunIsViterbi | src/hmm.c:355-527 | while no second sequence id is stored, the record after any run holds in each state and the exit the maximum over all state paths since it was last cleared, with the history of a maximising path |
| HmmMpx.LaterIdLoses | src/hmm.c:609-707 | with a second id it need not: on a covered matrix a run with one entry more ends with a lower score in state 1 |
| HmmMpxExact.ExactlyCoveredMpx | src/hmm.c:355-527 | from every record a run can reach, the multiplexed code finds the generic live scores if and only if its matrix is covered, which are the matrices of the plain code |
| HmmMpxExact.SkipUnsafeDisagrees | src/hmm.c:640-675 | the reused `t2` of the multiplexed code |
| HmmRange.ClampedStaysInt32 | src/hmm.h:83-89 | from scores in range the four clamping evaluators form no sum outside int32 and stay in range |
| HmmRange.ClampedRunStaysInt32 | src/hmm.c:222-350 | so over any run entered with scores in range |
| HmmRange.LooplessRunStaysNear | src/hmm.c:709-784 | without a loop on state 0 the generic scores stay within one transition of the floor on any run |
| HmmRange.GenericStateZeroSinks | src/hmm.c:740-776 | with it state 0 sinks without bound when no path feeds it |
| HmmRange.GenericFitsExactly | src/hmm.c:709-784 | so on all runs entered with scores in range the generic state and exit scores stay within int32 if and only if state 0 has no loop |
| HmmRange.MpxFitsExactly | src/hmm.c:786-805 | a multiplexed record does so if and only if it has an unrolled evaluator or no loop on state 0 |
| FsgHistory.ListInvariant | src/fsg_history.h:121-147 | after any offers with non-empty contexts a list is sorted by descending score, its context sets are non-empty and disjoint, and the owner of each right context is the best offer for it, the earliest on ties |
| FsgHistory.BestOfferIsEarliestMax | src/fsg_history.c:158-209 | the best offer said by position: none beats it and no earlier one equals it |
| FsgHistory.KeptContexts | src/fsg_history.c:158-209 | the union of the kept context sets is the union of those offered |
| FsgHistory.KeptAreOffers | src/fsg_history.c:158-209 | every kept entry is an offer with part of its contexts |
| FsgHistory.ListsAreSeparate | src/fsg_history.c:165-209 | each list depends only on the offers for its state and left context |
| FsgHistory.OfferIsCovered | src/fsg_history.c:133-214 | for each offer and each of its right contexts some survivor does at least as well |
| FsgHistory.SurvivorIsOffer | src/fsg_history.c:217-240 | what reaches the table is an offer with part of its contexts |
| FsgHistory.History.EntryAdd | src/fsg_history.c:133-214 | initial entries go to the table, others into their list |
| FsgHistory.History.InsertInPlace | src/fsg_history.c:165-209 | the two loops over a list insert the entry and strip its contexts from the entries after it |
| FsgHistory.History.EndFrame | src/fsg_history.c:217-240 | the lists' entries are appended to the table row by row and the lists emptied |
| FsgHistory.History.Reset | src/fsg_history.c:248-253 | the table is emptied |
| FsgSound.StepKeepsActive | src/fsg_search.c:690-770 | one frame keeps the active list exact: without duplicates the nodes of the current frame, every other node cleared |
| FsgSound.StartIsActive | src/fsg_search.c:773-827 | the start of an utterance on a clean network makes it so |
| FsgSound.StayActivity | src/fsg_search.c:510-553 | keeping a node for the next frame preserves the invariant, so the frame asserts hold |
| FsgSound.FinishClears | src/fsg_search.c:830-851 | the end of an utterance clears every node |
| FsgSound.ActiveWithinNodes | src/fsg_search.c:351-356 | the active count never exceeds the number of nodes, so the check on it cannot fire |
| FsgPaths.StepKeepsSound | src/fsg_search.c:690-770 | with phone and word thresholds above WORST_SCORE a frame keeps: histories stay in their state's tree, live scores have histories, every entry continues an earlier one by a transition, frames are ordered |
| FsgPaths.UnreachedExitExact | src/fsg_search.c:540-548 | an alive leaf whose exit nothing has reached is offered without a predecessor if and only if the word threshold is not above WORST_SCORE |
| FsgFloor.BelowFloorIsUnsound | src/fsg_search.c:545-551 | an utterance of one frame, with the word threshold at the floor, whose history table then has an entry without a predecessor |
| FsgPaths.StartIsSound | src/fsg_search.c:773-827 | the start makes it so |
| FsgPaths.EvalNodeHist | src/fsg_search.c:335-408 | evaluation only moves histories within a node |
| FsgPaths.TransHist | src/fsg_search.c:411-443 | a transition to a child passes on a history of the same tree |
| FsgPaths.NullsGood | src/fsg_search.c:559-613 | null propagation appends entries that continue their predecessors |
| FsgPaths.WordsHist | src/fsg_search.c:616-687 | word transitions enter only roots of the state the entry ends in |
| FsgRun.RunIsActiveExact | src/fsg_search.c:690-770 | the active list is exact at every frame of every utterance |
| FsgRun.RunIsSound | src/fsg_search.c:690-770 | soundness at every frame of every utterance whose thresholds stay above the floor |
| FsgRun.UtterancesAreIndependent | src/fsg_search.c:830-851 | an utterance leaves the network as clean as it found it |
| FsgRun.BacktraceIsPath | src/fsg_search.c:977-1030 | every backtrace ends at the root and spells a path of the grammar from its start state |
| FsgRun.DecodingIsSound | src/fsg_search.c:411-825 | at any time of any such utterance, any backtrace is a path of the grammar from its start state to the entry's state, within the frames decoded |
| FsgLossless.WordTransBest | src/fsg_search.c:616-687 | each root's in-score is the best of the old one and all offers of matching entries, with the history of a best offer |
| FsgLossless.PruningLosesNothing | src/fsg_search.c:559-687 | with pruning in two stages and null propagation between, every root gets the in-score it would get if every word exit had been kept |
| FsgLossless.StepLosesNothing | src/fsg_search.c:690-770 | so in every step of the search |
| FsgFlow.PruneFlows | src/fsg_search.c:411-553 | after pruning and propagation a node's in-score is the best of its own and of what its surviving predecessors pass on, with the history to match, in whatever order the active list is visited |
| FsgFlow.PruneExits | src/fsg_search.c:446-553 | the word exits offered are exactly those of the active leaves whose scores pass the thresholds |
| FsgFlow.EvalFromBest | src/fsg_search.c:340-408 | the frame's best score is the best that an evaluated node reports |
| FsgOptimal.EntriesUpper | src/fsg_search.c:446-611 | every alignment that ends a word in a frame has, for each of its right contexts, a history entry with its state, left context and at least its score |
| FsgOptimal.EntriesAligned | src/fsg_search.c:446-611 | every entry made in the frame has the score of an alignment, and its backtrace spells that alignment's transitions |
| FsgOptimal.NextIsBest | src/fsg_search.c:690-765 | one frame keeps it that each state of each node holds the best score of the alignments there |
| FsgBest.StartIsBest | src/fsg_search.c:773-825 | so it is before the first frame |
| FsgBest.RunIsBest | src/fsg_search.c:690-825 | and before every frame: no alignment beats what its state holds, what a live state holds is the score of an alignment there, and its history leads back along that alignment |
| FsgBest.ExitsAreBest | src/fsg_search.c:690-825 | the entries of every frame are the best word exits, for every right context |
| FsgBest.ExitExists | src/fsg_search.c:882-953 | there is an acceptable exit in the latest frame if and only if some alignment ends a word there (in the final state, if asked for) |
| FsgBest.DecodingIsOptimal | src/fsg_search.c:690-953 | the score of the exit chosen is the maximum over all alignments of the frames with words, phones and states of the grammar, and the backtrace spells the words of an alignment that attains it |
| FsgBest.TableIsReadable | src/fsg_search.c:890-903 | at every frame the table meets what `FsgResult.FindExit` demands, and its scan stops at the latest entry |
| FsgWords.AlignmentIsGrammarPath | src/fsg_search.c:411-687 | what any alignment spells is a path of the grammar from the start state to where it is |
| FsgWords.PathAligned | src/fsg_search.c:616-687 | with the trees as built, every path of the grammar can be aligned in its words' contexts, with any number of frames that its phones can take and whatever may follow it |
| FsgWords.BestOfTheGrammar | src/fsg_search.c:690-953 | the words reported are a path of the grammar, and whatever path fits in the frames has alignments, none of which scores better than the exit chosen |
| FsgWords.GrammarPathIsFound | src/fsg_search.c:882-953 | a path of the grammar that fits in the frames is enough for an exit to be found |
| FsgBeams.TotalBounds | src/fsg_search.c:411-687 | an alignment's score falls per frame by at most a senone score, a transition and two grammar scores |
| FsgBeams.BeamsAreWide | src/fsg_search.c:515-527 | beams below the lowest such score, phone and word beams within its distance of the floor, prune nothing, as long as some alignment lasts to the end |
| FsgMachine.FsgSearch.HmmEval | src/fsg_search.c:335-408 | the loop over active nodes evaluates each and finds the best score |
| FsgMachine.FsgSearch.PnodeTrans | src/fsg_search.c:411-443 | the loop over children enters those whose score beats the threshold and their own |
| FsgMachine.FsgSearch.PnodeExit | src/fsg_search.c:446-507 | a leaf's exit is offered to the history, for all contexts when the word models none |
| FsgMachine.FsgSearch.HmmPruneProp | src/fsg_search.c:510-553 | the pruning loop |
| FsgMachine.FsgSearch.NullProp | src/fsg_search.c:559-613 | the entries of the frame are offered on through null transitions |
| FsgMachine.FsgSearch.WordTransAll | src/fsg_search.c:616-687 | the entries of the frame enter the roots of their states |
| FsgMachine.FsgSearch.DeactivateStale | src/fsg_search.c:741-762 | nodes that stayed behind are cleared |
| FsgMachine.FsgSearch.StepFrame | src/fsg_search.c:690-770 | one frame in place is the step on values |
| FsgMachine.FsgSearch.StartUtterance | src/fsg_search.c:773-827 | likewise the start of an utterance |
| FsgMachine.FsgSearch.FinishUtterance | src/fsg_search.c:830-880 | likewise its end |
| FsgResult.FindExit | src/fsg_search.c:882-953 | the exit chosen is in the last frame with exits, acceptable, of best score, and ends in the final state if an equally good acceptable one does; no acceptable exit gives -1 |
| FsgResult.FinalExitIsSentence | src/fsg_search.c:882-953 | the exit chosen with `final` set has a backtrace from the start state to the final state |
| FsgResult.Measure | src/fsg_search.c:990-1005 | the first pass counts the room the hypothesis needs |
| FsgResult.Hypothesis | src/fsg_search.c:977-1036 | the second pass visits the same chain and fills the buffer exactly with the words of the path, single spaces between |
| FsgResult.SpokenReports | src/fsg_search.c:1009-1032 | the words reported are the base spellings of exactly the transitions that are neither null nor of a filler, in the order of the path |
| HypString.JoinExact | src/fsg_search.c:1018-1032 | in the string each word starts where those before it, with a space after each, end |
| HypString.HypBuffer.Prepend | src/fsg_search.c:1018-1032 | one word in front of those there, with a space if more are to come |
| FsgContexts.Contexts.MarkOwn | src/fsg_lextree.c:110-145 | the flags are each state's own contexts |
| FsgContexts.Contexts.PropagateNulls | src/fsg_lextree.c:147-165 | one in-place pass, in any arc order, adds exactly the contexts of null-reachable neighbours |
| FsgContexts.CarriedWithin | src/fsg_lextree.c:147-165 | contexts carried over a null transition stay within bounds because the transitions are closed |
| FsgContexts.ListedIsSortedSet | src/fsg_lextree.c:168-205 | the indices of the flags set, in increasing order |
| FsgContexts.Contexts.CompactRow | src/fsg_lextree.c:168-205 | a row of flags becomes its list in place, terminated within n_ci + 1 slots |
| FsgContexts.Contexts.LcRc | src/fsg_lextree.c:85-206 | every row ends as the terminated list of the state's contexts in increasing order |
| FsgLextree.TreeBuilder.AddSingleContext | src/fsg_lextree.c:408-446 | a left context of a one-phone word shares the leaf of its senone sequence or gets a new one |
| FsgLextree.TreeBuilder.AddFiller | src/fsg_lextree.c:450-470 | a filler gets one root that is a leaf for all contexts |
| FsgLextree.TreeBuilder.NewGroup | src/fsg_lextree.c:485-561 | words with the same first two phones share one root that takes all left contexts |
| FsgLextree.TreeBuilder.InnerPhone | src/fsg_lextree.c:563-605 | an inner phone shares a child of its senone sequence or becomes a new one, and the path so far still spells the word |
| FsgLextree.TreeBuilder.LeafContext | src/fsg_lextree.c:615-652 | a right context goes to the leaf of its senone sequence |
| FsgLextree.TreeBuilder.AddTrans | src/fsg_lextree.c:360-694 | a transition's word is in the tree for all its left and right contexts, and every word before it still is |
| FsgLextree.TreeBuilder.Init | src/fsg_lextree.c:697-741 | the tree of a state has every word transition that leaves the state, for all contexts |
| FsgLextree.PathSpellsWord | src/fsg_lextree.c:360-694 | whatever path leads from a root to a leaf spells the word of the leaf's transition, which leaves the tree's own state, and its scores add up to the transition's plus the word and phone penalties |
| FsgLextree.JoinPartial | src/fsg_lextree.c:242-251 | one more state's tree keeps all trees within their own nodes |
| FsgLextree.BuildLextree | src/fsg_lextree.c:208-266 | the trees built for all states are what the search requires; each has every word that leaves its state, in all contexts, and whatever path leads to a leaf spells the leaf's word, with nodes trained for the contexts they take |
| FsgLextree.TrainedUp | src/fsg_lextree.c:408-652 | in the trees built, a leaf has the senones that the tables give for every context it takes, takes none but those offered, and has its phone's matrix; a root takes the state's left contexts, has the senones of one of them and its phone's matrix |
| FsgLextree.ScoredUp | src/fsg_lextree.c:520-640 | the penalties are at the root, a phone penalty at each inner node, the transition's score at the leaf |
| FsgLextree.SameNode | src/fsg_lextree.c:497-605 | words that begin with the same two phones and go on with the same senone sequences go through the same nodes that far |
| FsgLextree.MatricesExact | src/fsg_lextree.c:563-605 | every inner node on the paths of a state has the matrix of its word's own phone if and only if the words that share nodes have the same matrix there |
| FsgLextree.MatricesMayDiffer | src/fsg_lextree.c:570-578 | a lexicon with two words that share a node and differ |
| FsgLextree.ContextsFit | src/fsg_lextree.c:233-245 | the context lists computed before are what the trees are built with |
| FsgReach.Marker.MarkReachable | src/fsg_search.c:1354-1378 | exactly the nodes from which links lead to the end node are marked, whatever the order |
| NgramTable.SaveKeepsInv | src/ngram_search.c:377-498 | a save keeps: one entry per word and frame, predecessors earlier in table and time, disjoint in-bounds slices, each entry the best save of its word and frame, each slot what was saved for its right context |
| NgramTable.ResetKeepsInv | src/ngram_search.c:377-498 | so does the callers' reset between frames |
| NgramTable.RunKeepsInv | src/ngram_search.c:377-498 | over any run of saves and frame changes that keeps the callers' discipline |
| NgramTable.DroppedKeepsInv | src/ngram_search_fwdtree.c:1187-1238 | marking an entry as pruned keeps it too |
| NgramTable.RunFromBegin | src/ngram_search.c:377-498 | hence it holds at every moment of a search that starts with an empty table |
| NgramTable.ValidExactly | src/ngram_search.c:405-463 | an entry is valid from its first save until it is pruned |
| NgramTable.ScoreIsSliceMax | src/ngram_search.c:394-436 | an entry's score is the maximum of its slice |
| NgramTable.ChainIsPath | src/ngram_search.c:555-562 | along a backtrace indices and frames strictly increase and each entry is the predecessor of the next |
| NgramTable.BpTable.SaveBp | src/ngram_search.c:377-498 | the save in place, growing the two arrays when needed |
| NgramTable.BpTable.BpIter | src/ngram_search.c:958-997 | the two passes visit the same finite chain and fill the array exactly |
| NgramTable.BpTable.BpHyp | src/ngram_search.c:544-590 | the two passes fill the hypothesis buffer exactly with the words of the chain |
| NgramTable.SpokenReports | src/ngram_search.c:560-588 | the words are the base spellings of exactly the real words of the chain, in order |
| NgramTable.BpTable.ExitScore | src/ngram_search.c:654-674 | the score with which an entry leaves into a right context is what was saved for it |
| NgramSearch.ApplyKeepsMarks | src/ngram_search.c:323-340 | the index of each frame splits the table into entries before and from that frame, whatever is saved or pruned |
| NgramSearch.NextMark | src/ngram_search.c:323-340 | so it does when the next frame is marked |
| NgramSearch.ExitUnique | src/ngram_search.c:500-540 | only one entry can be the exit |
| NgramSearch.NgramState.MarkBptable | src/ngram_search.c:323-340 | the mark in place, with its growing |
| NgramSearch.NgramState.EndFrame | src/ngram_search_fwdtree.c:1264-1266 | the loop over the entries of the frame resets the words that have any |
| NgramSearch.NgramState.Replay | src/ngram_search_fwdtree.c:1453-1495 | any disciplined run in place, with all marks right |
| NgramSearch.NgramState.FindExit | src/ngram_search.c:500-540 | the exit is in the last frame with entries before the one asked for: the final word, else the best, the first on ties; and exactly when its assert fails |
| NgramSearch.FullTableTrips | src/ngram_search.c:527 | a table exactly full fails the assert |
| Lattice.TableIsDone | src/ngram_search.c:1066-1122 | the table of any disciplined run is one that a lattice can be built from |
| Lattice.Dag.CreateNodes | src/ngram_search.c:1066-1122 | one node for each word and start frame of the kept entries, spanning its first to its last entry, latest first entry first |
| Lattice.NodesDistinct | src/ngram_search.c:1095-1120 | no two nodes share a word and a start frame |
| Lattice.PredecessorsLater | src/ngram_search.c:1252-1260 | what precedes a node in time comes later in the list and starts earlier, so scanning from the next node on misses nothing |
| Lattice.JoinedInTime | src/ngram_search.c:1292-1317 | the time test passes over no pair that a table entry joins |
| Lattice.KeptExact | src/ngram_search.c:1066-1122 | which entries get a node |
| Lattice.SpanExact | src/ngram_search.c:1283-1290 | a node is wide enough exactly when two of its entries end that far apart |
| Lattice.ChainsGoForward | src/ngram_search.c:1252-1260 | along links start frames strictly increase: the lattice has no cycle |
| Lattice.MarkingIsReachability | src/ngram_search.c:1274-1350 | after the single pass a node is marked exactly when a chain of links leads from it to the end node |
| Lattice.DroppedNodesUseless | src/ngram_search.c:1262-1273 | nodes before the end node in the list cannot reach it |
| Lattice.Dag.LinkPair | src/ngram_search.c:1293-1349 | one pair of nodes: a link, with its score and end frame, exactly when an entry joins them and its path score allows it |
| Lattice.Dag.LinkAll | src/ngram_search.c:1274-1350 | the links are exactly the allowed pairs into marked nodes, whatever order and reachability had to be at the time |
| Lattice.MarkedHaveSpan | src/ngram_search.c:1283-1290 | no marked node but the end node has too few end frames, so the second pruning test never fires |
| Lattice.ArcSeen | src/ps_lattice.c:63-101 | no pair is linked twice |
| Lattice.LinkNeverBetter | src/ngram_search.c:1319-1333 | a link scores no better than the segment of its entry |
| Lattice.LinkScoreExact | src/ngram_search.c:1319-1343 | an entry allows a link exactly when its exit into the following word's right context was saved and leaves the segment above the floor; the link's score is the segment's, less what that exit was saved with below the best, or unlikely when positive |
| Lattice.AddLinkExact | src/ngram_search.c:1340-1349 | of two links between the same nodes the better stays |
| Lattice.RunLinksAreScored | src/ngram_search.c:1319-1349 | so every link of any lattice on the table of a disciplined run is scored |
| Lattice.LinkMayUseOtherNode | src/ngram_search.c:1306-1317 | the entry behind a link may start in another frame than its node |
| Lattice.LinksOwnExactly | src/ngram_search.c:1293-1317 | all links of a lattice rest on entries that start where their node starts if and only if no entry that a later node can follow lies inside a node of its word with another start frame |
| Lattice.TableLinksOwnExactly | src/ngram_search.c:1066-1122 | all lattices of a table, whatever the configuration, do so if and only if no entry with a way out and a word starting just after it lies between two entries of its word that start together in another frame |
| Lattice.FollowingArc | src/ngram_search.c:1293-1349 | the node of an entry has an arc to the node of the entry that follows it, resting on the entry itself and on no other, if and only if its node is wide enough and the entry can leave into the following word |
| Lattice.BacktraceHasNodes | src/ngram_search.c:1066-1122 | a backtrace of kept entries has its nodes in the lattice |
| Lattice.BacktraceIsChain | src/ngram_search.c:1293-1349 | it is a chain of arcs if and only if that holds at each of its entries |
| Lattice.BacktraceIsLinked | src/ngram_search.c:1274-1350 | in the lattice of the last entry's node it is then linked from end to end, each link with the score of its own entry |
| Lattice.Dag.Build | src/ngram_search.c:1211-1356 | the whole: links, marks in terms of reachability among all nodes, and success exactly when the start node reaches the end node |
| FeatRing.StoreKeeps | src/acmod.c:765-794 | a full circular buffer refuses a frame; any other store keeps the last n_feat_alloc frames each in its place |
| FeatRing.RoomExact | src/acmod.c:765-783 | the buffer grows by doubling, no more often than the frame needs, and not at all in circular mode |
| FeatRing.AdvanceKeeps | src/acmod.c:867-877 | consuming a frame keeps them |
| FeatRing.GetFrameExact | src/acmod.c:1035-1074 | a frame number is accepted exactly when it is not negative and not overwritten, and a fed frame comes back as it was fed |
| FeatRing.FutureFrameAliases | src/acmod.c:1035-1056 | a frame not fed yet is never refused, however far ahead: the fed frame whose place it would take comes back, or what the buffer held there before any was fed into it |
| FeatRing.CircularRun | src/acmod.c:765-877 | the circular buffer refines the sequence of frames taken in, over any run |
| FeatRing.GrowingRun | src/acmod.c:765-877 | in grow mode, with any number of rewinds, nothing offered is ever lost |
| FeatRing.GetFrameAll | src/acmod.c:1058-1074 | in grow mode every fed frame comes back |
| FeatRing.RewindReplays | src/acmod.c:845-877 | after a rewind repeated advance yields the whole utterance again in order |
| FeatRing.CircularRewind | src/acmod.c:845-865 | a rewound buffer is sound exactly when it never held more frames than it has room for |
| FeatRing.RewindTooLate | src/acmod.c:845-865 | a circular buffer that lost a frame and is rewound all the same |
| FeatRing.FeatureBuffer.ProcessFeat | src/acmod.c:765-794 | the store in place, with its growing |
| FeatRing.FeatureBuffer.AdvanceOutput | src/acmod.c:867-877 | the advance in place |
| FeatRing.FeatureBuffer.RewindOutput | src/acmod.c:845-865 | the rewind in place, in either mode, and when it leaves a sound buffer |
| FeatRing.FeatureBuffer.StartUtt | src/acmod.c:394-420 | the start of an utterance in a mode |
| FeatRing.FeatureBuffer.Frame | src/acmod.c:1019-1074 | the frame number resolved and the frame fetched with C's remainder |
| FeatRing.FeatureBuffer.ReadAll | src/acmod.c:845-877 | rewinding and reading on gives exactly the frames fed |
| Senones.ListIsExact | src/acmod.c:1223-1275 | for any flags, running sums of the byte deltas strictly increase, stay below n_sen, include every flagged senone and others only to bridge gaps over 255 |
| Senones.ListFits | src/acmod.c:1223-1275 | the list never exceeds n_sen entries, and lists every senone when it has that many |
| Senones.RoundTripExact | src/acmod.c:879-971 | reading back a frame restores every listed score, puts the dummy in every other senone but the first, and leaves the file at the next frame, exactly when the list has fewer than 32768 entries |
| Senones.FullListRoundTrips | src/acmod.c:899-902 | the uncompressed format, which is right because such a list covers every senone |
| Senones.LongListLosesFrame | src/acmod.c:896-898 | a longer list has its count cut and the reader stops elsewhere |
| Senones.AllActiveExact | src/acmod.c:896-898 | with all n senones active a frame can be read back if and only if n is below 32768 |
| Senones.SenoneState.Flags2List | src/acmod.c:1223-1275 | the loops over words and bits build that list within the buffer, skipping empty words |
| Senones.SenoneState.WriteScores | src/acmod.c:879-917 | the bytes of a frame |
| Senones.FrameLayout | src/acmod.c:879-917 | where the count, the deltas and each score are in a frame, low byte first, and when the deltas are left out |
| Senones.SenoneState.ReadScores | src/acmod.c:922-980 | reading a frame in place, with its dummies and its failures |
| Mdef.AddHolds | src/mdef.c:131-169 | adding a triphone keeps the nested lists exact and refuses exactly one that is there |
| Mdef.Text.TriphoneAdd | src/mdef.c:131-169 | the addition to the two list levels in place |
| Mdef.RegionsAdjacent | src/bin_mdef.c:154-183 | the cursors' regions of CI, LC and RC nodes are adjacent and end exactly at n_cd_tree |
| Mdef.BinMdef.Count | src/bin_mdef.c:154-183 | the first walk computes the size and the start of each region |
| Mdef.BinMdef.FillNext | src/bin_mdef.c:197-255 | one row of the second walk fills its part of three regions and disturbs no other |
| Mdef.BinMdef.Fill | src/bin_mdef.c:184-256 | the second walk leaves a tree that represents the nested lists |
| Mdef.BinMdef.constructor | src/bin_mdef.c:154-256 | the flattening of the whole definition |
| Mdef.BinMdef.Walk | src/bin_mdef.c:770-809 | the walk down the tree finds what a search of the nested lists finds |
| Mdef.BinMdef.PhoneId | src/bin_mdef.c:743-810 | returns p exactly when triphone p was added with that base, position and contexts (fillers as silence), the base phone without a context, else -1 |
| Mdef.BinMdef.PhoneIdNearest | src/bin_mdef.c:812-864 | the triphone at the first of the backoff places that has one, else the base phone |
| Mdef.NearestHasBase | src/bin_mdef.c:812-864 | the nearest phone has the base asked for, and is the exact triphone when there is one |
| Mdef.NearestExact | src/bin_mdef.c:812-864 | said of the triphones alone: a triphone in the contexts asked for at any word position, else one with silence where the word begins or ends, else the base phone; of several positions the one asked for, then the lowest |
| Dict2Pid.CompressionExact | src/dict2pid.c:51-80 | compression is lossless exactly when no new value follows an empty entry |
| Dict2Pid.CompressTable | src/dict2pid.c:51-80 | the two loops compute the distinct values by first occurrence and the place of each, in place |
| Dict2Pid.FullRowLossless | src/dict2pid.c:83-138 | a wholly filled row is recovered from its compressed form |
| Dict2Pid.PartRowLoses | src/dict2pid.c:51-80 | a row with an empty entry before a value is not recovered |
| Dict2Pid.FinalLossless | src/dict2pid.c:83-138 | every filled row of right contexts is recovered from its compressed form, phone by phone |
| Dict2Pid.WordFinalIsXwd | src/dict2pid.c:440-486 | after building, the last phone of every word of several phones has a full list of right contexts, as the lexical trees need |
| Dict2Pid.EdgeRows | src/dict2pid.c:440-486 | a row is filled exactly when a word has that edge or a one-phone word fills it, and for the word position of the later of the two |
| Dict2Pid.WordRowsRight | src/dict2pid.c:440-486 | without silence next to its edges every word's rows are for the position they are read at |
| Dict2Pid.IncrementalExact | src/dict2pid.c:300-355 | adding a word of several phones equals rebuilding with the larger dictionary exactly when neither of its rows was filled by a one-phone word alone |
| Dict2Pid.SingleIncrementalExact | src/dict2pid.c:356-364 | adding a word of one phone equals rebuilding exactly when one with that phone is there or there is no silence phone |
| Dict2Pid.IncrementalCells | src/dict2pid.c:300-355 | the cells shown after adding are those shown after rebuilding if and only if the lookups of every edge that clashes are the same at both word positions, for every phone outside |
| Dict2Pid.ClashShows | src/dict2pid.c:309-326 | a clash that shows |
| Dict2Pid.TwoPositionsExist | src/dict2pid.c:309-326 | there is such a phone set |
| Dict2Pid.AddAllIsBuild | src/dict2pid.c:300-355 | any number of such words without silence next to their edges |
| Dict2Pid.ContextTables.PopulateLrdiph | src/dict2pid.c:269-298 | all triphones of a one-phone word, and the rows read with silence outside |
| Dict2Pid.ContextTables.constructor | src/dict2pid.c:390-499 | the tables built hold exactly the lookups of the filled rows |
| Dict2Pid.ContextTables.Add | src/dict2pid.c:300-367 | so do the tables after a word is added |
| Dict2Pid.ContextTables.AddedIsRebuilt | src/dict2pid.c:300-355 | the same of two tables in memory, cell by cell |
| Dict2Pid.ContextTables.CacheAgrees | src/dict2pid.c:390-499 | every ldiph_lc and decompressed rssid entry of a dictionary word equals the senone sequence of the nearest phone |
| Jsmn.CountIsEnough | src/jsmn.h:270-455 | if counting gives n, parsing with n tokens or more never runs out, succeeds exactly when brackets are balanced by type, and then gives n |
| Jsmn.SuccessIsCount | src/jsmn.h:270-455 | any parse that succeeds gives what counting gives |
| Jsmn.SuccessIsBalanced | src/jsmn.h:310-362 | success against the stack of open brackets, from any state |
| Jsmn.ResumeIsOneShot | src/jsmn.h:102-119 | a parser that ran out of tokens goes on with more as if it had had them from the start |
| Jsmn.TokensWellFormed | src/jsmn.h:63-77 | whatever the text, tokens are ordered by start, nested or disjoint, bounded as their type says; after a success all are closed |
| Jsmn.SizesCountTokens | src/jsmn.h:291-302 | the sizes add up to the number of tokens made below another one; those at top level are the rest |
| JsonText.ValueParsed | src/jsmn.h:270-455 | a value is parsed into its own tokens, counted once for its parent, wherever it stands |
| JsonText.JsonIsParsed | src/jsmn.h:63-77 | a text that is written, character by character, as a JSON value (section 2 of RFC 8259) is accepted, and its tokens are its values and keys in order, each with its extent and its size the number of its children |
| JsonText.JsonIsCounted | src/jsmn.h:102-119 | the counting pass gives their number |
| JsonChars.StringEndExact | src/jsmn.h:193-265 | a string ends at a quote exactly when plain characters and backslashes with one of the eight escapes of section 7 of RFC 8259 go on to it |
| JsonChars.StringErrorExact | src/jsmn.h:224-263 | it is invalid exactly when it comes to a backslash that escapes nothing, and unfinished exactly when the text ends first |
| JsonChars.PrimitiveEndExact | src/jsmn.h:135-188 | an unquoted value ends exactly where printable characters go on to a delimiter |
| JsonChars.PrimitiveErrorExact | src/jsmn.h:162-166 | it is invalid exactly when they go on to another character |
| JsonChars.EventExact | src/jsmn.h:270-455 | which lexical element begins at a character |
| Jsmn.Parser.ParseString | src/jsmn.h:193-265 | a string up to its closing quote, or the error with the position restored |
| Jsmn.Parser.ParsePrimitive | src/jsmn.h:135-188 | an unquoted value up to its delimiter, likewise |
| Jsmn.Parser.CloseToken | src/jsmn.h:310-362 | the innermost open token is closed if its type fits, and the one around it becomes the super-token |
| Jsmn.Parser.CommaToken | src/jsmn.h:381-398 | after a key the super-token is the innermost open container again |
| Jsmn.Parser.Parse | src/jsmn.h:270-455 | the loop terminates and is the counting function without tokens, the parsing function with them |
| Gauden.PartialFalls | src/ms_gauden.c:451-468 | with non-negative precisions a density only falls, so abandoning is safe |
| Gauden.ValuesAre | src/ms_gauden.c:451-468 | a codeword's value is its determinant less the sum of the squared distances from its mean, each weighted with its own precision |
| Gauden.SelectionExact | src/ms_gauden.c:425-483 | the list left is the n best of the fully computed values, worsening, later codeword first on ties, exactly when at least n densities reach WORST_DIST |
| Gauden.TopNUnique | src/ms_gauden.c:425-483 | there is only one such list |
| Gauden.InsertListed | src/ms_gauden.c:473-479 | an insertion keeps the list the best so far |
| Gauden.SkipListed | src/ms_gauden.c:470-471 | so does passing over a worse codeword |
| Gauden.ComputeDistAll | src/ms_gauden.c:377-417 | the full computation, in codeword order |
| Gauden.Density | src/ms_gauden.c:447-471 | an abandoned codeword is exactly one whose full value is below the worst listed |
| Gauden.ComputeDist | src/ms_gauden.c:424-483 | the result after all codewords, its order, and when it is the selection |
| Gauden.ListedWorsens | src/ms_gauden.c:470-479 | a list kept by insertion is in worsening order |
| Gauden.WorseningExactly | src/ms_gauden.h:120-130 | the result is in worsening order on every codebook of n codewords if and only if fewer than n are asked for or n is at most one |
| Gauden.DeepIsMissed | src/ms_gauden.c:437-440 | a codebook whose best codeword is not the one left |

## Left out

- Audio, files, logging, configuration, memory freeing, front end, n-gram scoring and mixture weights: scores are arbitrary integers, a senone dump is a sequence of bytes.
- Reference counts, pointers and linked cells: a list is a sequence with its head first, a node is a position in an arena, a bit vector is a set or a sequence of booleans; aliasing between lists is therefore not captured.
- FsgMachine.FsgSearch.HmmEval: beams are floating point; the factor that adjusts them to the number of active nodes is part of each frame's beams.
- FsgPaths.StepKeepsSound: assumes the phone and word thresholds above WORST_SCORE, which the search does not enforce; FsgPaths.UnreachedExitExact shows what happens below it.
- FsgBest.DecodingIsOptimal: the beams prune no alignment of the frames decoded (FsgBeams.BeamsAreWide says when) and the phone and word thresholds are above WORST_SCORE; with narrower beams the search promises no more than FsgRun.DecodingIsSound. The matrices are among those the evaluators get right, and senone scores are at most 32767. Alignments run through the lexical trees; FsgLextree.PathSpellsWord says that the ways through a tree are its words in their contexts.
- FsgWords.PathAligned: takes fillers as words of one phone, the null transitions as closed, so that a path has none after another, and matrices whose states can be stayed in and left for the next (FsgWords.UsualStrides: those of three and five states).
- HmmUnrolled.CoveredIsOptimal: paths that reach WORST_SCORE are excluded, since the unrolled code clamps them; the generic evaluator needs no such condition.
- HmmMpx.MpxRefinesGeneric: says one step; over whole paths HmmMpx.MpxRunIsViterbi needs one sequence id, and HmmMpx.LaterIdLoses shows why.
- Hmm.HmmRecord.EvalAnytopo: sums are unbounded integers; HmmRange.ClampedStaysInt32, HmmRange.GenericFitsExactly and HmmRange.MpxFitsExactly say where int32 suffices.
- FsgContexts.Contexts.LcRc: null transitions are taken as closed under transitivity, which the grammar model establishes elsewhere.
- FsgLextree.TreeBuilder.NewGroup: one root per senone sequence is not claimed: a miss in the search for a root leaves the last root found, so later left contexts share the first one.
- FsgLextree.BuildLextree: sibling chains are sequences; the sharing of one chain by several roots cannot arise because a group has one root.
- FsgReach.Marker.MarkReachable: building the grammar search's lattice and its artificial start and end nodes.
- FsgResult.Hypothesis: the branch that takes the best path through the grammar search's lattice is not modelled.
- NgramTable.BpTable.SaveBp: the language-model words of an entry are not kept, nor the debug and warning branches; the branch for an index of -1 cannot be reached; a later right context of a word needs a path in the table because the source reads its frame.
- NgramTable.RunKeepsInv: saves keep the callers' discipline, one save per word and right context in a frame, a path from an earlier frame, a score above the floor.
- NgramSearch.NgramState.EndFrame: the next frame is marked at once, not when its search begins; which entries are pruned from a frame, and the beam searches that call the table, are not modelled.
- Lattice.Dag.Build: the end node and the start node are given; segment scores and right-context slots are parameters; the order of the link lists, and the freeing of a start node that is listed before the end node, are not modelled.
- FeatRing.FeatureBuffer.ProcessFeat: sizes are unbounded, so the fatal limit on the number of frames never applies; the growing of a wrapped buffer at the end of an utterance, and the functions that feed cepstra and audio, are not modelled.
- Senones.SenoneState.ReadScores: a frame whose count or deltas run past the last senone is refused here; the source does not check it. The test for a full feature buffer in front of the read is left out.
- Mdef.BinMdef.constructor: phone names, senone sequences and the binary file format; the node fields' 16-bit width.
- Dict2Pid.ContextTables.constructor: the compressed left-right table of one-phone words, which is not kept consistent when words are added.
- Jsmn.Parser.Parse: strict mode, parent links and `\u` escapes, which are compiled out; characters are bytes, those from 127 on are refused in unquoted values as negative ones are.
- JsonText.JsonIsParsed: `\u` escapes are not part of the texts, and an unquoted value may be any printable characters up to a delimiter, as the tokenizer has it.
- Gauden.ComputeDist: densities are real numbers, so rounding and fixed-point underflow are not modelled; precisions are taken as non-negative.
- Allphone and keyphrase search, MLLR transforms and phone-name search: easy or repetitive next to these cores.
