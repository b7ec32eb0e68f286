# Verified models of the Generic Reinforcement Learning library

Dafny models of the library's algorithmic cores, with proofs of what they promise. `dafny verify dfyconfig.toml`
checks the whole project. Numbers are exact: doubles become `real`, counters unbounded integers. Random
numbers are inputs, and so is what foreign solvers and plug-in code answer, as far as their contracts allow.

| files | core |
|---|---|
| `ERTreeSpec`, `ERTreeChoice`, `ERTree` | extremely randomized tree: recursive in-place partition of a shared sample array by the best of random splits, as an index that agrees with a linear filter |
| `TraceSpec`, `TraceMeaning`, `Trace` | eligibility traces: a truncated queue of projections standing in for the dense eligibility vector; updates and readings of linear parameters |
| `Paths`, `ConfigTree`, `ConfigCopy`, `ConfigSearch`, `ConfigOrder`, `ConfigInstance`, `ConfigPart`, `ConfigForward`, `ConfigKept`, `ConfigLate`, `ConfigMeaning`, `ConfigText`, `ConfigWalk`, `Configurator` | configuration tree: relative paths, lookup with references that may loop, instantiation with rebased references, recursive reconfiguration, grafting on linked nodes |
| `Handshake`, `Calls` | client and worker thread of the NMPC controller over one mutex, one condition variable and two flags |
| `VectorText`, `Parser`, `Grammar`, `Layout`, `Evaluator`, `Typing` | vectors as text, the expression parser and its inverse, the string-carrying evaluator |
| `StatisticsSpec`, `Statistics` | sliding-window statistics over a circular buffer |
| `Ann` | nearest neighbours: merging a kd-tree search with a linear one |
| `IlqgSpec`, `Ilqg`, `IlqgLinear` | iterative LQG for one state and one control: regularization, line search, acceptance |
| `RequestGen` | the template-instantiation worklist |
| `Fuzz` | the job odometer and the nested configuration it writes |
| `Sampling` | weighted sampling without replacement |
| `Options`, `Reals`, `Sequences` | shared datatypes, sums and means, sequence lemmas |

Code that changes state is a class or a method with loops, proved against a function on values; the laws are lemmas
about these functions.

Where the code does something a reader may not expect, the model follows the code and a lemma says what it does:

- The relative path between two nodes is wrong when the first difference is a `/` of the own path inside a longer name
  of the other path (`ConfigTree.CutNameExample`); it is right in all other cases (`ConfigTree.RelativePathWorksIff`).
- The right-hand variance of a tree split starts from the parent's variance, so declared variances are upper bounds
  (`ERTreeSpec.InflatedBounds`).
- A search for a node may never return: `ConfigSearch.LoopNeverEnds` has the tree. All searches end exactly if the
  parameters have an order in which each value's search comes through lower ones only (`ConfigOrder.SearchesEndIff`).
  If all references look back in document order (`ConfigSearch.LooksBack`), a search finds what it finds among earlier
  nodes (`ConfigSearch.SearchIsFind`), and instantiation keeps the condition, the references and their
  meaning (`ConfigInstance.CopyLooksBack`, `ConfigInstance.ReferencesKept`, `ConfigMeaning.MeaningKept`).
- What a reference comes through may not exist yet when it is instantiated. If it steps up with ".." from a parameter
  whose own target is still missing, it can lead to another node in the new tree (`ConfigLate.LateReferenceMoves`). In
  every tree in which all searches end and no reference steps up from a parameter, all references and their meaning are
  kept (`ConfigKept.EveryReferenceKept`, `ConfigMeaning.SameMeaning`).
- An update uses exactly the items whose weight is above 0.001 (`Trace.LinearRepresentation.UpdateTrace`). Along an
  accumulating trace it can skip some (`TraceSpec.AccumulatingItemIsSkipped`), along a replacing trace it skips none
  (`TraceSpec.NoItemIsSkipped`).
- `get_feedback` without waiting can return the control for an older request (`Handshake.StaleControl`). The next control
  is sure to be the one for a request exactly if no control is announced when the request is provided
  (`Handshake.FreshIffNoneAnnounced`, `Handshake.FreshIffFlagDown`); a client that retrieves each control before it
  provides the next request sees to that.
- The worker's second look at the quit flag, behind the computation, never finds it set (`Calls.QuitComesWhileWaiting`).
- The operator loop of the parser runs past the end of a text that ends in an operator; the model calls such a parse
  undefined (`None`). On texts whose parentheses match, this happens exactly if an operator stands at the end or before a
  closing parenthesis (`Grammar.MatchedIsDefinedIff`); `Grammar.ParseIsDefined` covers all other texts in one direction.
- The comma binds no weaker than `+`, so `[a,b+c]` is not a list of two elements (`Evaluator.CommaBindsLikePlus`).
- If iterative LQG ends because the cost hardly changes, the trajectory it has just accepted is not saved
  (`Ilqg.ILQGSolver.Resolve`).
- Of two fuzzed parameters, one with a path that goes on behind the other's makes all jobs fail if it comes later
  (`Fuzz.ExperimentJobs`).
- The projection of an incremental nearest-neighbour store is empty while the index is empty, even if samples are
  waiting (`Ann.ANNProjector.Project`).
- Sampling n entries of a smaller distribution returns indices outside it (`Sampling.Sample`).

## Model

| member | source | states |
|---|---|---|
| `ERTreeSpec.ReadIsLinearScan` | addons/llr/src/ertree.cpp:181-204 | Reading a built tree gives exactly what a linear filter of the original samples by the comparisons on the query's path gives, in their order (one of them at a constant leaf) |
| `ERTreeSpec.ArrangedIsPermutation` | addons/llr/src/ertree.cpp:161-178 | The rearranged sample array is a permutation of the original one |
| `ERTreeSpec.BuiltIsSeparated` | addons/llr/src/ertree.cpp:164-178 | At every inner node both sub-ranges are non-empty, the left one below the split point and the right one not |
| `ERTreeSpec.InflatedBounds` | addons/llr/src/ertree.cpp:116-133 | The declared variances of both parts bound the true ones, although the right one starts from the parent's variance |
| `ERTreeSpec.ConstantLeafHasNoVariance` | addons/llr/src/ertree.cpp:43-48 | Every leaf flagged constant has true summed output variance below 0.00001 |
| `ERTreeSpec.LeafStopsForAReason` | addons/llr/src/ertree.cpp:39-70 | Every leaf a query reaches is too small, constant, or all its samples have the same inputs |
| `ERTreeSpec.StoredSampleIsFound` | addons/llr/src/ertree.cpp:181-204 | A stored sample is among the answers to a query with its own input, unless its leaf is constant |
| `ERTree.SplitExists` | addons/llr/src/ertree.cpp:80-108 | If an input varies, a split point with samples on both sides exists, so the retry loop has something to find |
| `ERTree.DrawSplit` | addons/llr/src/ertree.cpp:77-108 | Attempts are made until one has samples on both sides; it is the next such attempt of the node's random numbers |
| `ERTree.InputRange` | addons/llr/src/ertree.cpp:50-61 | Per input the least and greatest value, both attained |
| `ERTree.SplitVariances` | addons/llr/src/ertree.cpp:83-133 | Counts and (for the right side inflated) variances of the two sides of a split |
| `ERTree.FindSplit` | addons/llr/src/ertree.cpp:72-153 | Of as many draws as are to be tried the first is taken that leaves the least squared deviation from the means of its sides, summed over the outputs that vary, relative to their variance |
| `ERTree.ScoreIsSpread` | addons/llr/src/ertree.cpp:116-140 | The score of a split is one share per output that varies less these deviations, over the number of samples |
| `ERTree.HighestIsLeast` | addons/llr/src/ertree.cpp:135-152 | So the highest score is the least deviation, ties included |
| `ERTreeChoice.OneOutput` | addons/llr/src/ertree.cpp:135-152 | With one output that varies, the draw taken is the first with the least squared deviation from the means of its sides |
| `ERTreeChoice.SpreadIsVariance` | addons/llr/src/ertree.cpp:116-133 | The deviations of both sides are their sizes times their variances, of which the right one has the parent's on top |
| `ERTreeChoice.BestIsUnique` | addons/llr/src/ertree.cpp:72-153 | The random numbers determine the split of a node |
| `ERTreeChoice.SplitIff` | addons/llr/src/ertree.cpp:39-72 | A node is split exactly if it has enough samples, its outputs vary, splits are to be tried, and some input varies |
| `ERTreeChoice.TreeIsDetermined` | addons/llr/src/ertree.cpp:36-179 | Samples and random numbers determine the whole tree |
| `ERTreeChoice.NextSuccess` | addons/llr/src/ertree.cpp:80-108 | The retry loop takes the next attempt that succeeds |
| `ERTree.FillBuffer` | addons/llr/src/ertree.cpp:161-170 | The buffer holds the left samples, then the right ones, each in their order |
| `ERTree.Partition` | addons/llr/src/ertree.cpp:161-174 | The sub-range is replaced by its left samples followed by its right ones; the rest of the array is untouched |
| `ERTree.Build` | addons/llr/src/ertree.cpp:36-179 | The constructor arranges its sub-range in place as the tree describes, leaves the rest of the array alone, terminates, stops only for the reasons of the source, and splits every inner node by the best of the draws made there |
| `ERTree.BuildChildren` | addons/llr/src/ertree.cpp:176-178 | Building the right child leaves the range of the left child untouched |
| `ERTree.StoreVariance` | addons/llr/src/ertree.cpp:206-231 | Population variance per output over the whole store |
| `ERTree.ERTree.Read` | addons/llr/src/ertree.cpp:181-204 | Descends to the query's leaf; the answer is that of the linear scan over the store |
| `ERTree.ForestFinds` | addons/llr/src/ertree.cpp:335-368 | A stored sample is among the forest's answers to its own input |
| `ERTree.ERTreeProjector.Project` | addons/llr/src/ertree.cpp:340-368 | No forest, wrong dimensions, or the concatenated answers of all trees with unit weights |
| `ERTree.ERTreeProjector.Reindex` | addons/llr/src/ertree.cpp:301-333 | Replaces store and forest by those of the pruned store; each tree has the best splits of its own random numbers |
| `TraceSpec.SparseStandsForDense` | base/include/grl/trace.h:215-234 | After any history of replacing additions of boolean projections with decays in [low, 1], low > 0, each feature's sparse eligibility is the dense one (decay, then set the active features), or zero where the dense one is below 0.01 / low for each time that a projection can have the feature |
| `TraceSpec.UpdateFollowsDense` | base/include/grl/representation.h:79-83 | So an update over such a trace moves every parameter by the update times its dense eligibility, or leaves it alone where that is below the bound |
| `TraceSpec.AddConsistent` | base/include/grl/trace.h:215-262 | After an addition the total decay is the product of the stored decays, and it is at least the threshold or one item remains |
| `TraceSpec.WeightStep` | base/include/grl/trace.h:161-176 | Iterator weights start at one, are multiplied by the passed decay, and never increase |
| `TraceSpec.WeightAboveTotal` | base/include/grl/trace.h:161-176 | Every weight is at least the product of all but the oldest decays |
| `TraceSpec.NoItemIsSkipped` | base/include/grl/representation.h:79-83 | Weights of a replacing trace stay at or above 0.01, so the update loop's cut-off at 0.001 skips nothing |
| `TraceSpec.AccumulatingItemIsSkipped` | base/include/grl/representation.h:79-83 | An accumulating trace can hold an item below the cut-off: three additions after which the oldest one is skipped |
| `TraceSpec.StopsAtCutoff` | base/include/grl/representation.h:79-83 | A loop that stops at the first weight not above 0.001 has used exactly the items with weights above it |
| `TraceSpec.AllAreUsed` | base/include/grl/representation.h:79-83 | In a replacing trace these are all items |
| `TraceSpec.SparseSsub` | base/include/grl/projection.h:94-104 | Subtracting a boolean projection makes the sparse eligibility of its features zero and keeps the others |
| `TraceMeaning.WeightedDifference` | base/include/grl/projection.h:106-111 | With weights that are not negative, a feature keeps what its weight exceeds the sum of the subtracted weights by, if anything |
| `TraceMeaning.WeightedSelfDifference` | base/include/grl/projection.h:106-111 | A projection subtracted from itself keeps no weight |
| `TraceMeaning.AccumulatingStandsForDense` | base/include/grl/trace.h:244-262 | After any history of accumulating additions each feature's sparse eligibility is the dense one (decay, then add the active features) of the newest items, all older ones having faded below 0.01 over low |
| `Trace.IndexProjection.Ssub` | base/include/grl/projection.h:94-112 | In-place subtraction by nested loops: matching indices become invalid or matching weights are subtracted and saturate at zero; subtracted from itself a boolean projection loses its indices and a weighted one its weight |
| `Trace.EnumeratedTrace.Clear` | base/include/grl/trace.h:201-205 | Empty queue, total decay one |
| `Trace.EnumeratedTrace.Back` | base/include/grl/trace.h:194-200 | None exactly if the queue is empty, otherwise the projection of the newest item, which after an addition is the one that was added |
| `Trace.EnumeratedTrace.PopFaded` | base/include/grl/trace.h:229-233 | Pops from the front while the total decay is below the threshold |
| `Trace.EnumeratedTrace.AddReplacing` | base/include/grl/trace.h:215-234 | The addition of any projection on the heap, boolean or weighted, is the queue operation of the specification; a boolean projection that the queue holds already loses its own indices, and items newer than it keep theirs |
| `Trace.EnumeratedTrace.AddAccumulating` | base/include/grl/trace.h:244-262 | The same for the accumulating trace, for any projection |
| `Trace.TraceIterator.Inc` | base/include/grl/trace.h:172-176 | Advances to the next older item with its weight |
| `Trace.LinearRepresentation.UpdateTrace` | base/include/grl/representation.h:78-83 | For a trace of either kind: every parameter moves by the update times its eligibility in the newest items, an item being used if and only if its weight is above 0.001; in a replacing trace all are |
| `Trace.LinearRepresentation.Update` | base/src/representations/linear.cpp:198-236 | Every live index moves by the update, a repeated one as often as it occurs, and a weighted one by its weight over the squared norm, which is at least 0.001; invalid ones are passed over |
| `Trace.LinearRepresentation.Read` | base/src/representations/linear.cpp:136-160 | What is read is the specified reading |
| `TraceMeaning.ReadsMeanOrProduct` | base/src/representations/linear.cpp:144-160 | The mean of the parameters for a boolean projection, the sum of the products with the weights otherwise |
| `TraceMeaning.UpdateMovesReading` | base/src/representations/linear.cpp:198-236 | An update with a projection without repeated indices moves what is read for it by just the update, if it is boolean or its squared weights add up to at least 0.001 |
| `Paths.ComputeRelativePath` | base/include/grl/configurable.h:365-387 | The loops compute the specified relative path |
| `Paths.RelativeParts` | base/include/grl/configurable.h:365-387 | Unless a name is cut, the relative path is one ".." per own name below a common ancestor, at least one, then the other path's remaining names |
| `Paths.RelativeStartsUp` | base/include/grl/configurable.h:365-387 | A relative path from a non-root node starts with "../" |
| `Paths.JoinInjective` | base/include/grl/configurable.h:357-363 | Different name lists have different paths |
| `ConfigTree.RelativePathWorksIff` | base/include/grl/configurable.h:365-446 | In a tree without references the relative path works if and only if no name is cut |
| `ConfigTree.CutNameExample` | base/include/grl/configurable.h:370-379 | From /a/b to /ab/c the relative path is "..//c" |
| `ConfigTree.FoundLength` | base/include/grl/configurable.h:416-446 | A search adds its text to the path or ends at a shorter path |
| `ConfigTree.AncestorsAreGroups` | base/include/grl/configurable.h:440-442 | The ancestors of a node are groups |
| `ConfigCopy.InstantiateValue` | base/src/configurable.cpp:456-480 | The loop makes every reference in the value local |
| `ConfigCopy.CopyShape` | base/include/grl/configurable.h:453-468 | The instantiated tree has the same paths and kinds of nodes |
| `ConfigSearch.SearchIsFind` | base/src/configurable.cpp:443-454 | If all references look back, every search in the whole tree ends, and ends where the search among earlier nodes does |
| `ConfigSearch.ReferenceEnds` | base/src/configurable.cpp:360-376 | A reference whose search stays before its parameter is resolved in the whole tree, and to the same node as among the earlier ones |
| `ConfigSearch.NewRefEnds` | base/src/configurable.cpp:378-389 | So is a reference from a parameter that is not in the tree yet |
| `ConfigSearch.StandsForIsDeref` | base/src/configurable.cpp:443-454 | Then what a node stands for, by the whole-tree search, is unique, and it is what the definition by earlier nodes gives |
| `ConfigSearch.SearchStays` | base/src/configurable.cpp:443-454 | Following more nested references changes no outcome that is known |
| `ConfigSearch.LoopNeverEnds` | base/src/configurable.cpp:360-376 | Two parameters that need each other: find from the first one never returns |
| `ConfigSearch.LoopLooksAhead` | base/src/configurable.cpp:360-376 | In that tree a reference does not look back, and nothing else is wrong |
| `ConfigOrder.SearchesEndIff` | base/src/configurable.cpp:360-454 | In any tree all searches end if and only if its parameters can be ordered so that the search for the value of each one only comes through lower ones |
| `ConfigOrder.LooksBackIsOrdered` | base/src/configurable.cpp:360-454 | If all references look back, there is such an order |
| `ConfigOrder.LoopHasNoOrder` | base/src/configurable.cpp:360-454 | The tree in which find never returns has none |
| `ConfigInstance.CopyLooksBack` | base/src/configurable.cpp:456-480 | If the references of a tree look back, so do those of the instantiated tree |
| `ConfigInstance.LocalizingEnds` | base/src/configurable.cpp:378-389 | The searches made while a parameter is instantiated end |
| `ConfigInstance.ReferencesKept` | base/src/configurable.cpp:360-389 | Every reference of the copy resolves, in the whole copy, to the copy of what the original reference names in the whole original tree, and both searches end |
| `ConfigInstance.RelativeSearchEnds` | base/include/grl/configurable.h:365-446 | In the whole tree the relative path from one node to another leads to what the other one stands for, unless a name is cut |
| `ConfigPart.FromPart` | base/src/configurable.cpp:443-454 | In any part of the new tree, if all searches of the original end and this one steps up from no parameter, the search ends too, and what it finds stands in the original for what is found there |
| `ConfigKept.InstantiatingEnds` | base/src/configurable.cpp:378-389 | Then, wherever references lead, the searches made while a parameter is instantiated end |
| `ConfigKept.EveryReferenceKept` | base/src/configurable.cpp:360-389 | Every reference of the new tree leads to the copy of what the original reference leads to, before or behind it, and both searches end |
| `ConfigKept.CopyFindsSame` | base/src/configurable.cpp:443-454 | Every search of the new tree ends, at the node where the same search of the original ends |
| `ConfigKept.WholeCopyIsCopy` | base/src/configurable.cpp:456-480 | If the references look back, the tree that is instantiated by searches of the whole part that exists is the one that is defined by earlier nodes |
| `ConfigLate.LateReferenceMoves` | base/src/configurable.cpp:378-389 | A tree in which all searches end and a reference steps up from a parameter that looks ahead: in the new tree it leads to a different node |
| `ConfigLate.AheadIsInstantiable` | base/src/configurable.cpp:378-389 | A tree whose reference looks ahead and is kept |
| `ConfigMeaning.TextEnds` | base/src/configurable.cpp:391-428 | If references look back, substituting what they name ends for every parameter |
| `ConfigMeaning.MeaningKept` | base/src/configurable.cpp:391-428 | Then every parameter of the copy evaluates, by searches of the whole copy, to the same text as its original |
| `ConfigMeaning.SameMeaning` | base/src/configurable.cpp:391-428 | Wherever references lead, if all searches end and none steps up from a parameter: a node of the new tree has some text if and only if its original has, and it is the same |
| `ConfigText.TextIsValue` | base/src/configurable.cpp:391-428 | A parameter has a text if and only if every piece of its value between separators becomes one: the text of the node it leads to, or the piece itself if it leads nowhere; and the text is the value with its pieces replaced, evaluated |
| `ConfigText.LiteralText` | base/src/configurable.cpp:391-428 | If no piece leads anywhere, it is the value itself, evaluated |
| `ConfigText.ObjectText` | base/src/configurable.cpp:391-428 | An object has its own text |
| `ConfigText.CanSplit` | base/src/configurable.cpp:395-413 | Every value splits into pieces and separators |
| `ConfigText.PiecesAreOperands` | base/src/configurable.cpp:355-358 | The separators are the operators, spaces and parentheses of the expression parser and the minus sign, so a piece is never more than one operand |
| `ConfigCopy.ExpressionsAreNoPaths` | base/src/configurable.cpp:355-358 | Text that contains a separator names no node |
| `ConfigWalk.SubtreeIsRange` | base/include/grl/configurable.h:490-510 | In document order a subtree is a contiguous range |
| `ConfigWalk.GroupEnds` | base/include/grl/configurable.h:490-510 | If references look back, recursive reconfiguration through whole-tree searches ends, and visits what the definition by earlier nodes visits |
| `ConfigWalk.ReconfigurationEnds` | base/include/grl/configurable.h:490-510 | Then it reaches every object of the subtree and touches nothing behind it |
| `ConfigWalk.VisitedIffReached` | base/include/grl/configurable.h:490-510 | Exactly the objects are reconfigured that are reached over children and references, without those on the way to the root |
| `ConfigWalk.InnerObjectsFirst` | base/include/grl/configurable.h:490-510 | Whenever an object is reconfigured, every object inside it has been before |
| `ConfigWalk.ChildrenInOrder` | base/include/grl/configurable.h:494-508 | Objects among the children are reconfigured in their order, each as a whole, and before their parent |
| `Configurators.Configurator.Root` | base/include/grl/configurable.h:288-292 | A tree of one node |
| `Configurators.Configurator.constructor` | base/include/grl/configurable.h:288-292 | A new node is grafted below its parent |
| `Configurators.Configurator.Graft` | base/include/grl/configurable.h:310-327 | Adds the node to its parent's children unless the name is taken, and keeps the tree valid |
| `Configurators.Configurator.GetPath` | base/include/grl/configurable.h:357-363 | The path is the joined names from the root |
| `Configurators.Configurator.GetRoot` | base/include/grl/configurable.h:329-335 | Walks up to the root |
| `Configurators.Configurator.Find` | base/include/grl/configurable.h:416-446 | Among nodes that stand for themselves, the search on linked nodes is the search in the tree's list of paths |
| `Configurators.Configurator.FindChild` | base/include/grl/configurable.h:440-444 | The child of that name, or none exists |
| `Configurators.Configurator.FindRelative` | base/include/grl/configurable.h:365-446 | On linked nodes: the relative path leads to the node if and only if no name is cut |
| `Configurators.NamesUnique` | base/include/grl/configurable.h:310-327 | No two nodes of a valid tree have the same names |
| `Configurators.HasDocument` | base/include/grl/configurable.h:310-327 | Every valid tree has a list of its paths, each parent before its children |
| `Handshake.RunsKeepInv` | addons/muscod/src/nmpc_base.cpp:182-347 | Every interleaving of client and worker steps keeps the invariant |
| `Handshake.MutualExclusion` | addons/muscod/src/nmpc_base.cpp:277-347 | Client and worker are never both in a critical section |
| `Handshake.NoWakeupIsLost` | addons/muscod/src/nmpc_base.cpp:277-302 | Each signal finds its waiter, and the worker wakes only for a new request or to quit |
| `Handshake.RequestsArriveInOrder` | addons/muscod/src/nmpc_base.cpp:436-487 | For any client: the solver gets the provided requests in order, once each and untorn, with at most one outstanding |
| `Handshake.ControlReadIsAnAnswer` | addons/muscod/src/nmpc_base.cpp:523-575 | For any client: a control that is read is the solver's answer to a prefix of the provided requests |
| `Handshake.RunsKeepTurns` | addons/muscod/src/nmpc_base.cpp:436-575 | The invariant of clients that retrieve each control before the next request |
| `Handshake.ControlsAreFresh` | addons/muscod/src/nmpc_base.cpp:523-575 | For such a client each control answers the request provided just before it |
| `Handshake.FreshIffFlagDown` | addons/muscod/src/nmpc_base.cpp:436-575 | For any client, when a request is handed over: the next control that is read is sure to answer this request if and only if get_qc_ready() is false |
| `Handshake.FreshIffNoneAnnounced` | addons/muscod/src/nmpc_base.cpp:436-575 | For any client, when provide_iv is called while get_iv_ready() is true, with or without waiting: the next control that is read is sure to answer this request if and only if get_qc_ready() is false before the call |
| `Handshake.NewestIsRead` | addons/muscod/src/nmpc_base.cpp:436-575 | If the flag is down at all hand-overs of a run, every control that is read answers all requests up to the newest |
| `Handshake.StaleReadFollows` | addons/muscod/src/nmpc_base.cpp:436-575 | If it is up at one, the run can go on with a read of the control for the request before |
| `Handshake.TurnTakersLowerTheFlag` | addons/muscod/src/nmpc_base.cpp:436-575 | A client that takes turns hands over with the flag down |
| `Handshake.StaleControl` | addons/muscod/src/nmpc_base.cpp:582-602 | get_feedback twice without waiting returns, after the second request, the control for the first one |
| `Handshake.NoDeadlock` | addons/muscod/src/nmpc_base.cpp:349-575 | A run gets stuck only when stopped, or waiting for a control while none is outstanding |
| `Handshake.TurnTakerNeverStarves` | addons/muscod/src/nmpc_base.cpp:489-575 | A client that takes turns gets stuck only by waiting for a control it did not request |
| `Handshake.ControlArrives` | addons/muscod/src/nmpc_base.cpp:489-521 | Any client that waits while a request is unanswered gets a control after at most ten worker steps |
| `Handshake.WorkerGetsReady` | addons/muscod/src/nmpc_base.cpp:386-434 | A client waiting to provide can do so after at most fourteen worker steps |
| `Handshake.ClientKeepsControl` | addons/muscod/src/nmpc_base.cpp:115-218 | Every client step keeps mutex, waiters and flags consistent |
| `Handshake.WorkerKeepsControl` | addons/muscod/src/nmpc_base.cpp:221-384 | So does every worker step |
| `Calls.ProvideDelivers` | addons/muscod/src/nmpc_base.cpp:436-487 | In any run, a call of provide_iv adds its request if and only if the flag is up where it is checked, which it always is after waiting; it retrieves nothing |
| `Calls.RetrieveDelivers` | addons/muscod/src/nmpc_base.cpp:523-575 | A call of retrieve_qc returns one control if and only if the flag is up where it is checked, which it always is after waiting; it provides nothing |
| `Calls.StopIsLast` | addons/muscod/src/nmpc_base.cpp:349-384 | No call returns after stop_thread |
| `Calls.CallIsShort` | addons/muscod/src/nmpc_base.cpp:349-575 | A call takes at most nine steps of its own: it returns, or is blocked |
| `Calls.QuitComesWhileWaiting` | addons/muscod/src/nmpc_base.cpp:304-347 | The worker is asked to quit only while it waits for a request, so the check behind the computation never finds the quit flag |
| `VectorText.NumeralRoundTrip` | base/include/grl/vector.h:52-52 | Reading a written number gives it back |
| `VectorText.Write` | base/include/grl/vector.h:46-58 | The stream operator writes the elements between brackets |
| `VectorText.ReadVector` | base/include/grl/vector.h:60-108 | The stream operator reads a bracketed list or a single element, and stops at the first element that fails or ends the text |
| `VectorText.ReadWritten` | base/include/grl/vector.h:46-108 | Print then read is the identity for every vector, the empty one included |
| `VectorText.Extend` | base/include/grl/vector.h:340-386 | The vectors behind each other |
| `Parser.ParseExpression` | base/src/parser.cpp:104-169 | The parser's loops compute the specified tree, and end on every text |
| `Parser.ScanExpression` | base/src/parser.cpp:120-132 | Cuts off one subexpression, counting parentheses of either kind |
| `Parser.ScanTail` | base/src/parser.cpp:150-167 | Recognizes end, operator, juxtaposed word, or running past the end of the text |
| `Grammar.RoundTrip` | base/src/parser.cpp:104-169 | Parsing undoes printing, for atoms, parentheses, brackets, left-nested operator chains and juxtapositions |
| `Grammar.PrintIsInjective` | base/src/parser.cpp:104-169 | Different trees have different texts |
| `Layout.SpacingIsFree` | base/src/parser.cpp:104-169 | However operators and parentheses are spaced, the parser reads the tree that was written |
| `Layout.TextMeansOneTree` | base/src/parser.cpp:104-169 | A text stands for one tree, whatever the spacing it is taken for |
| `Grammar.ParseIsDefined` | base/src/parser.cpp:153-159 | The parser stays inside every text in which no operator stands at the end or before a closing parenthesis |
| `Grammar.MatchedIsDefinedIff` | base/src/parser.cpp:104-169 | If parentheses match by kind and open where an operand starts, it stays inside the text if and only if no operator stands at the end or before a closing parenthesis |
| `Grammar.FlatIsDefinedIff` | base/src/parser.cpp:153-159 | Without parentheses: if and only if the text does not end in an operator |
| `Grammar.ScanPrinted` | base/src/parser.cpp:123-132 | Inside parentheses a printed tree is passed over as a whole |
| `Evaluator.Refines` | base/src/parser.cpp:37-97 | On well-typed expressions, reading back the string that evaluate returns gives the value of the vector-level evaluator |
| `Evaluator.EvaluationIsCorrect` | base/src/parser.cpp:37-169 | The same from text to text, through the parser |
| `Typing.HasValueIff` | base/src/parser.cpp:37-97 | An expression has a value exactly if it is made of integers, the four operators, parentheses, and bracketed lists of expressions that evaluate to a number |
| `Typing.NumbersRead` | base/include/grl/vector.h:60-108 | A number reads as itself, with either sign |
| `Evaluator.PlusReads` | base/src/parser.cpp:57-62 | The sum of two scalars reads as their sum, any other + as the left vector followed by the right one |
| `Evaluator.ConcatenationReads` | base/src/parser.cpp:63-66 | ++ reads as the left vector followed by the right one |
| `Evaluator.ProductReads` | base/src/parser.cpp:67-74 | * reads as one vector scaled by the other, if that is a scalar, or as the products of their elements; it is empty if the sizes differ |
| `Evaluator.ReplicationReads` | base/src/parser.cpp:75-80 | ** reads as that many copies of the vector, or as empty |
| `Evaluator.ListReads` | base/src/parser.cpp:81-86 | A comma list in brackets reads as its elements |
| `Evaluator.ReplicateRepeats` | base/src/parser.cpp:75-77 | The ** operator puts n copies of the vector behind each other |
| `Evaluator.CommaBindsLikePlus` | base/src/parser.cpp:99-169 | In [a,b+c] the sum is of the whole list, which reads as a alone |
| `Statistics.CSimpleStat.constructor` | base/src/statistics.cpp:20-26 | An empty window |
| `Statistics.CSimpleStat.SetBufferLength` | base/src/statistics.cpp:34-41 | An empty window of the new length |
| `Statistics.CSimpleStat.Clear` | base/src/statistics.cpp:43-54 | An empty window |
| `Statistics.CSimpleStat.AddValue` | base/src/statistics.cpp:56-92 | Sums are those of the last values, shadow sums those of the current cycle, extremes those of all values since clear |
| `StatisticsSpec.AddKeeps` | base/src/statistics.cpp:56-92 | Every value, whether it completes a cycle or not, keeps buffer, sums and extremes those of the history |
| `StatisticsSpec.SwapChangesNothing` | base/src/statistics.cpp:80-91 | At the wrap the shadow sums equal the running sums |
| `StatisticsSpec.HoldsAfterWrap` | base/src/statistics.cpp:78-91 | When a cycle ends the buffer holds exactly the window |
| `StatisticsSpec.WindowMoves` | base/src/statistics.cpp:58-70 | Adding a value and dropping the oldest moves both sums with the window |
| `Statistics.CSimpleStat.GetNumValues` | base/src/statistics.cpp:141-147 | Size of the window |
| `Statistics.CSimpleStat.GetAverage` | base/src/statistics.cpp:94-100 | Mean of the window |
| `Statistics.CSimpleStat.GetVariance` | base/src/statistics.cpp:102-113 | Population variance of the window, never negative |
| `Statistics.CSimpleStat.GetMinimum` | base/src/statistics.cpp:120-123 | The smallest value since the last clear |
| `Statistics.CSimpleStat.GetMaximum` | base/src/statistics.cpp:125-128 | The largest one |
| `StatisticsSpec.VarianceFromSums` | base/src/statistics.cpp:104-112 | Mean square minus squared mean is the population variance |
| `StatisticsSpec.ExtremesAreValues` | base/src/statistics.cpp:72-76 | Minimum and maximum bound the values and are among them |
| `Statistics.CSimpleStat.GetHistogram` | base/src/statistics.cpp:154-173 | Each bin counts the window's values in it, and the bins add up to the number of values |
| `StatisticsSpec.BinHoldsValue` | base/src/statistics.cpp:166-171 | A value inside the range lies between the edges of its bin; the outer bins take what is outside |
| `Ann.MergeIsNearest` | addons/llr/src/ann.cpp:178-207 | The nearest indexed samples merged with all later ones contain, in order of distance, the nearest samples of the whole store |
| `Ann.DistancesAreDetermined` | addons/llr/src/ann.cpp:178-207 | The distances of the neighbours are determined, whatever sorting and search do about ties |
| `Ann.OutsideIsFarther` | addons/llr/src/ann.cpp:178-207 | An indexed sample that the search left out is not nearer than any of the results |
| `Ann.DistanceIsLength` | addons/llr/src/ann.cpp:185-187 | The distance is the squared length of the offset |
| `Ann.DistanceMeasures` | addons/llr/src/ann.cpp:185-187 | It is not negative, symmetric, and zero exactly between equal points |
| `Ann.WeightsAreRelative` | addons/llr/src/ann.cpp:200-209 | Every weight is that of the share its distance has in the farthest one, and one if all are at the query |
| `Ann.ANNProjector.Project` | addons/llr/src/ann.cpp:124-213 | Wrong dimensions, failed search, empty index, or min(neighbours, available) nearest samples in order of distance with their weights |
| `Ann.ANNProjector.Collect` | addons/llr/src/ann.cpp:147-194 | Both searches, sorted, start with the nearest samples |
| `Ann.ANNProjector.LinearSearch` | addons/llr/src/ann.cpp:180-191 | Distances of all samples behind the index |
| `Ann.ANNProjector.Push` | addons/llr/src/ann.cpp:97-102 | Appends to the store |
| `Ann.ANNProjector.Reindex` | addons/llr/src/ann.cpp:104-122 | Index and store are those of the pruned store |
| `Ann.ANNProjector.Finalize` | addons/llr/src/ann.cpp:215-220 | Afterwards the part behind the index is empty, or shorter than the interval and than the index |
| `IlqgSpec.ExpectedIsPositive` | addons/lqr/src/ilqg.cpp:265-275 | For every horizon, regularization, lambda >= 0 and step in (0, 1], the expected reduction is positive exactly if some feedforward term, so some Qu, is not zero |
| `IlqgSpec.StepDecreases` | addons/lqr/src/ilqg.cpp:456-468 | One step expects a decrease unless its Qu is zero |
| `IlqgSpec.DampingIsPenalty` | addons/lqr/src/ilqg.cpp:439-446 | Regularization adds a penalty on the next state, or on the control, to what the gains minimize |
| `IlqgSpec.GainsMinimize` | addons/lqr/src/ilqg.cpp:456-464 | At every state the gains give the control that minimizes the regularized quadratic |
| `IlqgSpec.FailsIffUnbounded` | addons/lqr/src/ilqg.cpp:448-454 | The backward pass fails exactly if it comes to a step at which the regularized quadratic has no single minimum over the control |
| `IlqgSpec.ExpandIsExact` | addons/lqr/src/ilqg.cpp:424-437 | The Q derivatives are those of cost plus cost-to-go at the next state |
| `IlqgSpec.ModelCostIsExpected` | addons/lqr/src/ilqg.cpp:466-477 | dV and the value derivatives give exactly the modelled cost under the new gains, for a full step or without regularization |
| `Ilqg.BackwardPass` | addons/lqr/src/ilqg.cpp:390-487 | The loop computes gains and expected change, and fails exactly if a decomposition does |
| `Ilqg.ForwardPass` | addons/lqr/src/ilqg.cpp:342-388 | A rollout of the model with feedback, or failure exactly if the model fails on the way |
| `IlqgLinear.TrialControls` | addons/lqr/src/ilqg.cpp:342-388 | The controls of a trial differ from those of the trajectory by the step times the feedforward term plus the feedback on the difference of the states |
| `IlqgLinear.TrialCostIsModelled` | addons/lqr/src/ilqg.cpp:342-388 | If the dynamics are linear and the cost quadratic, the cost of a trial differs from that of the trajectory by the modelled cost of the gains |
| `IlqgLinear.ExpectedIsExact` | addons/lqr/src/ilqg.cpp:249-282 | Then a full step, or without regularization any step, lowers the cost by exactly what is expected |
| `IlqgLinear.FullStepIsUseful` | addons/lqr/src/ilqg.cpp:249-282 | So the line search finds a step unless the gradient is zero |
| `Ilqg.BackwardUntilSuccess` | addons/lqr/src/ilqg.cpp:223-235 | Terminates; lambda is the start increased once for every failed pass, all passes before the last one failed, and there is no success exactly if lambda is past its limit |
| `Ilqg.IncreaseGrows` | addons/lqr/src/ilqg.cpp:226-227 | An increase raises lambda to its minimum, and from there by at least a fixed amount |
| `Ilqg.RateRises` | addons/lqr/src/ilqg.cpp:226-227 | After n increases in a row the rate is the n-th power of the factor, times what it was if that was more than one; lambda is multiplied by it |
| `Ilqg.RateFalls` | addons/lqr/src/ilqg.cpp:304-306 | A decrease divides the rate by the factor, from one if it was more, and sets a lambda up to the minimum to zero |
| `Ilqg.ILQGSolver.DampingAdapts` | addons/lqr/src/ilqg.cpp:300-331 | In every run, after an accepted iteration lambda is at most what it was over the factor; after a rejected one it is at least the minimum, and more by a fixed amount |
| `Ilqg.GradientIsSmall` | addons/lqr/src/ilqg.cpp:238-245 | The gradient counts as small exactly if every feedforward term is below the tolerance times one more than its control |
| `Ilqg.LineSearch` | addons/lqr/src/ilqg.cpp:249-282 | Takes the first step whose rollout lowers the total cost; finds none exactly if no step does, and fails exactly if the model fails for a step before any that does |
| `Ilqg.SearchIsDecided` | addons/lqr/src/ilqg.cpp:249-282 | Of these three outcomes only one is possible, and only one trajectory can be found |
| `Ilqg.ILQGSolver.Improve` | addons/lqr/src/ilqg.cpp:218-331 | One iteration: accepted with the first useful step of the line search and lambda decreased, rejected because no step is useful with lambda increased, or stopped because lambda passes its limit, the gradient is small, or the model fails |
| `Ilqg.ILQGSolver.Resolve` | addons/lqr/src/ilqg.cpp:166-335 | It fails exactly if the model fails on the saved controls; otherwise the run starts at the rollout of the saved solution, every trajectory improves the one before it, and the solution saved is the last one, or the one before it exactly if the run ends by small cost change |
| `Ilqg.ILQGSolver.CostsDecrease` | addons/lqr/src/ilqg.cpp:249-331 | Over such a run the total cost strictly decreases |
| `Ilqg.ILQGSolver.EndsForAReason` | addons/lqr/src/ilqg.cpp:218-331 | Why an iteration accepts nothing and why a run ends: no step is useful, the backward passes fail up to the limit, the gradient is small, or the model fails |
| `Ilqg.ILQGSolver.RunImproves` | addons/lqr/src/ilqg.cpp:249-331 | In every run, the accepted trajectories are rollouts and each improves the one before it |
| `Ilqg.ILQGSolver.RunIsKept` | addons/lqr/src/ilqg.cpp:300-331 | The solution that is saved at the end of a run |
| `Ilqg.ILQGSolver.Iterate` | addons/lqr/src/ilqg.cpp:218-335 | The iterations make a run in which each continues where the one before left off, and go on until one of them ends it or there are as many as allowed; the exit is the one of the last |
| `RequestGen.Generate` | base/src/requestgen.cpp:49-97 | The growing worklist ends, without duplicates, with the least list that holds the base types and satisfies all requests |
| `RequestGen.AddInstances` | base/src/requestgen.cpp:72-93 | Every role-free type with the requested prefix gets an instance, once |
| `RequestGen.Satisfy` | base/src/requestgen.cpp:57-94 | All requests of one object are satisfied |
| `RequestGen.InstanceSplits` | base/include/grl/configurable.h:192-204 | An instance splits into the type and role it was made of |
| `RequestGen.AppendIsNecessary` | base/src/requestgen.cpp:76-91 | Each added instance is in every list that satisfies all requests |
| `Fuzz.ExperimentJobs` | share/taskmaster/fuzz.py:84-135 | Every combination of parameter values is visited exactly once before the odometer is back at the beginning, and each job has the values of its combination; no jobs if and only if a parameter has no values, is not there, or lies behind a path that an earlier parameter wrote over |
| `Fuzz.Increment` | share/taskmaster/fuzz.py:121-128 | The carry loop computes the next combination |
| `Fuzz.NextCounts` | share/taskmaster/fuzz.py:121-132 | The next combination has the next place in the enumeration, the last one is followed by the first |
| `Fuzz.NumberIsUnique` | share/taskmaster/fuzz.py:121-132 | No two combinations have the same place |
| `Fuzz.Configure` | share/taskmaster/fuzz.py:110-116 | All parameters get their values, of equal paths the last one, and nothing else changes; it fails if and only if a path is not there or an earlier parameter, with a path that it continues, wrote over it |
| `Fuzz.SetIsGot` | share/taskmaster/fuzz.py:19-41 | What is set is got |
| `Fuzz.SetCutsOff` | share/taskmaster/fuzz.py:19-41 | After setting an existing path, a path is there if and only if it was before and does not go on behind the one that was set |
| `Fuzz.SetKeepsOthers` | share/taskmaster/fuzz.py:19-41 | Setting one path leaves unrelated paths alone |
| `Sampling.Sample` | base/include/grl/utils.h:250-292 | Fewer draws than entries: all succeed, and the choices are distinct and in range; otherwise the first n numbers |
| `Sampling.DrawNext` | base/include/grl/utils.h:270-288 | The remaining sum stays the mass of the unselected entries |
| `Sampling.Draw` | base/include/grl/utils.h:272-288 | A draw up to the unselected mass hits the first unselected entry at which the mass reaches it |
| `Sampling.HitsItsShare` | base/include/grl/utils.h:272-288 | An entry is hit by the draws of an interval as long as its weight, behind those of the unselected entries before it |
| `Sampling.DrawHits` | base/include/grl/utils.h:275-288 | Such an entry exists |
| `Sampling.DrawnAreSelected` | base/include/grl/utils.h:262-288 | The selected flags mark exactly the distinct choices |

## Left out

- Floating-point rounding, infinities and not-a-number; distances are not truncated to `float`.
- Random number generation: the attempts at a split, among which a non-trivial one always comes as long as an input varies, the draws of a sampling and the initial controls of iterative LQG are inputs.
- ERTree.Build: tree nodes are immutable values returned by the method that arranges the shared array; memory management is not modelled, and samples are values instead of pointers.
- ERTree.StoreVariance: an empty store, for which the source divides by zero, gives zeros.
- ERTree.ERTreeProjector.Reindex: pruning keeps some of the stored samples, which ones is an input.
- TraceSpec.SparseStandsForDense: decays are in (0, 1] and index projections boolean; a zero decay makes the source divide by zero at trace.h:231. With weights there is no dense rule that a replacing trace stands for, because an update divides by the norm of what is left of them.
- Trace.EnumeratedTrace.AddReplacing: for a weighted projection that the queue holds already, or while the queue holds some projection twice, only validity, cut-off and the newest item are promised, not the weights that are left.
- Trace.LinearRepresentation.UpdateTrace: one output, no output limits, no batches and no target representation; live indices are in range and a weighted projection has one weight per index, as the source assumes.
- TraceMeaning.UpdateMovesReading: all indices are live and none is repeated; a repeated index would get its part twice.
- TraceMeaning.WeightedDifference: the subtracted weights are not negative; otherwise each subtraction would saturate on its own.
- Thread-local instances, locks and reindexing concurrent with pushes.
- Configurators.Configurator.Find: on linked nodes all nodes stand for themselves; references are modelled on the list of paths (`ConfigSearch`).
- Configurators.Configurator.Graft: replacing an existing child (overwrite, used only by the Lua deployer) is not modelled.
- ConfigInstance.ReferencesKept: names contain no separator characters and are not "..", relative references cut no name, and references look back; `ConfigKept.EveryReferenceKept` has the trees whose references look ahead.
- ConfigKept.EveryReferenceKept: the same about names, and no reference steps up from a parameter; if one does, and the tree does not look back, `ConfigLate.LateReferenceMoves` shows that it need not be kept, and nothing more is said.
- ReferenceConfigurator, provided objects and parameters, object creation, validation, deep copies and YAML output.
- ConfigWalk.ReconfigurationEnds: reconfiguration is the list of objects visited; what an object does when reconfigured is not modelled, and references look back.
- Handshake.RunsKeepInv: bounded polling is a blocking wait, timing statistics and their critical sections are dropped, the worker's preparation is one step, and there are no spurious wakeups (the wait at nmpc_base.cpp:283 is not in a loop). The solver is an unknown function of the requests it has been given.
- The MLRTI and threaded NMPC controllers built on top of the handshake.
- VectorText.ReadVector: elements are integers in decimal notation; fractions, exponents and precision are not modelled.
- Evaluator.Refines: integers are unbounded and always written in full.
- Grammar.RoundTrip: printed trees use no optional white space (`Layout.SpacingIsFree` has it) and their atoms contain no parentheses; the parser itself is modelled on all texts.
- Layout.SpacingIsFree: words side by side have a space between them; the parser also takes a parenthesis for the end of a word.
- Grammar.ParseIsDefined: for texts with unmatched parentheses, or with one that opens inside a word, one direction only; `Grammar.MatchedIsDefinedIff` has both for all others.
- Statistics.CSimpleStat.GetHistogram: the range is not empty and there is at least one bin; otherwise the source divides by zero or indexes out of bounds.
- StatisticsSpec.BinHoldsValue: the lower bound of the range is below the upper one; with the bounds exchanged the bins are counted from the other end.
- Ann.ANNProjector.Project: the kd-tree is exact, its answer is an input, and the exponential weighting is an unknown function of the relative distance.
- Ilqg.ILQGSolver.Resolve: one state and one control, so that matrices are numbers and the Cholesky decomposition succeeds exactly for a positive one; shifting a previous solution and publishing the policy are not modelled.
- IlqgLinear.ExpectedIsExact: the problem has no final cost, and the derivatives are exact; on other problems the expected reduction is an approximation and only the comparison of costs decides.
- RequestGen.Generate: the roles that requests mention are finitely many; base types contain no dot.
- Fuzz.Configure: substitutions inside values ("$*", "$0", "#0", "$@") and fixed configuration values are not modelled; parameter paths are component lists.
- Sampling.Sample: weights are not negative.
- Sampling with replacement, FIFO sampling, softmax and other policies, robot dynamics, rewards, matrix solvers, averaging in locally linear regression.
- Bindings to graphics, Lua, Matlab, Python, ROS, ZeroMQ and TensorFlow; YAML loading, plug-ins, logging, sockets and exporters.
