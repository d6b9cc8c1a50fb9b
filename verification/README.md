# Exact constrained decoding, proved

A Dafny model of the constrained-decoding stack and of the wire, drafting and embedding code around it.

The core compiles a JSON-schema subset into a token automaton and samples the constrained posterior exactly:

- **Schema to automaton** (`src/fa_schema.rs`). A Thompson automaton over characters (`NfaBuilder`, `Fragments`, `Numbers`,
  `Texts`, `Arrays`, `Objects`, `SchemaCompiler`) and its size in closed form (`Sizes`), its subset graph stepped by the
  characters of token texts through a trie, a step memo, a content pool and a stamped closure (`Steppers`, `Tries`, `Walks`,
  `SubsetGraphs`), and the token automaton (`TokenCompiler`). The reference is the set of instance texts of a schema as RFC
  8259 defines them, names and literal strings in every spelling, the members of an object told apart by name (`Json`,
  `Spellings`); `Flaws`, `Dialects` and `Leaks` say where the compiled grammar parts from it.
- **Minimization** (`src/fa_minimize.rs`). Trimming, count-based partition refinement, rebuild (`Trimming`, `Relabelling`,
  `Signatures`, `Refinement`, `Dfas`, `Minimizer`, `CanonicalForm`, `MinimizeLaws`).
- **Automaton and samplers** (`src/fa_posterior.rs`). The checked CSR builder, walks and reverse search (`Builders`, `Automata`,
  `Distances`); the forward-backward sampler (`Posterior`, `SequentialSpec`, `SequentialSampler`); the segment-tree sampler
  (`Chains`, `TreeSpec`, `TreeSampler`), its token marginals (`Marginals`, `TreeMarginals`) and the state path of greedy runs
  (`GreedyPaths`). The reference is the plain sum over all token sequences.
- `EndToEnd` joins the three: sampling a compiled automaton is conditioning the token weights on the schema.

Around it: bf16 rounding, activation frames, state segments and the stage contract (`Bf16`, `Frames`, `Segments`:
`src/multi_host.rs`), the geometry fingerprint (`Fingerprints`: `src/disaggregated.rs`), the history drafter (`Drafters`:
`src/rollout_history.rs`) and the rotary embedding (`Rope`: `src/rope.rs`).

Code that works in place is modelled as classes and methods over mutable fields and arrays, each proved against a
specification function or relation; the laws are lemmas about those.

## How the numbers are read

Log-space floats are exact non-negative reals: a log-sum is a sum, an addition a product, minus infinity is zero, and a
max-shift is a division by the largest entry. A generator is an arbitrary stream of draws in [0, 1). A sequence's probability
is the volume of the box of draws that produces it, and each box is proved to be hit exactly.

## Where the code differs from its documentation

- `Schema::Integer` is `-?(0|[1-9][0-9]*)`, not the `-?[0-9]+` of its doc comment (`src/fa_schema.rs:68`).
- The comments calling the shared digit, hex and separator fragments safe or exact (`src/fa_schema.rs:266-267`, `:301-302`) do
  not hold: `1.2.3`, `"\u1"` and `[1,,2]` are accepted.
  `Dialects.CompiledDialect` says what the fragments read instead.
- Property names are written with only the quote and the backslash escaped and are not checked (`src/fa_schema.rs:497-506`), so
  a name holding a control character is accepted raw: `Leaks.NameLeak`. A float literal that is no number is accepted as the
  word it prints as (`:379`): `Leaks.NotANumberLeak`.
- "Every member at most once" and "`required` keys must appear" (`src/fa_schema.rs:72-73`) hold of the places in the list of
  properties, not of the names, and a name listed twice is not refused: `{"a":null,"a":true}` is accepted for `a` listed as null
  and as boolean (`Leaks.RepeatedLeak`), and with `a` required `{"a":true}` is refused (`Leaks.ShadowedEntry`).
- `Dialects.ExactIff` says exactly which schemas are free of all unsound texts.
- "Exactly the tokenizations of valid JSON instances" (`src/fa_schema.rs:4-6`) fails the other way as well: names and literal
  strings are read in the compiler's own spelling only, so `{"\u0061":null}` is refused for a property `a`:
  `Leaks.EscapedName`. `Dialects.CompleteIff` says for which schemas no valid spelling is refused.
- `minimize` is not total: on the early-stop family of all-accepting automata it returns `DuplicateEdgeToken`
  (`src/fa_minimize.rs:91`). `Minimizer.MinimizeWithStats` says exactly when, and `TokenCompiler.StartRejects` that a compiled
  schema never meets it.
- A payload of 2^32 bytes or more is cut by the frame's length field (`src/multi_host.rs:265`): `Frames.FrameRoundTrip`.
- A state vector of 2^32 or more entries is cut by its length prefix (`src/multi_host.rs:459`), and its segment can never be
  restored: `Segments.SegmentRoundTrip`.
- From edge 2^31 on the signed owner mark of the builder turns negative and no longer marks its token
  (`src/fa_posterior.rs:252`): `Builders.CastsExact`.
- A zero byte inside a metadata key breaks the injectivity of the fingerprint stream (`src/disaggregated.rs:99-100`):
  `Fingerprints.ZeroByteCollides`.

## Model

| member | source | states |
|---|---|---|
| Builders.AutomatonBuilder.constructor | src/fa_posterior.rs:151-159 | a fresh builder has the given shape, no edge and no accepting node |
| Builders.AutomatonBuilder.Accept | src/fa_posterior.rs:162-165 | marks exactly one node accepting and is idempotent |
| Builders.AutomatonBuilder.AddEdge | src/fa_posterior.rs:168-171 | records one more edge, unsorted, behind the earlier ones |
| Builders.AutomatonBuilder.Build | src/fa_posterior.rs:178-293 | succeeds if and only if start, nodes and tokens are in range, no edge is empty, and no node repeats a token or a destination; the CSR result then represents exactly the added edges; a refusal is true of the added edges and is the first one in scan order: the start, the edges by source (ends, emptiness, sorted tokens), the pairs node by node |
| Builders.FirstFaultUnique | src/fa_posterior.rs:178-278 | the scan order determines the refusal: two errors that both come first are the same |
| Builders.CastsExact | src/fa_posterior.rs:189-292 | with at most 2^32 nodes and fewer than 2^32 edge tokens no 32-bit cast of a destination, a count or an offset loses anything; the signed edge index in an owner mark stays itself, and above the empty mark, exactly below edge 2^31 |
| Builders.SameClaims | src/fa_posterior.rs:184-185 | sorting by source changes neither what is buildable nor what a refusal may claim |
| Builders.StableSortKeepsRows | src/fa_posterior.rs:184-185 | the stable sort keeps the insertion order within every node |
| Builders.RowIsSlice | src/fa_posterior.rs:261-266 | in the sorted list the edges of one node are one contiguous slice, at the offset the counts give |
| Builders.CheckedBuildable | src/fa_posterior.rs:187-278 | the per-edge checks with the token-owner marks, plus the pair check, amount to the declared invariants |
| Builders.Assembled | src/fa_posterior.rs:258-292 | the CSR arrays computed from a checked list form a valid automaton with exactly the rows of that list |
| Builders.NextOfEdges | src/fa_posterior.rs:178-293 | a built automaton steps from s to d by t exactly when some added edge from s to d allows t |
| Automata.Automaton.EdgeForToken | src/fa_posterior.rs:358-366 | linear over the fanout with a binary search inside each token set, it returns the first edge allowing the token, or none |
| Automata.Automaton.EdgeForUnique | src/fa_posterior.rs:355-366 | at most one edge of a node allows a token, so the edge returned is the only one |
| Automata.Automaton.WalkFrom | src/fa_posterior.rs:386-393 | the walk follows the unique path of the sequence, and dies exactly where no edge allows the next token |
| Automata.Automaton.WalkConcat | src/fa_posterior.rs:379-393 | a walk can be resumed from the node an earlier walk ended in: the block carry-over |
| Automata.Automaton.SourceOf | src/fa_posterior.rs:396-401 | the partition point over the offsets is the node whose out-range holds the edge, even next to empty out-ranges |
| Distances.ReverseEdges | src/fa_posterior.rs:407-412 | the reverse lists hold exactly the sources of the in-edges of every node |
| Distances.StepsToAccept | src/fa_posterior.rs:407-430 | every node gets the length of its shortest accepted continuation, and UNREACHABLE exactly when it has none |
| Distances.NeverShorter | src/fa_posterior.rs:422-429 | no accepted continuation is shorter than the recorded distance |
| Distances.Sentinel | src/fa_posterior.rs:413-430 | a real distance is below the node count, so the sentinel marks exactly the undiscovered nodes |
| Sums.PickIff | src/fa_posterior.rs:733-742 | the scan over cumulative weights picks index k exactly when the draw falls into the slice of k: the fall-through to the last index is never taken |
| Sums.DrawExact | src/fa_posterior.rs:722-742 | a uniform draw selects index k exactly on an interval |
| Sums.SlotWidth | src/fa_posterior.rs:722-742 | that interval is as wide as the share of weight k in the total |
| Sums.DrawPositive | src/fa_posterior.rs:728-742 | what is drawn carries weight, so the dead-state refusal is never taken |
| Sums.DrawScale | src/fa_posterior.rs:715-726 | weights known only up to a positive factor (the max-shift of log space) give the same draw |
| SequentialSampler.SumShifted | src/fa_posterior.rs:89-104 | the shifted sum equals the plain sum, and all-zero weights give zero |
| Posterior.Block.ShareStep | src/fa_posterior.rs:676-701 | adding one edge of a node gives each of its tokens a share there and changes no other token: needs that a node allows a token on at most one edge |
| Posterior.Block.OwnSum | src/fa_posterior.rs:621-672 | summing one edge over the vocabulary gives the flow of that edge |
| Posterior.Block.Regroup | src/fa_posterior.rs:676-701 | the sum over tokens and the sum over out-edges of a node agree |
| Posterior.Block.BackIsTotal | src/fa_posterior.rs:674-701 | back[t][s] is the sum, over all sequences of length len-t accepted from s, of the product of their token weights, pins acting as 0/1 indicators |
| Posterior.Block.WeightIs | src/fa_posterior.rs:620-672 | the weight of a sequence is the product over its positions of the mass of the free token there, or of one for a kept pin |
| SequentialSpec.EdgeTakenLive | src/fa_posterior.rs:707-742 | the edge drawn from a live state has mass and leads to a live state |
| SequentialSpec.TokenOnEdge | src/fa_posterior.rs:744-795 | pinned, greedy or drawn, the token is allowed by the edge, carries weight and honours the pin |
| SequentialSpec.AcceptedByConstruction | src/fa_posterior.rs:706-797 | for every block, start and stream of draws with a positive backward weight: the run fills the block, its tokens walk from the start to the returned accepting node, match every pin and carry weight |
| SequentialSpec.GreedyTokens | src/fa_posterior.rs:757-768 | in greedy mode every free position of an output carries a token than which none on the edge crossed there is heavier, the smaller ones being lighter |
| SequentialSpec.DrawsUsed | src/fa_posterior.rs:707-795 | a run uses one draw for every position and in multinomial mode one more for every free one |
| SequentialSpec.TokenBoxExact | src/fa_posterior.rs:774-794 | the token drawn on a live edge is v exactly on an interval as wide as the share of v in the edge |
| SequentialSpec.EdgeSlotExact | src/fa_posterior.rs:722-742 | the edge drawn is e exactly on an interval as wide as the share of the flow of e in the backward weight |
| SequentialSpec.SampleExact | src/fa_posterior.rs:706-797 | the run outputs x exactly when its draws fall into the box of x |
| SequentialSpec.BoxVolume | src/fa_posterior.rs:706-797 | the branch probabilities along x telescope to weight(x) over the backward weight |
| SequentialSpec.SequentialExact | src/fa_posterior.rs:606-797 | for every accepted x of positive weight, the draws producing x form a box of volume weight(x)/Z, Z being the sum over all sequences |
| SequentialSpec.BoxInUnit | src/fa_posterior.rs:706-797 | that box lies in the unit cube, so its volume is a probability |
| GreedyPaths.PathTotal | src/fa_posterior.rs:538-540 | the posterior mass of all sequences along one state path is the product of the edge masses on it |
| GreedyPaths.GreedyExact | src/fa_posterior.rs:538-540 | in greedy mode the path is still drawn from the exact joint: a run follows the states of x on a box whose volume is the posterior probability of that state path |
| SequentialSpec.SequentialSupport | src/fa_posterior.rs:606-797 | nothing outside the support is ever produced |
| SequentialSpec.TotalZero | src/fa_posterior.rs:702-704 | Z vanishes exactly when no sequence filling the block has positive weight |
| SequentialSampler.FaScratch.Ensure | src/fa_posterior.rs:464-478 | every buffer only grows, and old contents stay in place |
| SequentialSampler.ShiftRow | src/fa_posterior.rs:637-654 | the shared exponential row is every mass over the largest of the row, and all zero for an all-zero row |
| SequentialSampler.FoldEntry | src/fa_posterior.rs:624-671 | a pin folds an edge to 1 or 0 by membership, a free position to the sum of its token masses |
| SequentialSampler.FoldPosition | src/fa_posterior.rs:620-672 | one position of the emission table holds the mass of every edge |
| SequentialSampler.BackAll | src/fa_posterior.rs:674-701 | the flat backward buffer holds the reference table for every position and node, whatever it held before |
| SequentialSampler.DrawShifted | src/fa_posterior.rs:715-742 | shift, cumulative scan and fall-through over a reused buffer are the categorical draw over the weights it held |
| SequentialSampler.StepEdge | src/fa_posterior.rs:709-743 | one forward step takes the edge of the specification |
| SequentialSampler.StepToken | src/fa_posterior.rs:744-795 | the token written is the pin, in greedy mode on a free position the smallest of the heaviest tokens of the edge, and otherwise the categorical draw, which alone uses a draw |
| SequentialSampler.ArgMax | src/fa_posterior.rs:758-768 | the greedy choice keeps the earliest of equal maxima |
| SequentialSampler.RefusedIffUnsatisfiable | src/fa_posterior.rs:564-704 | a well-shaped call is refused exactly when no accepted completion of positive weight matches the pins |
| SequentialSampler.RefusalMeans | src/fa_posterior.rs:564-704 | what every refusal says of the arguments, in the order of the checks; DeadStart exactly when no token leaves the start, Unsatisfiable exactly when the total weight is zero although one does |
| SequentialSampler.SampleJointFrom | src/fa_posterior.rs:546-797 | the outcome is the refusal or the run of the specification, as a function of the arguments and the unread draws alone: the reused scratch does not matter, and a refusal draws nothing and leaves the output untouched; a run uses one draw for every position and in multinomial mode one more for every free one, and its output fills the block, walks to the returned accepting node, keeps the pins, carries weight and in greedy mode has on every free position the smallest of the heaviest tokens of the edge it crosses |
| Chains.Chain.SplitAt | src/fa_posterior.rs:874-896 | the matrix of a segment is the product of the matrices of its two parts, at every split point |
| Chains.Chain.PathSplit | src/fa_posterior.rs:1176-1232 | the weight of a state path factors at every boundary |
| Chains.Chain.CondTotal | src/fa_posterior.rs:1194-1210 | the midpoint conditional adds up to the segment entry it refines |
| Chains.Chain.MidpointLive | src/fa_posterior.rs:1210-1228 | from a live segment the drawn midpoint leaves both halves live, so the degenerate fallback is never reached |
| Chains.Chain.MidpointsExact | src/fa_posterior.rs:1176-1232 | the midpoints drawn between two ends are those of a given path exactly on a box of draws |
| Chains.Chain.MidVolume | src/fa_posterior.rs:1176-1232 | all midpoint conditionals along a path telescope to its weight over the segment entry |
| TreeSpec.PairEdgeUnique | src/fa_posterior.rs:968-974 | the (source, destination) map finds the one edge between two nodes |
| TreeSpec.PairRegroup | src/fa_posterior.rs:1012-1059 | summing a node over destinations equals summing it over out-edges |
| TreeSpec.PaddingSeg | src/fa_posterior.rs:1066-1077 | identity padding is neutral: beyond the block every segment is the identity |
| TreeSpec.RowTotal | src/fa_posterior.rs:977-1101 | up to the positive leaf shifts, the row of the root adds up to the backward weight, with acceptance folded into the last real leaf only |
| TreeSpec.StatesDrawnCross | src/fa_posterior.rs:1165-1232 | the drawn boundary states cross an edge with mass at every position and stay put in the padding, so all padded boundaries equal the accepting final state |
| TreeSpec.TokensWalk | src/fa_posterior.rs:1234-1272 | the tokens drawn along the states walk exactly those states, honour the pins and carry weight |
| TreeSpec.TreeAccepted | src/fa_posterior.rs:1147-1274 | the tree sampler accepts by construction too |
| TreeSpec.TreeGreedyTokens | src/fa_posterior.rs:1234-1272 | the greedy mode of the tree sampler does the same, and the draws used are one for every padded position and in multinomial mode one more for every free one |
| TreeSpec.PathOfWeight | src/fa_posterior.rs:977-1077 | the padded state path of x weighs its edge masses times the leaf shifts |
| TreeSpec.TreeBoxExact | src/fa_posterior.rs:1147-1274 | the tree sampler outputs x exactly on the box of x |
| TreeSpec.TreeVolume | src/fa_posterior.rs:1147-1274 | the root share, all midpoint conditionals and all token shares multiply to weight(x) over the backward weight |
| TreeSpec.TreeExact | src/fa_posterior.rs:874-1274 | the box has volume weight(x)/Z, the same as that of the sequential sampler: both sample one distribution |
| TreeSpec.TreeBoxInUnit | src/fa_posterior.rs:1147-1274 | the box of the tree sampler lies in the unit cube too |
| GreedyPaths.TreePathExact | src/fa_posterior.rs:1147-1274 | whatever the token mode, the tree sampler follows the states of x on a box whose volume is the posterior probability of that state path |
| TreeSampler.FillPairs | src/fa_posterior.rs:968-974 | the pair map holds, for every two nodes, the edge between them or -1 |
| TreeSampler.Leaf | src/fa_posterior.rs:1008-1065 | one leaf holds the edge masses (accepting destinations only at the last position) over its own largest entry, and none means that every entry is zero |
| TreeSampler.Identity | src/fa_posterior.rs:1066-1077 | the padding matrix is the identity: index i is diagonal exactly when n+1 divides it |
| TreeSampler.MatMul | src/fa_posterior.rs:874-896 | the shifted product of the matrices of two adjacent segments is the matrix of their union |
| TreeSampler.BuildLevels | src/fa_posterior.rs:1079-1092 | every node of every level is the matrix of the positions it covers; leaves first, root last |
| TreeSampler.Offsets | src/fa_posterior.rs:1103-1115 | the recorded offsets are where the levels start |
| TreeSampler.BuildTreeFrom | src/fa_posterior.rs:931-1130 | refuses exactly on a bad start or shape, an empty block, or a block no sequence fills with positive weight; otherwise the tree is built over that block, padded to less than twice its length |
| TreeSampler.BuildRefusalMeans | src/fa_posterior.rs:940-960 | what every refusal of a build says of the arguments, in the order of the checks |
| TreeSampler.Midpoint | src/fa_posterior.rs:1188-1228 | for a segment with mass the midpoint drawn from the two child matrices is that of the specification and nothing is counted; for one without mass the count goes up by one and a raw word of the generator picks the state |
| TreeSampler.WalkDown | src/fa_posterior.rs:1176-1232 | the explicit-stack walk fills exactly the recursively drawn states, with the draws in the same order |
| TreeSampler.CrossedEdge | src/fa_posterior.rs:1237-1243 | the fanout scan finds the edge between two boundary states |
| TreeSampler.SampleTree | src/fa_posterior.rs:1147-1274 | a call on a built tree returns the draw of the specification, never meets a segment without mass, so that the warning count stays zero, and refuses only a wrong output length; it uses one draw for every padded position and in multinomial mode one more for every free one, and its output keeps what the sequential one does, the heaviest tokens of greedy mode included |
| Marginals.OnlyIsMarginal | src/fa_posterior.rs:1276-1387 | the total weight of the block that may emit only v at position t is the sum over all sequences carrying v there |
| Marginals.FoldedTotal | src/fa_posterior.rs:1308-1330 | the row sum of a backward product is the backward table up to the leaf shifts |
| Marginals.ForwardSplit | src/fa_posterior.rs:1285-1306 | a forward row met by backward weights at position t is the backward weight at the start, up to the leaf shifts before t |
| Marginals.CarriedIsMarginal | src/fa_posterior.rs:1332-1376 | forward entry times token share, summed over nodes, is the marginal mass of the token up to the leaf shifts |
| Marginals.MarginalsTotal | src/fa_posterior.rs:1377-1383 | the marginal masses of one position add up to Z |
| TreeMarginals.Prefixes | src/fa_posterior.rs:1285-1306 | fwd[t] is the product of the first t leaves |
| TreeMarginals.Suffixes | src/fa_posterior.rs:1308-1330 | bwd[t] is the product of the leaves from t on and the accept diagonal |
| TreeMarginals.AddNode | src/fa_posterior.rs:1347-1376 | the edge and token loops add exactly the share of every token on that node |
| TreeMarginals.TokenMarginals | src/fa_posterior.rs:1280-1387 | out[t][v] is the posterior probability of v at position t: marginal mass over Z, brute-force reference included |
| Trimming.Forward | src/fa_minimize.rs:210-222 | the depth-first marks are exactly the states reachable from the start |
| Trimming.Backward | src/fa_minimize.rs:224-246 | the reverse breadth-first marks are exactly the states that can accept |
| Trimming.TrimMask | src/fa_minimize.rs:208-249 | the mask is exactly the states that are both |
| Relabelling.Relabel | src/fa_minimize.rs:60-73 | kept states are renumbered densely in ascending order |
| Relabelling.TrimmedEdges | src/fa_minimize.rs:75-87 | exactly the kept edges of the kept states survive, relabelled |
| Relabelling.MirrorLanguage | src/fa_minimize.rs:58-88 | trimming keeps the language of every kept state |
| Relabelling.MirrorLive | src/fa_minimize.rs:58-88 | after trimming every state can accept |
| Signatures.CanonUnique | src/fa_minimize.rs:103-117 | the merged, sorted, deduplicated arcs of a state are determined by the (block, token) pairs they record |
| Signatures.EncodeEntriesInjective | src/fa_minimize.rs:112-120 | the length-prefixed encoding of the merged arcs is one-to-one |
| Signatures.SignatureExact | src/fa_minimize.rs:103-122 | two signatures agree exactly when acceptance and every recorded (block, token) pair agree |
| Signatures.Signature | src/fa_minimize.rs:103-122 | the signature computed for a state is the encoding of its canonical merge |
| Refinement.Intern | src/fa_minimize.rs:121-122 | hash-consing numbers keys in order of first appearance: equal keys and only those get equal ids, and every id is used |
| Refinement.SignatureMeans | src/fa_minimize.rs:96-123 | equal signatures mean the same acceptance and, token by token, the same successor block |
| Refinement.RefinePass | src/fa_minimize.rs:94-141 | one pass refines the partition: two states stay together exactly when they were together and have the same signature |
| Refinement.Refine | src/fa_minimize.rs:90-147 | the loop terminates, only ever separates distinguishable states, and exits at a stable partition exactly outside the early-stop family |
| Dfas.Dfa.StableSameLanguage | src/fa_minimize.rs:26-38 | in a stable partition, states of one block accept the same sequences |
| Dfas.Dfa.SplitSeparates | src/fa_minimize.rs:125-141 | every split has a distinguishing continuation, because every trimmed state can accept |
| Dfas.Dfa.PassKeeps | src/fa_minimize.rs:94-141 | a pass keeps the blocks pairwise separated by some sequence |
| Dfas.Dfa.CountGrows | src/fa_minimize.rs:94-147 | a pass never lowers the number of blocks |
| Dfas.Dfa.EqualCountStable | src/fa_minimize.rs:142-147 | a pass that leaves the number of blocks as it was has changed nothing: the partition is stable |
| Dfas.Dfa.EarlyStopExact | src/fa_minimize.rs:91-147 | with every state accepting, a first pass ending in two groups is unstable exactly on the early-stop family |
| Dfas.Dfa.FirstPass | src/fa_minimize.rs:91-147 | the count started at max id + 1 = 2 can stop the loop too early only after the first pass, and exactly on that family |
| RowSpecs.RowsBuildable | src/fa_minimize.rs:158-188 | canonical rows are accepted by the builder exactly when no token leads one block to two blocks |
| RowSpecs.RowsRefusal | src/fa_minimize.rs:158-188 | the only refusal the rebuild can meet is a duplicate token on one node |
| RowSpecs.RowsAscend | src/fa_minimize.rs:170-188 | the edges of every rebuilt node come in the order of their destinations |
| Minimizer.Rebuild | src/fa_minimize.rs:150-188 | one node per block with the merged edges of its members |
| Minimizer.StableIsDeterministic | src/fa_minimize.rs:150-188 | the merged rows are deterministic exactly when the partition is stable, so an unstable partition always fails to rebuild |
| Minimizer.QuotientStep | src/fa_minimize.rs:150-188 | the rebuilt automaton steps as the blocks do |
| Minimizer.QuotientLanguage | src/fa_minimize.rs:150-188 | a block accepts exactly what its members accept |
| Minimizer.MinimizeWithStats | src/fa_minimize.rs:54-200 | DeadStart exactly when nothing is accepted; Ok exactly when something is accepted and the input is outside the early-stop family; otherwise a duplicate-token refusal, which names a token on which two kept states with equal useful tokens fork, and their group; on Ok every kept node and its block accept the same sequences, distinct nodes are separated by some sequence, nodes are numbered by their first kept member, edges come in the order of their destinations, and the counts are right |
| CanonicalForm.MinimizedUnique | src/fa_minimize.rs:54-200 | what is promised of an Ok leaves one automaton only, down to every entry of its arrays |
| MinimizeLaws.TermsSame | src/fa_minimize.rs:26-38 | for any token weights every sequence weighs the same before and after |
| MinimizeLaws.PosteriorKept | src/fa_minimize.rs:26-38 | total weight and posterior of each sequence survive minimization |
| MinimizeLaws.FewestNodes | src/fa_minimize.rs:89-147 | an Ok result is minimal: no automaton with the same start language has fewer nodes |
| MinimizeLaws.MixedSucceeds | src/fa_minimize.rs:90-188 | with a kept state that does not accept the minimizer cannot fail |
| MinimizeLaws.ChainRefused | src/fa_minimize.rs:91-188 | the three-state all-accepting chain on one token accepts sequences, yet the minimizer answers with a duplicate token |
| Nfas.ReadsBound | src/fa_schema.rs:154-258 | a labelling of states closed along every edge bounds everything that can be read from them to the exit |
| Nfas.Part.ResidualClosed | src/fa_schema.rs:154-258 | what a state may still read, given what may follow the exit, is closed along the edges of a fragment of its own |
| Nfas.SequenceExact | src/fa_schema.rs:202-217 | two fragments in sequence read exactly the concatenation |
| Fragments.LiteralExact | src/fa_schema.rs:187-199 | a literal reads exactly itself; the empty one is a single state |
| Fragments.RepeatExact | src/fa_schema.rs:230-237 | star of a fresh body reads exactly the iteration |
| Fragments.OptionalExact | src/fa_schema.rs:240-246 | opt reads exactly the fragment or nothing |
| Fragments.AlternationExact | src/fa_schema.rs:220-227 | alt reads exactly the union; the empty alternation reads nothing |
| NfaBuilders.NfaBuilder.State | src/fa_schema.rs:164-168 | states are numbered one after the other |
| NfaBuilders.NfaBuilder.Seq | src/fa_schema.rs:202-217 | adds exactly the links of the chain; an empty chain is one fresh state |
| NfaBuilders.NfaBuilder.Lit | src/fa_schema.rs:187-199 | adds exactly the literal fragment |
| NfaBuilders.NfaBuilder.Alt | src/fa_schema.rs:220-227 | adds two states and exactly the branch moves |
| NfaBuilders.NfaBuilder.Star | src/fa_schema.rs:230-237 | adds two states and exactly the four loop moves |
| NfaBuilders.NfaBuilder.Opt | src/fa_schema.rs:240-246 | adds two states and exactly the three moves around the fragment |
| NfaBuilders.NfaBuilder.OneOrMore | src/fa_schema.rs:250-257 | adds the loop around a fragment shared with its first occurrence |
| Numbers.NumberFrag | src/fa_schema.rs:324-350 | builds the shared-digit fragment, for integers without fraction and exponent |
| Numbers.NumberExact | src/fa_schema.rs:324-350 | the compiled number reads exactly the texts of a six-phase scanner: the shared digit class lets fractions and exponents repeat |
| NumberLaws.IntegerExact | src/fa_schema.rs:68-69 | Integer is exactly an optional minus before 0 or a digit string without leading zero (section 6 of RFC 8259), not the any-digits form of its doc comment |
| NumberLaws.NumberWide | src/fa_schema.rs:324-350 | every number of section 6 of RFC 8259 is accepted |
| NumberLaws.NumberForm | src/fa_schema.rs:324-350 | the compiled number fragment reads exactly an optional minus, an integer part without leading zero, and any row of fractions and exponents |
| NumberLaws.SharedDigitLeaks | src/fa_schema.rs:326-345 | 1.2.3 is accepted |
| Texts.StringFrag | src/fa_schema.rs:275-321 | builds the string fragment with its shared hex class |
| Texts.TextExact | src/fa_schema.rs:275-321 | the compiled string reads exactly the texts of a five-phase scanner: a \u escape needs only one hex digit |
| TextLaws.TextWide | src/fa_schema.rs:275-321 | every string of section 7 of RFC 8259 is accepted |
| TextLaws.TextForm | src/fa_schema.rs:275-321 | the compiled string fragment reads exactly quoted rows of plain characters, one-letter escapes and \u escapes of one digit |
| TextLaws.SharedHexLeaks | src/fa_schema.rs:301-312 | "\u1" is accepted |
| Arrays.WsExact | src/fa_schema.rs:268-272 | the whitespace fragment reads exactly runs of the four whitespace characters |
| Arrays.ArrayFrag | src/fa_schema.rs:417-435 | builds the array around its item, with one whitespace fragment on both sides of the comma |
| Arrays.ArrayExact | src/fa_schema.rs:417-435 | the compiled array reads exactly bracketed lists whose separator is any run of whitespace and commas |
| ArrayLaws.SeparatorWide | src/fa_schema.rs:417-435 | every separator of section 5 of RFC 8259 is among them |
| ArrayLaws.SharedBlanksLeak | src/fa_schema.rs:425-427 | two commas in a row are one separator |
| Bits.AndSubset | src/fa_schema.rs:560-563 | mask & required == required says that every required member has been emitted |
| Bits.PairsTotal | src/fa_schema.rs:465-467 | there are k 2^(k-1) pairs of a mask and a member it has not emitted |
| Objects.RestStep | src/fa_schema.rs:524-549 | emitting one more missing member from a mask stays within what may follow that mask |
| Objects.MasksRead | src/fa_schema.rs:524-563 | from the state of a mask every order of missing members that completes the object can be read up to the closing brace |
| Objects.ObjectExact | src/fa_schema.rs:473-573 | the finished object machine reads exactly braces around members in any order, each at most once, every required one present, relative to its value fragments |
| Values.KeyOf | src/fa_schema.rs:497-506 | the key text escapes the quote and the backslash only, and reads back as the name |
| Values.TextOf | src/fa_schema.rs:354-383 | the literal text, refused exactly for a control character other than newline, return and tab in a string; it reads back as the literal: the short escapes as the string, the decimals as the integer or as sign, integer part and digits of the float, and the words true, false, null, NaN, inf and -inf as what they name |
| Values.RequiredBits | src/fa_schema.rs:479-488 | the bit set of the required names, refused exactly when a name is no property |
| SchemaCompiler.MemberChain | src/fa_schema.rs:491-516 | a fresh chain reading exactly key, colon and a value instance |
| SchemaCompiler.MaskMembers | src/fa_schema.rs:526-549 | every missing member of one mask gets its own fresh chain into the successor mask |
| SchemaCompiler.CompileObject | src/fa_schema.rs:473-573 | reads exactly the instances of the object, is the fragment its schema determines state by state, and builds k 2^(k-1) fresh chains |
| SchemaCompiler.CompileValue | src/fa_schema.rs:385-455 | on success one fresh fragment, determined state by state by schema and next free state, reads exactly the instances of the schema in the compiled dialect; a refusal is true of the schema and is the first one in traversal order |
| Faults.FaultIff | src/fa_schema.rs:385-573 | that traversal (depth, then the parts in order, then the state count; for an object the member count, the required names, the masks with their missing members) meets no refusal exactly when the schema is within bounds and its fragment has no more states than the cap |
| Faults.FaultBlames | src/fa_schema.rs:385-573 | every refusal of a schema names its cause: a part at the first level below 24, an object with that many properties above 10, an enumerated string with a bare control character, a required name no property has, or a number of states above 400000 that the whole fragment needs |
| Sizes.SizeIs | src/fa_schema.rs:187-573 | the number of states of a fragment in closed form: two for every character of a literal and of a written name, 8, 20, 14, 42 and 39 for the other leaves, 46 around items, 2 around an alternation, and for an object of k members 27 2^k + 3 and 2^(k-1) chains for every member |
| Sizes.MissingTotal | src/fa_schema.rs:465-467 | summed over all masks, the chains of the missing members cost 2^(k-1) times the cost of all members |
| TokenCompiler.CapIff | src/fa_schema.rs:448-453 | a schema compiles to a character automaton exactly if it is within bounds and its closed-form size is at most 400000 |
| Layouts.Grows | src/fa_schema.rs:385-455 | the fragment of a schema only adds states, so a part above the cap means a whole above the cap |
| SchemaCompiler.TopLevel | src/fa_schema.rs:578-587 | one instance, then whitespace; succeeds exactly for the schemas within bounds whose fragment has no more states than the cap |
| JsonLaws.InstancesMono | src/fa_schema.rs:385-455 | a wider leaf language widens the instances, at every depth |
| JsonLaws.InstancesNonEmpty | src/fa_schema.rs:385-455 | no instance is the empty text |
| Spellings.IntTextInteger | src/fa_schema.rs:378-378 | the text of an enumerated integer is a JSON integer |
| Spellings.FiniteNumber | src/fa_schema.rs:379-379 | a finite float prints as a JSON number |
| Spellings.LitRead | src/fa_schema.rs:354-383 | the text written for a literal is the only one that stands for it, and for a number or word the only valid one: an integer has one decimal numeral without leading zero, a finite float one with its digits, true, false and null their words, and a float that is no number none |
| Spellings.WrittenOnly | src/fa_schema.rs:358-377 | the body written for a string is the only one that reads back to it by short escapes for the quote, the backslash and, in literals, newline, return and tab, and by no other escape |
| Spellings.QuotedString | src/fa_schema.rs:275-321 | every spelling of a string, by itself, by a short escape, by one or two \u escapes, is a string of section 7 of RFC 8259 |
| Spellings.CodedQuoted | src/fa_schema.rs:275-321 | every string has a text made of \u escapes only, surrogate pairs included |
| Spellings.QuotedUnique | src/fa_schema.rs:275-321 | a string text decodes to one string only |
| Lexing.WrittenValid | src/fa_schema.rs:497-506 | the text the compiler writes for a name or a literal string is a JSON string, and decodes to it, exactly when it leaves no control character unescaped |
| Lexing.ValidTakes | src/fa_schema.rs:63-88 | every valid instance text, in any spelling, keeps the lexical invariant: one dot to a number, one comma between values, four hex digits to a \u escape, no raw control character, no NaN or inf |
| Escapes.CompiledTakes | src/fa_schema.rs:385-455 | no text of the compiled grammar has a property name with a \u escape in it, nor such an escape at a place (the brackets open around it) without a String |
| Levels.NoRepeats | src/fa_schema.rs:71-77 | no valid instance text, in any spelling, reads one property name twice in one object |
| Dialects.ValidIsCompiled | src/fa_schema.rs:385-455 | every valid instance in the canonical spelling (names and literals as the compiler writes them), followed by whitespace, is accepted, for every schema in which no instance takes a required name from an entry behind the first one of that name; canonical instances are valid |
| Dialects.CompiledDialect | src/fa_schema.rs:259-350 | the compiled dialect in full without any automaton: the two expressions for numbers and strings, runs of blanks and commas between items, names and literals as the compiler writes them, members told apart by place |
| Dialects.ExactWithoutWideLeaf | src/fa_schema.rs:385-455 | for schemas of null, boolean, integer, enum, any-of and object, whatever is accepted is canonical if and only if no name with a control character, no float that is no number and no object with one name on two members is in reach; with distinct names in every object accepted and canonical texts then coincide |
| Composing.InhabitedHas | src/fa_schema.rs:63-88 | in any dialect that spells every name and leaf, a schema has an instance exactly when no empty enum, empty any-of or unknown name stands in a required place |
| Dialects.InhabitedIff | src/fa_schema.rs:63-88 | a schema has a valid instance exactly when that holds counting only floats that are numbers and any entry of a required name, and an accepted text exactly when it holds counting all literals and the first entry of a required name |
| Flaws.Unmet | src/fa_schema.rs:385-455 | a schema none of whose instances passes through a flaw has every instance of the first dialect in the second |
| Flaws.Breaks | src/fa_schema.rs:385-455 | a schema that reaches a flaw has an instance that breaks the lexer of the other dialect |
| Dialects.WideText | src/fa_schema.rs:301-573 | a reachable number, string, array with elements, raw control character, NaN or object with one name on two members yields an accepted text that is no valid instance in any spelling |
| Dialects.ExactIff | src/fa_schema.rs:385-573 | soundness: whatever is accepted is valid if and only if no instance passes through a number, a string, an array with elements, a name or literal string with a raw control character, a float that is no number, or an object with one name on two members; the same condition makes everything accepted canonical |
| Dialects.DistinctExact | src/fa_schema.rs:385-573 | for schemas whose objects list distinct names the canonical texts are all accepted, and they are all that is accepted if and only if none of the other flaws is in reach |
| Dialects.CompleteIff | src/fa_schema.rs:354-573 | completeness over all spellings: every valid text is accepted when no instance passes through a non-empty name, a non-empty literal string without a String beside it in its any-of, or a required name with an entry behind its first one; a spelling is refused when one passes through a non-empty name, or through a non-empty literal string at a place without a String |
| Leaks.ArrayStandsIn | src/fa_schema.rs:385-435 | with an array of strings beside an array of the literal nothing is refused |
| Leaks.ArrayStandsApart | src/fa_schema.rs:385-435 | with an array of strings beside an array of the literal and null a spelling is refused |
| Leaks.NumberLeak | src/fa_schema.rs:326-345 | 1.2.3 is accepted for Number and is not valid |
| Leaks.StringLeak | src/fa_schema.rs:301-312 | "\u1" is accepted for String and is not valid |
| Leaks.ArrayLeak | src/fa_schema.rs:425-427 | [null,,null] is accepted for an array of nulls and is not valid |
| Leaks.NameLeak | src/fa_schema.rs:497-506 | an object whose property is named by a line feed is accepted with the line feed unescaped, which is not valid |
| Leaks.NotANumberLeak | src/fa_schema.rs:379-379 | NaN is accepted for an enum holding that float and is not valid |
| Leaks.EscapedName | src/fa_schema.rs:497-506 | {"\u0061":null} is valid for a property named a and is refused |
| Leaks.RepeatedLeak | src/fa_schema.rs:473-573 | {"a":null,"a":true} is accepted when a is listed twice, as null and as boolean, and is not valid |
| Leaks.ShadowedEntry | src/fa_schema.rs:479-488 | with a required, {"a":true} is then valid and is refused: the first entry of a has to be there |
| Leaks.ShadowHarmless | src/fa_schema.rs:479-488 | when both entries have the same texts nothing canonical is refused |
| Leaks.EmptyFirst | src/fa_schema.rs:479-488 | an entry without instances in front of a required name leaves nothing to accept, though there are valid instances |
| Subsets.Machine.RunReads | src/fa_schema.rs:592-705 | stepping a closed set of states over a text gives exactly the states some path over that text reaches |
| Subsets.Machine.RunExact | src/fa_schema.rs:592-705 | the subset machine accepts exactly the texts of the automaton |
| Steppers.BuildIndex | src/fa_schema.rs:597-603 | the index groups exactly the edges by source |
| Steppers.ClosureInto | src/fa_schema.rs:617-636 | the stamped stack search returns the sorted closure under empty moves, as long as the stamp is absent from the buffer |
| Steppers.Stepper.BeginStamp | src/fa_schema.rs:687-694 | after it no mark carries the current stamp, including when the 32-bit counter wraps and the buffer is cleared |
| Steppers.Stepper.Step | src/fa_schema.rs:665-678 | one step is move then closure, and none exactly when the character kills every state |
| Tries.TokenTrie.Insert | src/fa_schema.rs:732-747 | afterwards the terminals hold exactly the inserted tokens, children sorted and prefixes shared |
| Walks.StepCache.Intern | src/fa_schema.rs:699-711 | equal subsets get one pool id, which never changes |
| Walks.StepCache.Target | src/fa_schema.rs:875-890 | the memo on (pool subset, character) answers with the step of that subset, live or dead |
| Walks.Walk | src/fa_schema.rs:854-893 | the depth-first trie walk finds exactly the tokens that leave the subset alive, under the subset each leads to |
| SubsetGraphs.Targets | src/fa_schema.rs:894-903 | targets come in set order, with their canonical token lists |
| SubsetGraphs.LexMeans | src/fa_schema.rs:901-903 | set order puts a list before another exactly when it is a prefix of it or smaller at the first difference |
| SubsetGraphs.SubsetGraph.IdOf | src/fa_schema.rs:793-815 | a subset gets one number on first sight, accepting exactly when it holds the final state; refused exactly at the cap |
| SubsetGraphs.Expand | src/fa_schema.rs:849-912 | one expansion completes the row of its node and leaves every other row alone |
| SubsetGraphs.Explore | src/fa_schema.rs:817-912 | the worklist expands every discovered subset once, in discovery order; it gives up exactly when more subsets than the cap are met |
| TokenCompiler.GraphAccepts | src/fa_schema.rs:775-934 | a node accepts an id sequence exactly when some choice of listed texts runs its subset into the final state |
| TokenCompiler.RawLanguage | src/fa_schema.rs:775-934 | the raw automaton accepts exactly the id sequences spelling a text of the schema machine: trie, memo, pool and stamps refine plain simulation |
| TokenCompiler.RowsDeterministic | src/fa_schema.rs:914-934 | with one text per id no token leads a subset to two places |
| TokenCompiler.StartRejects | src/fa_schema.rs:935-942 | the start node never accepts, so the early stop of the minimizer cannot be met here |
| TokenCompiler.RawCounted | src/fa_schema.rs:914-934 | the raw automaton has one node for every non-empty subset some run of tokens meets, and one edge for every pair of them that some token joins |
| TokenCompiler.StartsAtZero | src/fa_schema.rs:838-846 | minimization keeps the start at node 0 |
| TokenCompiler.BuildTrie | src/fa_schema.rs:830-835 | the trie holds exactly the listed tokens with a non-empty text |
| TokenCompiler.VocabOf | src/fa_schema.rs:914-920 | one more than the largest id of the list, whatever the texts, and 1 for an empty list |
| TokenCompiler.Compile | src/fa_schema.rs:775-953 | Ok yields the smallest automaton accepting exactly the sequences of listed tokens that spell a padded instance, at least one of which exists; it starts at node 0, its vocabulary reaches just over the largest id listed (tokens without a text included), and of the counts the raw ones are the subsets that are met and the pairs of them joined by a token, the others its own nodes and edges and the closed-form size of the schema plus 12; a schema refusal comes exactly when the schema is out of bounds or its own machine above the state cap, is the first one in traversal order and names its cause; TooManyStates comes exactly when that is not so and the own machine meets more subsets than the cap; every later refusal is true of schema and tokens, and the minimization refusal never occurs |
| EndToEnd.ValidAccepted | src/fa_schema.rs:775-953 | every sequence of listed tokens spelling a canonical padded instance is accepted, unless a required name may be taken from an entry behind its first one |
| EndToEnd.AcceptsValid | src/fa_schema.rs:775-953 | without a widening flaw in reach every accepted sequence spells a valid instance; without a narrowing one every sequence spelling a valid instance, in any spelling, is accepted |
| EndToEnd.SampledSpellsInstance | src/fa_posterior.rs:546-797 | whatever logits, pins and draws, the output of the sequential sampler spells a padded instance |
| EndToEnd.TreeSpellsInstance | src/fa_posterior.rs:1147-1274 | so does the output of the tree sampler |
| EndToEnd.SamplingIsConditioning | src/fa_posterior.rs:546-797 | sampling a compiled automaton conditions the token weights on the schema: Z sums over the sequences spelling an instance and each is drawn with its share |
| Bf16.RoundedNearest | src/multi_host.rs:140-149 | rounding the pattern is round-to-nearest, ties to even, in the represented values (section 4.3.1 of IEEE 754-2019) |
| Bf16.NarrowRounds | src/multi_host.rs:140-149 | the 32-bit addition never wraps outside NaN and keeps the sign |
| Bf16.NarrowNearest | src/multi_host.rs:136-149 | every value that is not a NaN becomes the nearest bf16 pattern, at most 2^15 away in its bits; infinities and exact values are kept |
| Bf16.NarrowNaN | src/multi_host.rs:142-146 | a NaN stays a NaN and nothing else becomes one; of a NaN sign, exponent and upper payload bits stay and the quiet bit is set |
| Bf16.NarrowIdempotent | src/multi_host.rs:136-154 | narrowing a widened bf16 value changes nothing |
| Frames.HeaderRoundTrip | src/multi_host.rs:190-228 | an encoded header is read back whatever follows, unless its reserved byte is set |
| Frames.HeaderUnique | src/multi_host.rs:201-228 | whatever decodes is the encoding of what it decodes to |
| Frames.HeaderLayout | src/multi_host.rs:156-196 | the header on the wire, byte by byte: MAF1 at 0, seq_id at 4, pos at 8, n_tok at 12, dtype at 14, reserved at 15, payload_len at 16, all lowest byte first |
| Frames.FrameLayout | src/multi_host.rs:184-281 | a frame on the wire: the header with dtype 0 or 1 and reserved 0, the payload length cut to 32 bits, and scalar i in the four or two bytes from 20 + 4i or 20 + 2i on |
| Frames.DecodeOutcome | src/multi_host.rs:201-334 | every refusal of a decode and its cause read off the bytes, in the order of the checks; a decoded header holds the numbers at the offsets of the layout |
| Wire.LittleEndian | src/multi_host.rs:190-197 | byte k of an encoded number is its digit of weight 256^k |
| Frames.Encode | src/multi_host.rs:250-281 | appends magic, header and payload, keeping what the buffer held |
| Frames.DecodeInto | src/multi_host.rs:290-334 | refuses in the order prefix, magic, reserved byte, dtype, payload length, ragged payload, and leaves the vector untouched then |
| Frames.FrameRoundTrip | src/multi_host.rs:250-334 | decoding gives the header and the scalars the 32-bit length covers, whatever bytes follow: all of them, exact or rounded, if and only if the payload is below 2^32 bytes |
| Frames.PrefixRefused | src/multi_host.rs:201-334 | a frame cut short anywhere is refused |
| Frames.Resent | src/multi_host.rs:250-334 | encoding what was decoded gives the same frame |
| Segments.Validate | src/multi_host.rs:70-84 | accepts exactly 0 <= lo < hi <= n; the refusal is empty-or-inverted exactly when lo >= hi, and past-the-end otherwise |
| Segments.VerifyPair | src/multi_host.rs:359-389 | passes if and only if architecture, geometry, artifact and dtype agree, both windows lie within the model and upstream.hi == downstream.lo; every refusal names a mismatch that is there, and the first one in the order of the fields |
| Segments.PipelineIff | src/multi_host.rs:359-389 | the pipelines are exactly the cuts of one model at increasing points from layer 0 to the last |
| Segments.PipelineRunsAll | src/multi_host.rs:359-390 | stages from first to last whose adjacent pairs all verify run every layer exactly once, in order, on one architecture, geometry, artifact and dtype |
| Segments.EncodeInto | src/multi_host.rs:426-500 | appends the segment of the range, or refuses a bad range or cache shape and appends nothing |
| Segments.SegmentLayout | src/multi_host.rs:395-500 | the segment on the wire: MHS1, lo, hi, n_layer and fill_pos at 0, 4, 8, 12 and 16; per layer kind 0 or 1, three zero bytes, and two vectors with their lengths, lowest byte first |
| Segments.RestoreInto | src/multi_host.rs:507-635 | layers are written as they are read, the first failure is reported, and the tracker moves only on a clean restore |
| Segments.RestoredIff | src/multi_host.rs:507-635 | a restore reports no error if and only if the bytes are, up to the reserved bytes and what follows, the header of exactly this range and layer count and, layer by layer, the kind of that layer and the vectors the cache holds afterwards |
| Segments.OnlyOwnSegment | src/multi_host.rs:507-635 | an encoded segment is restored only into the range, the layer count and the layer kinds it was written for |
| Segments.HeadOutcome | src/multi_host.rs:507-542 | a header is taken exactly when it is that of the range for some fill position; the refusals are told apart by length, magic and fields |
| Segments.LayerOutcome | src/multi_host.rs:543-635 | a layer is taken exactly when its bytes come first for a state of the expected shape; a kind, a shape and a truncation refusal each say what the bytes are |
| Segments.RestoreKeeps | src/multi_host.rs:507-635 | whatever bytes arrive, no layer outside the range and no buffer of the other kind is touched, and no length changes |
| Segments.SegmentRoundTrip | src/multi_host.rs:426-635 | restoring an encoded range into any cache of the same shape reproduces those layers and, below 2^32, the fill position, and touches no other layer, if and only if every vector of the range is shorter than 2^32; otherwise it is refused; trailing bytes are ignored |
| Segments.SegmentCut | src/multi_host.rs:507-635 | every strict prefix of a segment is refused, as truncated when every vector of the range is shorter than 2^32 |
| Segments.TilingRestores | src/multi_host.rs:426-635 | restoring the segments of a tiling takes over every layer from the first range on if and only if all their vectors are shorter than 2^32 |
| Segments.TilingIsWhole | src/multi_host.rs:426-635 | restoring all segments of a tiling of the model succeeds if and only if no vector is too long for its prefix, and then every layer holds what the source holds of it |
| Fingerprints.PrefixFree | src/disaggregated.rs:108-139 | every tagged value encoding is prefix-free, nested arrays included |
| Fingerprints.FedLayout | src/disaggregated.rs:108-139 | the fed bytes of every kind of value: tags 1 to 13, the width or length as 64 bits, and the value lowest byte first, negative numbers as their remainders, a flag as 0 or 1; an array feeds its items in order |
| Fingerprints.GeometryBytes | src/disaggregated.rs:91-95 | the keys taken are general.architecture and those that start with qwen35., byte by byte |
| Fingerprints.BeforeMeans | src/disaggregated.rs:96 | a key comes before another if it is a proper prefix of it or smaller at the first difference |
| Fingerprints.KeyEnds | src/disaggregated.rs:98-102 | the zero terminator ends a key as long as keys hold no zero byte |
| Fingerprints.StreamInjective | src/disaggregated.rs:90-104 | equal streams come from the same keys with the same values |
| Fingerprints.CanonicalIff | src/disaggregated.rs:90-139 | when the geometry keys are zero-free the fed bytes agree exactly when the geometry metadata agrees |
| Fingerprints.ZeroByteCollides | src/disaggregated.rs:98-102 | for every key of the qwen35 namespace there are a geometry with it and one without it that feed the same bytes, once the other holds a zero byte in a key |
| Fingerprints.ArchitectureDetermined | src/disaggregated.rs:90-104 | the architecture entry is never affected: equal streams agree on it whatever zero bytes the keys hold |
| Fingerprints.Hasher.FeedValue | src/disaggregated.rs:108-139 | feeds exactly the canonical bytes of a value |
| Fingerprints.SortedKeys | src/disaggregated.rs:91-96 | the geometry keys in byte order, whatever order the map yields them in |
| Fingerprints.GeometryFingerprint | src/disaggregated.rs:90-104 | the digest is the hash of the canonical stream |
| Drafters.PromptHistory.Record | src/rollout_history.rs:86-91 | the retained streams are exactly the last capacity recorded ones |
| Drafters.PromptHistory.LongestSuffixContinuation | src/rollout_history.rs:114-147 | the continuation of the match with the longest suffix, in the newest stream, at the earliest place, capped by draft length and stream end; nothing exactly when no suffix matches |
| Drafters.LookupUnique | src/rollout_history.rs:104-147 | that answer is unique |
| Drafters.MeasureAlphaSeeded | src/rollout_history.rs:205-263 | every cycle records the lookup on seed plus committed prefix and its agreement with the rest of the target, until the target is used up; totals are the sums of the cycles |
| Drafters.Accounting | src/rollout_history.rs:235-252 | accepted_total + cycles is target_len or target_len + 1, and no cycle accepts more than it drafted |
| Drafters.SelfConsistent | src/rollout_history.rs:205-263 | with a non-empty seed, distinct tokens and the target as history, every draft is accepted and the walk takes ceil(len/(K+1)) cycles |
| Rope.Inverse | src/rope.rs:356-376 | the inverse rotation undoes the rotation, and the other way round, on unit tables |
| Rope.InverseIff | src/rope.rs:356-376 | it undoes every vector if and only if cos^2 + sin^2 = 1 everywhere |
| Rope.RotatedTwice | src/rope.rs:378-429 | two rotations in a row are the rotation by the composed table |
| Rope.DotKept | src/rope.rs:378-429 | rotating query and key alike keeps their inner product |
| Rope.PairsTurned | src/rope.rs:356-429 | entry by entry, a pair (x, y) becomes (x cos - y sin, x sin + y cos), and by the inverse (x cos + y sin, -x sin + y cos); all else stays |
| Rope.PositionsAdd | src/rope.rs:378-429 | rotating for one position and then for another rotates for their sum, for any sine and cosine with the addition formulas |
| Rope.OnlyDistanceMatters | src/rope.rs:378-429 | the product of a rotated query and a rotated key depends on the distance of their positions only |
| Rope.RotateHead | src/rope.rs:383-429 | the four-wide unrolled loop with its tail equals the plain per-pair rotation and touches nothing else |
| Rope.UnrotateHead | src/rope.rs:365-376 | the inverse loop equals the plain per-pair inverse and touches nothing else |
| Rope.PatchedInverse | src/rope.rs:365-429 | applied to one slice in place, rotation and inverse cancel |
| Rope.ApplyPartialRope | src/rope.rs:179-241 | every head has its first rotary entries rotated and its tail, like everything past the last whole head, left alone; position zero and an empty rotary part change nothing |
| Rope.PositionTurned | src/rope.rs:199-241 | entry by entry, pair i of every head is turned by the angle position times frequency i |
| Rope.PositionZero | src/rope.rs:200-203 | the early return at position zero is what the rotation would have done |
| Rope.UnpermuteInterleavedRows | src/rope.rs:1002-1021 | every interleaved row 2j+s of every head ends at row s*half+j |
| Rope.RowsMoved | src/rope.rs:1011-1018 | out[(h headDim + s half + j) width + c] is w[(h headDim + 2j + s) width + c], and the other way round for the order of the converter |
| Rope.RowsDiffer | src/rope.rs:1011-1019 | distinct places have distinct rows in both orders, within the matrix: the row map is a permutation |
| Rope.UnpermuteInverts | src/rope.rs:1002-1044 | it is the two-sided inverse of the permutation of the converter, for all head counts, even head sizes and widths |

## Left out

- SequentialSampler.SampleJointFrom: exact reals instead of f32 and f64, so rounding, the draw that rounds to 1.0 and falls through to the last edge (`src/fa_posterior.rs:733-742`), underflow of small edge sums and the refusals that guard against them (`InternalDeadState`, NaN totals) are not captured; in the exact model they are unreachable.
- TreeSampler.Midpoint: exact reals hold no NaN, so of the two counted fallbacks only that of a conditional without mass is a branch.
- TreeSampler.SampleTree: the refusals of an empty root row and of a missing crossed edge are proved unreachable rather than written out, and the debug print is left out.
- The temperature division and its fallback to 1.0: a token mass stands for `exp(logit / T)` with the T in force; the greedy mode compares these masses, which order tokens as the raw logits do.
- SplitMix64 and its statistical quality; the draws are arbitrary.
- Builders.AutomatonBuilder.Build: node, edge and token numbers are unbounded; the 32-bit casts (`src/fa_posterior.rs:189-292`) are not written out, and Builders.CastsExact says below which numbers they are harmless; marking a node out of range is the caller's obligation, as the indexing panic makes it.
- TokenCompiler.Compile: the nodes behind the start are numbered in the order in which subsets are discovered; that order is not stated, and with the numbering all else of the automaton is fixed.
- Distances.StepsToAccept: assumes a node count no larger than the sentinel, which 32-bit node ids imply.
- Trie nodes, pool ids and subset ids are unbounded as well; only the closure stamp keeps its 32-bit wrap-around.
- TreeSampler.FillPairs: edge numbers are unbounded, so the cast of an edge index to 32 signed bits (`src/fa_posterior.rs:972`), harmless below 2^31 edges, is not written out.
- Dialects.ValidIsCompiled: one-way where a name is listed twice: a required name with a later entry need not refuse anything (Leaks.ShadowHarmless, Leaks.ShadowedEntry), since whether it does depends on whether the first entry, or another alternative, has the texts of the later one.
- Dialects.CompleteIff: undecided when all names in reach are empty and every non-empty literal string in reach has a String at its own place, but not always in its own any-of (Leaks.ArrayStandsIn, Leaks.ArrayStandsApart), or an empty required name has a later entry.
- Enumerated numbers and `Integer` are read as the source documents them, as texts: `1` and `1.0` are different literals, since RFC 8259 does not define when two numbers are the same.
- Floats are modelled by what they print as: NaN, the infinities, or a sign, an integer part and decimal digits; that the digits are the shortest that read back is not.
- `sample_joint`, `build_tree`, `walk`, `minimize` and `compile` only forward to the members modelled; `allows` is one membership scan.
- Segments.EncodeInto: the recurrent and convolution buffers of a layer are paired in one list, so a cache whose two lists differ in length is not represented; byte alignment of slice casts, big-endian branches and error texts are left out.
- Segments.RestoreInto: asks the caller for a DeltaNet state list of the model's length, which the code indexes without a check.
- Fingerprints.GeometryFingerprint: BLAKE3 is an arbitrary function of the fed bytes; strings are their UTF-8 bytes and floats their bit patterns.
- `verify_escape_set_shared` and the bit-equality helpers (`src/disaggregated.rs:141-173`, `:321-351`): these field-by-field comparisons are not modelled.
- Drafters.MeasureAlphaSeeded: the two ratios `alpha` and `tokens_per_forward` are left out; they are quotients of the totals proved here.
- Rope.ApplyPartialRope: cosine and sine are arbitrary functions of the angle, computed over exact reals; the stack or heap choice of the table buffer is left out, and so are the full and value-only variants, which loop over the same two head rotations.
- File loading, tensor name tables, forward passes, the drafting wrappers, `PhaseHandoff` and everything in crates outside this repository.
