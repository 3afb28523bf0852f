# Spooky fusion core: parameter blocks, chain bookkeeping and run detection

Spooky is a sensor-fusion plugin that keeps a skeleton of articulated nodes. Each node
holds a Gaussian belief over its articulation parameters. This project models the
integer and indexing logic of that system, and proves what it guarantees. The
numerical linear algebra is left out.

- `parameters.dfy` (module `Gaussian`) models `Node::State::Parameters`. This is an
  expectation vector and a square covariance matrix, kept in fixed-size buffers
  (`array<real>`, `array2<real>`). The class `Parameters` has:
  - the sized constructor (zero expectation, identity covariance);
  - `GetSubstate`, which copies out a contiguous block;
  - `InsertSubstate`, which overwrites a block in place;
  - `Size`.

  Each operation is proved against the value functions `Prior`, `Substate` and
  `Inserted` on a `Belief`. Lemmas then prove two round trips and the frame
  property: writing one block leaves every disjoint block as it was.
- `fusion.dfy` (module `Skeleton`) models the skeleton as an arena of nodes, where
  every parent has a smaller index than its child. It covers:
  - `getRequiredChainLength`: the walk towards the root with its sticky lever flag.
  - The sizing and column-filling loops of `getPoseChainJacobian`. Each Jacobian
    column is identified by the (node, parameter) pair it differentiates.
  - The placement of the complex-step perturbation in `getLocalPoseComplexStep`.
  - The control flow of `fusePositionMeasurement`.
  - The three fuse entry points that do nothing.
- `accuracy.dfy` (module `AccuracyAnalysis`) models `getValidSections` from the accuracy
  analysis script. It has two versions:
  - as written: one shared `section` array, appended for every run;
  - corrected: a fresh pair per run, with an exclusive end.

  `Runs` is the specification: it is proved to list exactly the maximal runs of
  valid samples, in order.

## Model

| member | source | states |
|---|---|---|
| Gaussian.Parameters.constructor | Plugins/Spooky/Source/Spooky/Spooky/ArticulatedModel.h:69-75 | the new block has `size` parameters, every expectation entry is zero and the covariance is the `size`×`size` identity |
| Gaussian.Parameters.Size | Plugins/Spooky/Source/Spooky/Spooky/ArticulatedModel.h:65-67 | the size is the number of parameters of the belief held |
| Gaussian.Parameters.GetSubstate | Plugins/Spooky/Source/Spooky/Spooky/ArticulatedModel.h:52-57 | given `position + size` within the block, the result is a new block holding the `size` expectations from `position` and the diagonal covariance block at (`position`, `position`); the source object and its buffers are unchanged (const) |
| Gaussian.Parameters.InsertSubstate | Plugins/Spooky/Source/Spooky/Spooky/ArticulatedModel.h:59-63 | the new belief equals the old one with `p`'s expectation over the slice and `p`'s covariance over the diagonal block; every other entry is kept, cross-covariances included; the size and the matrix shape are preserved and `p` is not changed |
| Gaussian.Substate | Plugins/Spooky/Source/Spooky/Spooky/ArticulatedModel.h:52-57 | each entry of the sub-block equals the entry of the whole at the offset position, and the sub-block is square of side `size` |
| Gaussian.Inserted | Plugins/Spooky/Source/Spooky/Spooky/ArticulatedModel.h:59-63 | inside the written block each entry is `p`'s, outside it each entry is the original's; the dimension is kept |
| Gaussian.SubstateOfInserted | Plugins/Spooky/Source/Spooky/Spooky/ArticulatedModel.h:52-63 | reading back the block just written yields exactly what was written |
| Gaussian.InsertedOfSubstate | Plugins/Spooky/Source/Spooky/Spooky/ArticulatedModel.h:52-63 | writing back a block just read leaves the belief unchanged |
| Gaussian.SubstateOfInsertedElsewhere | Plugins/Spooky/Source/Spooky/Spooky/ArticulatedModel.h:59-63 | writing one diagonal block leaves every disjoint diagonal block unchanged |
| Skeleton.Chain | Plugins/Spooky/Source/Spooky/Spooky/FusionProcedures.cpp:64-82 | the nodes met going from a node to its root: it starts at the node, each next entry is the parent of the previous one, and it ends at a node without a parent |
| Skeleton.RequiredChainLength | Plugins/Spooky/Source/Spooky/Spooky/FusionProcedures.cpp:50-85 | the result is between 1 and the number of nodes up to the root; the first `nodecount` nodes supply both required degrees of freedom, or the root was reached; no shorter prefix of at least one node supplies them |
| Skeleton.RequiredLengthIsLeast | Plugins/Spooky/Source/Spooky/Spooky/FusionProcedures.cpp:65-83 | the required length is the least prefix length that meets both requirements, or the whole chain to the root when no prefix does |
| Skeleton.LeverIffEarlierTranslation | Plugins/Spooky/Source/Spooky/Spooky/FusionProcedures.cpp:62-73 | the lever flag passed to the `t`-th node is set exactly when some earlier node of the walk has a translation: false at the start, and sticky once set |
| Skeleton.NothingRequiredMeansOneNode | Plugins/Spooky/Source/Spooky/Spooky/FusionProcedures.cpp:52-77 | a measurement requiring no positional and no rotational freedom is fused into the node alone (length 1) |
| Skeleton.RotationOnlyChainTakesWholeChain | Plugins/Spooky/Source/Spooky/Spooky/FusionProcedures.cpp:65-83 | if no node up to the root has a translation or positional freedom, a measurement that needs positional freedom takes the whole chain to the root |
| Skeleton.ChainInputDimension | Plugins/Spooky/Source/Spooky/Spooky/FusionProcedures.cpp:143-151 | the Jacobian width is the sum of the dimensions of the first `chain_length` nodes of the chain, with the walk cut at the root |
| Skeleton.PoseChainJacobian | Plugins/Spooky/Source/Spooky/Spooky/FusionProcedures.cpp:142-174 | the Jacobian has that many columns; the fill visits the same nodes in the same order (the node, then its ancestors) and gives each node's parameters consecutive columns; the columns written are 0, 1, …, width−1 in turn, each once, so the counter ends at the width |
| Skeleton.ColumnsCount | Plugins/Spooky/Source/Spooky/Spooky/FusionProcedures.cpp:157-166 | there is exactly one column per parameter of the visited nodes |
| Skeleton.ColumnOfParameter | Plugins/Spooky/Source/Spooky/Spooky/FusionProcedures.cpp:158-166 | parameter `p` of the `t`-th visited node sits in column (dimensions of the nodes before it) + `p`: the node blocks follow each other without gaps |
| Skeleton.Locate | Plugins/Spooky/Source/Spooky/Spooky/FusionProcedures.cpp:179-187 | a parameter index below the node's dimension belongs to an articulation and a local index within it, which add up to the index |
| Skeleton.LocalPoseComplexStep | Plugins/Spooky/Source/Spooky/Spooky/FusionProcedures.cpp:177-191 | there is one perturbation vector per articulation, sized to it; entry `k` of articulation `i` is `h` exactly when it is parameter `j` of the node (offset of `i` plus `k` equals `j`), and 0 otherwise |
| Skeleton.SomeArticulationPerturbed | Plugins/Spooky/Source/Spooky/Spooky/FusionProcedures.cpp:179-187 | for `0 ≤ j <` the node's dimension, some articulation contains parameter `j` and so receives the perturbation |
| Skeleton.AtMostOneArticulationPerturbed | Plugins/Spooky/Source/Spooky/Spooky/FusionProcedures.cpp:179-187 | no parameter index lies in two articulations, so at most one articulation is perturbed |
| Skeleton.NoArticulationPerturbedOutside | Plugins/Spooky/Source/Spooky/Spooky/FusionProcedures.cpp:179-187 | for `j` outside 0 to the dimension, no articulation is perturbed |
| Skeleton.FusePositionMeasurement | Plugins/Spooky/Source/Spooky/Spooky/FusionProcedures.cpp:87-127 | a measurement not in global space leaves the state unchanged; for a global one, the state becomes the chain-state scatter at the required chain length of the update computed from the Jacobian and the chain-state gather at that same length |
| Skeleton.FuseRotationMeasurement | Plugins/Spooky/Source/Spooky/Spooky/FusionProcedures.cpp:129-131 | the state is unchanged |
| Skeleton.FuseRigidMeasurement | Plugins/Spooky/Source/Spooky/Spooky/FusionProcedures.cpp:133-135 | the state is unchanged |
| Skeleton.FuseScaleMeasurement | Plugins/Spooky/Source/Spooky/Spooky/FusionProcedures.cpp:137-139 | the state is unchanged |
| AccuracyAnalysis.ValidSections | experiment_data_and_analysis/AccuracyAnalysis/accuracy_analysis.py:84-100 | `valid` is applied exactly once per sample, in order; one entry per maximal run of valid samples; every entry is the same `section` object; each entry reads as the last run's start and recorded end (one past the closing invalid sample, or the sample count for a run still open at the end) |
| AccuracyAnalysis.ValidSectionsCorrected | experiment_data_and_analysis/AccuracyAnalysis/accuracy_analysis.py:84-100 | the result is exactly the maximal runs of valid samples, in order, each as a separate half-open range |
| AccuracyAnalysis.RunsAreTheMaximalRuns | experiment_data_and_analysis/AccuracyAnalysis/accuracy_analysis.py:85-100 | every run found is maximal, the runs are in increasing order and disjoint, and every maximal run is found |
| AccuracyAnalysis.EveryValidSampleInARun | experiment_data_and_analysis/AccuracyAnalysis/accuracy_analysis.py:88-95 | every valid sample lies inside one of the runs found |
| AccuracyAnalysis.NoRunIffNoValidSample | experiment_data_and_analysis/AccuracyAnalysis/accuracy_analysis.py:85-100 | no run is found exactly when no sample is valid; in particular, empty data gives none |
| AccuracyAnalysis.AsWrittenFromScan | experiment_data_and_analysis/AccuracyAnalysis/accuracy_analysis.py:92-99 | after the last sample, every recorded entry is the open run's (start, sample count) when the last sample is valid, and otherwise the last closed run's (start, end + 1) |
| AccuracyAnalysis.AliasingLosesEarlierRuns | experiment_data_and_analysis/AccuracyAnalysis/accuracy_analysis.py:87-99 | for samples valid, invalid, valid, the runs are [0, 1) and [2, 3), but both returned entries read [2, 3) |
| AccuracyAnalysis.RecordedEndTakesInInvalidSample | experiment_data_and_analysis/AccuracyAnalysis/accuracy_analysis.py:92-95 | for samples valid, invalid, the only run is [0, 1), but the range recorded is [0, 2), which includes the invalid sample |

## Left out

- Floating-point and complex arithmetic is not modelled: the Jacobian column values (the complex-step pose derivative with `h = 1e-20`), the information-form update with its matrix inverses, and the angle-axis and quaternion-Jacobian conversions. `FusePositionMeasurement` takes the update as a function parameter `informationUpdate`, and the Jacobian is given to it as its column layout.
- The lever test `translation().norm() > 0.01` is not modelled; each node carries a boolean `hasTranslation` in its place.
- `getPDoF`, `getRDoF`, `getDimension`, `getLocalPose`, `getChainState`, `setChainState` and the articulation transforms have no bodies in the source; they are not part of this model. The degree-of-freedom counts are per-node inputs (`pDoF`, `leveredPDoF`, `rDoF`). The dimension is the sum of the node's per-articulation parameter counts. The chain accessors are function parameters of `FusePositionMeasurement`.
- The second constructor, `Parameters(x, V)`, is not modelled: it only stores its two arguments.
- Gaussian.Parameters.InsertSubstate: it requires `p`'s buffers to be distinct from this object's. Inserting a block into itself (`q.insertSubstate(pos, q)`) is not covered.
- The parent-pose computation of `getPoseChainJacobian` is not modelled: it only feeds the column values. This includes its inverted test, which reads `parent` when it is null.
- The constraints term of `fusePositionMeasurement` is not modelled: it is read from the chain state and weighted by a local `joint_stiffness` of 0. So is the unused `flex_threshold`.
- Pose caching, the threaded ingestion of measurements, the calibrator, and the file loading and plotting of the analysis script are not modelled.
- A pointer-linked skeleton becomes an arena with parent indices. Acyclicity is stated as "a parent's index is smaller than its child's".
- AccuracyAnalysis.ValidSections: `valid` is a pure function of the sample; a test with side effects or exceptions is not covered.

## Findings

| source | as written | input that shows it | evidently intended | confidence | as-written member | corrected member |
|---|---|---|---|---|---|---|
| experiment_data_and_analysis/AccuracyAnalysis/accuracy_analysis.py:87-99 | the one list `section` is appended for every run and then mutated, so every entry of the result is the same list holding the last run | samples valid, invalid, valid: runs [0, 1) and [2, 3), returned as [[2, 3], [2, 3]] | a separate pair per run | high, not executed | AccuracyAnalysis.AliasingLosesEarlierRuns | AccuracyAnalysis.ValidSectionsCorrected |
| experiment_data_and_analysis/AccuracyAnalysis/accuracy_analysis.py:92-95 | a run closed by the invalid sample `i` is recorded with exclusive end `i + 1`, so the range takes in that invalid sample | samples valid, invalid: the run [0, 1) is recorded as [0, 2) | exclusive end `i`, as for a run still open at the end | medium, not executed | AccuracyAnalysis.RecordedEndTakesInInvalidSample | AccuracyAnalysis.ValidSectionsCorrected |
