/** The integer bookkeeping of the fusion procedures of a skeleton node: how long a
    chain of ancestors a measurement needs, how the chain's parameters are laid out
    as Jacobian columns, where a complex-step perturbation lands inside a node, and
    the control flow of fusing one measurement. */
module Skeleton {
  import opened Gaussian

  datatype Option<T> = None | Some(value: T)

  /** One skeleton segment, as the chain walks see it. The degree-of-freedom counts
      and the translation test are per-node inputs. */
  datatype Node = Node(
    parent: Option<nat>,        // index of the parent in the arena; None for a root
    pDoF: nat,                  // getPDoF(false)
    leveredPDoF: nat,           // getPDoF(true)
    rDoF: nat,                  // getRDoF()
    articulationDims: seq<nat>, // parameter count of each articulation, in order
    hasTranslation: bool)       // the local pose has a non-negligible translation (a lever)

  /** What the chain-length walk and the fusion entry points read of a measurement. */
  datatype Measurement = Measurement(globalSpace: bool, requiredPDoF: int, requiredRDoF: int)

  /** One Jacobian column: the derivative with respect to parameter `parameter` of node `node`. */
  datatype Column = Column(node: nat, parameter: nat)

  /** The skeleton as an arena of nodes addressed by index. */
  type Tree = seq<Node>

  /** Parents are addressed inside the arena and always have a smaller index than
      their children, so following parents always ends at a root. */
  predicate WellFormed(tree: Tree) {
    forall i :: 0 <= i < |tree| && tree[i].parent.Some? ==> tree[i].parent.value < i
  }

  /** Every entry of `c` addresses a node of `tree`. */
  predicate InTree(tree: Tree, c: seq<nat>) {
    forall t :: 0 <= t < |c| ==> c[t] < |tree|
  }

  /** `getPDoF(hasLeverChild)`. */
  function PDoF(n: Node, hasLeverChild: bool): nat {
    if hasLeverChild then n.leveredPDoF else n.pDoF
  }

  function Sum(s: seq<nat>): nat {
    if s == [] then 0 else Sum(s[..|s| - 1]) + s[|s| - 1]
  }

  /** `getDimension()`: the number of scalar parameters across the node's articulations. */
  function Dimension(n: Node): nat {
    Sum(n.articulationDims)
  }

  /** The nodes from `start` up to its root: `start`, its parent, its grandparent, ... */
  function Chain(tree: Tree, start: nat): (c: seq<nat>)
    requires WellFormed(tree) && start < |tree|
    ensures 1 <= |c| <= start + 1 && c[0] == start && InTree(tree, c)
    ensures forall t :: 0 <= t < |c| - 1 ==> tree[c[t]].parent == Some(c[t + 1])
    ensures tree[c[|c| - 1]].parent == None
    decreases start
  {
    match tree[start].parent
    case None => [start]
    case Some(p) => [start] + Chain(tree, p)
  }

  // ---------------------------------------------------------------------------
  // getRequiredChainLength

  /** The `hasLeverChild` flag in force when the walk reaches position `t` of `c`:
      false at the start, and once set by a node with a translation it stays set. */
  function Lever(tree: Tree, c: seq<nat>, t: nat): bool
    requires InTree(tree, c) && t <= |c|
  {
    if t == 0 then false else Lever(tree, c, t - 1) || tree[c[t - 1]].hasTranslation
  }

  /** Positional degrees of freedom accumulated over the first `k` nodes of `c`. */
  function PAcc(tree: Tree, c: seq<nat>, k: nat): nat
    requires InTree(tree, c) && k <= |c|
  {
    if k == 0 then 0 else PAcc(tree, c, k - 1) + PDoF(tree[c[k - 1]], Lever(tree, c, k - 1))
  }

  /** Rotational degrees of freedom accumulated over the first `k` nodes of `c`. */
  function RAcc(tree: Tree, c: seq<nat>, k: nat): nat
    requires InTree(tree, c) && k <= |c|
  {
    if k == 0 then 0 else RAcc(tree, c, k - 1) + tree[c[k - 1]].rDoF
  }

  /** The first `k` nodes of `c` supply the degrees of freedom `m` requires. */
  predicate Enough(tree: Tree, c: seq<nat>, m: Measurement, k: nat)
    requires InTree(tree, c) && k <= |c|
  {
    PAcc(tree, c, k) >= m.requiredPDoF && RAcc(tree, c, k) >= m.requiredRDoF
  }

  /** The first prefix length from `k` on that is enough or reaches the root. */
  function StopFrom(tree: Tree, c: seq<nat>, m: Measurement, k: nat): nat
    requires InTree(tree, c) && 1 <= k <= |c|
    decreases |c| - k
  {
    if Enough(tree, c, m, k) || k == |c| then k else StopFrom(tree, c, m, k + 1)
  }

  /** The chain length a measurement needs at `start`. */
  function RequiredLength(tree: Tree, start: nat, m: Measurement): nat
    requires WellFormed(tree) && start < |tree|
  {
    StopFrom(tree, Chain(tree, start), m, 1)
  }

  /** The lever flag is set exactly when some earlier node of the walk has a translation. */
  lemma {:induction false} LeverIffEarlierTranslation(tree: Tree, c: seq<nat>, t: nat)
    requires InTree(tree, c) && t <= |c|
    ensures Lever(tree, c, t) <==> exists s :: 0 <= s < t && tree[c[s]].hasTranslation
  {
    if t > 0 {
      LeverIffEarlierTranslation(tree, c, t - 1);
      if tree[c[t - 1]].hasTranslation {
        assert exists s :: 0 <= s < t && tree[c[s]].hasTranslation by {
          assert tree[c[t - 1]].hasTranslation;
        }
      }
    }
  }

  lemma {:induction false} StopFromIsLeast(tree: Tree, c: seq<nat>, m: Measurement, k: nat)
    requires InTree(tree, c) && 1 <= k <= |c|
    ensures var r := StopFrom(tree, c, m, k);
      k <= r <= |c| && (Enough(tree, c, m, r) || r == |c|) &&
      forall q :: k <= q < r ==> !Enough(tree, c, m, q)
    decreases |c| - k
  {
    if !(Enough(tree, c, m, k) || k == |c|) {
      StopFromIsLeast(tree, c, m, k + 1);
    }
  }

  /** The required length is the least prefix length (at least one node) that supplies
      enough degrees of freedom, or the whole way to the root when none does. */
  lemma RequiredLengthIsLeast(tree: Tree, start: nat, m: Measurement)
    requires WellFormed(tree) && start < |tree|
    ensures var c, r := Chain(tree, start), RequiredLength(tree, start, m);
      1 <= r <= |c| && (Enough(tree, c, m, r) || r == |c|) &&
      forall k :: 1 <= k < r ==> !Enough(tree, c, m, k)
  {
    StopFromIsLeast(tree, Chain(tree, start), m, 1);
  }

  /** A measurement that requires nothing is fused into the node alone. */
  lemma NothingRequiredMeansOneNode(tree: Tree, start: nat, m: Measurement)
    requires WellFormed(tree) && start < |tree|
    requires m.requiredPDoF <= 0 && m.requiredRDoF <= 0
    ensures RequiredLength(tree, start, m) == 1
  {
  }

  lemma {:induction false} NoLeverNoPosition(tree: Tree, c: seq<nat>, k: nat)
    requires InTree(tree, c) && k <= |c|
    requires forall t :: 0 <= t < |c| ==> !tree[c[t]].hasTranslation && tree[c[t]].pDoF == 0
    ensures PAcc(tree, c, k) == 0
  {
    if k > 0 {
      NoLeverNoPosition(tree, c, k - 1);
      LeverIffEarlierTranslation(tree, c, k - 1);
    }
  }

  /** Nodes that only rotate and never form a lever give no positional freedom, so a
      measurement that needs positional freedom takes the whole chain to the root. */
  lemma RotationOnlyChainTakesWholeChain(tree: Tree, start: nat, m: Measurement)
    requires WellFormed(tree) && start < |tree|
    requires forall t :: 0 <= t < |Chain(tree, start)| ==>
               !tree[Chain(tree, start)[t]].hasTranslation && tree[Chain(tree, start)[t]].pDoF == 0
    requires m.requiredPDoF > 0
    ensures RequiredLength(tree, start, m) == |Chain(tree, start)|
  {
    var c := Chain(tree, start);
    RequiredLengthIsLeast(tree, start, m);
    NoLeverNoPosition(tree, c, RequiredLength(tree, start, m));
  }

  /** `getRequiredChainLength(m)`: walk from `start` towards the root adding up the
      degrees of freedom of the nodes visited until both requirements are met or the
      root is reached; the result is the number of nodes visited. */
  method RequiredChainLength(tree: Tree, start: nat, m: Measurement) returns (nodecount: nat)
    requires WellFormed(tree) && start < |tree|
    ensures 1 <= nodecount <= |Chain(tree, start)|
    ensures Enough(tree, Chain(tree, start), m, nodecount) || nodecount == |Chain(tree, start)|
    ensures forall k :: 1 <= k < nodecount ==> !Enough(tree, Chain(tree, start), m, k)
    ensures nodecount == RequiredLength(tree, start, m)
  {
    ghost var c := Chain(tree, start);
    nodecount := 1;
    var pDoF, rDoF := 0, 0;
    var pDoFReq, rDoFReq := m.requiredPDoF, m.requiredRDoF;
    var hasLeverChild := false;
    var node := start;
    while true
      invariant 1 <= nodecount <= |c| && node == c[nodecount - 1]
      invariant pDoF == PAcc(tree, c, nodecount - 1) && rDoF == RAcc(tree, c, nodecount - 1)
      invariant hasLeverChild == Lever(tree, c, nodecount - 1)
      invariant forall k :: 1 <= k < nodecount ==> !Enough(tree, c, m, k)
      decreases |c| - nodecount
    {
      pDoF := pDoF + PDoF(tree[node], hasLeverChild);
      rDoF := rDoF + tree[node].rDoF;
      if !hasLeverChild {
        hasLeverChild := tree[node].hasTranslation;
      }
      if (pDoF >= pDoFReq && rDoF >= rDoFReq) || tree[node].parent.None? {
        assert nodecount < |c| ==> tree[c[nodecount - 1]].parent == Some(c[nodecount]);
        break;
      }
      node := tree[node].parent.value;
      nodecount := nodecount + 1;
    }
    RequiredLengthIsLeast(tree, start, m);
  }

  // ---------------------------------------------------------------------------
  // getPoseChainJacobian: sizing and column layout

  /** The nodes a walk of `chainLength` steps from `start` visits: it stops early at the root. */
  function Visited(tree: Tree, start: nat, chainLength: int): (v: seq<nat>)
    requires WellFormed(tree) && start < |tree|
    ensures var c := Chain(tree, start);
      |v| == (if chainLength <= 0 then 0 else if chainLength < |c| then chainLength else |c|) &&
      v == c[..|v|]
  {
    var c := Chain(tree, start);
    if chainLength <= 0 then [] else if chainLength < |c| then c[..chainLength] else c
  }

  /** Total parameter count of the nodes `v`. */
  function DimensionSum(tree: Tree, v: seq<nat>): nat
    requires InTree(tree, v)
  {
    if v == [] then 0 else DimensionSum(tree, v[..|v| - 1]) + Dimension(tree[v[|v| - 1]])
  }

  /** The columns of one node: one per parameter, in parameter order. */
  function NodeColumns(tree: Tree, n: nat): seq<Column>
    requires n < |tree|
  {
    seq(Dimension(tree[n]), p requires 0 <= p => Column(n, p))
  }

  /** The columns of the nodes `v`, node after node. */
  function Columns(tree: Tree, v: seq<nat>): seq<Column>
    requires InTree(tree, v)
  {
    if v == [] then [] else Columns(tree, v[..|v| - 1]) + NodeColumns(tree, v[|v| - 1])
  }

  /** There is one column per parameter of the visited nodes. */
  lemma {:induction false} ColumnsCount(tree: Tree, v: seq<nat>)
    requires InTree(tree, v)
    ensures |Columns(tree, v)| == DimensionSum(tree, v)
  {
    if v != [] {
      ColumnsCount(tree, v[..|v| - 1]);
    }
  }

  /** Parameter `p` of the `t`-th visited node is differentiated in column
      `DimensionSum(v[..t]) + p`: the nodes' blocks follow each other without gaps. */
  lemma {:induction false} ColumnOfParameter(tree: Tree, v: seq<nat>, t: nat, p: nat)
    requires InTree(tree, v) && t < |v| && p < Dimension(tree[v[t]])
    ensures DimensionSum(tree, v[..t]) + p < |Columns(tree, v)|
    ensures Columns(tree, v)[DimensionSum(tree, v[..t]) + p] == Column(v[t], p)
  {
    var w := v[..|v| - 1];
    assert InTree(tree, w);
    ColumnsCount(tree, w);
    ColumnsCount(tree, v);
    if t == |v| - 1 {
      assert v[..t] == w;
    } else {
      assert w[..t] == v[..t];
      ColumnOfParameter(tree, w, t, p);
    }
  }

  lemma {:induction false} DimensionSumOfPrefix(tree: Tree, v: seq<nat>, k: nat)
    requires InTree(tree, v) && k <= |v|
    ensures DimensionSum(tree, v[..k]) <= DimensionSum(tree, v)
  {
    if k < |v| {
      assert v[..|v| - 1][..k] == v[..k];
      DimensionSumOfPrefix(tree, v[..|v| - 1], k);
    } else {
      assert v[..k] == v;
    }
  }

  /** Extending a prefix of the chain by one node extends its dimension and its columns by that node's. */
  lemma PrefixStep(tree: Tree, c: seq<nat>, i: nat)
    requires InTree(tree, c) && i < |c|
    ensures DimensionSum(tree, c[..i + 1]) == DimensionSum(tree, c[..i]) + Dimension(tree[c[i]])
    ensures Columns(tree, c[..i + 1]) == Columns(tree, c[..i]) + NodeColumns(tree, c[i])
  {
    assert c[..i + 1][..i] == c[..i];
  }

  /** A node of the chain without a parent is its last one. */
  lemma LastOfChain(tree: Tree, start: nat, i: nat)
    requires WellFormed(tree) && start < |tree|
    requires i < |Chain(tree, start)| && tree[Chain(tree, start)[i]].parent.None?
    ensures i == |Chain(tree, start)| - 1 && Chain(tree, start)[..i + 1] == Chain(tree, start)
  {
  }

  /** The sizing loop of `getPoseChainJacobian`: the parameter count of the nodes a walk of
      `chainLength` steps from `start` visits, stopping early at the root. */
  method ChainInputDimension(tree: Tree, start: nat, chainLength: int) returns (inputDimension: nat)
    requires WellFormed(tree) && start < |tree|
    ensures inputDimension == DimensionSum(tree, Visited(tree, start, chainLength))
  {
    ghost var c := Chain(tree, start);
    ghost var v := Visited(tree, start, chainLength);
    inputDimension := 0;
    var node := start;
    var i := 0;
    while i < chainLength
      invariant 0 <= i < |c| && node == c[i] && i <= |v|
      invariant inputDimension == DimensionSum(tree, c[..i])
    {
      PrefixStep(tree, c, i);
      inputDimension := inputDimension + Dimension(tree[node]);
      if tree[node].parent.None? {
        LastOfChain(tree, start, i);
        break;
      }
      node := tree[node].parent.value;
      i := i + 1;
    }
    assert c[..|v|] == v;
  }

  /** The inner loop of the fill: one column per parameter of node `n`, written from `column` on. */
  method WriteNodeColumns(tree: Tree, J: array<Column>, column: nat, n: nat, ghost writes: seq<nat>)
    returns (column': nat, ghost writes': seq<nat>)
    requires n < |tree| && column + Dimension(tree[n]) <= J.Length
    requires writes == seq(column, k => k)
    modifies J
    ensures column' == column + Dimension(tree[n])
    ensures J[..column'] == old(J[..column]) + NodeColumns(tree, n)
    ensures writes' == seq(column', k => k)
  {
    var dof := Dimension(tree[n]);
    column' := column;
    writes' := writes;
    var j := 0;
    while j < dof
      invariant 0 <= j <= dof && column' == column + j
      invariant J[..column'] == old(J[..column]) + NodeColumns(tree, n)[..j]
      invariant writes' == seq(column', k => k)
    {
      J[column'] := Column(n, j);
      assert J[..column' + 1] == J[..column'] + [Column(n, j)];
      assert NodeColumns(tree, n)[..j + 1] == NodeColumns(tree, n)[..j] + [Column(n, j)];
      writes' := writes' + [column'];
      column' := column' + 1;
      j := j + 1;
    }
    assert NodeColumns(tree, n)[..j] == NodeColumns(tree, n);
  }

  /** `getPoseChainJacobian(chain_length)`, without the pose arithmetic: the matrix has
      one column per parameter of the visited nodes, and the fill loop visits the same
      nodes in the same order (this node first, then its ancestors), writing the columns
      0, 1, ..., in turn, each once. */
  method PoseChainJacobian(tree: Tree, start: nat, chainLength: int) returns (J: array<Column>, ghost writes: seq<nat>)
    requires WellFormed(tree) && start < |tree|
    ensures J.Length == DimensionSum(tree, Visited(tree, start, chainLength))
    ensures J[..] == Columns(tree, Visited(tree, start, chainLength))
    ensures writes == seq(J.Length, k => k)
  {
    ghost var c := Chain(tree, start);
    ghost var v := Visited(tree, start, chainLength);
    assert c[..|v|] == v;
    var inputDimension := ChainInputDimension(tree, start, chainLength);
    // fill it column by column
    J := new Column[inputDimension];
    writes := [];
    var node := start;
    var column := 0;
    var i := 0;
    while i < chainLength
      invariant 0 <= i < |c| && node == c[i] && i <= |v|
      invariant column == DimensionSum(tree, c[..i]) && column <= J.Length
      invariant J[..column] == Columns(tree, c[..i])
      invariant writes == seq(column, k => k)
    {
      PrefixStep(tree, c, i);
      assert c[..i + 1] == v[..i + 1];
      DimensionSumOfPrefix(tree, v, i + 1);
      ghost var before := J[..column];
      column, writes := WriteNodeColumns(tree, J, column, node, writes);
      assert J[..column] == before + NodeColumns(tree, node) == Columns(tree, c[..i + 1]);
      if tree[node].parent.None? {
        LastOfChain(tree, start, i);
        break;
      }
      node := tree[node].parent.value;
      i := i + 1;
    }
    assert column == J.Length;
    assert J[..] == J[..column];
  }

  // ---------------------------------------------------------------------------
  // getLocalPoseComplexStep: where the perturbation goes

  /** Index, in the node's parameter vector, of the first parameter of articulation `i`. */
  function Offset(dims: seq<nat>, i: nat): nat
    requires i <= |dims|
  {
    Sum(dims[..i])
  }

  lemma OffsetStep(dims: seq<nat>, i: nat)
    requires i < |dims|
    ensures Offset(dims, i + 1) == Offset(dims, i) + dims[i]
  {
    assert dims[..i + 1][..i] == dims[..i];
  }

  lemma {:induction false} OffsetMonotone(dims: seq<nat>, i: nat, k: nat)
    requires i < k <= |dims|
    ensures Offset(dims, i) + dims[i] <= Offset(dims, k)
    decreases k - i
  {
    OffsetStep(dims, i);
    if i + 1 < k {
      OffsetStep(dims, i + 1);
      OffsetMonotone(dims, i + 1, k);
    }
  }

  /** The articulation and local index that parameter `j` of the node belongs to. */
  function Locate(dims: seq<nat>, j: nat): (r: (nat, nat))
    requires j < Sum(dims)
    ensures r.0 < |dims| && r.1 < dims[r.0] && Offset(dims, r.0) + r.1 == j
  {
    var n := |dims| - 1;
    var front := dims[..n];
    assert dims[..n + 1] == dims;
    if j >= Sum(front) then (n, j - Sum(front))
    else
      var r := Locate(front, j);
      assert front[..r.0] == dims[..r.0];
      r
  }

  /** Parameter `j` of the node belongs to articulation `i`. */
  predicate InArticulation(dims: seq<nat>, i: nat, j: int)
    requires i < |dims|
  {
    Offset(dims, i) <= j < Offset(dims, i) + dims[i]
  }

  /** Every parameter index below `getDimension()` lies in some articulation. */
  lemma SomeArticulationPerturbed(dims: seq<nat>, j: nat)
    requires j < Sum(dims)
    ensures exists i :: 0 <= i < |dims| && InArticulation(dims, i, j)
  {
    var r := Locate(dims, j);
    assert InArticulation(dims, r.0, j);
  }

  /** No parameter index lies in two articulations. */
  lemma AtMostOneArticulationPerturbed(dims: seq<nat>, j: int, i1: nat, i2: nat)
    requires i1 < |dims| && InArticulation(dims, i1, j)
    requires i2 < |dims| && InArticulation(dims, i2, j)
    ensures i1 == i2
  {
    if i1 < i2 { OffsetMonotone(dims, i1, i2); }
    if i2 < i1 { OffsetMonotone(dims, i2, i1); }
  }

  /** A parameter index outside `0 .. getDimension()-1` lies in no articulation. */
  lemma NoArticulationPerturbedOutside(dims: seq<nat>, j: int, i: nat)
    requires !(0 <= j < Sum(dims))
    requires i < |dims|
    ensures !InArticulation(dims, i, j)
  {
    if i + 1 < |dims| { OffsetMonotone(dims, i, |dims|); }
    OffsetStep(dims, i);
    assert dims[..|dims|] == dims;
  }

  /** `getLocalPoseComplexStep(j, h)`, without the transform arithmetic: the imaginary
      perturbation added to each articulation's expectation. Entry `k` of articulation
      `i` is perturbed by `h` exactly when it is parameter `j` of the node. */
  method LocalPoseComplexStep(dims: seq<nat>, j: int, h: real) returns (steps: seq<seq<real>>)
    ensures |steps| == |dims|
    ensures forall i :: 0 <= i < |dims| ==> |steps[i]| == dims[i]
    ensures forall i, k :: 0 <= i < |dims| && 0 <= k < dims[i] ==>
              steps[i][k] == if Offset(dims, i) + k == j then h else 0.0
  {
    steps := [];
    var totalDim := 0;
    var i := 0;
    while i < |dims|
      invariant 0 <= i <= |dims| && totalDim == Offset(dims, i) && |steps| == i
      invariant forall a :: 0 <= a < i ==> |steps[a]| == dims[a]
      invariant forall a, k :: 0 <= a < i && 0 <= k < dims[a] ==>
                  steps[a][k] == if Offset(dims, a) + k == j then h else 0.0
    {
      OffsetStep(dims, i);
      var thisDim := dims[i];
      var lastTotalDim := totalDim;
      totalDim := totalDim + thisDim;
      var ih := seq(thisDim, _ => 0.0);
      if j < totalDim && j >= lastTotalDim {
        ih := ih[j - lastTotalDim := h];
      }
      steps := steps + [ih];
      i := i + 1;
    }
  }

  // ---------------------------------------------------------------------------
  // Fusion entry points

  /** `fusePositionMeasurement(m, toFusionSpace)`, as control flow. A measurement not in
      global space changes nothing. A global one computes the chain length once and
      uses that same length to size the Jacobian, to gather the chain state and to
      scatter the updated state back. The chain accessors and the information-form
      update are passed in. */
  method FusePositionMeasurement<S>(tree: Tree, start: nat, m: Measurement, state: S,
                                    getChainState: (S, int) -> Belief,
                                    setChainState: (S, int, Belief) -> S,
                                    informationUpdate: (seq<Column>, Belief) -> Belief)
    returns (state': S)
    requires WellFormed(tree) && start < |tree|
    ensures !m.globalSpace ==> state' == state
    ensures m.globalSpace ==>
              var L := RequiredLength(tree, start, m);
              state' == setChainState(state, L, informationUpdate(Columns(tree, Visited(tree, start, L)), getChainState(state, L)))
  {
    state' := state;
    if m.globalSpace {
      var fusionChain := RequiredChainLength(tree, start, m);
      var measurementJacobian, _ := PoseChainJacobian(tree, start, fusionChain);
      var chainState := getChainState(state, fusionChain);
      var newChainState := informationUpdate(measurementJacobian[..], chainState);
      state' := setChainState(state, fusionChain, newChainState);
    }
  }

  /** `fuseRotationMeasurement`: not implemented, changes nothing. */
  method FuseRotationMeasurement<S>(m: Measurement, state: S) returns (state': S)
    ensures state' == state
  {
    state' := state;
  }

  /** `fuseRigidMeasurement`: not implemented, changes nothing. */
  method FuseRigidMeasurement<S>(m: Measurement, state: S) returns (state': S)
    ensures state' == state
  {
    state' := state;
  }

  /** `fuseScaleMeasurement`: not implemented, changes nothing. */
  method FuseScaleMeasurement<S>(m: Measurement, state: S) returns (state': S)
    ensures state' == state
  {
    state' := state;
  }
}
