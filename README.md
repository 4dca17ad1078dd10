# Qiskit's `InitializeGate`, modelled in Dafny

`InitializeGate` builds a circuit that prepares the amplitude vector of
length 2^n it is given. It builds that circuit backwards. In each of n rounds
it disentangles the least significant qubit that is left: `_rotations_to_disentangle`
and `_bloch_angles` compute one Ry angle and one Rz angle per pair of
amplitudes, and `_multiplex` turns each angle list into a uniformly controlled
rotation on that qubit. A uniformly controlled rotation is a tree of single-qubit
rotations and cx gates, built recursively from two half-size trees joined by a
cx. The second half is reversed so that neighbouring cx gates meet. The gate
then runs `optimize_gates`. That pass drops rotations whose angle is below
`_EPS` (`remove_zero_rotations`). It then repeats `remove_double_cnots_once`
until a pass removes nothing. That pass deletes two equal cx gates that are
adjacent in the flattened circuit, even when they sit in different nested
composites.

The model has these parts:

- `gate_tree.dfy` (`GateTree`): the gate tree as a value (`Leaf` or `Composite`
  of children), its flattened gate sequence `Leaves`, `chop_num`,
  `number_atomic_gates`, and the edge finders `first_atomic_gate_host` and
  `last_atomic_gate_host`. A host list is identified by a path of child
  indices.
- `reverse.dfy` (`Reversal`): `CompositeGate.reverse`.
- `zero_rotations.dfy` (`ZeroRotations`): `remove_zero_rotations`.
- `double_cnots.dfy` (`DoubleCnots`): `remove_double_cnots_once`, including the
  IndexError it can raise. `Reduces` is the reference definition of what the
  pass may do: cancel pairs of equal adjacent cx gates of the flattened circuit.
  `NoEqualBoundary` is what a pass that finds nothing leaves behind: no list it
  visits has a boundary whose two edge gates are the same cx.
- `no_overrun.dfy` (`NoOverrun`) and `stripped_shape.dfy` (`StrippedShape`):
  the invariant under which a pass cannot raise, and the proof that the trees
  `__init__` builds satisfy it.
- `powers.dfy` (`Powers`): the exact powers of two that stand for `math.log2`.
- `disentangle.dfy` (`Disentangler`): `_rotations_to_disentangle` and the
  degenerate branch of `_bloch_angles`.
- `multiplexor.dfy` (`Multiplexor`): `_multiplex`, its combo angles and
  `nth_qubit_from_least_sig_qubit`.
- `initializer.dfy` (`Initializer`): the checks of `__init__`,
  `gates_to_uncompute`, `optimize_gates`, and the class `InitializeGate` whose
  `data` and `globalPhase` fields the methods update.

Loops of the source are methods with loop invariants, proved equal to a
function that specifies them: `Reverse`, `RemoveZeroRotations`,
`RemoveDoubleCnotsOnce`, `RotationsToDisentangle`, `GatesToUncompute` and
`OptimizeGates`. The properties are lemmas about those functions.

`_multiplex` takes the logarithm of the length of its angle list
(`local_num_qubits - 1`). The model passes that number k, the number of control
qubits, as an argument, and requires the list to hold 2^k angles.
`gates_to_uncompute` only calls `_multiplex` with such lists.

Two cx gates are equal when they have the same control and the same target.
That is the source's test: both are named "cx" and their `qargs` are equal.

The source's `remove_double_cnots_once` fixes its descending index range before
it deletes anything, and after a deletion it can read `self.data[i + 1]` past
the end of a list. Three equal cx leaves in one list make it raise IndexError
(`NoOverrun.OverrunExample`). The trees `__init__` hands to the optimizer never
have that shape after `remove_zero_rotations`, so `optimize_gates` never raises
there (`Initializer.GatesOptimize`).

Three behaviours of the code are worth stating, because a reader might expect
otherwise:

- `optimize_gates` (lines 299-303) is not idempotent. A cancellation can empty a
  nested composite, and only a second `remove_zero_rotations` drops it
  (`Initializer.OptimizeNotIdempotent`).
- `remove_double_cnots_once` (lines 357-412) visits the children with
  `reversed(range(num_high_level_gates - 1))`, so the model sweeps right to
  left, starting after the last child.
- `__init__` takes `math.log2(len(params))` (line 52) before any length check.
  For an empty vector `math.log2(0)` raises ValueError, modelled as
  `MathDomainError`. Every other length that is not a power of two gets the
  "not a positive power of 2" error.

## Model

| member | source | states |
|---|---|---|
| GateTree.ChopNum | qiskit/extensions/quantum_initializer/_initializer.py:261-266 | the result is 0 exactly when the absolute value is below `_EPS`; otherwise it is the number unchanged |
| GateTree.NumberAtomicGates | qiskit/extensions/quantum_initializer/_initializer.py:341-350 | the count equals the length of the flattened gate sequence of the tree |
| GateTree.FirstAtomicGateHost | qiskit/extensions/quantum_initializer/_initializer.py:419-426 | a path it returns descends through first children to a host list whose first entry is a leaf; it returns None only when no such path exists |
| GateTree.LastAtomicGateHost | qiskit/extensions/quantum_initializer/_initializer.py:433-440 | the same for last children and the last entry |
| GateTree.FirstChainValid | qiskit/extensions/quantum_initializer/_initializer.py:419-426 | the leaf at the head of the host found is the first gate of the flattened circuit |
| GateTree.LastChainValid | qiskit/extensions/quantum_initializer/_initializer.py:433-440 | the leaf at the end of the host found is the last gate of the flattened circuit |
| GateTree.DeleteFirstLeaf | qiskit/extensions/quantum_initializer/_initializer.py:408 | deleting entry 0 of the first host removes exactly the first gate of the flattened circuit |
| GateTree.DeleteLastLeaf | qiskit/extensions/quantum_initializer/_initializer.py:409 | deleting entry -1 of the last host removes exactly the last gate of the flattened circuit |
| Reversal.Reverse | qiskit/extensions/quantum_initializer/_initializer.py:276-292 | the loop builds `Mirror(n)`: the children in reverse order, each composite child reversed recursively |
| Reversal.MirrorLeaves | qiskit/extensions/quantum_initializer/_initializer.py:276-292 | the reversed tree flattens to the original gate sequence run backwards (gates themselves are not inverted) |
| Reversal.MirrorInvolution | qiskit/extensions/quantum_initializer/_initializer.py:276-292 | reversing twice gives back the original tree |
| Reversal.MirrorCount | qiskit/extensions/quantum_initializer/_initializer.py:276-292 | reversing keeps the number of atomic gates |
| Reversal.RevKeeps | qiskit/extensions/quantum_initializer/_initializer.py:281-287 | a reversed gate sequence has the same gates and the same rotation and cx counts |
| ZeroRotations.RemoveZeroRotations | qiskit/extensions/quantum_initializer/_initializer.py:310-334 | the loop computes `StripZeros(n)`: the new tree and the removal flag |
| ZeroRotations.StripZerosLeaves | qiskit/extensions/quantum_initializer/_initializer.py:310-334 | the new tree flattens to the old gate sequence with exactly the zero rotations removed, the rest in order |
| ZeroRotations.StripZerosFlag | qiskit/extensions/quantum_initializer/_initializer.py:315-334 | the flag is True iff the circuit got shorter iff the circuit held a rotation whose angle chops to 0 |
| ZeroRotations.StripZerosClean | qiskit/extensions/quantum_initializer/_initializer.py:318-330 | afterwards no zero rotation and no empty nested composite is left |
| ZeroRotations.StripZerosOfClean | qiskit/extensions/quantum_initializer/_initializer.py:310-334 | on such a tree the pass changes nothing and returns False |
| ZeroRotations.StripZerosTwice | qiskit/extensions/quantum_initializer/_initializer.py:310-334 | a second run changes nothing and returns False |
| DoubleCnots.LeftEdge | qiskit/extensions/quantum_initializer/_initializer.py:382-393 | the left gate of a boundary is the child itself when it is a leaf, else the last leaf found by `last_atomic_gate_host`; for a composite there is a left gate exactly when that search finds a host |
| DoubleCnots.RightEdge | qiskit/extensions/quantum_initializer/_initializer.py:397-402 | the right gate of a boundary is the child itself when it is a leaf, else the first leaf found by `first_atomic_gate_host`; for a composite there is a right gate exactly when that search finds a host |
| DoubleCnots.RemoveDoubleCnotsOnce | qiskit/extensions/quantum_initializer/_initializer.py:357-412 | the method's outcome, new tree and flag or IndexError, is `CancelPass(n)` |
| DoubleCnots.VisitChild | qiskit/extensions/quantum_initializer/_initializer.py:382-385 | a composite child is passed over recursively only while nothing was removed yet (the `or` short-circuits) |
| DoubleCnots.CheckBoundary | qiskit/extensions/quantum_initializer/_initializer.py:386-410 | computes `Boundary`, the test and deletion at the boundary between entries i and i + 1 |
| DoubleCnots.CancelReduces | qiskit/extensions/quantum_initializer/_initializer.py:404-410 | deleting the two edge cx gates at a boundary cancels one pair of equal adjacent cx gates of the flattened circuit and shortens it by two |
| DoubleCnots.BoundaryReduces | qiskit/extensions/quantum_initializer/_initializer.py:386-410 | when the two edge gates are the same cx, the step deletes them (flag set, two gates fewer); otherwise it leaves the list and the flag alone; any change it makes cancels one equal adjacent cx pair |
| DoubleCnots.CancelPassReduces | qiskit/extensions/quantum_initializer/_initializer.py:357-412 | a pass only cancels pairs of equal adjacent cx gates; it returns False only when the tree is unchanged, and True only after deleting at least two gates |
| DoubleCnots.CancelPassFixpoint | qiskit/extensions/quantum_initializer/_initializer.py:357-412 | a pass returns False with the tree unchanged if and only if no list it visits, at any depth, has a boundary whose two edge gates are the same cx (`NoEqualBoundary`) |
| DoubleCnots.ReducesTrans | qiskit/extensions/quantum_initializer/_initializer.py:302-303 | cancellations over several passes compose |
| DoubleCnots.ReducesLength | qiskit/extensions/quantum_initializer/_initializer.py:404-410 | cancelling never lengthens the circuit, and any change shortens it by at least two |
| DoubleCnots.ReducesRotations | qiskit/extensions/quantum_initializer/_initializer.py:404-410 | cancelling keeps every rotation, in order |
| NoOverrun.OverrunExample | qiskit/extensions/quantum_initializer/_initializer.py:397 | on three equal cx leaves in one list a pass reads past the end and raises IndexError |
| NoOverrun.CancelPassTidy | qiskit/extensions/quantum_initializer/_initializer.py:357-412 | on a tidy tree a pass never raises, and its result is tidy again |
| StrippedShape.StripShaped | qiskit/extensions/quantum_initializer/_initializer.py:318-322 | a multiplexor with at least one control, stripped of zero rotations, is a non-empty tidy composite |
| StrippedShape.StripBlocksTidy | qiskit/extensions/quantum_initializer/_initializer.py:301 | the list of multiplexors `gates_to_uncompute` attaches is tidy after `remove_zero_rotations` |
| Powers.Log2 | qiskit/extensions/quantum_initializer/_initializer.py:52 | for a power of two, 2 raised to the result is the argument |
| Powers.Pow2Log2 | qiskit/extensions/quantum_initializer/_initializer.py:52-58 | every 2^k passes the power-of-two test and its logarithm is k |
| Disentangler.Disentangle | qiskit/extensions/quantum_initializer/_initializer.py:151-175 | the remaining vector, the thetas and the phis each have half the length of the input |
| Disentangler.DisentanglePairs | qiskit/extensions/quantum_initializer/_initializer.py:157-173 | entry i of each output comes from the pair (2i, 2i + 1): its remaining amplitude, minus its theta and minus its phi |
| Disentangler.BlochAngles | qiskit/extensions/quantum_initializer/_initializer.py:188-201 | a pair whose norm is below `_EPS` gets a zero remaining amplitude and theta = phi = 0; any other pair gets what the general branch (a parameter) computes |
| Disentangler.SmallPairNoRotation | qiskit/extensions/quantum_initializer/_initializer.py:188-193 | a pair whose norm is below `_EPS` gets theta = phi = 0 and leaves a zero amplitude |
| Disentangler.RotationsToDisentangle | qiskit/extensions/quantum_initializer/_initializer.py:151-175 | the loop returns `Disentangle(localParam, general)` |
| Multiplexor.NthQubitFromLeastSigQubit | qiskit/extensions/quantum_initializer/_initializer.py:97-104 | the qubit returned is one of the gate's qubits |
| Multiplexor.ComboAngles | qiskit/extensions/quantum_initializer/_initializer.py:225-229 | the combo list has the input's length; for j below half the length h, entry j is (a[j] + a[j + h]) / 2 and entry j + h is (a[j] - a[j + h]) / 2 |
| Multiplexor.ComboAnglesInverse | qiskit/extensions/quantum_initializer/_initializer.py:225-229 | taking sums and differences of the halves gives back the original angles |
| Multiplexor.UncomboAnglesInverse | qiskit/extensions/quantum_initializer/_initializer.py:225-229 | the combo transform is onto: every list is the combo of some list |
| Multiplexor.MultiplexLeaves | qiskit/extensions/quantum_initializer/_initializer.py:203-259 | the tree flattens to `Circuit`, the gate sequence of the construction written out |
| Multiplexor.MultiplexCounts | qiskit/extensions/quantum_initializer/_initializer.py:203-259 | 2^k angles give 2^k rotations and 2^k - 1 cx gates plus the trailing ones kept |
| Multiplexor.MultiplexOnTarget | qiskit/extensions/quantum_initializer/_initializer.py:203-259 | every gate acts on the target qubit, every rotation is of the given kind, and every cx is controlled by one of the k qubits above the target |
| Multiplexor.MultiplexShaped | qiskit/extensions/quantum_initializer/_initializer.py:203-259 | the tree has the multiplexor shape with k controls, with a trailing cx exactly at the outermost call |
| Multiplexor.MirrorShaped | qiskit/extensions/quantum_initializer/_initializer.py:246-251 | reversing the high half keeps its shape |
| Initializer.Validate | qiskit/extensions/quantum_initializer/_initializer.py:52-63 | accepted arguments give n >= 1 qubits, 2^n amplitudes and n qubits; the math domain error occurs exactly for an empty vector |
| Initializer.ValidateLength | qiskit/extensions/quantum_initializer/_initializer.py:52-56 | the length is refused exactly when it is not 2^k for some k >= 1 |
| Initializer.ValidateCount | qiskit/extensions/quantum_initializer/_initializer.py:58-63 | with 2^k amplitudes, k >= 1, the gate is accepted exactly with k qubits |
| Initializer.Peel | qiskit/extensions/quantum_initializer/_initializer.py:120-127 | after k rounds there are k angle pairs and 2^(n-k) amplitudes left; round i's lists hold 2^(n-1-i) angles |
| Initializer.GatesAt | qiskit/extensions/quantum_initializer/_initializer.py:122-133 | entries 2i and 2i + 1 of the attached gates are round i's Rz and Ry multiplexors |
| Initializer.GatesLevel | qiskit/extensions/quantum_initializer/_initializer.py:122-133 | round i attaches 2^(n-1-i) Rz rotations and then 2^(n-1-i) Ry rotations on qubit i, controlled by the qubits above it |
| Initializer.RoundCounts | qiskit/extensions/quantum_initializer/_initializer.py:132-133 | round i holds 2 * 2^(n-1-i) rotations and as many cx gates, except the last round, which holds two rotations and no cx |
| Initializer.GatesCounts | qiskit/extensions/quantum_initializer/_initializer.py:122-133 | after k of n rounds the circuit holds 2 * (2^n - 2^(n-k)) rotations and as many cx gates, two fewer once all n rounds are done |
| Initializer.GatesBlock | qiskit/extensions/quantum_initializer/_initializer.py:132-133 | every attached multiplexor keeps its trailing cx |
| Initializer.GatesOptimize | qiskit/extensions/quantum_initializer/_initializer.py:76-79 | `optimize_gates` on the attached gates never raises IndexError |
| Initializer.CancelLoop | qiskit/extensions/quantum_initializer/_initializer.py:302-303 | the loop ends, and when it ends normally a further pass reports nothing and changes nothing, and no visited boundary has an equal cx pair left |
| Initializer.CancelLoopReduces | qiskit/extensions/quantum_initializer/_initializer.py:302-303 | the loop only cancels pairs of equal adjacent cx gates |
| Initializer.CancelLoopTidy | qiskit/extensions/quantum_initializer/_initializer.py:302-303 | on a tidy tree the loop never raises |
| Initializer.Optimize | qiskit/extensions/quantum_initializer/_initializer.py:299-303 | when it does not raise, the result is a composite that a further cancelling pass leaves alone, with no equal cx pair at any boundary a pass visits |
| Initializer.OptimizeKeeps | qiskit/extensions/quantum_initializer/_initializer.py:299-303 | the result keeps exactly the non-zero rotations, in order, is the non-zero gates with equal adjacent cx pairs cancelled, and has no equal cx pair left at any boundary a pass visits |
| Initializer.OptimizeNotIdempotent | qiskit/extensions/quantum_initializer/_initializer.py:299-303 | a concrete tree whose optimized form changes again when optimized a second time |
| Initializer.InitializeGate.constructor | qiskit/extensions/quantum_initializer/_initializer.py:70-79 | the gate holds the optimized uncomputing gates and the conjugate of the amplitude left after n rounds as its global phase |
| Initializer.InitializeGate.GatesToUncompute | qiskit/extensions/quantum_initializer/_initializer.py:114-135 | the loop appends the gates of all n rounds to `data` and returns the one amplitude left |
| Initializer.InitializeGate.UncomputeRound | qiskit/extensions/quantum_initializer/_initializer.py:122-133 | one iteration disentangles the amplitudes left, appends round i's two multiplexors to `data` and advances the loop state by exactly one round |
| Initializer.InitializeGate.AttachRound | qiskit/extensions/quantum_initializer/_initializer.py:132-133 | `data` grows by the Rz multiplexor on the phis and then the Ry multiplexor on the thetas |
| Initializer.InitializeGate.OptimizeGates | qiskit/extensions/quantum_initializer/_initializer.py:299-303 | the method raises exactly when `Optimize` does; otherwise `data` becomes the optimized tree |
| Initializer.NewInitializeGate | qiskit/extensions/quantum_initializer/_initializer.py:50-79 | the checks refuse exactly what `Validate` refuses, with the same error; otherwise a new gate holds the optimized circuit |

## Left out

- The general branch of `_bloch_angles` (arccos, complex argument, exp) is a function parameter `general`; only the branch below `_EPS` is modelled. Floating point is modelled as exact reals.
- The check that the squared amplitudes sum to 1 (`math.isclose`, lines 66-68) is not modelled. It needs floating point and a square root, and it only refuses arguments.
- `math.log2` and `is_integer` are modelled as an exact power-of-two test on the length.
- `self.inverse()` and `inverse_flag` (lines 82-85) are not modelled. Gate inversion belongs to the surrounding circuit library, which is not part of this model.
- `reapply` and `get_hypothetical_left_over_global_phase` are not modelled; they only forward to other code or return a field.
- Instructions that are not a `Gate`, and gates other than rx, ry, rz and cx, are not modelled. The initializer itself only builds rz, ry and cx; rx is kept because `remove_zero_rotations` tests for it (lines 324-326).
- The gate tree is a value. Deleting through host lists, `self.data` being shared by reference, and `reverse` returning `self` are modelled as building new trees.
- DoubleCnots.CancelPassReduces: states only that a pass is sound. That a pass misses no equal cx pair at a boundary it visits is the separate lemma `DoubleCnots.CancelPassFixpoint`.
- Initializer.InitializeGate.OptimizeGates: when a pass raises IndexError, the contract says nothing about the partly updated `data`.
- Multiplexor.NthQubitFromLeastSigQubit: the contract only says the qubit is one of `qargs`. That it is entry nth, least significant first, is its definition.
- Multiplexor.MultiplexShaped: it requires that the trailing-cx test does not fire in an inner call. This is the case for every call `gates_to_uncompute` makes.
- The numerical correctness of the circuit, i.e. that it maps the vector to the zero state, is not modelled. Gate semantics are outside the model.
- The installation of these functions onto `QuantumCircuit` and `CompositeGate` (monkey-patching) is not modelled, nor is the `CompositeGate` and `CnotGate` bookkeeping of names and circuits.
