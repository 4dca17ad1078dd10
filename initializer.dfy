/** `InitializeGate`: check the amplitude vector and the qubits, build the
    circuit that takes the vector to the zero state one qubit at a time, and
    simplify it with `optimize_gates`. */
module Initializer {
  import opened GateTree
  import opened Powers
  import opened Multiplexor
  import opened Disentangler
  import opened ZeroRotations
  import opened DoubleCnots
  import opened NoOverrun
  import opened StrippedShape

  /** The ways `__init__` refuses its arguments: `math.log2(0)` raises a
      ValueError, a length of one or a length that is not a power of two is
      "not a positive power of 2", and a qubit list of the wrong length does
      not correspond to the amplitudes. */
  datatype InitError = MathDomainError | NotPowerOfTwo | QubitCountMismatch

  datatype Result<T, E> = Success(value: T) | Failure(error: E)

  /** The checks of `__init__`, in their order: the number of qubits when the
      arguments are accepted. The length of the amplitude vector is checked
      before the qubit list is looked at. */
  function Validate(numParams: nat, numQargs: nat): (r: Result<nat, InitError>)
    ensures r.Success? ==> r.value >= 1 && numParams == Pow2(r.value) && numQargs == r.value
    ensures r == Failure(MathDomainError) <==> numParams == 0
  {
    if numParams == 0 then Failure(MathDomainError)
    else if numParams == 1 || !IsPow2(numParams) then Failure(NotPowerOfTwo)
    else if numQargs != Log2(numParams) then Failure(QubitCountMismatch)
    else Success(Log2(numParams))
  }

  /** The length is refused, whatever the qubits, exactly when it is not 2^k
      for some k >= 1. */
  lemma ValidateLength(numParams: nat, numQargs: nat)
    ensures var r := Validate(numParams, numQargs);
      (r.Failure? && r.error != QubitCountMismatch) <==> forall k: nat :: k >= 1 ==> numParams != Pow2(k)
  {
    var r := Validate(numParams, numQargs);
    if !(r.Failure? && r.error != QubitCountMismatch) {
      assert numParams >= 2 && IsPow2(numParams);
      var k := Log2(numParams);
      assert Pow2(k) == numParams;
      assert k != 0 by {
        assert Pow2(0) == 1;
      }
      assert !(forall j: nat :: j >= 1 ==> numParams != Pow2(j));
    } else {
      forall k: nat | k >= 1
        ensures numParams != Pow2(k)
      {
        if numParams == Pow2(k) {
          Pow2Monotone(1, k);
          Pow2Log2(k);
        }
      }
    }
  }

  /** With a good length 2^k, exactly k qubits are accepted. */
  lemma ValidateCount(k: nat, numQargs: nat)
    requires k >= 1
    ensures Validate(Pow2(k), numQargs) == if numQargs == k then Success(k) else Failure(QubitCountMismatch)
  {
    Pow2Log2(k);
    Pow2Monotone(1, k);
  }

  // ---------------------------------------------------------------------
  // `gates_to_uncompute`

  /** The angles one round of the peeling loop hands to its two multiplexors. */
  datatype RoundAngles = RoundAngles(phis: seq<real>, thetas: seq<real>)

  /** Round i's angle lists hold 2^(n - 1 - i) angles each, for n qubits. */
  predicate Sized(rounds: seq<RoundAngles>, numQubits: nat) {
    && |rounds| <= numQubits
    && forall i :: 0 <= i < |rounds| ==>
         |rounds[i].phis| == Pow2(numQubits - 1 - i) && |rounds[i].thetas| == Pow2(numQubits - 1 - i)
  }

  /** The first k rounds of the peeling loop on an amplitude vector of length
      2^n: each round disentangles the pairs of what is left, records its
      angles and keeps the half-length vector of remaining amplitudes. */
  function Peel(params: seq<Complex>, numQubits: nat, general: (Complex, Complex) -> Bloch, k: nat): (r: (seq<RoundAngles>, seq<Complex>))
    requires |params| == Pow2(numQubits) && k <= numQubits
    ensures |r.0| == k && |r.1| == Pow2(numQubits - k) && Sized(r.0, numQubits)
  {
    if k == 0 then ([], params)
    else
      var (rounds, remaining) := Peel(params, numQubits, general, k - 1);
      var (next, thetas, phis) := Disentangle(remaining, general);
      assert Pow2(numQubits - (k - 1)) == 2 * Pow2(numQubits - k);
      var r := rounds + [RoundAngles(phis, thetas)];
      assert forall i :: 0 <= i < k - 1 ==> r[i] == rounds[i];
      assert r[k - 1] == RoundAngles(phis, thetas);
      (r, next)
  }

  /** One more round in terms of what `_rotations_to_disentangle` returns. */
  lemma PeelStep(params: seq<Complex>, numQubits: nat, general: (Complex, Complex) -> Bloch, i: nat,
                 next: seq<Complex>, thetas: seq<real>, phis: seq<real>)
    requires |params| == Pow2(numQubits) && i < numQubits
    requires (next, thetas, phis) == Disentangle(Peel(params, numQubits, general, i).1, general)
    ensures Peel(params, numQubits, general, i + 1).0 == Peel(params, numQubits, general, i).0 + [RoundAngles(phis, thetas)]
    ensures Peel(params, numQubits, general, i + 1).1 == next
    ensures |phis| == Pow2(numQubits - 1 - i) && |thetas| == Pow2(numQubits - 1 - i)
  {
    var r := Peel(params, numQubits, general, i + 1).0;
    assert r[i] == RoundAngles(phis, thetas);
  }

  /** The multiplexors attached for the given rounds: round i attaches the Rz
      multiplexor on its phis, then the Ry multiplexor on its thetas, both on
      qubit i with the n - 1 - i qubits above it as controls. */
  function GatesOf(qargs: seq<Qubit>, numQubits: nat, rounds: seq<RoundAngles>): (r: seq<Node>)
    requires |qargs| == numQubits && Sized(rounds, numQubits)
    ensures |r| == 2 * |rounds|
    decreases |rounds|
  {
    if rounds == [] then []
    else
      var i := |rounds| - 1;
      var prev := rounds[..i];
      assert forall j :: 0 <= j < i ==> prev[j] == rounds[j];
      GatesOf(qargs, numQubits, prev) + RoundGates(qargs, numQubits, i, rounds[i])
  }

  /** The two multiplexors round i attaches: the Rz multiplexor on its phis,
      then the Ry multiplexor on its thetas, each with its trailing cx. */
  function RoundGates(qargs: seq<Qubit>, numQubits: nat, i: nat, x: RoundAngles): (r: seq<Node>)
    requires i < numQubits && |qargs| == numQubits
    requires |x.phis| == Pow2(numQubits - 1 - i) && |x.thetas| == Pow2(numQubits - 1 - i)
    ensures |r| == 2
  {
    [Multiplex(RZ, qargs, numQubits, i, numQubits - 1 - i, x.phis),
     Multiplex(RY, qargs, numQubits, i, numQubits - 1 - i, x.thetas)]
  }

  /** The last round's multiplexors come last. */
  lemma GatesLast(qargs: seq<Qubit>, numQubits: nat, rounds: seq<RoundAngles>)
    requires |qargs| == numQubits && Sized(rounds, numQubits) && rounds != []
    ensures var m := |rounds| - 1;
      && Sized(rounds[..m], numQubits)
      && GatesOf(qargs, numQubits, rounds) ==
         GatesOf(qargs, numQubits, rounds[..m]) + RoundGates(qargs, numQubits, m, rounds[m])
  {
    var m := |rounds| - 1;
    var prev := rounds[..m];
    assert forall j :: 0 <= j < m ==> prev[j] == rounds[j];
  }

  /** Attaching round i appends its two multiplexors. */
  lemma GatesSnoc(qargs: seq<Qubit>, numQubits: nat, rounds: seq<RoundAngles>, i: nat, phis: seq<real>, thetas: seq<real>)
    requires |qargs| == numQubits && i == |rounds| && Sized(rounds + [RoundAngles(phis, thetas)], numQubits)
    ensures Sized(rounds, numQubits)
    ensures |phis| == Pow2(numQubits - 1 - i) && |thetas| == Pow2(numQubits - 1 - i)
    ensures GatesOf(qargs, numQubits, rounds + [RoundAngles(phis, thetas)]) ==
      GatesOf(qargs, numQubits, rounds) + RoundGates(qargs, numQubits, i, RoundAngles(phis, thetas))
  {
    var r := rounds + [RoundAngles(phis, thetas)];
    assert forall j :: 0 <= j < i ==> r[j] == rounds[j];
    assert r[i] == RoundAngles(phis, thetas);
    assert r[..i] == rounds;
  }

  /** Where the peeling loop stands after i rounds: the angles recorded, the
      amplitudes left and the multiplexors attached so far. */
  ghost predicate Peeled(params: seq<Complex>, qargs: seq<Qubit>, numQubits: nat, general: (Complex, Complex) -> Bloch,
                         i: nat, rounds: seq<RoundAngles>, remaining: seq<Complex>, attached: seq<Node>)
  {
    && |params| == Pow2(numQubits) && |qargs| == numQubits && i <= numQubits
    && rounds == Peel(params, numQubits, general, i).0
    && remaining == Peel(params, numQubits, general, i).1
    && attached == GatesOf(qargs, numQubits, rounds)
  }

  /** One iteration of the peeling loop keeps `Peeled`. */
  lemma PeeledStep(params: seq<Complex>, qargs: seq<Qubit>, numQubits: nat, general: (Complex, Complex) -> Bloch,
                   i: nat, rounds: seq<RoundAngles>, remaining: seq<Complex>, attached: seq<Node>,
                   next: seq<Complex>, thetas: seq<real>, phis: seq<real>)
    requires Peeled(params, qargs, numQubits, general, i, rounds, remaining, attached) && i < numQubits
    requires (next, thetas, phis) == Disentangle(remaining, general)
    ensures |phis| == Pow2(numQubits - 1 - i) && |thetas| == Pow2(numQubits - 1 - i)
    ensures Peeled(params, qargs, numQubits, general, i + 1, rounds + [RoundAngles(phis, thetas)], next,
                   attached + RoundGates(qargs, numQubits, i, RoundAngles(phis, thetas)))
  {
    PeelStep(params, numQubits, general, i, next, thetas, phis);
    var x := RoundAngles(phis, thetas);
    var after := Peel(params, numQubits, general, i + 1);
    assert after.0 == rounds + [x] && after.1 == next;
    GatesSnoc(qargs, numQubits, rounds, i, phis, thetas);
  }

  /** Entries 2i and 2i + 1 are the multiplexors of round i. */
  lemma {:induction false} GatesAt(qargs: seq<Qubit>, numQubits: nat, rounds: seq<RoundAngles>, i: nat)
    requires |qargs| == numQubits && Sized(rounds, numQubits) && i < |rounds|
    ensures var gates, pair := GatesOf(qargs, numQubits, rounds), RoundGates(qargs, numQubits, i, rounds[i]);
      gates[2 * i] == pair[0] && gates[2 * i + 1] == pair[1]
    decreases |rounds|
  {
    var m := |rounds| - 1;
    var prev := rounds[..m];
    GatesLast(qargs, numQubits, rounds);
    if i < m {
      GatesAt(qargs, numQubits, prev, i);
      assert prev[i] == rounds[i];
    }
  }

  /** z is a multiplexor of 2^(n-1-i) Rz rotations and y one of 2^(n-1-i) Ry
      rotations, both on qubit i and controlled by the qubits above it. */
  ghost predicate RoundShape(z: Node, y: Node, qargs: seq<Qubit>, i: nat)
    requires i < |qargs|
  {
    && OnTarget(Leaves(z), RZ, qargs, i, |qargs| - 1 - i)
    && OnTarget(Leaves(y), RY, qargs, i, |qargs| - 1 - i)
    && |Rotations(Leaves(z))| == Pow2(|qargs| - 1 - i)
    && |Rotations(Leaves(y))| == Pow2(|qargs| - 1 - i)
  }

  /** Round i attaches 2^(n-1-i) Rz rotations and then 2^(n-1-i) Ry
      rotations, on qubit i and controlled by the qubits above it. */
  lemma RoundLevel(qargs: seq<Qubit>, numQubits: nat, i: nat, x: RoundAngles)
    requires i < numQubits && |qargs| == numQubits
    requires |x.phis| == Pow2(numQubits - 1 - i) && |x.thetas| == Pow2(numQubits - 1 - i)
    ensures var pair := RoundGates(qargs, numQubits, i, x);
      RoundShape(pair[0], pair[1], qargs, i)
  {
    var k := numQubits - 1 - i;
    MultiplexOnTarget(RZ, qargs, numQubits, i, k, x.phis);
    MultiplexOnTarget(RY, qargs, numQubits, i, k, x.thetas);
    MultiplexCounts(RZ, qargs, numQubits, i, k, x.phis);
    MultiplexCounts(RY, qargs, numQubits, i, k, x.thetas);
  }

  /** Positions 2i and 2i + 1 of the attached gates hold round i. */
  lemma GatesLevel(qargs: seq<Qubit>, numQubits: nat, rounds: seq<RoundAngles>, i: nat)
    requires |qargs| == numQubits && Sized(rounds, numQubits) && i < |rounds|
    ensures var gates := GatesOf(qargs, numQubits, rounds);
      RoundShape(gates[2 * i], gates[2 * i + 1], qargs, i)
  {
    GatesAt(qargs, numQubits, rounds, i);
    RoundLevel(qargs, numQubits, i, rounds[i]);
  }

  /** The gate counts of one round: 2 * 2^(n-1-i) rotations, and as many cx
      gates except in the last round, whose multiplexors are single rotations. */
  lemma RoundCounts(qargs: seq<Qubit>, numQubits: nat, i: nat, x: RoundAngles)
    requires i < numQubits && |qargs| == numQubits
    requires |x.phis| == Pow2(numQubits - 1 - i) && |x.thetas| == Pow2(numQubits - 1 - i)
    ensures var s := Flat(RoundGates(qargs, numQubits, i, x));
      && |Rotations(s)| == 2 * Pow2(numQubits - 1 - i)
      && |Cnots(s)| + (if i == numQubits - 1 then 2 else 0) == |Rotations(s)|
  {
    var k := numQubits - 1 - i;
    var z := Multiplex(RZ, qargs, numQubits, i, k, x.phis);
    var y := Multiplex(RY, qargs, numQubits, i, k, x.thetas);
    MultiplexCounts(RZ, qargs, numQubits, i, k, x.phis);
    MultiplexCounts(RY, qargs, numQubits, i, k, x.thetas);
    assert Flat([z, y]) == Leaves(z) + Leaves(y) by {
      assert [z, y][1..] == [y];
      FlatSingle(y);
    }
    RotationsAppend(Leaves(z), Leaves(y));
    CnotsAppend(Leaves(z), Leaves(y));
  }

  /** Gate counts of the circuit after k rounds: 2 * (2^n - 2^(n-k))
      rotations, and as many cx gates until the last round. For k = n that is
      2^(n+1) - 2 rotations and 2^(n+1) - 4 cx gates. */
  lemma {:induction false} GatesCounts(qargs: seq<Qubit>, numQubits: nat, rounds: seq<RoundAngles>)
    requires |qargs| == numQubits && Sized(rounds, numQubits)
    ensures var s, k := Flat(GatesOf(qargs, numQubits, rounds)), |rounds|;
      && |Rotations(s)| == 2 * (Pow2(numQubits) - Pow2(numQubits - k))
      && |Cnots(s)| + (if k == numQubits && k > 0 then 2 else 0) == |Rotations(s)|
    decreases |rounds|
  {
    if rounds != [] {
      var m := |rounds| - 1;
      var prev, x := rounds[..m], rounds[m];
      GatesLast(qargs, numQubits, rounds);
      GatesCounts(qargs, numQubits, prev);
      var last := RoundGates(qargs, numQubits, m, x);
      RoundCounts(qargs, numQubits, m, x);
      var g := GatesOf(qargs, numQubits, prev);
      FlatAppend(g, last);
      CountsJoin(Flat(g), Flat(last), numQubits, m, |rounds|);
    }
  }

  /** Adding the counts of round m to those of the rounds before it. */
  lemma CountsJoin(p: seq<Gate>, q: seq<Gate>, numQubits: nat, m: nat, k: nat)
    requires k == m + 1 && m < numQubits
    requires |Rotations(p)| == 2 * (Pow2(numQubits) - Pow2(numQubits - m))
    requires |Cnots(p)| + (if m == numQubits && m > 0 then 2 else 0) == |Rotations(p)|
    requires |Rotations(q)| == 2 * Pow2(numQubits - 1 - m)
    requires |Cnots(q)| + (if m == numQubits - 1 then 2 else 0) == |Rotations(q)|
    ensures |Rotations(p + q)| == 2 * (Pow2(numQubits) - Pow2(numQubits - k))
    ensures |Cnots(p + q)| + (if k == numQubits && k > 0 then 2 else 0) == |Rotations(p + q)|
  {
    assert Pow2(numQubits - m) == 2 * Pow2(numQubits - 1 - m);
    assert numQubits - k == numQubits - 1 - m;
    RotationsAppend(p, q);
    CnotsAppend(p, q);
  }

  /** Both multiplexors of a round keep their trailing cx: the outermost call
      of round i has n - 1 - i control qubits, so `num_qubits == k + 1 + bottom`. */
  lemma RoundBlocks(qargs: seq<Qubit>, numQubits: nat, i: nat, x: RoundAngles)
    requires i < numQubits && |qargs| == numQubits
    requires |x.phis| == Pow2(numQubits - 1 - i) && |x.thetas| == Pow2(numQubits - 1 - i)
    ensures var pair := RoundGates(qargs, numQubits, i, x);
      Block(pair[0]) && Block(pair[1])
  {
    var k := numQubits - 1 - i;
    MultiplexShaped(RZ, qargs, numQubits, i, k, x.phis);
    MultiplexShaped(RY, qargs, numQubits, i, k, x.thetas);
  }

  /** Every multiplexor the rounds attach keeps its trailing cx. */
  lemma GatesBlock(qargs: seq<Qubit>, numQubits: nat, rounds: seq<RoundAngles>, j: nat)
    requires |qargs| == numQubits && Sized(rounds, numQubits) && j < 2 * |rounds|
    ensures Block(GatesOf(qargs, numQubits, rounds)[j])
  {
    var i := j / 2;
    GatesAt(qargs, numQubits, rounds, i);
    RoundBlocks(qargs, numQubits, i, rounds[i]);
    assert j == 2 * i || j == 2 * i + 1;
  }

  // ---------------------------------------------------------------------
  // `optimize_gates`

  /** `while self.remove_double_cnots_once(): pass`. Each pass that reports a
      deletion shortens the circuit by at least two gates, so the loop ends;
      it ends on a tree a further pass leaves alone. */
  function CancelLoop(n: Node): (o: Outcome)
    requires n.Composite?
    ensures o.Done? ==> !o.removed && o.node.Composite? && CancelPass(o.node) == Done(o.node, false)
    ensures o.Done? ==> NoEqualBoundary(o.node)
    decreases |Leaves(n)|
  {
    CancelPassReduces(n);
    CancelPassFixpoint(n);
    match CancelPass(n)
    case IndexError => IndexError
    case Done(m, removed) => if removed then CancelLoop(m) else Done(m, false)
  }

  /** `optimize_gates`: strip the zero rotations, then cancel cx pairs until a
      pass reports nothing. */
  function Optimize(n: Node): (o: Outcome)
    requires n.Composite?
    ensures o.Done? ==> o.node.Composite? && CancelPass(o.node) == Done(o.node, false)
    ensures o.Done? ==> NoEqualBoundary(o.node)
  {
    CancelLoop(StripZeros(n).0)
  }

  /** The cancelling loop only cancels pairs of equal adjacent cx gates. */
  lemma {:induction false} CancelLoopReduces(n: Node)
    requires n.Composite?
    ensures CancelLoop(n).Done? ==> Reduces(Leaves(n), Leaves(CancelLoop(n).node))
    decreases |Leaves(n)|
  {
    CancelPassReduces(n);
    match CancelPass(n)
    case IndexError =>
    case Done(m, removed) =>
      if removed {
        CancelLoopReduces(m);
        if CancelLoop(m).Done? {
          ReducesTrans(Leaves(n), Leaves(m), Leaves(CancelLoop(m).node));
        }
      } else {
        assert m == n;
      }
  }

  /** On a tidy tree the loop never raises IndexError. */
  lemma {:induction false} CancelLoopTidy(n: Node)
    requires n.Composite? && Tidy(n)
    ensures CancelLoop(n).Done?
    decreases |Leaves(n)|
  {
    CancelPassTidy(n);
    CancelPassReduces(n);
    if CancelPass(n).removed {
      CancelLoopTidy(CancelPass(n).node);
    }
  }

  /** What `optimize_gates` keeps: exactly the rotations with a non-zero angle,
      in their order, and a circuit obtained from the non-zero gates by
      cancelling equal adjacent cx pairs, until no boundary a pass visits has
      an equal cx pair left. */
  lemma OptimizeKeeps(n: Node)
    requires n.Composite?
    ensures Optimize(n).Done? ==>
      && Reduces(NonZero(Leaves(n)), Leaves(Optimize(n).node))
      && Rotations(Leaves(Optimize(n).node)) == Rotations(NonZero(Leaves(n)))
      && NoEqualBoundary(Optimize(n).node)
  {
    StripZerosLeaves(n);
    CancelLoopReduces(StripZeros(n).0);
    if Optimize(n).Done? {
      ReducesRotations(NonZero(Leaves(n)), Leaves(Optimize(n).node));
    }
  }

  /** `optimize_gates` is not idempotent: a cancellation can empty a nested
      composite, and only a second run of `remove_zero_rotations` drops it. */
  lemma OptimizeNotIdempotent(c: Gate)
    requires c.Cx?
    ensures var once := Optimize(Composite([Composite([Leaf(c)]), Leaf(c)]));
      && once == Done(Composite([Composite([])]), false)
      && Optimize(once.node) == Done(Composite([]), false)
  {
    var n := Composite([Composite([Leaf(c)]), Leaf(c)]);
    var once := Composite([Composite([])]);
    ExampleClean(c);
    ExampleCancels(c);
    ExampleSettles();
    assert CancelLoop(n) == CancelLoop(once);
    assert CancelLoop(once) == Done(once, false);
    OptimizeEmptied();
  }

  /** The example holds no zero rotation. */
  lemma ExampleClean(c: Gate)
    requires c.Cx?
    ensures var n := Composite([Composite([Leaf(c)]), Leaf(c)]);
      StripZeros(n) == (n, false)
  {
    var leaf := Leaf(c);
    var inner := Composite([leaf]);
    assert StripChildren([]) == ([], false);
    assert StripOne(leaf) == ([leaf], false);
    assert StripChildren([leaf]) == ([leaf], false) by {
      var r := StripChildren([leaf]);
      assert [leaf][..0] == [] && [leaf][0] == leaf;
      assert r.0 == [] + StripOne(leaf).0 && r.1 == (false || StripOne(leaf).1);
      assert r.0 == [leaf];
    }
    assert StripZeros(inner) == (inner, false);
    assert StripOne(inner) == ([inner], false);
    assert StripChildren([inner]) == ([inner], false) by {
      var r := StripChildren([inner]);
      assert [inner][..0] == [] && [inner][0] == inner;
      assert r.0 == [] + StripOne(inner).0 && r.1 == (false || StripOne(inner).1);
      assert r.0 == [inner];
    }
    assert StripChildren([inner, leaf]) == ([inner, leaf], false) by {
      var r := StripChildren([inner, leaf]);
      assert [inner, leaf][..1] == [inner] && [inner, leaf][1] == leaf;
      assert r.0 == [inner] + StripOne(leaf).0 && r.1 == (false || StripOne(leaf).1);
      assert r.0 == [inner, leaf];
    }
  }

  /** The first pass over the example cancels the cx pair across the boundary
      of the nested composite, which is left empty. */
  lemma ExampleCancels(c: Gate)
    requires c.Cx?
    ensures CancelPass(Composite([Composite([Leaf(c)]), Leaf(c)])) == Done(Composite([Composite([])]), true)
  {
    var leaf := Leaf(c);
    var inner := Composite([leaf]);
    var n := Composite([inner, leaf]);
    assert CancelPass(inner) == Done(inner, false);
    assert LastAtomicGateHost(inner) == Some([]);
    assert LeftEdge(inner) == Some((InChild([]), c));
    assert RightEdge(leaf) == Some((InSelf, c));
    assert [inner, leaf][..1] + [inner, leaf][2..] == [inner];
    assert DeleteInHost(inner, [], 0) == Composite([]) by {
      assert [leaf][..0] + [leaf][1..] == [];
    }
    var after := Cancel(n.children, 0, InChild([]), InSelf);
    assert after == [Composite([])];
    assert Boundary(n.children, 0, false) == Some((after, true));
    assert n.children[0 := inner] == n.children;
    assert Sweep(n, after, -1, true) == Done(Composite(after), true);
    assert Sweep(n, n.children, 0, false) == Done(Composite(after), true);
  }

  /** The next pass finds nothing to cancel. */
  lemma ExampleSettles()
    ensures CancelPass(Composite([Composite([])])) == Done(Composite([Composite([])]), false)
  {
    var empty := Composite([]);
    assert CancelPass(empty) == Done(empty, false);
  }

  /** The second run of `optimize_gates` on that example strips the emptied
      composite. */
  lemma OptimizeEmptied()
    ensures Optimize(Composite([Composite([])])) == Done(Composite([]), false)
  {
    var empty := Composite([]);
    var after := [empty];
    assert StripChildren([]) == ([], false);
    assert StripZeros(empty) == (empty, false);
    assert StripOne(empty) == ([], false);
    assert StripChildren(after) == ([], false) by {
      var r := StripChildren(after);
      assert after[..0] == [] && after[0] == empty;
      assert r.0 == [] + StripOne(empty).0 && r.1 == (false || StripOne(empty).1);
      assert r.0 == [];
      assert r.1 == false;
    }
    assert CancelPass(empty) == Done(empty, false);
    assert CancelLoop(empty) == Done(empty, false);
  }

  /** The tree `__init__` hands to `optimize_gates` never makes it raise. */
  lemma GatesOptimize(qargs: seq<Qubit>, numQubits: nat, rounds: seq<RoundAngles>)
    requires |qargs| == numQubits && Sized(rounds, numQubits)
    ensures Optimize(Composite(GatesOf(qargs, numQubits, rounds))).Done?
  {
    var gates := GatesOf(qargs, numQubits, rounds);
    forall j | 0 <= j < |gates|
      ensures Block(gates[j])
    {
      GatesBlock(qargs, numQubits, rounds, j);
    }
    StripBlocksTidy(gates);
    var stripped := StripZeros(Composite(gates)).0;
    CancelLoopTidy(stripped);
    assert Optimize(Composite(gates)) == CancelLoop(stripped);
  }

  // ---------------------------------------------------------------------
  // The gate

  class InitializeGate {
    const params: seq<Complex>
    const qargs: seq<Qubit>
    const numQubits: nat
    /** The non-degenerate branch of `_bloch_angles`. */
    const general: (Complex, Complex) -> Bloch
    /** `self.data`: the gates of the composite, in order. */
    var data: seq<Node>
    var globalPhase: Complex

    /** What `__init__` does once the checks pass: attach the uncomputing
        gates, keep the conjugated left-over amplitude as the global phase and
        optimize. The optimizer never raises here. */
    constructor (params: seq<Complex>, qargs: seq<Qubit>, numQubits: nat, general: (Complex, Complex) -> Bloch)
      requires numQubits >= 1 && |params| == Pow2(numQubits) && |qargs| == numQubits
      ensures this.params == params && this.qargs == qargs
      ensures this.numQubits == numQubits && this.general == general
      ensures var (rounds, remaining) := Peel(params, numQubits, general, numQubits);
        var gates := GatesOf(qargs, numQubits, rounds);
        && globalPhase == Conjugate(remaining[0])
        && Optimize(Composite(gates)).Done?
        && Composite(data) == Optimize(Composite(gates)).node
    {
      this.params := params;
      this.qargs := qargs;
      this.numQubits := numQubits;
      this.general := general;
      data := [];
      globalPhase := Zero;
      new;
      var phase := GatesToUncompute();
      globalPhase := Conjugate(phase);
      ghost var rounds := Peel(params, numQubits, general, numQubits).0;
      assert data == GatesOf(qargs, numQubits, rounds);
      GatesOptimize(qargs, numQubits, rounds);
      var raised := OptimizeGates();
      assert !raised;
    }

    /** `gates_to_uncompute`: the peeling loop over the qubits, attaching to
        `self.data`; returns the single amplitude left. */
    method GatesToUncompute() returns (phase: Complex)
      requires |params| == Pow2(numQubits) && |qargs| == numQubits
      modifies this
      ensures var (rounds, remaining) := Peel(params, numQubits, general, numQubits);
        data == old(data) + GatesOf(qargs, numQubits, rounds) && phase == remaining[0]
      ensures globalPhase == old(globalPhase)
    {
      var remainingParam := params;
      ghost var rounds: seq<RoundAngles> := [];
      ghost var attached: seq<Node> := [];
      for i := 0 to numQubits
        invariant Peeled(params, qargs, numQubits, general, i, rounds, remainingParam, attached)
        invariant data == old(data) + attached
        invariant globalPhase == old(globalPhase)
      {
        var next;
        ghost var x;
        next, x := UncomputeRound(i, remainingParam, rounds, attached);
        rounds := rounds + [x];
        attached := attached + RoundGates(qargs, numQubits, i, x);
        remainingParam := next;
      }
      phase := remainingParam[0];
    }

    /** One iteration of the peeling loop: `_rotations_to_disentangle` on the
        amplitudes left, then the two multiplexors of round i. */
    method UncomputeRound(i: nat, remaining: seq<Complex>, ghost rounds: seq<RoundAngles>, ghost attached: seq<Node>)
      returns (next: seq<Complex>, ghost x: RoundAngles)
      requires i < numQubits && Peeled(params, qargs, numQubits, general, i, rounds, remaining, attached)
      modifies this
      ensures |x.phis| == Pow2(numQubits - 1 - i) && |x.thetas| == Pow2(numQubits - 1 - i)
      ensures Peeled(params, qargs, numQubits, general, i + 1, rounds + [x], next,
                     attached + RoundGates(qargs, numQubits, i, x))
      ensures data == old(data) + RoundGates(qargs, numQubits, i, x)
      ensures globalPhase == old(globalPhase)
    {
      var thetas, phis;
      next, thetas, phis := RotationsToDisentangle(remaining, general);
      PeeledStep(params, qargs, numQubits, general, i, rounds, remaining, attached, next, thetas, phis);
      AttachRound(i, phis, thetas);
      x := RoundAngles(phis, thetas);
    }

    /** The body of the peeling loop after `_rotations_to_disentangle`: attach
        the Rz multiplexor on the phis, then the Ry multiplexor on the thetas. */
    method AttachRound(i: nat, phis: seq<real>, thetas: seq<real>)
      requires i < numQubits && |qargs| == numQubits
      requires |phis| == Pow2(numQubits - 1 - i) && |thetas| == Pow2(numQubits - 1 - i)
      modifies this
      ensures data == old(data) + RoundGates(qargs, numQubits, i, RoundAngles(phis, thetas))
      ensures globalPhase == old(globalPhase)
    {
      data := data + [Multiplex(RZ, qargs, numQubits, i, numQubits - 1 - i, phis)];
      data := data + [Multiplex(RY, qargs, numQubits, i, numQubits - 1 - i, thetas)];
    }

    /** `optimize_gates` on `self.data`; `raised` says whether a cancellation
        pass raised IndexError. */
    method OptimizeGates() returns (raised: bool)
      modifies this
      ensures raised <==> Optimize(Composite(old(data))).IndexError?
      ensures !raised ==> Composite(data) == Optimize(Composite(old(data))).node
      ensures globalPhase == old(globalPhase)
    {
      var current, _ := RemoveZeroRotations(Composite(data));
      while true
        invariant current.Composite?
        invariant CancelLoop(current) == Optimize(Composite(old(data)))
        invariant globalPhase == old(globalPhase)
        decreases |Leaves(current)|
      {
        var out := RemoveDoubleCnotsOnce(current);
        if out.IndexError? {
          return true;
        }
        CancelPassReduces(current);
        if !out.removed {
          break;
        }
        current := out.node;
      }
      data := current.children;
      raised := false;
    }
  }

  /** `InitializeGate(params, qargs)`: the checks, then the gate. */
  method NewInitializeGate(params: seq<Complex>, qargs: seq<Qubit>, general: (Complex, Complex) -> Bloch)
    returns (r: Result<InitializeGate, InitError>)
    ensures var v := Validate(|params|, |qargs|);
      && (r.Failure? <==> v.Failure?)
      && (r.Failure? ==> r.error == v.error)
      && (r.Success? ==>
            && fresh(r.value)
            && r.value.params == params && r.value.qargs == qargs && r.value.numQubits == v.value
            && var gates := GatesOf(qargs, v.value, Peel(params, v.value, general, v.value).0);
               Optimize(Composite(gates)).Done? && Composite(r.value.data) == Optimize(Composite(gates)).node)
  {
    match Validate(|params|, |qargs|)
    case Failure(e) =>
      r := Failure(e);
    case Success(numQubits) =>
      var gate := new InitializeGate(params, qargs, numQubits, general);
      r := Success(gate);
  }
}
