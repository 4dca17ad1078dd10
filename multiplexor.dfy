/** `_multiplex`: the uniformly controlled rotation on one target qubit, built
    recursively from two half-size multiplexors joined by a cx (the
    construction of Shende, Bullock and Markov, "Synthesis of Quantum Logic
    Circuits"). The second half is child-order reversed so that the cx gates
    of neighbouring halves meet, and only the outermost call keeps its
    trailing cx. */
module Multiplexor {
  import opened GateTree
  import opened Reversal
  import opened Powers

  /** `nth_qubit_from_least_sig_qubit`: the least significant qubit comes first. */
  function NthQubitFromLeastSigQubit(qargs: seq<Qubit>, nth: nat): (q: Qubit)
    requires nth < |qargs|
    ensures q in qargs
  {
    qargs[nth]
  }

  // ---------------------------------------------------------------------
  // The combo angles

  /** `angle_weight.dot(list_of_angles)` with `angle_weight` the Kronecker
      product of [[1/2, 1/2], [1/2, -1/2]] and the identity of size h: half
      sums in the first half, half differences in the second. */
  function ComboAngles(a: seq<real>): (r: seq<real>)
    requires |a| % 2 == 0
    ensures |r| == |a|
    ensures forall j :: 0 <= j < |a| / 2 ==>
      r[j] == (a[j] + a[j + |a| / 2]) / 2.0 && r[j + |a| / 2] == (a[j] - a[j + |a| / 2]) / 2.0
  {
    ComboEntries(a);
    LowAngles(a) + HighAngles(a)
  }

  lemma ComboEntries(a: seq<real>)
    requires |a| % 2 == 0
    ensures var h := |a| / 2;
      forall j :: 0 <= j < h ==>
        LowAngles(a)[j] == (a[j] + a[j + h]) / 2.0 && HighAngles(a)[j] == (a[j] - a[j + h]) / 2.0
  {
    var h := |a| / 2;
    forall j | 0 <= j < h
      ensures LowAngles(a)[j] == (a[j] + a[j + h]) / 2.0 && HighAngles(a)[j] == (a[j] - a[j + h]) / 2.0
    {
      HalfSumsAt(a, h, h, j);
      HalfDiffsAt(a, h, h, j);
    }
  }

  /** The first half of the combo angles, multiplexed by the first recursive
      call: entry j is (a[j] + a[j + h]) / 2. */
  function LowAngles(a: seq<real>): (r: seq<real>)
    requires |a| % 2 == 0
    ensures |r| == |a| / 2
  {
    HalfSums(a, |a| / 2, |a| / 2)
  }

  /** The second half of the combo angles, multiplexed by the second recursive
      call: entry j is (a[j] - a[j + h]) / 2. */
  function HighAngles(a: seq<real>): (r: seq<real>)
    requires |a| % 2 == 0
    ensures |r| == |a| / 2
  {
    HalfDiffs(a, |a| / 2, |a| / 2)
  }

  /** Both halves of 2^k combo angles hold 2^(k - 1) angles. */
  lemma Halves(a: seq<real>, k: nat)
    requires |a| == Pow2(k) && k >= 1
    ensures |a| % 2 == 0 && |LowAngles(a)| == Pow2(k - 1) && |HighAngles(a)| == Pow2(k - 1)
  {
    assert |a| == 2 * Pow2(k - 1);
  }

  /** The first n half sums of the two halves (of size h) of a. */
  function HalfSums(a: seq<real>, h: nat, n: nat): (r: seq<real>)
    requires |a| == 2 * h && n <= h
    ensures |r| == n
  {
    if n == 0 then [] else HalfSums(a, h, n - 1) + [(a[n - 1] + a[n - 1 + h]) / 2.0]
  }

  /** The first n half differences of the two halves (of size h) of a. */
  function HalfDiffs(a: seq<real>, h: nat, n: nat): (r: seq<real>)
    requires |a| == 2 * h && n <= h
    ensures |r| == n
  {
    if n == 0 then [] else HalfDiffs(a, h, n - 1) + [(a[n - 1] - a[n - 1 + h]) / 2.0]
  }

  lemma {:induction false} HalfSumsAt(a: seq<real>, h: nat, n: nat, j: nat)
    requires |a| == 2 * h && j < n <= h
    ensures HalfSums(a, h, n)[j] == (a[j] + a[j + h]) / 2.0
  {
    if j < n - 1 {
      HalfSumsAt(a, h, n - 1, j);
    }
  }

  lemma {:induction false} HalfDiffsAt(a: seq<real>, h: nat, n: nat, j: nat)
    requires |a| == 2 * h && j < n <= h
    ensures HalfDiffs(a, h, n)[j] == (a[j] - a[j + h]) / 2.0
  {
    if j < n - 1 {
      HalfDiffsAt(a, h, n - 1, j);
    }
  }

  /** The inverse transform: sums in the first half, differences in the second. */
  function UncomboAngles(b: seq<real>): (r: seq<real>)
    requires |b| % 2 == 0
    ensures |r| == |b|
  {
    var h := |b| / 2;
    seq(|b|, j requires 0 <= j < |b| =>
      if j < h then b[j] + b[j + h] else b[j - h] - b[j])
  }

  /** The combo angles determine the requested angles: a[j] is the sum and
      a[j + h] the difference of the combo angles j and j + h. */
  lemma ComboAnglesInverse(a: seq<real>)
    requires |a| % 2 == 0
    ensures UncomboAngles(ComboAngles(a)) == a
  {
    var h := |a| / 2;
    forall j | 0 <= j < |a|
      ensures UncomboAngles(ComboAngles(a))[j] == a[j]
    {
      ComboPair(a, if j < h then j else j - h);
    }
  }

  lemma ComboPair(a: seq<real>, i: nat)
    requires |a| % 2 == 0 && i < |a| / 2
    ensures var h := |a| / 2;
      UncomboAngles(ComboAngles(a))[i] == a[i] && UncomboAngles(ComboAngles(a))[i + h] == a[i + h]
  {
    var h := |a| / 2;
    var c := ComboAngles(a);
    assert c[i] == (a[i] + a[i + h]) / 2.0 && c[i + h] == (a[i] - a[i + h]) / 2.0;
  }

  /** Every list of angles is the combo of exactly one list. */
  lemma UncomboAnglesInverse(b: seq<real>)
    requires |b| % 2 == 0
    ensures ComboAngles(UncomboAngles(b)) == b
  {
    var h := |b| / 2;
    forall j | 0 <= j < |b|
      ensures ComboAngles(UncomboAngles(b))[j] == b[j]
    {
      UncomboPair(b, if j < h then j else j - h);
    }
  }

  lemma UncomboPair(b: seq<real>, i: nat)
    requires |b| % 2 == 0 && i < |b| / 2
    ensures var h := |b| / 2;
      ComboAngles(UncomboAngles(b))[i] == b[i] && ComboAngles(UncomboAngles(b))[i + h] == b[i + h]
  {
    var h := |b| / 2;
    var u := UncomboAngles(b);
    assert u[i] == b[i] + b[i + h] && u[i + h] == b[i] - b[i + h];
  }

  // ---------------------------------------------------------------------
  // The multiplexor

  /** `_multiplex(bottom_gate, bottom_qubit_index, list_of_angles)` of a gate
      whose `self.qargs` is `qargs` and `self.num_qubits` is `numQubits`; the
      rotation kind is `axis`. The list holds 2^k angles; k, the number of
      control qubits, is `local_num_qubits - 1`, the logarithm the source takes
      of the list's length. */
  function Multiplex(axis: Axis, qargs: seq<Qubit>, numQubits: nat, bottom: nat, k: nat, angles: seq<real>): Node
    requires |angles| == Pow2(k) && bottom + k < |qargs|
    decreases k
  {
    var target := NthQubitFromLeastSigQubit(qargs, bottom);
    if k == 0 then Leaf(Rotation(axis, angles[0], target))
    else
      var control := NthQubitFromLeastSigQubit(qargs, k + bottom);
      var low := Multiplex(axis, qargs, numQubits, bottom, k - 1, LowAngles(angles));
      var high := Multiplex(axis, qargs, numQubits, bottom, k - 1, HighAngles(angles));
      var cx := Leaf(Cx(control, target));
      Composite([low, cx, if high.Composite? then Mirror(high) else high] +
                (if numQubits == k + 1 + bottom then [cx] else []))
  }

  /** The number of trailing cx gates kept: one per call made with k' control
      qubits, where `numQubits == k' + 1 + bottom` picks k' = t. */
  function TrailingCnots(k: nat, t: int): nat
  {
    if 1 <= t <= k then Pow2(k - t) else 0
  }

  lemma FlatOfFour(a: Node, b: Node, c: Node, tail: seq<Node>)
    ensures Flat([a, b, c] + tail) == Leaves(a) + Leaves(b) + Leaves(c) + Flat(tail)
  {
    var s := [a, b, c] + tail;
    assert s[1..] == [b, c] + tail;
    assert s[1..][1..] == [c] + tail;
    assert s[1..][1..][1..] == tail;
    assert Flat([c] + tail) == Leaves(c) + Flat(tail);
    assert Flat([b, c] + tail) == Leaves(b) + Flat([c] + tail);
    assert Flat(s) == Leaves(a) + Flat([b, c] + tail);
  }

  /** The children of a multiplexor with k >= 1 control qubits: the low half,
      the cx, the high half in reverse child order, and the trailing cx when
      it is kept. */
  lemma MultiplexChildren(axis: Axis, qargs: seq<Qubit>, numQubits: nat, bottom: nat, k: nat, angles: seq<real>)
    requires |angles| == Pow2(k) && bottom + k < |qargs| && k > 0
    ensures |angles| % 2 == 0 && |angles| / 2 == Pow2(k - 1)
    ensures var cx := Leaf(Cx(qargs[k + bottom], qargs[bottom]));
      var high := Multiplex(axis, qargs, numQubits, bottom, k - 1, HighAngles(angles));
      Multiplex(axis, qargs, numQubits, bottom, k, angles) ==
        Composite([Multiplex(axis, qargs, numQubits, bottom, k - 1, LowAngles(angles)), cx, Mirror(high)] +
                  (if numQubits == k + 1 + bottom then [cx] else []))
  {
    var high := Multiplex(axis, qargs, numQubits, bottom, k - 1, HighAngles(angles));
    assert high.Leaf? ==> Mirror(high) == high;
  }

  /** The gate sequence a multiplexor on 2^k angles applies: the first half
      of the combo angles multiplexed, the cx from control qubit k, the second
      half multiplexed and run backwards, and the trailing cx when it is kept. */
  ghost function Circuit(axis: Axis, qargs: seq<Qubit>, numQubits: nat, bottom: nat, k: nat, angles: seq<real>): seq<Gate>
    requires |angles| == Pow2(k) && bottom + k < |qargs|
    decreases k
  {
    if k == 0 then [Rotation(axis, angles[0], qargs[bottom])]
    else
      Halves(angles, k);
      var cx := Cx(qargs[k + bottom], qargs[bottom]);
      Circuit(axis, qargs, numQubits, bottom, k - 1, LowAngles(angles)) + [cx] +
      Rev(Circuit(axis, qargs, numQubits, bottom, k - 1, HighAngles(angles))) +
      (if numQubits == k + 1 + bottom then [cx] else [])
  }

  /** The tree `_multiplex` builds flattens to that gate sequence. */
  lemma {:induction false} MultiplexLeaves(axis: Axis, qargs: seq<Qubit>, numQubits: nat, bottom: nat, k: nat, angles: seq<real>)
    requires |angles| == Pow2(k) && bottom + k < |qargs|
    ensures Leaves(Multiplex(axis, qargs, numQubits, bottom, k, angles)) == Circuit(axis, qargs, numQubits, bottom, k, angles)
    decreases k
  {
    if k > 0 {
      Halves(angles, k);
      var lo, hi := LowAngles(angles), HighAngles(angles);
      MultiplexChildren(axis, qargs, numQubits, bottom, k, angles);
      MultiplexLeaves(axis, qargs, numQubits, bottom, k - 1, lo);
      MultiplexLeaves(axis, qargs, numQubits, bottom, k - 1, hi);
      var low := Multiplex(axis, qargs, numQubits, bottom, k - 1, lo);
      var high := Multiplex(axis, qargs, numQubits, bottom, k - 1, hi);
      var cx := Cx(qargs[k + bottom], qargs[bottom]);
      var tail := if numQubits == k + 1 + bottom then [Leaf(cx)] else [];
      MirrorLeaves(high);
      FlatOfFour(low, Leaf(cx), Mirror(high), tail);
      if tail != [] {
        FlatSingle(Leaf(cx));
      }
    }
  }

  lemma FilterFour(a: seq<Gate>, cx: Gate, b: seq<Gate>, tail: seq<Gate>)
    requires cx.Cx? && (tail == [] || tail == [cx])
    ensures |Rotations(a + [cx] + b + tail)| == |Rotations(a)| + |Rotations(b)|
    ensures |Cnots(a + [cx] + b + tail)| == |Cnots(a)| + 1 + |Cnots(b)| + |tail|
  {
    RotationsAppend(a + [cx] + b, tail);
    RotationsAppend(a + [cx], b);
    RotationsAppend(a, [cx]);
    CnotsAppend(a + [cx] + b, tail);
    CnotsAppend(a + [cx], b);
    CnotsAppend(a, [cx]);
    assert [cx][1..] == [];
  }

  /** A multiplexor on 2^k angles holds 2^k rotations and 2^k - 1 cx gates,
      plus the trailing cx of every call made with the outermost size. */
  lemma MultiplexCounts(axis: Axis, qargs: seq<Qubit>, numQubits: nat, bottom: nat, k: nat, angles: seq<real>)
    requires |angles| == Pow2(k) && bottom + k < |qargs|
    ensures var s := Leaves(Multiplex(axis, qargs, numQubits, bottom, k, angles));
      && |Rotations(s)| == |angles|
      && |Cnots(s)| == |angles| - 1 + TrailingCnots(k, numQubits - 1 - bottom)
  {
    MultiplexLeaves(axis, qargs, numQubits, bottom, k, angles);
    CircuitRotations(axis, qargs, numQubits, bottom, k, angles);
    CircuitCnots(axis, qargs, numQubits, bottom, k, angles);
  }

  /** One level of the reference sequence, with the trailing test written on
      the number of qubits above `bottom`. */
  lemma CircuitStep(axis: Axis, qargs: seq<Qubit>, numQubits: nat, bottom: nat, k: nat, angles: seq<real>)
    requires |angles| == Pow2(k) && bottom + k < |qargs| && k >= 1
    requires |angles| % 2 == 0 && |LowAngles(angles)| == Pow2(k - 1) && |HighAngles(angles)| == Pow2(k - 1)
    ensures var cx := Cx(qargs[k + bottom], qargs[bottom]);
      Circuit(axis, qargs, numQubits, bottom, k, angles) ==
        Circuit(axis, qargs, numQubits, bottom, k - 1, LowAngles(angles)) + [cx] +
        Rev(Circuit(axis, qargs, numQubits, bottom, k - 1, HighAngles(angles))) +
        (if numQubits - 1 - bottom == k then [cx] else [])
  {
  }

  /** The reference sequence with no control qubit: one rotation, no cx. */
  lemma CircuitBase(axis: Axis, qargs: seq<Qubit>, numQubits: nat, bottom: nat, angles: seq<real>)
    requires |angles| == Pow2(0) && bottom < |qargs|
    ensures var s := Circuit(axis, qargs, numQubits, bottom, 0, angles);
      |Rotations(s)| == 1 && |Cnots(s)| == 0
  {
    var s := Circuit(axis, qargs, numQubits, bottom, 0, angles);
    assert s == [Rotation(axis, angles[0], qargs[bottom])];
    assert s[1..] == [];
  }

  lemma {:induction false} CircuitRotations(axis: Axis, qargs: seq<Qubit>, numQubits: nat, bottom: nat, k: nat, angles: seq<real>)
    requires |angles| == Pow2(k) && bottom + k < |qargs|
    ensures |Rotations(Circuit(axis, qargs, numQubits, bottom, k, angles))| == Pow2(k)
    decreases k
  {
    if k == 0 {
      CircuitBase(axis, qargs, numQubits, bottom, angles);
      assert Pow2(0) == 1 && TrailingCnots(0, numQubits - 1 - bottom) == 0;
    } else {
      Halves(angles, k);
      CircuitStep(axis, qargs, numQubits, bottom, k, angles);
      var lo, hi := LowAngles(angles), HighAngles(angles);
      CircuitRotations(axis, qargs, numQubits, bottom, k - 1, lo);
      CircuitRotations(axis, qargs, numQubits, bottom, k - 1, hi);
      var cx := Cx(qargs[k + bottom], qargs[bottom]);
      var high := Circuit(axis, qargs, numQubits, bottom, k - 1, hi);
      RevKeeps(high);
      FilterFour(Circuit(axis, qargs, numQubits, bottom, k - 1, lo), cx, Rev(high),
                 if numQubits - 1 - bottom == k then [cx] else []);
    }
  }

  lemma {:induction false} CircuitCnots(axis: Axis, qargs: seq<Qubit>, numQubits: nat, bottom: nat, k: nat, angles: seq<real>)
    requires |angles| == Pow2(k) && bottom + k < |qargs|
    ensures |Cnots(Circuit(axis, qargs, numQubits, bottom, k, angles))| == Pow2(k) - 1 + TrailingCnots(k, numQubits - 1 - bottom)
    decreases k
  {
    if k == 0 {
      CircuitBase(axis, qargs, numQubits, bottom, angles);
      assert Pow2(0) == 1 && TrailingCnots(0, numQubits - 1 - bottom) == 0;
    } else {
      Halves(angles, k);
      CircuitCnots(axis, qargs, numQubits, bottom, k - 1, LowAngles(angles));
      CircuitCnots(axis, qargs, numQubits, bottom, k - 1, HighAngles(angles));
      CnotsLevel(axis, qargs, numQubits, bottom, k, angles);
    }
  }

  /** The cx count of one level of the reference sequence from the counts of
      its two halves. */
  lemma CnotsLevel(axis: Axis, qargs: seq<Qubit>, numQubits: nat, bottom: nat, k: nat, angles: seq<real>)
    requires |angles| == Pow2(k) && bottom + k < |qargs| && k >= 1
    requires |angles| % 2 == 0 && |LowAngles(angles)| == Pow2(k - 1) && |HighAngles(angles)| == Pow2(k - 1)
    requires var t := numQubits - 1 - bottom;
      && |Cnots(Circuit(axis, qargs, numQubits, bottom, k - 1, LowAngles(angles)))| == Pow2(k - 1) - 1 + TrailingCnots(k - 1, t)
      && |Cnots(Circuit(axis, qargs, numQubits, bottom, k - 1, HighAngles(angles)))| == Pow2(k - 1) - 1 + TrailingCnots(k - 1, t)
    ensures |Cnots(Circuit(axis, qargs, numQubits, bottom, k, angles))| == Pow2(k) - 1 + TrailingCnots(k, numQubits - 1 - bottom)
  {
    CircuitStep(axis, qargs, numQubits, bottom, k, angles);
    var s := Circuit(axis, qargs, numQubits, bottom, k, angles);
    var low := Circuit(axis, qargs, numQubits, bottom, k - 1, LowAngles(angles));
    var high := Circuit(axis, qargs, numQubits, bottom, k - 1, HighAngles(angles));
    var cx := Cx(qargs[k + bottom], qargs[bottom]);
    var t := numQubits - 1 - bottom;
    assert s == low + [cx] + Rev(high) + (if t == k then [cx] else []);
    CnotsJoin(s, low, high, cx, k, t);
  }

  /** The cx count of a multiplexor from those of its halves. */
  lemma CnotsJoin(s: seq<Gate>, low: seq<Gate>, high: seq<Gate>, cx: Gate, k: nat, t: int)
    requires k >= 1 && cx.Cx?
    requires s == low + [cx] + Rev(high) + (if t == k then [cx] else [])
    requires |Cnots(low)| == Pow2(k - 1) - 1 + TrailingCnots(k - 1, t)
    requires |Cnots(high)| == Pow2(k - 1) - 1 + TrailingCnots(k - 1, t)
    ensures |Cnots(s)| == Pow2(k) - 1 + TrailingCnots(k, t)
  {
    RevKeeps(high);
    FilterFour(low, cx, Rev(high), if t == k then [cx] else []);
    TrailingStep(k, t);
  }

  lemma TrailingStep(k: nat, t: int)
    requires k >= 1
    ensures TrailingCnots(k, t) == 2 * TrailingCnots(k - 1, t) + (if t == k then 1 else 0)
  {
    if 1 <= t < k {
      assert Pow2(k - t) == 2 * Pow2(k - 1 - t);
    }
  }

  /** Every gate of a multiplexor with k control qubits acts on the target
      `qargs[bottom]`: the rotations are about the requested axis and the cx
      gates are controlled by one of `qargs[bottom + 1]` to `qargs[bottom + k]`. */
  ghost predicate OnTarget(s: seq<Gate>, axis: Axis, qargs: seq<Qubit>, bottom: nat, k: nat)
    requires bottom < |qargs|
  {
    forall g :: g in s ==>
      && g.target == qargs[bottom]
      && (g.Rotation? ==> g.axis == axis)
      && (g.Cx? ==> exists j :: bottom < j <= bottom + k && j < |qargs| && g.control == qargs[j])
  }

  lemma OnTargetJoin(a: seq<Gate>, cx: Gate, b: seq<Gate>, tail: seq<Gate>,
                     axis: Axis, qargs: seq<Qubit>, bottom: nat, k: nat)
    requires 1 <= k && bottom + k < |qargs|
    requires OnTarget(a, axis, qargs, bottom, k - 1) && OnTarget(b, axis, qargs, bottom, k - 1)
    requires cx == Cx(qargs[k + bottom], qargs[bottom]) && (tail == [] || tail == [cx])
    ensures OnTarget(a + [cx] + b + tail, axis, qargs, bottom, k)
  {
    forall g | g in a + [cx] + b + tail
      ensures g.target == qargs[bottom] && (g.Rotation? ==> g.axis == axis)
      ensures g.Cx? ==> exists j :: bottom < j <= bottom + k && j < |qargs| && g.control == qargs[j]
    {
      if g == cx {
        assert g.control == qargs[bottom + k];
      } else {
        assert g in a || g in b;
      }
    }
  }

  lemma OnTargetRev(s: seq<Gate>, axis: Axis, qargs: seq<Qubit>, bottom: nat, k: nat)
    requires bottom < |qargs| && OnTarget(s, axis, qargs, bottom, k)
    ensures OnTarget(Rev(s), axis, qargs, bottom, k)
  {
    RevKeeps(s);
  }

  /** Every gate of a multiplexor acts on the target qubit `bottom`: the
      rotations about `axis`, the cx gates controlled by one of the k qubits
      above it. */
  lemma MultiplexOnTarget(axis: Axis, qargs: seq<Qubit>, numQubits: nat, bottom: nat, k: nat, angles: seq<real>)
    requires |angles| == Pow2(k) && bottom + k < |qargs|
    ensures OnTarget(Leaves(Multiplex(axis, qargs, numQubits, bottom, k, angles)), axis, qargs, bottom, k)
  {
    MultiplexLeaves(axis, qargs, numQubits, bottom, k, angles);
    CircuitOnTarget(axis, qargs, numQubits, bottom, k, angles);
  }

  lemma {:induction false} CircuitOnTarget(axis: Axis, qargs: seq<Qubit>, numQubits: nat, bottom: nat, k: nat, angles: seq<real>)
    requires |angles| == Pow2(k) && bottom + k < |qargs|
    ensures OnTarget(Circuit(axis, qargs, numQubits, bottom, k, angles), axis, qargs, bottom, k)
    decreases k
  {
    if k > 0 {
      Halves(angles, k);
      var lo, hi := LowAngles(angles), HighAngles(angles);
      CircuitOnTarget(axis, qargs, numQubits, bottom, k - 1, lo);
      CircuitOnTarget(axis, qargs, numQubits, bottom, k - 1, hi);
      var high := Circuit(axis, qargs, numQubits, bottom, k - 1, hi);
      OnTargetRev(high, axis, qargs, bottom, k - 1);
      var cx := Cx(qargs[k + bottom], qargs[bottom]);
      OnTargetJoin(Circuit(axis, qargs, numQubits, bottom, k - 1, lo), cx, Rev(high),
                   if numQubits == k + 1 + bottom then [cx] else [], axis, qargs, bottom, k);
    }
  }

  // ---------------------------------------------------------------------
  // The shape of a multiplexor

  /** The shape `_multiplex` builds with k control qubits: a rotation leaf when
      k = 0, else [low, cx, high] with a trailing copy of the cx when asked for,
      low and high being shapes with k - 1 control qubits and no trailing cx. */
  ghost predicate Shaped(n: Node, k: nat, trailing: bool)
    decreases k
  {
    if k == 0 then n.Leaf? && n.gate.Rotation?
    else
      && n.Composite? && |n.children| == (if trailing then 4 else 3)
      && Shaped(n.children[0], k - 1, false)
      && IsCxLeaf(n.children[1])
      && Shaped(n.children[2], k - 1, false)
      && (trailing ==> n.children[3] == n.children[1])
  }

  /** Reversing child order keeps the shape of an inner multiplexor. */
  lemma {:induction false} MirrorShaped(n: Node, k: nat)
    requires Shaped(n, k, false)
    ensures Shaped(Mirror(n), k, false)
    decreases k
  {
    if k > 0 {
      var cs := n.children;
      var mc := MirrorChildren(cs);
      assert mc == [Mirror(cs[2]), Mirror(cs[1]), Mirror(cs[0])];
      MirrorShaped(cs[0], k - 1);
      MirrorShaped(cs[2], k - 1);
    }
  }

  /** A multiplexor on 2^k angles has the shape with k control qubits, and
      keeps its trailing cx exactly when `num_qubits == k + 1 + bottom`. The
      shape needs that no inner call keeps a trailing cx, which holds for every
      call the initializer makes (there `num_qubits == k + 1 + bottom`). */
  lemma {:induction false} MultiplexShaped(axis: Axis, qargs: seq<Qubit>, numQubits: nat, bottom: nat, k: nat, angles: seq<real>)
    requires |angles| == Pow2(k) && bottom + k < |qargs|
    requires !(1 <= numQubits - 1 - bottom < k)
    ensures Shaped(Multiplex(axis, qargs, numQubits, bottom, k, angles), k, numQubits == k + 1 + bottom)
    decreases k
  {
    if k > 0 {
      MultiplexChildren(axis, qargs, numQubits, bottom, k, angles);
      var lo, hi := LowAngles(angles), HighAngles(angles);
      var cx := Leaf(Cx(qargs[k + bottom], qargs[bottom]));
      var low := Multiplex(axis, qargs, numQubits, bottom, k - 1, lo);
      var high := Multiplex(axis, qargs, numQubits, bottom, k - 1, hi);
      MultiplexShaped(axis, qargs, numQubits, bottom, k - 1, lo);
      MultiplexShaped(axis, qargs, numQubits, bottom, k - 1, hi);
      JoinShaped(low, cx, high, if numQubits == k + 1 + bottom then [cx] else [], k);
    }
  }

  /** The low half, the cx, the mirrored high half and the optional trailing
      cx make a multiplexor of one more control qubit. */
  lemma JoinShaped(low: Node, cx: Node, high: Node, tail: seq<Node>, k: nat)
    requires k >= 1 && IsCxLeaf(cx) && (tail == [] || tail == [cx])
    requires Shaped(low, k - 1, false) && Shaped(high, k - 1, false)
    ensures Shaped(Composite([low, cx, Mirror(high)] + tail), k, tail != [])
  {
    MirrorShaped(high, k - 1);
    var cs := [low, cx, Mirror(high)] + tail;
    assert cs[0] == low && cs[1] == cx && cs[2] == Mirror(high);
  }
}
