/** The gate tree shared by the synthesizer and the optimizer passes:
    leaves are elementary gates (rz, ry, rx rotations and cx), composites are
    ordered sequences of sub-trees. `Leaves` flattens a tree into the circuit
    order in which its gates are applied. */
module GateTree {

  datatype Option<T> = None | Some(value: T)

  /** A qubit of the host circuit: a register and an index into it. */
  datatype Qubit = Qubit(register: string, index: nat)

  /** The axis of a single-qubit rotation: gate names "rx", "ry", "rz". */
  datatype Axis = RX | RY | RZ

  datatype Gate =
    | Rotation(axis: Axis, angle: real, target: Qubit)
    | Cx(control: Qubit, target: Qubit)

  datatype Node = Leaf(gate: Gate) | Composite(children: seq<Node>)

  /** Values with magnitude below EPS are chopped to zero (1e-10). */
  const EPS: real := 0.0000000001

  function Abs(x: real): real { if x < 0.0 then -x else x }

  /** `chop_num`: small values become exactly zero, others are kept. */
  function ChopNum(x: real): (r: real)
    ensures r == 0.0 <==> Abs(x) < EPS
    ensures r != 0.0 ==> r == x
  {
    if Abs(x) < EPS then 0.0 else x
  }

  /** A rotation leaf that `remove_zero_rotations` deletes. */
  predicate IsZeroRotation(g: Gate) {
    g.Rotation? && ChopNum(g.angle) == 0.0
  }

  predicate IsCxLeaf(n: Node) {
    n.Leaf? && n.gate.Cx?
  }

  // ---------------------------------------------------------------------
  // Flattening

  /** The gates of a tree in circuit order. */
  ghost function Leaves(n: Node): seq<Gate>
    decreases n, 1
  {
    match n
    case Leaf(g) => [g]
    case Composite(cs) => Flat(cs)
  }

  ghost function Flat(cs: seq<Node>): seq<Gate>
    decreases cs, 0
  {
    if cs == [] then [] else Leaves(cs[0]) + Flat(cs[1..])
  }

  lemma {:induction false} FlatAppend(a: seq<Node>, b: seq<Node>)
    ensures Flat(a + b) == Flat(a) + Flat(b)
    decreases |a|
  {
    if a == [] {
      assert a + b == b;
    } else {
      assert (a + b)[0] == a[0];
      assert (a + b)[1..] == a[1..] + b;
      FlatAppend(a[1..], b);
    }
  }

  /** Splitting a child list around position i. */
  lemma FlatSplit(cs: seq<Node>, i: nat)
    requires i < |cs|
    ensures Flat(cs) == Flat(cs[..i]) + Leaves(cs[i]) + Flat(cs[i + 1..])
  {
    var a, b := cs[..i], cs[i..];
    assert cs == a + b;
    FlatAppend(a, b);
    assert b[0] == cs[i] && b[1..] == cs[i + 1..];
  }

  lemma FlatSingle(c: Node)
    ensures Flat([c]) == Leaves(c)
  {
    assert [c][1..] == [];
  }

  // ---------------------------------------------------------------------
  // Counting (`number_atomic_gates`)

  /** `number_atomic_gates`: the number of leaf gates below a composite. */
  function NumberAtomicGates(n: Node): (k: nat)
    requires n.Composite?
    ensures k == |Leaves(n)|
    decreases n, 1
  {
    CountChildren(n.children)
  }

  function CountChildren(cs: seq<Node>): (k: nat)
    ensures k == |Flat(cs)|
    decreases cs, 0
  {
    if cs == [] then 0
    else
      (if cs[0].Composite? then NumberAtomicGates(cs[0]) else 1) + CountChildren(cs[1..])
  }

  // ---------------------------------------------------------------------
  // Host lists and the edge finders

  /** A path of child indices from a composite down to a composite (a host list). */
  predicate ValidPath(n: Node, path: seq<nat>)
    decreases path
  {
    n.Composite? &&
    (path == [] || (path[0] < |n.children| && ValidPath(n.children[path[0]], path[1..])))
  }

  function HostAt(n: Node, path: seq<nat>): (h: Node)
    requires ValidPath(n, path)
    ensures h.Composite?
    decreases path
  {
    if path == [] then n else HostAt(n.children[path[0]], path[1..])
  }

  /** The path follows first children all the way down, and ends at a host whose
      first child is a leaf. */
  ghost predicate FirstChain(n: Node, path: seq<nat>)
    decreases path
  {
    n.Composite? && |n.children| > 0 &&
    if path == [] then n.children[0].Leaf?
    else path[0] == 0 && FirstChain(n.children[0], path[1..])
  }

  /** The path follows last children all the way down, and ends at a host whose
      last child is a leaf. */
  ghost predicate LastChain(n: Node, path: seq<nat>)
    decreases path
  {
    n.Composite? && |n.children| > 0 &&
    if path == [] then n.children[|n.children| - 1].Leaf?
    else path[0] == |n.children| - 1 && LastChain(n.children[|n.children| - 1], path[1..])
  }

  lemma {:induction false} FirstChainValid(n: Node, path: seq<nat>)
    requires FirstChain(n, path)
    ensures ValidPath(n, path) && |HostAt(n, path).children| > 0
    ensures HostAt(n, path).children[0].Leaf?
    ensures Leaves(n) != [] && Leaves(n)[0] == HostAt(n, path).children[0].gate
    decreases path
  {
    var cs := n.children;
    assert Leaves(n) == Leaves(cs[0]) + Flat(cs[1..]);
    if path != [] {
      FirstChainValid(cs[0], path[1..]);
    }
  }

  lemma {:induction false} LastChainValid(n: Node, path: seq<nat>)
    requires LastChain(n, path)
    ensures ValidPath(n, path) && |HostAt(n, path).children| > 0
    ensures var h := HostAt(n, path); h.children[|h.children| - 1].Leaf?
    ensures var h := HostAt(n, path);
      Leaves(n) != [] && Leaves(n)[|Leaves(n)| - 1] == h.children[|h.children| - 1].gate
    decreases path
  {
    var cs := n.children;
    FlatSplit(cs, |cs| - 1);
    assert cs[|cs|..] == [];
    if path != [] {
      LastChainValid(cs[|cs| - 1], path[1..]);
    }
  }

  /** `first_atomic_gate_host`: the host list of the leftmost leaf, found by
      descending through first children; None when that descent meets an empty
      composite. */
  function FirstAtomicGateHost(n: Node): (p: Option<seq<nat>>)
    requires n.Composite?
    ensures p.Some? ==> FirstChain(n, p.value)
    ensures p.None? ==> forall path :: !FirstChain(n, path)
    decreases n
  {
    if |n.children| > 0 then
      if n.children[0].Composite? then
        match FirstAtomicGateHost(n.children[0])
        case None => None
        case Some(p) => Some([0] + p)
      else Some([])
    else None
  }

  /** `last_atomic_gate_host`: the host list of the rightmost leaf, found by
      descending through last children; None when that descent meets an empty
      composite. */
  function LastAtomicGateHost(n: Node): (p: Option<seq<nat>>)
    requires n.Composite?
    ensures p.Some? ==> LastChain(n, p.value)
    ensures p.None? ==> forall path :: !LastChain(n, path)
    decreases n
  {
    var cs := n.children;
    if |cs| > 0 then
      if cs[|cs| - 1].Composite? then
        match LastAtomicGateHost(cs[|cs| - 1])
        case None => None
        case Some(p) => Some([|cs| - 1] + p)
      else Some([])
    else None
  }

  /** `del host[k]` where `host` is the list at the end of `path`. */
  function DeleteInHost(n: Node, path: seq<nat>, k: nat): (r: Node)
    requires ValidPath(n, path) && k < |HostAt(n, path).children|
    ensures r.Composite?
    decreases path
  {
    var cs := n.children;
    if path == [] then Composite(cs[..k] + cs[k + 1..])
    else Composite(cs[path[0] := DeleteInHost(cs[path[0]], path[1..], k)])
  }

  /** Deleting the leaf a first chain ends at removes the first gate of the circuit. */
  lemma {:induction false} DeleteFirstLeaf(n: Node, path: seq<nat>)
    requires FirstChain(n, path)
    ensures ValidPath(n, path) && |HostAt(n, path).children| > 0
    ensures Leaves(n) != [] && Leaves(DeleteInHost(n, path, 0)) == Leaves(n)[1..]
    decreases path
  {
    FirstChainValid(n, path);
    var cs := n.children;
    FlatSplit(cs, 0);
    var r := DeleteInHost(n, path, 0);
    if path == [] {
      assert r.children == cs[1..];
    } else {
      DeleteFirstLeaf(cs[0], path[1..]);
      var c' := DeleteInHost(cs[0], path[1..], 0);
      assert r.children == cs[0 := c'];
      FlatSplit(r.children, 0);
      assert r.children[1..] == cs[1..];
    }
  }

  /** Deleting the leaf a last chain ends at removes the last gate of the circuit. */
  lemma {:induction false} DeleteLastLeaf(n: Node, path: seq<nat>)
    requires LastChain(n, path)
    ensures ValidPath(n, path) && |HostAt(n, path).children| > 0
    ensures Leaves(n) != []
    ensures Leaves(DeleteInHost(n, path, |HostAt(n, path).children| - 1))
      == Leaves(n)[..|Leaves(n)| - 1]
    decreases path
  {
    LastChainValid(n, path);
    var cs := n.children;
    var m := |cs| - 1;
    FlatSplit(cs, m);
    assert cs[m + 1..] == [];
    var k := |HostAt(n, path).children| - 1;
    var r := DeleteInHost(n, path, k);
    if path == [] {
      assert r.children == cs[..m];
    } else {
      DeleteLastLeaf(cs[m], path[1..]);
      var c' := DeleteInHost(cs[m], path[1..], k);
      assert r.children == cs[m := c'];
      FlatSplit(r.children, m);
      assert r.children[..m] == cs[..m];
      assert r.children[m + 1..] == [];
    }
  }

  // ---------------------------------------------------------------------
  // Filters over gate sequences

  ghost function Rotations(s: seq<Gate>): (r: seq<Gate>)
  {
    if s == [] then []
    else (if s[0].Rotation? then [s[0]] else []) + Rotations(s[1..])
  }

  ghost function Cnots(s: seq<Gate>): (r: seq<Gate>)
  {
    if s == [] then []
    else (if s[0].Cx? then [s[0]] else []) + Cnots(s[1..])
  }

  /** The gates `remove_zero_rotations` keeps. */
  ghost function NonZero(s: seq<Gate>): (r: seq<Gate>)
  {
    if s == [] then []
    else (if IsZeroRotation(s[0]) then [] else [s[0]]) + NonZero(s[1..])
  }

  lemma {:induction false} RotationsAppend(a: seq<Gate>, b: seq<Gate>)
    ensures Rotations(a + b) == Rotations(a) + Rotations(b)
    decreases |a|
  {
    if a != [] {
      assert (a + b)[1..] == a[1..] + b;
      RotationsAppend(a[1..], b);
    } else {
      assert a + b == b;
    }
  }

  lemma {:induction false} CnotsAppend(a: seq<Gate>, b: seq<Gate>)
    ensures Cnots(a + b) == Cnots(a) + Cnots(b)
    decreases |a|
  {
    if a != [] {
      assert (a + b)[1..] == a[1..] + b;
      CnotsAppend(a[1..], b);
    } else {
      assert a + b == b;
    }
  }

  lemma {:induction false} NonZeroAppend(a: seq<Gate>, b: seq<Gate>)
    ensures NonZero(a + b) == NonZero(a) + NonZero(b)
    decreases |a|
  {
    if a != [] {
      assert (a + b)[1..] == a[1..] + b;
      NonZeroAppend(a[1..], b);
    } else {
      assert a + b == b;
    }
  }
}
