/** `remove_zero_rotations`: delete every rx/ry/rz leaf whose chopped angle is
    zero, and drop every nested composite that ends up with no children. */
module ZeroRotations {
  import opened GateTree

  /** The pass on one composite: its new child list and whether a rotation was
      deleted. Defined over the children from the back, in step with the loop
      that appends to `new_data`. */
  function StripZeros(n: Node): (r: (Node, bool))
    requires n.Composite?
    ensures r.0.Composite?
    decreases n, 1
  {
    var (cs, removed) := StripChildren(n.children);
    (Composite(cs), removed)
  }

  function StripChildren(cs: seq<Node>): (seq<Node>, bool)
    decreases cs, 0
  {
    if cs == [] then ([], false)
    else
      var (init, removed) := StripChildren(cs[..|cs| - 1]);
      var (kept, removedHere) := StripOne(cs[|cs| - 1]);
      (init + kept, removed || removedHere)
  }

  /** One iteration of the loop: what is appended to `new_data` for `gate`. */
  function StripOne(gate: Node): (seq<Node>, bool)
    decreases gate, 2
  {
    match gate
    case Composite(_) =>
      var (g, removed) := StripZeros(gate);
      (if g.children != [] then [g] else [], removed)
    case Leaf(g) =>
      if IsZeroRotation(g) then ([], true) else ([gate], false)
  }

  /** `remove_zero_rotations` with its loop over `self.data`. */
  method RemoveZeroRotations(n: Node) returns (r: Node, removed: bool)
    requires n.Composite?
    ensures (r, removed) == StripZeros(n)
    decreases n
  {
    var data := n.children;
    removed := false;
    var newData: seq<Node> := [];
    var k := 0;
    while k < |data|
      invariant 0 <= k <= |data|
      invariant (newData, removed) == StripChildren(data[..k])
    {
      var gate := data[k];
      assert data[..k + 1][..k] == data[..k] && data[..k + 1][k] == gate;
      assert StripChildren(data[..k + 1]) ==
        (StripChildren(data[..k]).0 + StripOne(gate).0, StripChildren(data[..k]).1 || StripOne(gate).1);
      if gate.Composite? {
        var g, b := RemoveZeroRotations(gate);
        assert StripOne(gate) == (if g.children != [] then [g] else [], b);
        removed := removed || b;
        if g.children != [] {
          newData := newData + [g];
        } else {
          assert newData + [] == newData;
        }
      } else if !IsZeroRotation(gate.gate) {
        newData := newData + [gate];
      } else {
        assert newData + [] == newData;
        removed := true;
      }
      k := k + 1;
    }
    assert data[..k] == data;
    r := Composite(newData);
  }

  // ---------------------------------------------------------------------
  // What the pass deletes

  /** The pass deletes exactly the zero rotations of the circuit and keeps every
      other gate in its original order. */
  lemma {:induction false} StripZerosLeaves(n: Node)
    requires n.Composite?
    ensures Leaves(StripZeros(n).0) == NonZero(Leaves(n))
    decreases n, 1
  {
    StripChildrenFlat(n.children);
  }

  lemma {:induction false} StripChildrenFlat(cs: seq<Node>)
    ensures Flat(StripChildren(cs).0) == NonZero(Flat(cs))
    decreases cs, 0
  {
    if cs != [] {
      var m := |cs| - 1;
      assert StripChildren(cs).0 == StripChildren(cs[..m]).0 + StripOne(cs[m]).0;
      StripChildrenFlat(cs[..m]);
      StripOneFlat(cs[m]);
      FlatAppend(StripChildren(cs[..m]).0, StripOne(cs[m]).0);
      FlatSplit(cs, m);
      assert cs[m + 1..] == [];
      assert Flat(cs) == Flat(cs[..m]) + Leaves(cs[m]);
      NonZeroAppend(Flat(cs[..m]), Leaves(cs[m]));
    }
  }

  lemma {:induction false} StripOneFlat(gate: Node)
    ensures Flat(StripOne(gate).0) == NonZero(Leaves(gate))
    decreases gate, 2
  {
    match gate
    case Composite(_) =>
      StripZerosLeaves(gate);
      var g := StripZeros(gate).0;
      if g.children != [] {
        FlatSingle(g);
      }
    case Leaf(x) =>
      assert NonZero([x]) == (if IsZeroRotation(x) then [] else [x]) + NonZero([]);
      if !IsZeroRotation(x) {
        FlatSingle(gate);
      }
  }

  lemma {:induction false} NonZeroLength(s: seq<Gate>)
    ensures |NonZero(s)| <= |s|
    ensures |NonZero(s)| == |s| <==> forall j :: 0 <= j < |s| ==> !IsZeroRotation(s[j])
    decreases |s|
  {
    if s != [] {
      NonZeroLength(s[1..]);
      if forall j :: 0 <= j < |s| ==> !IsZeroRotation(s[j]) {
        assert forall j :: 0 <= j < |s[1..]| ==> !IsZeroRotation(s[1..][j]) by {
          forall j | 0 <= j < |s[1..]| ensures !IsZeroRotation(s[1..][j]) {
            assert s[1..][j] == s[j + 1];
          }
        }
      } else {
        var j :| 0 <= j < |s| && IsZeroRotation(s[j]);
        if j > 0 {
          assert s[1..][j - 1] == s[j];
        }
      }
    }
  }

  /** The returned flag is true exactly when the circuit held a zero rotation,
      that is, exactly when the pass shortened the circuit. */
  lemma StripZerosFlag(n: Node)
    requires n.Composite?
    ensures StripZeros(n).1 <==> |Leaves(StripZeros(n).0)| < |Leaves(n)|
    ensures StripZeros(n).1 <==> exists j :: 0 <= j < |Leaves(n)| && IsZeroRotation(Leaves(n)[j])
  {
    StripZerosShorter(n);
    StripZerosLeaves(n);
    NonZeroLength(Leaves(n));
  }

  lemma {:induction false} StripZerosShorter(n: Node)
    requires n.Composite?
    ensures StripZeros(n).1 <==> |NonZero(Leaves(n))| < |Leaves(n)|
    decreases n, 1
  {
    StripChildrenShorter(n.children);
  }

  lemma {:induction false} StripChildrenShorter(cs: seq<Node>)
    ensures StripChildren(cs).1 <==> |NonZero(Flat(cs))| < |Flat(cs)|
    decreases cs, 0
  {
    if cs != [] {
      var m := |cs| - 1;
      assert StripChildren(cs).1 == (StripChildren(cs[..m]).1 || StripOne(cs[m]).1);
      StripChildrenShorter(cs[..m]);
      StripOneShorter(cs[m]);
      FlatSplit(cs, m);
      assert cs[m + 1..] == [];
      assert Flat(cs) == Flat(cs[..m]) + Leaves(cs[m]);
      NonZeroAppend(Flat(cs[..m]), Leaves(cs[m]));
      NonZeroLength(Flat(cs[..m]));
      NonZeroLength(Leaves(cs[m]));
    }
  }

  lemma {:induction false} StripOneShorter(gate: Node)
    ensures StripOne(gate).1 <==> |NonZero(Leaves(gate))| < |Leaves(gate)|
    decreases gate, 2
  {
    match gate
    case Composite(_) =>
      StripZerosShorter(gate);
    case Leaf(x) =>
      assert Leaves(gate) == [x];
      assert NonZero([x]) == (if IsZeroRotation(x) then [] else [x]) + NonZero([]);
  }

  // ---------------------------------------------------------------------
  // A second run changes nothing

  /** No zero rotation and no empty composite anywhere below the top. */
  ghost predicate Clean(n: Node)
    decreases n
  {
    match n
    case Leaf(g) => !IsZeroRotation(g)
    case Composite(cs) =>
      forall k :: 0 <= k < |cs| ==>
        Clean(cs[k]) && (cs[k].Composite? ==> cs[k].children != [])
  }

  /** The result of the pass is clean. */
  lemma {:induction false} StripZerosClean(n: Node)
    requires n.Composite?
    ensures Clean(StripZeros(n).0)
    decreases n, 1
  {
    StripChildrenClean(n.children);
  }

  lemma {:induction false} StripChildrenClean(cs: seq<Node>)
    ensures Clean(Composite(StripChildren(cs).0))
    decreases cs, 0
  {
    if cs != [] {
      var m := |cs| - 1;
      StripChildrenClean(cs[..m]);
      var gate := cs[m];
      if gate.Composite? {
        StripZerosClean(gate);
      }
    }
  }

  /** On a clean composite the pass returns it unchanged and reports nothing removed. */
  lemma {:induction false} StripZerosOfClean(n: Node)
    requires n.Composite? && Clean(n)
    ensures StripZeros(n) == (n, false)
    decreases n, 1
  {
    StripChildrenOfClean(n.children);
  }

  lemma {:induction false} StripChildrenOfClean(cs: seq<Node>)
    requires Clean(Composite(cs))
    ensures StripChildren(cs) == (cs, false)
    decreases cs, 0
  {
    if cs != [] {
      var m := |cs| - 1;
      assert Clean(Composite(cs[..m])) by {
        forall k | 0 <= k < m ensures Clean(cs[..m][k]) {
          assert cs[..m][k] == cs[k];
        }
      }
      StripChildrenOfClean(cs[..m]);
      if cs[m].Composite? {
        StripZerosOfClean(cs[m]);
      }
      assert cs[..m] + [cs[m]] == cs;
    }
  }

  /** An immediate second run returns False and changes nothing. */
  lemma StripZerosTwice(n: Node)
    requires n.Composite?
    ensures StripZeros(StripZeros(n).0) == (StripZeros(n).0, false)
  {
    StripZerosClean(n);
    StripZerosOfClean(StripZeros(n).0);
  }
}
