/** What `remove_zero_rotations` leaves of the multiplexors the initializer
    attaches. Every composite a multiplexor holds contains a cx, so the pass
    never empties one; only rotation leaves disappear. Two cx leaves can then
    meet in one list only when the single-control multiplexor with a trailing
    cx loses its second rotation, and they are then its last two entries. */
module StrippedShape {
  import opened GateTree
  import opened ZeroRotations
  import opened NoOverrun
  import opened Multiplexor

  lemma {:induction false} StripChildrenAppend(a: seq<Node>, b: seq<Node>)
    ensures StripChildren(a + b).0 == StripChildren(a).0 + StripChildren(b).0
    decreases |b|
  {
    if b == [] {
      assert a + b == a;
    } else {
      var m := |b| - 1;
      assert (a + b)[..|a + b| - 1] == a + b[..m];
      assert (a + b)[|a + b| - 1] == b[m];
      StripChildrenAppend(a, b[..m]);
    }
  }

  lemma StripChildrenSingle(x: Node)
    ensures StripChildren([x]).0 == StripOne(x).0
  {
    assert [x][..0] == [];
  }

  /** A stripped inner multiplexor with k >= 1 control qubits is one non-empty
      tidy composite; with k = 0 it is its rotation or nothing. */
  lemma {:induction false} StripOneShaped(x: Node, k: nat, trailing: bool)
    requires Shaped(x, k, trailing)
    ensures var r := StripOne(x).0;
      && |r| <= 1
      && (k >= 1 ==> |r| == 1 && r[0].Composite? && Tidy(r[0]))
      && (k == 0 ==> forall y :: y in r ==> IsOtherLeaf(y))
    decreases k, 1
  {
    if k >= 1 {
      StripShaped(x, k, trailing);
    }
  }

  /** Stripping the zero rotations of a multiplexor with k >= 1 control qubits
      leaves a non-empty tidy composite. */
  lemma {:induction false} StripShaped(n: Node, k: nat, trailing: bool)
    requires Shaped(n, k, trailing) && k >= 1
    ensures StripZeros(n).0.children != [] && Tidy(StripZeros(n).0)
    decreases k, 0
  {
    var cs := n.children;
    var tail := cs[3..];
    assert cs == [cs[0], cs[1], cs[2]] + tail;
    assert tail == [] || tail == [cs[1]];
    StripOneShaped(cs[0], k - 1, false);
    StripOneShaped(cs[2], k - 1, false);
    var sx, sy := StripOne(cs[0]).0, StripOne(cs[2]).0;
    var c := cs[1];
    assert StripOne(c).0 == [c];
    assert StripChildren(tail).0 == tail by {
      if tail != [] {
        StripChildrenSingle(c);
      }
    }
    assert [cs[0], cs[1], cs[2]] == [cs[0], cs[1]] + [cs[2]];
    assert [cs[0], cs[1]] == [cs[0]] + [cs[1]];
    StripChildrenAppend([cs[0], cs[1], cs[2]], tail);
    StripChildrenAppend([cs[0], cs[1]], [cs[2]]);
    StripChildrenAppend([cs[0]], [cs[1]]);
    StripChildrenSingle(cs[0]);
    StripChildrenSingle(cs[1]);
    StripChildrenSingle(cs[2]);
    var r := sx + [c] + sy + tail;
    assert StripZeros(n).0.children == r;
    StripListTidy(sx, c, sy, tail, k);
  }

  /** The list [low, cx, high] or [low, cx, high, cx] after stripping is tidy. */
  lemma StripListTidy(sx: seq<Node>, c: Node, sy: seq<Node>, tail: seq<Node>, k: nat)
    requires IsCxLeaf(c) && (tail == [] || tail == [c]) && k >= 1
    requires |sx| <= 1 && |sy| <= 1
    requires k >= 2 ==> |sx| == 1 && sx[0].Composite? && Tidy(sx[0])
    requires k >= 2 ==> |sy| == 1 && sy[0].Composite? && Tidy(sy[0])
    requires k == 1 ==> (forall y :: y in sx ==> IsOtherLeaf(y)) && (forall y :: y in sy ==> IsOtherLeaf(y))
    ensures TidyList(sx + [c] + sy + tail) && AllTidy(sx + [c] + sy + tail)
  {
    var r := sx + [c] + sy + tail;
    var p := |sx|;
    assert r[p] == c;
    assert sx != [] ==> r[0] == sx[0] && sx[0] in sx;
    assert sy != [] ==> r[p + 1] == sy[0] && sy[0] in sy;
    assert forall i :: p + |sy| < i < |r| ==> r[i] == c;
    forall j | 0 <= j < |r| - 1 && IsCxLeaf(r[j]) && IsCxLeaf(r[j + 1])
      ensures j + 2 == |r| && (j == 0 || IsOtherLeaf(r[j - 1]))
    {
      assert j == p;
    }
  }

  // ---------------------------------------------------------------------
  // The top-level list the initializer builds

  /** One entry of `self.data` as `gates_to_uncompute` attaches it: a
      multiplexor that keeps its trailing cx (a bare rotation when it has no
      control qubit). */
  ghost predicate Block(n: Node) {
    exists k: nat :: Shaped(n, k, true)
  }

  /** Stripping a list of blocks leaves tidy entries, none of them a cx leaf. */
  lemma {:induction false} StripBlocks(cs: seq<Node>)
    requires forall i :: 0 <= i < |cs| ==> Block(cs[i])
    ensures forall y :: y in StripChildren(cs).0 ==> Tidy(y) && !IsCxLeaf(y)
    decreases |cs|
  {
    if cs != [] {
      var m := |cs| - 1;
      StripBlocks(cs[..m]);
      var k: nat :| Shaped(cs[m], k, true);
      StripOneShaped(cs[m], k, true);
    }
  }

  /** After `remove_zero_rotations` the tree `gates_to_uncompute` built is tidy,
      so no later `remove_double_cnots_once` raises IndexError on it. */
  lemma StripBlocksTidy(cs: seq<Node>)
    requires forall i :: 0 <= i < |cs| ==> Block(cs[i])
    ensures Tidy(StripZeros(Composite(cs)).0)
  {
    StripBlocks(cs);
    var r := StripChildren(cs).0;
    assert forall i :: 0 <= i < |r| ==> r[i] in r;
  }
}
