/** `reverse`: reverse the order of children at every level of a composite,
    leaving every gate as it is (this is not circuit inversion). */
module Reversal {
  import opened GateTree

  /** The tree with child order reversed at every level. */
  function Mirror(n: Node): Node
    decreases n, 1
  {
    match n
    case Leaf(_) => n
    case Composite(cs) => Composite(MirrorChildren(cs))
  }

  function MirrorChildren(cs: seq<Node>): seq<Node>
    decreases cs, 0
  {
    seq(|cs|, k requires 0 <= k < |cs| => Mirror(cs[|cs| - 1 - k]))
  }

  ghost function Rev<T>(s: seq<T>): (r: seq<T>)
  {
    if s == [] then [] else Rev(s[1..]) + [s[0]]
  }

  lemma {:induction false} RevAppend<T>(a: seq<T>, b: seq<T>)
    ensures Rev(a + b) == Rev(b) + Rev(a)
    decreases |a|
  {
    if a == [] {
      assert a + b == b;
    } else {
      assert (a + b)[1..] == a[1..] + b;
      RevAppend(a[1..], b);
    }
  }

  lemma {:induction false} RevLength<T>(s: seq<T>)
    ensures |Rev(s)| == |s|
    decreases |s|
  {
    if s != [] {
      RevLength(s[1..]);
    }
  }

  /** `reverse` on one composite: the loop over `reversed(self.data)` builds the
      new child list, reversing nested composites and keeping leaves. */
  method Reverse(n: Node) returns (r: Node)
    requires n.Composite?
    ensures r == Mirror(n)
    decreases n
  {
    var data := n.children;
    var newData: seq<Node> := [];
    var k := |data|;
    while k > 0
      invariant 0 <= k <= |data|
      invariant |newData| == |data| - k
      invariant forall j :: 0 <= j < |newData| ==> newData[j] == Mirror(data[|data| - 1 - j])
    {
      k := k - 1;
      var gate := data[k];
      if gate.Composite? {
        var g := Reverse(gate);
        newData := newData + [g];
      } else {
        newData := newData + [gate];
      }
    }
    r := Composite(newData);
  }

  /** The flattened circuit of the reversed tree is the original circuit backwards:
      the same gates, none altered, in reverse order. */
  lemma {:induction false} MirrorLeaves(n: Node)
    ensures Leaves(Mirror(n)) == Rev(Leaves(n))
    decreases n, 1
  {
    match n
    case Leaf(g) =>
      assert Rev([g]) == Rev([g][1..]) + [g];
    case Composite(cs) =>
      MirrorFlat(cs);
  }

  lemma {:induction false} MirrorFlat(cs: seq<Node>)
    ensures Flat(MirrorChildren(cs)) == Rev(Flat(cs))
    decreases cs, 0
  {
    if cs != [] {
      var c := cs[0];
      assert MirrorChildren(cs) == MirrorChildren(cs[1..]) + [Mirror(c)];
      MirrorFlat(cs[1..]);
      MirrorLeaves(c);
      FlatAppend(MirrorChildren(cs[1..]), [Mirror(c)]);
      FlatSingle(Mirror(c));
      RevAppend(Leaves(c), Flat(cs[1..]));
    }
  }

  /** Reversing twice restores the original tree. */
  lemma {:induction false} MirrorInvolution(n: Node)
    ensures Mirror(Mirror(n)) == n
    decreases n
  {
    match n
    case Leaf(_) =>
    case Composite(cs) =>
      var mc := MirrorChildren(cs);
      var mm := MirrorChildren(mc);
      assert Mirror(Mirror(n)) == Composite(mm);
      forall k | 0 <= k < |cs|
        ensures mm[k] == cs[k]
      {
        assert mc[|cs| - 1 - k] == Mirror(cs[k]);
        MirrorInvolution(cs[k]);
      }
      assert mm == cs;
  }

  /** Reversal keeps `number_atomic_gates`. */
  lemma MirrorCount(n: Node)
    requires n.Composite?
    ensures Mirror(n).Composite?
    ensures NumberAtomicGates(Mirror(n)) == NumberAtomicGates(n)
  {
    MirrorLeaves(n);
    RevLength(Leaves(n));
  }

  /** Reversing a gate sequence keeps its members and the number of rotations
      and of cx gates. */
  lemma {:induction false} RevKeeps(s: seq<Gate>)
    ensures forall g :: g in Rev(s) <==> g in s
    ensures |Rotations(Rev(s))| == |Rotations(s)|
    ensures |Cnots(Rev(s))| == |Cnots(s)|
    decreases |s|
  {
    if s != [] {
      RevKeeps(s[1..]);
      assert s == [s[0]] + s[1..];
      RotationsAppend([s[0]], s[1..]);
      CnotsAppend([s[0]], s[1..]);
      RotationsAppend(Rev(s[1..]), [s[0]]);
      CnotsAppend(Rev(s[1..]), [s[0]]);
    }
  }
}
