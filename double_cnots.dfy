/** `remove_double_cnots_once`: one right-to-left sweep over a composite that
    deletes two cx gates meeting across a child boundary when they act on the
    same (control, target) pair. The gate on each side of a boundary is found
    with the edge finders, so a pair may sit in nested host lists. */
module DoubleCnots {
  import opened GateTree

  /** Where the gate on one side of a boundary lives: in the list being swept
      (`self.data`, at index i or i + 1) or in a host list reached by a path
      inside that child. */
  datatype Site = InSelf | InChild(path: seq<nat>)

  /** The result of one pass: the rewritten composite and the returned flag, or
      the IndexError that `self.data[i + 1]` raises once deletions have
      shortened the list below the index range fixed before the loop. */
  datatype Outcome = Done(node: Node, removed: bool) | IndexError

  /** The gate just left of the boundary after child c: c itself when it is a
      leaf, else the last leaf reached through `last_atomic_gate_host`. */
  function LeftEdge(c: Node): (e: Option<(Site, Gate)>)
    ensures e.Some? && e.value.0.InSelf? ==> c.Leaf? && e.value.1 == c.gate
    ensures e.Some? && e.value.0.InChild? ==>
      c.Composite? && LastChain(c, e.value.0.path) &&
      Leaves(c) != [] && Leaves(c)[|Leaves(c)| - 1] == e.value.1
    ensures c.Leaf? ==> e.Some? && e.value.0.InSelf?
    ensures c.Composite? ==> (e.Some? <==> LastAtomicGateHost(c).Some?)
  {
    if c.Leaf? then Some((InSelf, c.gate))
    else
      match LastAtomicGateHost(c)
      case None => None
      case Some(p) =>
        LastChainValid(c, p);
        var h := HostAt(c, p);
        Some((InChild(p), h.children[|h.children| - 1].gate))
  }

  /** The gate just right of the boundary before child c: c itself when it is a
      leaf, else the first leaf reached through `first_atomic_gate_host`. */
  function RightEdge(c: Node): (e: Option<(Site, Gate)>)
    ensures e.Some? && e.value.0.InSelf? ==> c.Leaf? && e.value.1 == c.gate
    ensures e.Some? && e.value.0.InChild? ==>
      c.Composite? && FirstChain(c, e.value.0.path) &&
      Leaves(c) != [] && Leaves(c)[0] == e.value.1
    ensures c.Leaf? ==> e.Some? && e.value.0.InSelf?
    ensures c.Composite? ==> (e.Some? <==> FirstAtomicGateHost(c).Some?)
  {
    if c.Leaf? then Some((InSelf, c.gate))
    else
      match FirstAtomicGateHost(c)
      case None => None
      case Some(p) =>
        FirstChainValid(c, p);
        Some((InChild(p), HostAt(c, p).children[0].gate))
  }

  /** Sites that really hold the edge gates of children i and i + 1. */
  ghost predicate SitesFit(cs: seq<Node>, i: nat, ls: Site, rs: Site)
  {
    i + 1 < |cs| &&
    (ls.InSelf? ==> cs[i].Leaf?) && (ls.InChild? ==> LastChain(cs[i], ls.path)) &&
    (rs.InSelf? ==> cs[i + 1].Leaf?) && (rs.InChild? ==> FirstChain(cs[i + 1], rs.path))
  }

  /** `del right_gate_host[right_gate_index]` followed by
      `del left_gate_host[left_gate_index]`. */
  function Cancel(cs: seq<Node>, i: nat, ls: Site, rs: Site): (r: seq<Node>)
    requires SitesFit(cs, i, ls, rs)
    ensures i <= |r| && forall k :: 0 <= k < i ==> r[k] == cs[k]
  {
    var cs1 := (
      match rs
      case InSelf => cs[..i + 1] + cs[i + 2..]
      case InChild(p) =>
        FirstChainValid(cs[i + 1], p);
        cs[i + 1 := DeleteInHost(cs[i + 1], p, 0)]);
    assert cs1[i] == cs[i];
    match ls
    case InSelf => cs1[..i] + cs1[i + 1..]
    case InChild(p) =>
      LastChainValid(cs1[i], p);
      cs1[i := DeleteInHost(cs1[i], p, |HostAt(cs1[i], p).children| - 1)]
  }

  /** One pass over a composite (the body of `remove_double_cnots_once`). */
  function CancelPass(n: Node): Outcome
    requires n.Composite?
    decreases n, 1, 0
  {
    var cs := n.children;
    if |cs| == 0 then Done(n, false)
    else if |cs| == 1 && cs[0].Composite? then
      match CancelPass(cs[0])
      case IndexError => IndexError
      case Done(c, r) => Done(Composite([c]), r)
    else if cs[|cs| - 1].Composite? then
      match CancelPass(cs[|cs| - 1])
      case IndexError => IndexError
      case Done(c, r) => Sweep(n, cs[|cs| - 1 := c], |cs| - 2, r)
    else Sweep(n, cs, |cs| - 2, false)
  }

  /** The descending loop from index i down to 0, over the current list cs of
      `parent`; entries 0..i are still the parent's original children. */
  function Sweep(parent: Node, cs: seq<Node>, i: int, removed: bool): Outcome
    requires parent.Composite?
    requires -1 <= i < |cs| && i < |parent.children|
    requires forall k :: 0 <= k <= i ==> cs[k] == parent.children[k]
    decreases parent, 0, i + 1
  {
    if i < 0 then Done(Composite(cs), removed)
    else
      var step :=
        if cs[i].Composite? && !removed then CancelPass(parent.children[i])
        else Done(cs[i], removed);
      match step
      case IndexError => IndexError
      case Done(ci, removed') =>
        match Boundary(cs[i := ci], i, removed')
        case None => IndexError
        case Some((next, flag)) => Sweep(parent, next, i - 1, flag)
  }

  /** The test at the boundary between children i and i + 1, once child i has
      been handled: the list and flag after a possible cancellation, or None
      when `self.data[i + 1]` is read past the end of the list. */
  function Boundary(cs: seq<Node>, i: nat, removed: bool): (r: Option<(seq<Node>, bool)>)
    requires i < |cs|
    ensures r.Some? ==> i <= |r.value.0| && forall k :: 0 <= k < i ==> r.value.0[k] == cs[k]
  {
    match LeftEdge(cs[i])
    case None => Some((cs, removed))
    case Some((ls, lg)) =>
      if !lg.Cx? then Some((cs, removed))
      else if i + 1 >= |cs| then None
      else
        match RightEdge(cs[i + 1])
        case None => Some((cs, removed))
        case Some((rs, rg)) =>
          if rg.Cx? && rg == lg then Some((Cancel(cs, i, ls, rs), true))
          else Some((cs, removed))
  }

  /** `remove_double_cnots_once`, with its descending index loop. The range of
      indices is fixed before the loop, as in the source. */
  method RemoveDoubleCnotsOnce(n: Node) returns (out: Outcome)
    requires n.Composite?
    ensures out == CancelPass(n)
    decreases n, 1
  {
    var data := n.children;
    var numHighLevelGates := |data|;
    if numHighLevelGates == 0 {
      return Done(n, false);
    } else if numHighLevelGates == 1 && data[0].Composite? {
      var sub := RemoveDoubleCnotsOnce(data[0]);
      if sub.IndexError? {
        return IndexError;
      }
      return Done(Composite([sub.node]), sub.removed);
    }

    var doubleCnotRemoved := false;
    if data[numHighLevelGates - 1].Composite? {
      var sub := RemoveDoubleCnotsOnce(data[numHighLevelGates - 1]);
      if sub.IndexError? {
        return IndexError;
      }
      data := data[numHighLevelGates - 1 := sub.node];
      doubleCnotRemoved := sub.removed;
    }

    var i := numHighLevelGates - 2;
    while i >= 0
      invariant -1 <= i < |data| && i < |n.children|
      invariant forall k :: 0 <= k <= i ==> data[k] == n.children[k]
      invariant Sweep(n, data, i, doubleCnotRemoved) == CancelPass(n)
      decreases i + 1
    {
      var step := VisitChild(data, i, doubleCnotRemoved);
      if step.IndexError? {
        return IndexError;
      }
      var next := CheckBoundary(data[i := step.node], i, step.removed);
      if next.None? {
        return IndexError;
      }
      SweepUnfold(n, data, i, doubleCnotRemoved, step.node, step.removed, next.value.0, next.value.1);
      data, doubleCnotRemoved := next.value.0, next.value.1;
      i := i - 1;
    }
    return Done(Composite(data), doubleCnotRemoved);
  }

  /** The first half of the loop body: recurse into child i when it is a
      composite and nothing has been deleted yet. */
  method VisitChild(data: seq<Node>, i: nat, removed: bool) returns (step: Outcome)
    requires i < |data|
    ensures step == if data[i].Composite? && !removed then CancelPass(data[i]) else Done(data[i], removed)
    decreases data[i], 2
  {
    if data[i].Composite? && !removed {
      step := RemoveDoubleCnotsOnce(data[i]);
    } else {
      step := Done(data[i], removed);
    }
  }

  /** One turn of the sweep: handling child i and then its boundary. */
  lemma SweepUnfold(parent: Node, cs: seq<Node>, i: nat, removed: bool, ci: Node, r: bool, next: seq<Node>, flag: bool)
    requires parent.Composite? && i < |cs| && i < |parent.children|
    requires forall k :: 0 <= k <= i ==> cs[k] == parent.children[k]
    requires (if cs[i].Composite? && !removed then CancelPass(parent.children[i]) else Done(cs[i], removed)) == Done(ci, r)
    requires Boundary(cs[i := ci], i, r) == Some((next, flag))
    ensures i - 1 < |next| && forall k :: 0 <= k <= i - 1 ==> next[k] == parent.children[k]
    ensures Sweep(parent, cs, i, removed) == Sweep(parent, next, i - 1, flag)
  {
  }

  /** The second half of the loop body: compare the gate left of the boundary
      after child i with the gate right of it and delete both when they are
      the same cx; None where `self.data[i + 1]` raises IndexError. */
  method CheckBoundary(data: seq<Node>, i: nat, removed: bool) returns (r: Option<(seq<Node>, bool)>)
    requires i < |data|
    ensures r == Boundary(data, i, removed)
  {
    var left := LeftEdge(data[i]);
    if left.Some? && left.value.1.Cx? {
      if i + 1 >= |data| {
        return None;
      }
      var right := RightEdge(data[i + 1]);
      if right.Some? && right.value.1.Cx? && right.value.1 == left.value.1 {
        return Some((Cancel(data, i, left.value.0, right.value.0), true));
      }
    }
    return Some((data, removed));
  }

  // ---------------------------------------------------------------------
  // Cancelling two adjacent identical cx gates of the flattened circuit

  predicate CancelsAt(s: seq<Gate>, j: int) {
    0 <= j < |s| - 1 && s[j].Cx? && s[j] == s[j + 1]
  }

  ghost function Cut(s: seq<Gate>, j: int): (r: seq<Gate>)
    requires 0 <= j < |s| - 1
    ensures |r| == |s| - 2
  {
    s[..j] + s[j + 2..]
  }

  /** t arises from s by deleting, zero or more times, two adjacent identical cx
      gates (a cx followed by the same cx is the identity). */
  ghost predicate Reduces(s: seq<Gate>, t: seq<Gate>)
    decreases |s|
  {
    s == t || exists j :: CancelsAt(s, j) && Reduces(Cut(s, j), t)
  }

  lemma ReducesStep(s: seq<Gate>, j: int)
    requires CancelsAt(s, j)
    ensures Reduces(s, Cut(s, j))
  {
    assert Reduces(Cut(s, j), Cut(s, j));
  }

  lemma {:induction false} ReducesTrans(a: seq<Gate>, b: seq<Gate>, c: seq<Gate>)
    requires Reduces(a, b) && Reduces(b, c)
    ensures Reduces(a, c)
    decreases |a|
  {
    if a != b {
      var j :| CancelsAt(a, j) && Reduces(Cut(a, j), b);
      ReducesTrans(Cut(a, j), b, c);
    }
  }

  /** Cancellations inside a stretch of the circuit are cancellations of the whole. */
  lemma {:induction false} ReducesFrame(p: seq<Gate>, s: seq<Gate>, t: seq<Gate>, q: seq<Gate>)
    requires Reduces(s, t)
    ensures Reduces(p + s + q, p + t + q)
    decreases |s|
  {
    if s != t {
      var j :| CancelsAt(s, j) && Reduces(Cut(s, j), t);
      ReducesFrame(p, Cut(s, j), t, q);
      CutFrame(p, s, q, j);
      var k := |p| + j;
      assert CancelsAt(p + s + q, k) && Reduces(Cut(p + s + q, k), p + t + q);
    }
  }

  /** A cancellation inside s is the cancellation at the shifted index of p + s + q. */
  lemma CutFrame(p: seq<Gate>, s: seq<Gate>, q: seq<Gate>, j: int)
    requires CancelsAt(s, j)
    ensures CancelsAt(p + s + q, |p| + j) && Cut(p + s + q, |p| + j) == p + Cut(s, j) + q
  {
    var big := p + s + q;
    assert big[|p| + j] == s[j] && big[|p| + j + 1] == s[j + 1];
    assert big[..|p| + j] == p + s[..j];
    assert big[|p| + j + 2..] == s[j + 2..] + q;
  }

  /** Every cancellation shortens the circuit by two gates. */
  lemma {:induction false} ReducesLength(s: seq<Gate>, t: seq<Gate>)
    requires Reduces(s, t)
    ensures |t| <= |s|
    ensures s != t ==> |t| + 2 <= |s|
    decreases |s|
  {
    if s != t {
      var j :| CancelsAt(s, j) && Reduces(Cut(s, j), t);
      ReducesLength(Cut(s, j), t);
    }
  }

  /** Cancellation removes only cx gates: the rotations, in order, are untouched. */
  lemma {:induction false} ReducesRotations(s: seq<Gate>, t: seq<Gate>)
    requires Reduces(s, t)
    ensures Rotations(t) == Rotations(s)
    decreases |s|
  {
    if s != t {
      var j :| CancelsAt(s, j) && Reduces(Cut(s, j), t);
      ReducesRotations(Cut(s, j), t);
      var pre, pair, post := s[..j], [s[j], s[j + 1]], s[j + 2..];
      SplitPair(s, j);
      RotationsAppend(pre + pair, post);
      RotationsAppend(pre, pair);
      RotationsAppend(pre, post);
      RotationsCxPair(s[j], s[j + 1]);
    }
  }

  lemma SplitPair<T>(s: seq<T>, j: int)
    requires 0 <= j < |s| - 1
    ensures s == s[..j] + [s[j], s[j + 1]] + s[j + 2..]
  {
  }

  /** Two cx gates hold no rotation. */
  lemma RotationsCxPair(a: Gate, b: Gate)
    requires a.Cx? && b.Cx?
    ensures Rotations([a, b]) == []
  {
    var pair := [a, b];
    assert pair[1..] == [b] && [b][1..] == [];
    assert Rotations([b]) == [] + Rotations([]);
    assert Rotations(pair) == [] + Rotations([b]);
  }

  // ---------------------------------------------------------------------
  // One deletion of the pass is one cancellation

  /** What remains of child i once its edge gate is deleted. */
  ghost function LeftRest(c: Node, ls: Site): seq<Node>
    requires ls.InSelf? ==> c.Leaf?
    requires ls.InChild? ==> LastChain(c, ls.path)
  {
    match ls
    case InSelf => []
    case InChild(p) =>
      LastChainValid(c, p);
      [DeleteInHost(c, p, |HostAt(c, p).children| - 1)]
  }

  /** What remains of child i + 1 once its edge gate is deleted. */
  ghost function RightRest(c: Node, rs: Site): seq<Node>
    requires rs.InSelf? ==> c.Leaf?
    requires rs.InChild? ==> FirstChain(c, rs.path)
  {
    match rs
    case InSelf => []
    case InChild(p) =>
      FirstChainValid(c, p);
      [DeleteInHost(c, p, 0)]
  }

  lemma LeftRestFlat(c: Node, ls: Site)
    requires ls.InSelf? ==> c.Leaf?
    requires ls.InChild? ==> LastChain(c, ls.path)
    ensures Leaves(c) != [] && Flat(LeftRest(c, ls)) == Leaves(c)[..|Leaves(c)| - 1]
  {
    match ls
    case InSelf =>
    case InChild(p) =>
      DeleteLastLeaf(c, p);
      FlatSingle(LeftRest(c, ls)[0]);
  }

  lemma RightRestFlat(c: Node, rs: Site)
    requires rs.InSelf? ==> c.Leaf?
    requires rs.InChild? ==> FirstChain(c, rs.path)
    ensures Leaves(c) != [] && Flat(RightRest(c, rs)) == Leaves(c)[1..]
  {
    match rs
    case InSelf =>
    case InChild(p) =>
      DeleteFirstLeaf(c, p);
      FlatSingle(RightRest(c, rs)[0]);
  }

  lemma CancelSplit(cs: seq<Node>, i: nat, ls: Site, rs: Site)
    requires SitesFit(cs, i, ls, rs)
    ensures Cancel(cs, i, ls, rs) ==
      cs[..i] + LeftRest(cs[i], ls) + RightRest(cs[i + 1], rs) + cs[i + 2..]
  {
  }

  lemma FlatPair(cs: seq<Node>, i: nat)
    requires i + 1 < |cs|
    ensures Flat(cs) == Flat(cs[..i]) + Leaves(cs[i]) + Leaves(cs[i + 1]) + Flat(cs[i + 2..])
  {
    FlatSplit(cs, i + 1);
    TakeSnoc(cs, i);
    FlatAppend(cs[..i], [cs[i]]);
    FlatSingle(cs[i]);
  }

  lemma TakeSnoc<T>(s: seq<T>, i: nat)
    requires i < |s|
    ensures s[..i + 1] == s[..i] + [s[i]]
  {
  }

  lemma CancelFlat(cs: seq<Node>, i: nat, ls: Site, rs: Site)
    requires SitesFit(cs, i, ls, rs)
    ensures Flat(Cancel(cs, i, ls, rs)) ==
      Flat(cs[..i]) + Flat(LeftRest(cs[i], ls)) + Flat(RightRest(cs[i + 1], rs)) + Flat(cs[i + 2..])
  {
    var lr, rr := LeftRest(cs[i], ls), RightRest(cs[i + 1], rs);
    CancelSplit(cs, i, ls, rs);
    FlatAppend(cs[..i] + lr + rr, cs[i + 2..]);
    FlatAppend(cs[..i] + lr, rr);
    FlatAppend(cs[..i], lr);
  }

  /** Deleting the last gate of one stretch and the first of the next, when the
      two are the same cx, is one cancellation. */
  lemma SeamReduces(p: seq<Gate>, lc: seq<Gate>, rc: seq<Gate>, q: seq<Gate>)
    requires lc != [] && rc != [] && lc[|lc| - 1].Cx? && lc[|lc| - 1] == rc[0]
    ensures Reduces(p + lc + rc + q, p + lc[..|lc| - 1] + rc[1..] + q)
  {
    var a := p + lc[..|lc| - 1];
    var b := rc[1..] + q;
    var s := p + lc + rc + q;
    assert lc == lc[..|lc| - 1] + [lc[|lc| - 1]];
    assert rc == [rc[0]] + rc[1..];
    assert s == a + [rc[0], rc[0]] + b;
    assert CancelsAt(s, |a|);
    assert Cut(s, |a|) == a + b;
    ReducesStep(s, |a|);
  }

  /** The deletion made for a matching boundary cancels one adjacent identical
      cx pair of the flattened circuit. */
  lemma CancelReduces(cs: seq<Node>, i: nat, ls: Site, rs: Site)
    requires i + 1 < |cs| && LeftEdge(cs[i]).Some? && RightEdge(cs[i + 1]).Some?
    requires ls == LeftEdge(cs[i]).value.0 && rs == RightEdge(cs[i + 1]).value.0
    requires LeftEdge(cs[i]).value.1.Cx? && RightEdge(cs[i + 1]).value.1 == LeftEdge(cs[i]).value.1
    ensures SitesFit(cs, i, ls, rs)
    ensures Reduces(Flat(cs), Flat(Cancel(cs, i, ls, rs)))
    ensures |Flat(Cancel(cs, i, ls, rs))| + 2 == |Flat(cs)|
  {
    var lc, rc := Leaves(cs[i]), Leaves(cs[i + 1]);
    FlatPair(cs, i);
    LeftRestFlat(cs[i], ls);
    RightRestFlat(cs[i + 1], rs);
    CancelFlat(cs, i, ls, rs);
    SeamReduces(Flat(cs[..i]), lc, rc, Flat(cs[i + 2..]));
  }

  /** Rewriting one child by cancellations is a rewrite of the whole list. */
  lemma ReplaceChildReduces(cs: seq<Node>, i: nat, c: Node)
    requires i < |cs| && Reduces(Leaves(cs[i]), Leaves(c))
    ensures Reduces(Flat(cs), Flat(cs[i := c]))
    ensures |Flat(cs[i := c])| - |Leaves(c)| == |Flat(cs)| - |Leaves(cs[i])|
  {
    FlatSplit(cs, i);
    FlatSplit(cs[i := c], i);
    assert cs[i := c][..i] == cs[..i] && cs[i := c][i + 1..] == cs[i + 1..];
    ReducesFrame(Flat(cs[..i]), Leaves(cs[i]), Leaves(c), Flat(cs[i + 1..]));
  }

  // ---------------------------------------------------------------------
  // What one pass does

  /** What a pass that does not raise promises about its result, starting from
      the gates s: it only cancels adjacent identical cx pairs, the returned flag
      is true when it deleted something (then at least two gates are gone), and
      it reports False only when the list is unchanged. */
  ghost predicate Faithful(s: seq<Gate>, start: seq<Node>, wasRemoved: bool, o: Outcome)
  {
    o.Done? ==>
      && o.node.Composite?
      && Rewrites(s, start, wasRemoved, o.node.children, o.removed)
  }

  /** The same promise for one list rewritten into another. */
  ghost predicate Rewrites(s: seq<Gate>, start: seq<Node>, wasRemoved: bool, cs: seq<Node>, removed: bool)
  {
    && Reduces(s, Flat(cs))
    && (wasRemoved ==> removed)
    && (removed && !wasRemoved ==> |Flat(cs)| + 2 <= |s|)
    && (!removed ==> cs == start)
  }

  /** The gates on the two sides of the boundary after child i are the same
      cx gate. */
  ghost predicate EqualCxAt(cs: seq<Node>, i: nat)
    requires i + 1 < |cs|
  {
    && LeftEdge(cs[i]).Some? && LeftEdge(cs[i]).value.1.Cx?
    && RightEdge(cs[i + 1]).Some? && RightEdge(cs[i + 1]).value.1 == LeftEdge(cs[i]).value.1
  }

  /** The boundary test only ever cancels, and it cancels exactly when the two
      edge gates are the same cx gate: then the flag is set and two gates are
      gone; otherwise list and flag are left as they were. */
  lemma BoundaryReduces(cs: seq<Node>, i: nat, removed: bool)
    requires i < |cs|
    ensures var b := Boundary(cs, i, removed);
      b.Some? ==> Rewrites(Flat(cs), cs, removed, b.value.0, b.value.1)
    ensures var b := Boundary(cs, i, removed);
      i + 1 < |cs| && EqualCxAt(cs, i) ==> b.Some? && b.value.1 && |Flat(b.value.0)| + 2 == |Flat(cs)|
    ensures i + 1 < |cs| && !EqualCxAt(cs, i) ==> Boundary(cs, i, removed) == Some((cs, removed))
  {
    var left := LeftEdge(cs[i]);
    if left.Some? && left.value.1.Cx? && i + 1 < |cs| {
      var right := RightEdge(cs[i + 1]);
      if right.Some? && right.value.1 == left.value.1 {
        CancelReduces(cs, i, left.value.0, right.value.0);
        return;
      }
    }
  }

  /** A pass over a composite that does not raise only cancels adjacent
      identical cx pairs of the flattened circuit; it returns True exactly when
      it deleted something, and then the circuit is at least two gates shorter. */
  lemma {:induction false} CancelPassReduces(n: Node)
    requires n.Composite?
    ensures Faithful(Leaves(n), n.children, false, CancelPass(n))
    decreases n, 2
  {
    var cs := n.children;
    if |cs| == 0 {
    } else if |cs| == 1 && cs[0].Composite? {
      CancelPassReduces(cs[0]);
      FlatSingle(cs[0]);
      if CancelPass(cs[0]).Done? {
        FlatSingle(CancelPass(cs[0]).node);
        assert [cs[0]] == cs;
      }
    } else if cs[|cs| - 1].Composite? {
      LastChildReduces(n);
    } else {
      SweepReduces(n, cs, |cs| - 2, false);
    }
  }

  lemma {:induction false} LastChildReduces(n: Node)
    requires n.Composite? && |n.children| > 0 && n.children[|n.children| - 1].Composite?
    requires !(|n.children| == 1 && n.children[0].Composite?)
    ensures Faithful(Leaves(n), n.children, false, CancelPass(n))
    decreases n, 1
  {
    var cs := n.children;
    var m := |cs| - 1;
    CancelPassReduces(cs[m]);
    var sub := CancelPass(cs[m]);
    if sub.Done? {
      var cs' := cs[m := sub.node];
      ReplaceChildReduces(cs, m, sub.node);
      ReducesLength(Leaves(cs[m]), Leaves(sub.node));
      SweepReduces(n, cs', m - 1, sub.removed);
      var o := Sweep(n, cs', m - 1, sub.removed);
      assert CancelPass(n) == o;
      if o.Done? {
        ReducesTrans(Flat(cs), Flat(cs'), Leaves(o.node));
        ReducesLength(Flat(cs'), Leaves(o.node));
        if !sub.removed {
          assert cs' == cs;
        }
      }
    }
  }

  /** Step i of the sweep: child i is handled, then the boundary after it. */
  lemma {:induction false} StepReduces(parent: Node, cs: seq<Node>, i: nat, removed: bool)
    requires parent.Composite?
    requires i < |cs| && i < |parent.children|
    requires forall k :: 0 <= k <= i ==> cs[k] == parent.children[k]
    ensures var step := if cs[i].Composite? && !removed then CancelPass(parent.children[i])
                        else Done(cs[i], removed);
      step.Done? && Boundary(cs[i := step.node], i, step.removed).Some? ==>
        var b := Boundary(cs[i := step.node], i, step.removed).value;
        Rewrites(Flat(cs), cs, removed, b.0, b.1)
    decreases parent, 0, i + 1, 0
  {
    var recurse := cs[i].Composite? && !removed;
    var step := if recurse then CancelPass(parent.children[i]) else Done(cs[i], removed);
    if recurse {
      CancelPassReduces(parent.children[i]);
    }
    if step.Done? {
      var cs' := cs[i := step.node];
      if recurse {
        ReplaceChildReduces(cs, i, step.node);
        ReducesLength(Leaves(cs[i]), Leaves(step.node));
      } else {
        assert cs' == cs;
      }
      assert !step.removed ==> cs' == cs;
      BoundaryReduces(cs', i, step.removed);
      var b := Boundary(cs', i, step.removed);
      if b.Some? {
        ReducesTrans(Flat(cs), Flat(cs'), Flat(b.value.0));
        ReducesLength(Flat(cs'), Flat(b.value.0));
      }
    }
  }

  lemma {:induction false} SweepReduces(parent: Node, cs: seq<Node>, i: int, removed: bool)
    requires parent.Composite?
    requires -1 <= i < |cs| && i < |parent.children|
    requires forall k :: 0 <= k <= i ==> cs[k] == parent.children[k]
    ensures Faithful(Flat(cs), cs, removed, Sweep(parent, cs, i, removed))
    decreases parent, 0, i + 1, 1
  {
    if i >= 0 {
      StepReduces(parent, cs, i, removed);
      var step := if cs[i].Composite? && !removed then CancelPass(parent.children[i])
                  else Done(cs[i], removed);
      if step.Done? {
        var b := Boundary(cs[i := step.node], i, step.removed);
        if b.Some? {
          var (next, flag) := b.value;
          SweepReduces(parent, next, i - 1, flag);
          var o := Sweep(parent, next, i - 1, flag);
          assert Sweep(parent, cs, i, removed) == o;
          if o.Done? {
            ReducesTrans(Flat(cs), Flat(next), Leaves(o.node));
            ReducesLength(Flat(cs), Flat(next));
            ReducesLength(Flat(next), Leaves(o.node));
          }
        }
      }
    }
  }

  // ---------------------------------------------------------------------
  // When a pass finds nothing

  /** No list the sweep visits, at any depth, has a boundary whose two edge
      gates are the same cx gate. */
  ghost predicate NoEqualBoundary(n: Node)
    decreases n
  {
    match n
    case Leaf(_) => true
    case Composite(cs) =>
      && (forall k :: 0 <= k < |cs| ==> NoEqualBoundary(cs[k]))
      && (forall i :: 0 <= i < |cs| - 1 ==> !EqualCxAt(cs, i))
  }

  /** A pass returns False and leaves the composite as it was exactly when
      there is no equal cx pair at any boundary it visits: every such pair is
      found. */
  lemma CancelPassFixpoint(n: Node)
    requires n.Composite?
    ensures CancelPass(n) == Done(n, false) <==> NoEqualBoundary(n)
  {
    if NoEqualBoundary(n) {
      CleanIsFixpoint(n);
    }
    if CancelPass(n) == Done(n, false) {
      FixpointIsClean(n);
    }
  }

  lemma {:induction false} CleanIsFixpoint(n: Node)
    requires n.Composite? && NoEqualBoundary(n)
    ensures CancelPass(n) == Done(n, false)
    decreases n, 1
  {
    var cs := n.children;
    if |cs| == 0 {
    } else if |cs| == 1 && cs[0].Composite? {
      CleanIsFixpoint(cs[0]);
    } else {
      var m := |cs| - 1;
      if cs[m].Composite? {
        CleanIsFixpoint(cs[m]);
        assert cs[m := cs[m]] == cs;
      }
      CleanSweep(n, m - 1);
    }
  }

  lemma {:induction false} CleanSweep(parent: Node, i: int)
    requires parent.Composite? && NoEqualBoundary(parent)
    requires -1 <= i && i + 2 <= |parent.children|
    ensures Sweep(parent, parent.children, i, false) == Done(parent, false)
    decreases parent, 0, i + 1
  {
    var cs := parent.children;
    if i >= 0 {
      if cs[i].Composite? {
        CleanIsFixpoint(cs[i]);
      }
      assert cs[i := cs[i]] == cs;
      assert !EqualCxAt(cs, i);
      BoundaryReduces(cs, i, false);
      CleanSweep(parent, i - 1);
    }
  }

  lemma {:induction false} FixpointIsClean(n: Node)
    requires n.Composite? && CancelPass(n) == Done(n, false)
    ensures NoEqualBoundary(n)
    decreases n, 1
  {
    var cs := n.children;
    if |cs| == 0 {
    } else if |cs| == 1 && cs[0].Composite? {
      FixpointIsClean(cs[0]);
    } else {
      var m := |cs| - 1;
      if cs[m].Composite? {
        LastChildUnchanged(n);
        FixpointIsClean(cs[m]);
        assert cs[m := cs[m]] == cs;
      }
      FixpointSweep(n, m - 1);
    }
  }

  /** A pass that ends with False left the last child as it was. */
  lemma LastChildUnchanged(n: Node)
    requires n.Composite? && CancelPass(n) == Done(n, false)
    requires |n.children| > 0 && n.children[|n.children| - 1].Composite?
    requires !(|n.children| == 1 && n.children[0].Composite?)
    ensures CancelPass(n.children[|n.children| - 1]) == Done(n.children[|n.children| - 1], false)
    decreases n, 0
  {
    var cs := n.children;
    var m := |cs| - 1;
    CancelPassReduces(cs[m]);
    var sub := CancelPass(cs[m]);
    SweepReduces(n, cs[m := sub.node], m - 1, sub.removed);
  }

  lemma {:induction false} FixpointSweep(parent: Node, i: int)
    requires parent.Composite?
    requires -1 <= i && i + 2 <= |parent.children|
    requires Sweep(parent, parent.children, i, false) == Done(parent, false)
    ensures forall k :: 0 <= k <= i ==> NoEqualBoundary(parent.children[k])
    ensures forall k :: 0 <= k <= i ==> !EqualCxAt(parent.children, k)
    decreases parent, 0, i + 1
  {
    var cs := parent.children;
    if i >= 0 {
      StepUnchanged(parent, i);
      if cs[i].Composite? {
        FixpointIsClean(cs[i]);
      }
      BoundaryReduces(cs, i, false);
      assert cs[i := cs[i]] == cs;
      FixpointSweep(parent, i - 1);
    }
  }

  /** A step of a sweep that ends with False changed nothing: child i came
      back unchanged and the boundary after it kept the list. */
  lemma StepUnchanged(parent: Node, i: nat)
    requires parent.Composite?
    requires i + 2 <= |parent.children|
    requires Sweep(parent, parent.children, i, false) == Done(parent, false)
    ensures parent.children[i].Composite? ==>
      CancelPass(parent.children[i]) == Done(parent.children[i], false)
    ensures Boundary(parent.children, i, false) == Some((parent.children, false))
    decreases parent, 0
  {
    var cs := parent.children;
    var step := if cs[i].Composite? then CancelPass(cs[i]) else Done(cs[i], false);
    if cs[i].Composite? {
      CancelPassReduces(cs[i]);
    }
    var b := Boundary(cs[i := step.node], i, step.removed);
    BoundaryReduces(cs[i := step.node], i, step.removed);
    SweepReduces(parent, b.value.0, i - 1, b.value.1);
    assert cs[i := step.node] == cs;
  }
}
