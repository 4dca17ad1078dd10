/** `_rotations_to_disentangle` and `_bloch_angles`: split an amplitude vector
    into pairs and find, for each pair, the rotation that takes it to a single
    amplitude on the zero state of the least significant qubit. */
module Disentangler {
  import opened GateTree

  datatype Complex = Complex(re: real, im: real)

  function NormSq(z: Complex): real {
    z.re * z.re + z.im * z.im
  }

  function Conjugate(z: Complex): Complex {
    Complex(z.re, -z.im)
  }

  const Zero: Complex := Complex(0.0, 0.0)

  /** What `_bloch_angles` returns for one pair: the remaining amplitude
      `final_r * exp(i * final_t / 2)`, theta and phi. */
  datatype Bloch = Bloch(remains: Complex, theta: real, phi: real)

  /** `_bloch_angles` on the pair (a, b). The source tests
      `sqrt(|a|^2 + |b|^2) < EPS`; both sides are non-negative, so the test is
      `|a|^2 + |b|^2 < EPS^2`. Below it the pair is treated as zero; otherwise
      the angles come from arccos, the complex argument and exp, which are the
      parameter `general`. */
  function BlochAngles(a: Complex, b: Complex, general: (Complex, Complex) -> Bloch): (r: Bloch)
    ensures Small(a, b) ==> r.remains == Zero && r.theta == 0.0 && r.phi == 0.0
    ensures !Small(a, b) ==> r == general(a, b)
  {
    if Small(a, b) then Bloch(Zero, 0.0, 0.0) else general(a, b)
  }

  predicate Small(a: Complex, b: Complex) {
    NormSq(a) + NormSq(b) < EPS * EPS
  }

  /** What the loop of `_rotations_to_disentangle` has built after its first n
      pairs: the remaining vector, the thetas and the phis, one entry per pair
      appended in order. */
  function Disentangled(v: seq<Complex>, n: nat, general: (Complex, Complex) -> Bloch): (r: (seq<Complex>, seq<real>, seq<real>))
    requires 2 * n <= |v|
    ensures |r.0| == n && |r.1| == n && |r.2| == n
  {
    if n == 0 then ([], [], [])
    else
      var (remaining, thetas, phis) := Disentangled(v, n - 1, general);
      var b := BlochAngles(v[2 * (n - 1)], v[2 * (n - 1) + 1], general);
      (remaining + [b.remains], thetas + [-b.theta], phis + [-b.phi])
  }

  /** The whole loop: every pair, an odd last amplitude not looked at. */
  function Disentangle(v: seq<Complex>, general: (Complex, Complex) -> Bloch): (r: (seq<Complex>, seq<real>, seq<real>))
    ensures |r.0| == |v| / 2 && |r.1| == |v| / 2 && |r.2| == |v| / 2
  {
    Disentangled(v, |v| / 2, general)
  }

  /** Entry i of each output comes from the pair (2i, 2i + 1): its remaining
      amplitude, and the negated theta and phi (the rotation that undoes the
      one creating the pair from the zero state). */
  lemma {:induction false} DisentangledPairs(v: seq<Complex>, n: nat, general: (Complex, Complex) -> Bloch)
    requires 2 * n <= |v|
    ensures var r := Disentangled(v, n, general);
      forall i :: 0 <= i < n ==>
        var b := BlochAngles(v[2 * i], v[2 * i + 1], general);
        r.0[i] == b.remains && r.1[i] == -b.theta && r.2[i] == -b.phi
  {
    if n > 0 {
      DisentangledPairs(v, n - 1, general);
    }
  }

  lemma DisentanglePairs(v: seq<Complex>, general: (Complex, Complex) -> Bloch)
    ensures var r := Disentangle(v, general);
      forall i :: 0 <= i < |v| / 2 ==>
        var b := BlochAngles(v[2 * i], v[2 * i + 1], general);
        r.0[i] == b.remains && r.1[i] == -b.theta && r.2[i] == -b.phi
  {
    DisentangledPairs(v, |v| / 2, general);
  }

  /** A pair below EPS gets no rotation and leaves a zero amplitude. */
  lemma SmallPairNoRotation(v: seq<Complex>, general: (Complex, Complex) -> Bloch, i: nat)
    requires i < |v| / 2 && Small(v[2 * i], v[2 * i + 1])
    ensures var r := Disentangle(v, general);
      r.1[i] == 0.0 && r.2[i] == 0.0 && NormSq(r.0[i]) == 0.0
  {
    DisentanglePairs(v, general);
  }

  /** `_rotations_to_disentangle`, with its loop over `range(param_len // 2)`. */
  method RotationsToDisentangle(localParam: seq<Complex>, general: (Complex, Complex) -> Bloch)
    returns (remainingVector: seq<Complex>, thetas: seq<real>, phis: seq<real>)
    ensures (remainingVector, thetas, phis) == Disentangle(localParam, general)
  {
    remainingVector, thetas, phis := [], [], [];
    var paramLen := |localParam|;
    var i := 0;
    while i < paramLen / 2
      invariant 0 <= i <= paramLen / 2
      invariant (remainingVector, thetas, phis) == Disentangled(localParam, i, general)
    {
      var pair := localParam[2 * i..2 * (i + 1)];
      var b := BlochAngles(pair[0], pair[1], general);
      remainingVector := remainingVector + [b.remains];
      thetas := thetas + [-b.theta];
      phis := phis + [-b.phi];
      i := i + 1;
    }
  }
}
