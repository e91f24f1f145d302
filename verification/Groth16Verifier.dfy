/** The on-chain verifier: length check, input commitment and one pairing check over host curve operations. */
module Groth16Verifier {
  import opened Words
  import opened ModField

  datatype Error = InvalidProof | MalformedPublicInputs

  /** The BN254 host functions, over encoded points. */
  datatype Curve = Curve(g1Add: (Bytes, Bytes) -> Bytes, g1Mul: (Bytes, U256) -> Bytes, g1Neg: Bytes -> Bytes,
                         pairingCheck: (seq<Bytes>, seq<Bytes>) -> bool)

  datatype VerificationKey = VerificationKey(alpha: Bytes, beta: Bytes, gamma: Bytes, delta: Bytes, ic: seq<Bytes>)

  datatype Groth16Proof = Groth16Proof(a: Bytes, b: Bytes, c: Bytes) {
    predicate IsEmpty() {
      a == [] || b == [] || c == []
    }
  }

  /** The linear combination of the key's points: the constant point plus each input times its own point. */
  function InputCommitment(curve: Curve, ic: seq<Bytes>, inputs: seq<U256>): Bytes
    requires |ic| == |inputs| + 1
  {
    var n := |inputs|;
    if n == 0 then ic[0]
    else curve.g1Add(InputCommitment(curve, ic[..n], inputs[..n - 1]), curve.g1Mul(ic[n], inputs[n - 1]))
  }

  function Verdict(curve: Curve, vk: VerificationKey, proof: Groth16Proof, inputs: seq<U256>): Result<bool, Error> {
    if |inputs| + 1 != |vk.ic| then Err(MalformedPublicInputs)
    else if curve.pairingCheck([curve.g1Neg(proof.a), vk.alpha, InputCommitment(curve, vk.ic, inputs), proof.c],
                               [proof.b, vk.beta, vk.gamma, vk.delta]) then Ok(true)
    else Err(InvalidProof)
  }

  /** The verifier never answers `false`, and it rejects every input vector of the wrong length. */
  lemma AcceptedInputsFitTheKey(curve: Curve, vk: VerificationKey, proof: Groth16Proof, inputs: seq<U256>)
    ensures Verdict(curve, vk, proof, inputs).Ok? ==> |inputs| + 1 == |vk.ic| && Verdict(curve, vk, proof, inputs).value
  {
  }

  // ----- the equation in the exponent -----

  /** Exponents of the points of the two groups, to some base of order `q`. */
  datatype Logs = Logs(q: int, g1: Bytes -> int, g2: Bytes -> int)

  /** The sum of the products of the exponents of the pairs. */
  function PairingSum(l: Logs, xs: seq<Bytes>, ys: seq<Bytes>): int
    requires |xs| == |ys|
  {
    if xs == [] then 0
    else PairingSum(l, xs[..|xs| - 1], ys[..|ys| - 1]) + l.g1(xs[|xs| - 1]) * l.g2(ys[|ys| - 1])
  }

  ghost predicate Additive(curve: Curve, l: Logs)
    requires l.q > 1
  {
    forall a, b :: l.g1(curve.g1Add(a, b)) % l.q == (l.g1(a) + l.g1(b)) % l.q
  }

  ghost predicate Multiplicative(curve: Curve, l: Logs)
    requires l.q > 1
  {
    forall a: Bytes, k: U256 :: l.g1(curve.g1Mul(a, k)) % l.q == (k * l.g1(a)) % l.q
  }

  ghost predicate Negating(curve: Curve, l: Logs)
    requires l.q > 1
  {
    forall a :: l.g1(curve.g1Neg(a)) % l.q == (-l.g1(a)) % l.q
  }

  ghost predicate Bilinear(curve: Curve, l: Logs)
    requires l.q > 1
  {
    forall xs, ys :: |xs| == |ys| ==> (curve.pairingCheck(xs, ys) <==> PairingSum(l, xs, ys) % l.q == 0)
  }

  /** The host functions compute in groups of order `q`, and the pairing multiplies exponents. */
  ghost predicate InExponent(curve: Curve, l: Logs) {
    l.q > 1 && Additive(curve, l) && Multiplicative(curve, l) && Negating(curve, l) && Bilinear(curve, l)
  }

  /** The constant point's exponent plus each input times the exponent of its own point. */
  function InputSum(l: Logs, ic: seq<Bytes>, inputs: seq<U256>): int
    requires |ic| == |inputs| + 1
  {
    var n := |inputs|;
    if n == 0 then l.g1(ic[0]) else InputSum(l, ic[..n], inputs[..n - 1]) + inputs[n - 1] * l.g1(ic[n])
  }

  /** Each input multiplies its own point of the key. */
  lemma {:induction false} InputCommitmentSums(curve: Curve, l: Logs, ic: seq<Bytes>, inputs: seq<U256>)
    requires InExponent(curve, l) && |ic| == |inputs| + 1
    ensures l.g1(InputCommitment(curve, ic, inputs)) % l.q == InputSum(l, ic, inputs) % l.q
    decreases |inputs|
  {
    var n := |inputs|;
    if n > 0 {
      var rest, term := InputCommitment(curve, ic[..n], inputs[..n - 1]), curve.g1Mul(ic[n], inputs[n - 1]);
      InputCommitmentSums(curve, l, ic[..n], inputs[..n - 1]);
      assert l.g1(curve.g1Add(rest, term)) % l.q == (l.g1(rest) + l.g1(term)) % l.q;
      assert l.g1(term) % l.q == (inputs[n - 1] * l.g1(ic[n])) % l.q;
      ModAdd(l.q, l.g1(rest), l.g1(term), InputSum(l, ic[..n], inputs[..n - 1]), inputs[n - 1] * l.g1(ic[n]));
    }
  }

  lemma {:induction false} FourPairs(l: Logs, a: Bytes, b: Bytes, c: Bytes, d: Bytes,
                                     e: Bytes, f: Bytes, g: Bytes, h: Bytes)
    ensures PairingSum(l, [a, b, c, d], [e, f, g, h])
         == l.g1(a) * l.g2(e) + l.g1(b) * l.g2(f) + l.g1(c) * l.g2(g) + l.g1(d) * l.g2(h)
  {
    var xs, ys := [a, b, c, d], [e, f, g, h];
    assert xs[..3] == [a, b, c] && ys[..3] == [e, f, g];
    assert [a, b, c][..2] == [a, b] && [e, f, g][..2] == [e, f];
    assert [a, b][..1] == [a] && [e, f][..1] == [e];
    assert [a][..0] == [] && [e][..0] == [];
    assert PairingSum(l, [a], [e]) == l.g1(a) * l.g2(e);
    assert PairingSum(l, [a, b], [e, f]) == l.g1(a) * l.g2(e) + l.g1(b) * l.g2(f);
    assert PairingSum(l, [a, b, c], [e, f, g]) == l.g1(a) * l.g2(e) + l.g1(b) * l.g2(f) + l.g1(c) * l.g2(g);
  }

  /** A sum with a negated and a replaced factor vanishes exactly when the two sides are congruent. */
  lemma {:induction false} MovedAcross(q: int, n: int, a: int, b: int, x: int, y: int, g: int, rest: int)
    requires q > 1 && n % q == (-a) % q && x % q == y % q
    ensures (n * b + x * g + rest) % q == 0 <==> (a * b) % q == (y * g + rest) % q
  {
    var ab, yg := a * b, y * g;
    ModMul(q, n, b, -a, b);
    assert -a * b == -ab;
    ModMul(q, x, g, y, g);
    ModAdd(q, n * b, x * g, -ab, yg);
    ModAdd(q, n * b + x * g, rest, -ab + yg, rest);
    if (a * b) % q == (y * g + rest) % q {
      ModAdd(q, yg + rest, ab, ab, ab);
    }
    if (-ab + yg + rest) % q == 0 {
      assert 0 % q == 0;
      ModAdd(q, -ab + yg + rest, ab, 0, ab);
    }
  }

  /**
   The Groth16 equation: a proof is accepted exactly when the inputs fit the key and, in the exponent,
   A * B = alpha * beta + (ic[0] + sum of inputs[i] * ic[i + 1]) * gamma + C * delta.
   */
  lemma {:induction false} AcceptedExactly(curve: Curve, l: Logs, vk: VerificationKey, proof: Groth16Proof,
                                           inputs: seq<U256>)
    requires InExponent(curve, l)
    ensures Verdict(curve, vk, proof, inputs).Ok? <==>
            && |inputs| + 1 == |vk.ic|
            && (l.g1(proof.a) * l.g2(proof.b)) % l.q
               == (InputSum(l, vk.ic, inputs) * l.g2(vk.gamma)
                   + (l.g1(vk.alpha) * l.g2(vk.beta) + l.g1(proof.c) * l.g2(vk.delta))) % l.q
    ensures Verdict(curve, vk, proof, inputs).Ok? ==> Verdict(curve, vk, proof, inputs).value
    ensures Verdict(curve, vk, proof, inputs) == Err(MalformedPublicInputs) <==> |inputs| + 1 != |vk.ic|
  {
    if |inputs| + 1 == |vk.ic| {
      var neg, sum := curve.g1Neg(proof.a), InputCommitment(curve, vk.ic, inputs);
      var xs, ys := [neg, vk.alpha, sum, proof.c], [proof.b, vk.beta, vk.gamma, vk.delta];
      FourPairs(l, neg, vk.alpha, sum, proof.c, proof.b, vk.beta, vk.gamma, vk.delta);
      InputCommitmentSums(curve, l, vk.ic, inputs);
      MovedAcross(l.q, l.g1(neg), l.g1(proof.a), l.g2(proof.b), l.g1(sum), InputSum(l, vk.ic, inputs), l.g2(vk.gamma),
                  l.g1(vk.alpha) * l.g2(vk.beta) + l.g1(proof.c) * l.g2(vk.delta));
      assert curve.pairingCheck(xs, ys) <==> PairingSum(l, xs, ys) % l.q == 0;
    }
  }

  method VerifyWithVk(curve: Curve, vk: VerificationKey, proof: Groth16Proof, inputs: seq<U256>)
    returns (r: Result<bool, Error>)
    ensures r == Verdict(curve, vk, proof, inputs)
  {
    if |inputs| + 1 != |vk.ic| { return Err(MalformedPublicInputs); }
    var vkX := vk.ic[0];
    for i := 0 to |inputs|
      invariant vkX == InputCommitment(curve, vk.ic[..i + 1], inputs[..i])
    {
      assert vk.ic[..i + 2][..i + 1] == vk.ic[..i + 1] && inputs[..i + 1][..i] == inputs[..i];
      vkX := curve.g1Add(vkX, curve.g1Mul(vk.ic[i + 1], inputs[i]));
    }
    assert vk.ic[..|inputs| + 1] == vk.ic && inputs[..|inputs|] == inputs;
    var ok := curve.pairingCheck([curve.g1Neg(proof.a), vk.alpha, vkX, proof.c],
                                 [proof.b, vk.beta, vk.gamma, vk.delta]);
    r := if ok then Ok(true) else Err(InvalidProof);
  }
}
