/**
 * The verification key `verify_proof` builds for rapidsnark: the proving
 * key's group elements projected onto a fixed JSON-shaped record whose
 * coordinates are base-10 strings, affine points extended with the
 * projective coordinate "1" (and ["1", "0"] for G2).
 */
module VerificationKeys {
  import opened Wrappers
  import opened Decimal

  /** An affine G1 point; coordinates are field elements. */
  datatype G1 = G1(x: nat, y: nat)
  /** An element of the quadratic extension field, c0 + c1 u. */
  datatype Fq2 = Fq2(c0: nat, c1: nat)
  /** An affine G2 point. */
  datatype G2 = G2(x: Fq2, y: Fq2)

  /** The Groth16 verifying key inside a proving key. */
  datatype VerifyingKey = VerifyingKey(
    alphaG1: G1,
    betaG2: G2,
    gammaG2: G2,
    deltaG2: G2,
    gammaAbcG1: seq<G1>)

  /** The `VerificationKey` record that is serialised for rapidsnark. */
  datatype VerificationKey = VerificationKey(
    protocol: string,
    curve: string,
    nPublic: nat,
    vkAlpha1: seq<string>,
    vkBeta2: seq<seq<string>>,
    vkGamma2: seq<seq<string>>,
    vkDelta2: seq<seq<string>>,
    ic: seq<seq<string>>)

  /** `[x, y, "1"]`. */
  function G1Json(p: G1): (r: seq<string>)
    ensures |r| == 3 && r[2] == "1"
  {
    [NatToDecimal(p.x), NatToDecimal(p.y), "1"]
  }

  /** `[[x.c0, x.c1], [y.c0, y.c1], ["1", "0"]]`. */
  function G2Json(p: G2): (r: seq<seq<string>>)
    ensures |r| == 3 && r[2] == ["1", "0"]
    ensures |r[0]| == 2 && |r[1]| == 2
  {
    [[NatToDecimal(p.x.c0), NatToDecimal(p.x.c1)],
     [NatToDecimal(p.y.c0), NatToDecimal(p.y.c1)],
     ["1", "0"]]
  }

  /** The projection in `verify_proof`. */
  function ToVerificationKey(vk: VerifyingKey): (r: VerificationKey)
    ensures r.protocol == "groth16" && r.curve == "bn128" && r.nPublic == 0
    ensures r.vkAlpha1 == G1Json(vk.alphaG1)
    ensures r.vkBeta2 == G2Json(vk.betaG2) && r.vkGamma2 == G2Json(vk.gammaG2) && r.vkDelta2 == G2Json(vk.deltaG2)
    ensures |r.ic| == |vk.gammaAbcG1|
    ensures forall i :: 0 <= i < |r.ic| ==> r.ic[i] == G1Json(vk.gammaAbcG1[i])
  {
    VerificationKey(
      "groth16",
      "bn128",
      0,
      G1Json(vk.alphaG1),
      G2Json(vk.betaG2),
      G2Json(vk.gammaG2),
      G2Json(vk.deltaG2),
      seq(|vk.gammaAbcG1|, i requires 0 <= i < |vk.gammaAbcG1| => G1Json(vk.gammaAbcG1[i])))
  }

  // ---------------------------------------------------------------------
  // Reading the record back
  // ---------------------------------------------------------------------

  function RecoverG1(e: seq<string>): Option<G1>
  {
    if |e| != 3 || e[2] != "1" then None
    else
      match (ParseBigUint(e[0]), ParseBigUint(e[1]))
      case (Some(x), Some(y)) => Some(G1(x, y))
      case _ => None
  }

  function RecoverFq2(e: seq<string>): Option<Fq2>
  {
    if |e| != 2 then None
    else
      match (ParseBigUint(e[0]), ParseBigUint(e[1]))
      case (Some(c0), Some(c1)) => Some(Fq2(c0, c1))
      case _ => None
  }

  function RecoverG2(e: seq<seq<string>>): Option<G2>
  {
    if |e| != 3 || e[2] != ["1", "0"] then None
    else
      match (RecoverFq2(e[0]), RecoverFq2(e[1]))
      case (Some(x), Some(y)) => Some(G2(x, y))
      case _ => None
  }

  function RecoverIc(ic: seq<seq<string>>): Option<seq<G1>>
  {
    if ic == [] then Some([])
    else
      match (RecoverIc(ic[..|ic| - 1]), RecoverG1(ic[|ic| - 1]))
      case (Some(ps), Some(p)) => Some(ps + [p])
      case _ => None
  }

  /** The inverse of the projection: checks the fixed fields and parses every coordinate. */
  function RecoverKey(k: VerificationKey): Option<VerifyingKey>
  {
    var alpha, beta, gamma, delta, ic :=
      RecoverG1(k.vkAlpha1), RecoverG2(k.vkBeta2), RecoverG2(k.vkGamma2), RecoverG2(k.vkDelta2), RecoverIc(k.ic);
    if k.protocol != "groth16" || k.curve != "bn128" || k.nPublic != 0 then None
    else if alpha.None? || beta.None? || gamma.None? || delta.None? || ic.None? then None
    else Some(VerifyingKey(alpha.value, beta.value, gamma.value, delta.value, ic.value))
  }

  lemma G1RoundTrip(p: G1)
    ensures RecoverG1(G1Json(p)) == Some(p)
  {
    DecimalUintRoundTrip(p.x);
    DecimalUintRoundTrip(p.y);
  }

  lemma G2RoundTrip(p: G2)
    ensures RecoverG2(G2Json(p)) == Some(p)
  {
    DecimalUintRoundTrip(p.x.c0);
    DecimalUintRoundTrip(p.x.c1);
    DecimalUintRoundTrip(p.y.c0);
    DecimalUintRoundTrip(p.y.c1);
    assert RecoverFq2(G2Json(p)[0]) == Some(p.x);
    assert RecoverFq2(G2Json(p)[1]) == Some(p.y);
  }

  lemma {:induction false} IcRoundTrip(ps: seq<G1>)
    ensures RecoverIc(seq(|ps|, i requires 0 <= i < |ps| => G1Json(ps[i]))) == Some(ps)
  {
    if ps != [] {
      var n := |ps|;
      var ic := seq(n, i requires 0 <= i < n => G1Json(ps[i]));
      var pre := ps[..n - 1];
      assert ic[..n - 1] == seq(|pre|, i requires 0 <= i < |pre| => G1Json(pre[i]));
      IcRoundTrip(pre);
      G1RoundTrip(ps[n - 1]);
      assert pre + [ps[n - 1]] == ps;
    }
  }

  /** No information is lost: the projected record reads back as the key it came from. */
  lemma RecoverOfProjection(vk: VerifyingKey)
    ensures RecoverKey(ToVerificationKey(vk)) == Some(vk)
  {
    var k := ToVerificationKey(vk);
    G1RoundTrip(vk.alphaG1);
    G2RoundTrip(vk.betaG2);
    G2RoundTrip(vk.gammaG2);
    G2RoundTrip(vk.deltaG2);
    var ps := vk.gammaAbcG1;
    assert k.ic == seq(|ps|, i requires 0 <= i < |ps| => G1Json(ps[i]));
    IcRoundTrip(ps);
    RecoverFromParts(k, vk);
  }

  lemma RecoverFromParts(k: VerificationKey, vk: VerifyingKey)
    requires k.protocol == "groth16" && k.curve == "bn128" && k.nPublic == 0
    requires RecoverG1(k.vkAlpha1) == Some(vk.alphaG1) && RecoverIc(k.ic) == Some(vk.gammaAbcG1)
    requires RecoverG2(k.vkBeta2) == Some(vk.betaG2) && RecoverG2(k.vkGamma2) == Some(vk.gammaG2)
    requires RecoverG2(k.vkDelta2) == Some(vk.deltaG2)
    ensures RecoverKey(k) == Some(vk)
  {
  }

  /** Distinct keys project to distinct records. */
  lemma ProjectionInjective(v1: VerifyingKey, v2: VerifyingKey)
    requires ToVerificationKey(v1) == ToVerificationKey(v2)
    ensures v1 == v2
  {
    RecoverOfProjection(v1);
    RecoverOfProjection(v2);
  }
}
