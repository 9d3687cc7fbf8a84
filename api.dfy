/**
 * `generate_proof`: parses the named inputs, runs the witness function,
 * flattens the witness into a headerless buffer of 32-byte little-endian
 * chunks, hands it to the native `groth16_api_prove`, and wraps the two
 * strings it gets back in a fixed JSON envelope.
 */
module Api {
  import opened Wrappers
  import opened Bytes
  import opened CStrings
  import opened CircuitInputs
  import Wtns
  import RapidsnarkFfi

  const CHUNK: nat := 32
  /** `c_uint` is 32 bits wide. */
  const C_UINT_LIMIT: nat := 0x1_0000_0000

  /** One witness value: `to_bytes_le()` of the unsigned value, resized to 32 bytes. */
  function Chunk(w: nat): (r: seq<byte>)
    ensures |r| == CHUNK
  {
    Resize(UnsignedLe(w), CHUNK, 0)
  }

  /** `to_biguint().unwrap()` panics on a negative value. */
  predicate NonNegative(ws: seq<int>)
  {
    forall i :: 0 <= i < |ws| ==> ws[i] >= 0
  }

  /** The `map(..).flat_map(..).collect()` pipeline: the chunks of all values, in order, with no header. */
  function RawWitness(ws: seq<int>): (r: seq<byte>)
    requires NonNegative(ws)
    ensures |r| == CHUNK * |ws|
  {
    if ws == [] then [] else RawWitness(ws[..|ws| - 1]) + Chunk(ws[|ws| - 1])
  }

  /** The JSON text `generate_proof` returns around the native proof and public signals. */
  function ProofJson(proof: seq<byte>, signals: seq<byte>): seq<byte>
  {
    JSON_OPEN + proof + JSON_MIDDLE + signals + JSON_CLOSE
  }

  const JSON_OPEN: seq<byte> := Ascii("{ \"proof\": ")
  const JSON_MIDDLE: seq<byte> := Ascii(",\"signals\": ")
  const JSON_CLOSE: seq<byte> := Ascii("}")

  const ZKEY_PATH_ERROR: seq<byte> := Ascii("Failed to create CString for zkey path")
  const PROVE_ERROR: seq<byte> := Ascii("Proof generation failed")

  /** The native result may be read: both strings are NUL-terminated and not yet freed. */
  predicate Readable(p: CProofResult)
    reads p, p.proof, p.publicSignals
  {
    p.live && Terminated(p.proof[..]) && Terminated(p.publicSignals[..])
  }

  /** The native proof result: two heap C strings, valid until freed. */
  class CProofResult {
    const proof: array<byte>
    const publicSignals: array<byte>
    var live: bool

    constructor(proof: array<byte>, publicSignals: array<byte>)
      ensures this.proof == proof && this.publicSignals == publicSignals && live
    {
      this.proof := proof;
      this.publicSignals := publicSignals;
      live := true;
    }
  }

  /** One call into the native prover API. */
  datatype ApiEvent =
    | Prove(zkeyFilename: seq<byte>, wtnsData: seq<byte>, wtnsDataLen: nat)
    | Read(result: CProofResult)
    | Free(result: CProofResult)

  /** The native prover API: `groth16_api_prove` and `free_proof_result`. */
  class ProverApi {
    /** Every call made so far, oldest first. */
    var events: seq<ApiEvent>
    /** What the next `groth16_api_prove` returns; null when proving fails. */
    var nextResult: CProofResult?

    constructor(nextResult: CProofResult?)
      ensures events == [] && this.nextResult == nextResult
    {
      events := [];
      this.nextResult := nextResult;
    }

    method Groth16ApiProve(zkeyFilename: seq<byte>, wtnsData: seq<byte>, wtnsDataLen: nat)
      returns (p: CProofResult?)
      modifies this
      ensures events == old(events) + [Prove(zkeyFilename, wtnsData, wtnsDataLen)]
      ensures nextResult == old(nextResult) && p == nextResult
    {
      events := events + [Prove(zkeyFilename, wtnsData, wtnsDataLen)];
      p := nextResult;
    }

    /**
     * `CStr::from_ptr` on both strings of a result, copied into owned
     * strings; reading a freed result is undefined, hence the precondition.
     */
    method ReadProofResult(p: CProofResult) returns (proof: seq<byte>, publicSignals: seq<byte>)
      requires Readable(p)
      modifies this
      ensures events == old(events) + [Read(p)] && nextResult == old(nextResult)
      ensures proof == CStr(p.proof[..]) && publicSignals == CStr(p.publicSignals[..])
    {
      events := events + [Read(p)];
      proof := ReadCString(p.proof);
      publicSignals := ReadCString(p.publicSignals);
    }

    /** Freeing twice, or freeing what was never allocated, is undefined; hence the precondition. */
    method FreeProofResult(p: CProofResult)
      requires p.live
      modifies this, p
      ensures events == old(events) + [Free(p)] && nextResult == old(nextResult)
      ensures !p.live
    {
      events := events + [Free(p)];
      p.live := false;
    }
  }


  /**
   * `generate_proof`.  The witness is computed before the zkey path is
   * checked; a path with a NUL fails without calling the prover; a null
   * native result is an error and nothing is freed; otherwise both strings
   * are copied, then the result is freed exactly once, and the JSON is
   * returned.
   */
  method GenerateProof(api: ProverApi, zkeyPath: seq<byte>, inputs: RawInputs, witnessFn: WtnsFn)
    returns (r: Result<seq<byte>, seq<byte>>)
    requires AllParse(inputs)
    requires NonNegative(witnessFn(ParseInputs(inputs)))
    requires api.nextResult != null ==> Readable(api.nextResult)
    modifies api, api.nextResult
    ensures api.nextResult == old(api.nextResult)
    ensures var wtns := RawWitness(witnessFn(ParseInputs(inputs)));
      var call := Prove(zkeyPath + [0], wtns, |wtns| % C_UINT_LIMIT);
      var p := api.nextResult;
      if !RapidsnarkFfi.NoNul(zkeyPath) then
        && r == Err(ZKEY_PATH_ERROR) && api.events == old(api.events)
        && (p != null ==> p.live == old(p.live))
      else if p == null then
        r == Err(PROVE_ERROR) && api.events == old(api.events) + [call]
      else
        && r == Ok(ProofJson(CStr(p.proof[..]), CStr(p.publicSignals[..])))
        && api.events == old(api.events) + [call, Read(p), Free(p)]
        && !p.live
  {
    var bigintInputs := ParseInputs(inputs);
    var witnessValues := witnessFn(bigintInputs);
    var wtns := RawWitness(witnessValues);

    var zkeyCstr := RapidsnarkFfi.CStringNew(zkeyPath);
    if zkeyCstr.None? {
      return Err(ZKEY_PATH_ERROR);
    }

    var proofPtr := api.Groth16ApiProve(zkeyCstr.value, wtns, |wtns| % C_UINT_LIMIT);
    if proofPtr == null {
      return Err(PROVE_ERROR);
    }
    var proof, publicSignals := api.ReadProofResult(proofPtr);
    api.FreeProofResult(proofPtr);
    return Ok(ProofJson(proof, publicSignals));
  }

  // ---------------------------------------------------------------------
  // Lemmas
  // ---------------------------------------------------------------------

  /** Chunk i sits at offset 32 i: the 32-byte encoding of value i, which decodes to it modulo 2^256. */
  lemma {:induction false} RawChunkAt(ws: seq<int>, i: nat)
    requires NonNegative(ws) && i < |ws|
    ensures RawWitness(ws)[CHUNK * i..CHUNK * i + CHUNK] == Le(ws[i], CHUNK)
    ensures LeValue(RawWitness(ws)[CHUNK * i..CHUNK * i + CHUNK]) == ws[i] % Pow256(CHUNK)
  {
    var last := |ws| - 1;
    if i < last {
      RawChunkAt(ws[..last], i);
      assert RawWitness(ws)[CHUNK * i..CHUNK * i + CHUNK] == RawWitness(ws[..last])[CHUNK * i..CHUNK * i + CHUNK];
    } else {
      assert RawWitness(ws)[CHUNK * i..CHUNK * i + CHUNK] == Chunk(ws[last]);
      ResizeUnsigned(ws[i], CHUNK);
      LeValueOfLeMod(ws[i], CHUNK);
    }
  }

  /** A value's unsigned and signed encodings agree once padded: the raw buffer is the data section of a `wtns` file. */
  lemma {:induction false} RawIsWtnsData(ws: seq<int>)
    requires NonNegative(ws)
    ensures RawWitness(ws) == Wtns.Slots(ws)
    ensures Wtns.WtnsFile(ws) == Wtns.Header(|ws|) + RawWitness(ws)
  {
    if ws != [] {
      var last := |ws| - 1;
      RawIsWtnsData(ws[..last]);
      ResizeUnsigned(ws[last], CHUNK);
      ResizeSignedNonneg(ws[last], CHUNK);
    }
  }

  /** For reduced values the raw buffer decodes back to the witness, so no header is needed to recover it. */
  lemma RawWitnessDecodes(ws: seq<int>)
    requires Wtns.Reduced(ws)
    ensures NonNegative(ws)
    ensures Wtns.DecodeSlots(RawWitness(ws), |ws|) == Ok(ws)
  {
    assert NonNegative(ws);
    RawIsWtnsData(ws);
    Wtns.DecodeSlotsOfSlots(ws);
  }

  /** The envelope: fixed prefix, the proof, fixed separator, the signals, closing brace. */
  lemma ProofJsonShape(proof: seq<byte>, signals: seq<byte>)
    ensures var j := ProofJson(proof, signals);
      && |j| == |proof| + |signals| + 24
      && j[..11] == Ascii("{ \"proof\": ")
      && j[11..11 + |proof|] == proof
      && j[11 + |proof|..23 + |proof|] == Ascii(",\"signals\": ")
      && j[23 + |proof|..|j| - 1] == signals
      && j[|j| - 1] == '}' as int
  {
    var j := ProofJson(proof, signals);
    assert |JSON_OPEN| == 11 && |JSON_MIDDLE| == 12 && |JSON_CLOSE| == 1;
    assert j == JSON_OPEN + proof + JSON_MIDDLE + signals + JSON_CLOSE;
    assert j[..11] == JSON_OPEN;
    assert j[11..11 + |proof|] == proof;
    assert j[11 + |proof|..23 + |proof|] == JSON_MIDDLE;
    assert j[23 + |proof|..|j| - 1] == signals;
  }

  /** Given the proof's length, the envelope determines both strings. */
  lemma ProofJsonInjective(p1: seq<byte>, s1: seq<byte>, p2: seq<byte>, s2: seq<byte>)
    requires |p1| == |p2| && ProofJson(p1, s1) == ProofJson(p2, s2)
    ensures p1 == p2 && s1 == s2
  {
    ProofJsonShape(p1, s1);
    ProofJsonShape(p2, s2);
  }
}
