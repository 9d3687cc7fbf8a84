/**
 * The two safe wrappers around rapidsnark's C entry points,
 * `groth16_prover_zkey_file_wrapper` and `groth16_verify_wrapper`.
 *
 * The native library is a class whose next replies are fields: each call
 * writes the reply's bytes into the caller's buffers, reports its sizes
 * and status, and appends its arguments to a call log.  Any reply is
 * allowed that leaves a NUL in every buffer the wrapper reads back
 * (`ProveReplyReadable`, `VerifyReplyReadable`), and what the wrappers
 * decide is specified for every such reply.
 */
module RapidsnarkFfi {
  import opened Wrappers
  import opened Bytes
  import opened CStrings

  /** Capacities of the buffers the prove wrapper allocates. */
  const PROOF_CAPACITY: nat := 4 * 1024 * 1024
  const PUBLIC_CAPACITY: nat := 4 * 1024 * 1024
  const ERROR_CAPACITY: nat := 256

  /** A proof and its public signals, as JSON text. */
  datatype ProofResult = ProofResult(proof: seq<byte>, publicSignals: seq<byte>)

  /**
   * What the native prover does on a call: the status it returns, the bytes
   * it writes at the start of the proof, public and error buffers, and the
   * sizes it reports through `proof_size` and `public_size`.
   */
  datatype ProveReply = ProveReply(
    status: int,
    proof: seq<byte>,
    publicSignals: seq<byte>,
    error: seq<byte>,
    proofSize: nat,
    publicSize: nat)

  /** What the native verifier does on a call: its status and the bytes it writes into the error buffer. */
  datatype VerifyReply = VerifyReply(status: int, error: seq<byte>)

  /** One call across the boundary, with the arguments it was given. */
  datatype NativeCall =
    | ProverZkeyFile(
        zkeyPath: seq<byte>, wtns: seq<byte>, wtnsSize: nat,
        proofSize: nat, publicSize: nat, errorMaxSize: nat)
    | Verify(proof: seq<byte>, inputs: seq<byte>, verificationKey: seq<byte>, errorMaxSize: nat)

  /** A buffer after `bytes` were written at its start: as many as fit, the rest untouched. */
  function Fill(buf: seq<byte>, bytes: seq<byte>): (r: seq<byte>)
    ensures |r| == |buf|
    ensures forall i :: 0 <= i < |r| ==> r[i] == (if i < |bytes| then bytes[i] else buf[i])
  {
    if |bytes| >= |buf| then bytes[..|buf|] else bytes + buf[|bytes|..]
  }

  /** The C string a zero-filled buffer of capacity `cap` holds once `bytes` were written into it. */
  function ReadBack(cap: nat, bytes: seq<byte>): seq<byte>
  {
    CStr(Fill(Zeros(cap), bytes))
  }

  predicate NoNul(bs: seq<byte>)
  {
    forall i :: 0 <= i < |bs| ==> bs[i] != 0
  }

  /** `CString::new`: fails on an interior NUL, otherwise appends the terminator. */
  function CStringNew(bs: seq<byte>): (r: Option<seq<byte>>)
    ensures r.Some? <==> NoNul(bs)
    ensures r.Some? ==> r.value == bs + [0] && CStr(r.value) == bs
  {
    if NoNul(bs) then CStrOfText(bs, [0]); Some(bs + [0]) else None
  }

  const PROVE_FAILED: seq<byte> := Ascii("Proof generation failed: ")
  const VERIFY_FAILED: seq<byte> := Ascii("Proof verification failed: ")

  /**
   * The prove wrapper's result for a native reply: a non-zero status is an
   * error carrying the error buffer's text; status 0 gives the proof and
   * public buffers' texts.  The reported sizes play no part.
   */
  function ProveOutcome(reply: ProveReply): Result<ProofResult, seq<byte>>
  {
    if reply.status != 0 then Err(PROVE_FAILED + ReadBack(ERROR_CAPACITY, reply.error))
    else Ok(ProofResult(ReadBack(PROOF_CAPACITY, reply.proof), ReadBack(PUBLIC_CAPACITY, reply.publicSignals)))
  }

  /** The verify wrapper's result for a native reply: status 2 is an error, otherwise "valid" means status 0. */
  function VerifyOutcome(reply: VerifyReply): Result<bool, seq<byte>>
  {
    if reply.status == 2 then Err(VERIFY_FAILED + ReadBack(ERROR_CAPACITY, reply.error))
    else Ok(reply.status == 0)
  }

  /**
   * Every buffer the prove wrapper reads back from holds a NUL, so the
   * `CStr::from_ptr` scans stay inside the buffers.
   */
  predicate ProveReplyReadable(reply: ProveReply)
  {
    if reply.status != 0 then Terminated(Fill(Zeros(ERROR_CAPACITY), reply.error))
    else Terminated(Fill(Zeros(PROOF_CAPACITY), reply.proof)) && Terminated(Fill(Zeros(PUBLIC_CAPACITY), reply.publicSignals))
  }

  predicate VerifyReplyReadable(reply: VerifyReply)
  {
    reply.status == 2 ==> Terminated(Fill(Zeros(ERROR_CAPACITY), reply.error))
  }

  /** Writes `bytes` at the start of `buf`, as far as the buffer reaches. */
  method WriteBytes(buf: array<byte>, bytes: seq<byte>)
    modifies buf
    ensures buf[..] == Fill(old(buf[..]), bytes)
  {
    var n := if |bytes| < buf.Length then |bytes| else buf.Length;
    for i := 0 to n
      invariant forall k :: 0 <= k < buf.Length ==> buf[k] == (if k < i then bytes[k] else old(buf[k]))
    {
      buf[i] := bytes[i];
    }
    assert buf[..] == Fill(old(buf[..]), bytes);
  }

  /** The native rapidsnark library. */
  class Rapidsnark {
    /** Every call made so far, oldest first. */
    var calls: seq<NativeCall>
    var proveReply: ProveReply
    var verifyReply: VerifyReply

    constructor(proveReply: ProveReply, verifyReply: VerifyReply)
      ensures this.calls == [] && this.proveReply == proveReply && this.verifyReply == verifyReply
    {
      this.calls := [];
      this.proveReply := proveReply;
      this.verifyReply := verifyReply;
    }

    /** `groth16_prover_zkey_file`: fills the three buffers and reports sizes and status. */
    method Groth16ProverZkeyFile(
      zkeyPath: seq<byte>, wtns: seq<byte>, wtnsSize: nat,
      proofBuffer: array<byte>, proofSize: nat,
      publicBuffer: array<byte>, publicSize: nat,
      errorMsg: array<byte>, errorMsgMaxSize: nat)
      returns (status: int, proofSizeOut: nat, publicSizeOut: nat)
      requires proofBuffer != publicBuffer && proofBuffer != errorMsg && publicBuffer != errorMsg
      modifies this, proofBuffer, publicBuffer, errorMsg
      ensures calls == old(calls) + [ProverZkeyFile(zkeyPath, wtns, wtnsSize, proofSize, publicSize, errorMsgMaxSize)]
      ensures proveReply == old(proveReply) && verifyReply == old(verifyReply)
      ensures proofBuffer[..] == Fill(old(proofBuffer[..]), proveReply.proof)
      ensures publicBuffer[..] == Fill(old(publicBuffer[..]), proveReply.publicSignals)
      ensures errorMsg[..] == Fill(old(errorMsg[..]), proveReply.error)
      ensures status == proveReply.status
      ensures proofSizeOut == proveReply.proofSize && publicSizeOut == proveReply.publicSize
    {
      calls := calls + [ProverZkeyFile(zkeyPath, wtns, wtnsSize, proofSize, publicSize, errorMsgMaxSize)];
      WriteBytes(proofBuffer, proveReply.proof);
      WriteBytes(publicBuffer, proveReply.publicSignals);
      WriteBytes(errorMsg, proveReply.error);
      status, proofSizeOut, publicSizeOut := proveReply.status, proveReply.proofSize, proveReply.publicSize;
    }

    /** `groth16_verify`: fills the error buffer and reports the status. */
    method Groth16Verify(
      proof: seq<byte>, inputs: seq<byte>, verificationKey: seq<byte>,
      errorMsg: array<byte>, errorMsgMaxSize: nat)
      returns (status: int)
      modifies this, errorMsg
      ensures calls == old(calls) + [Verify(proof, inputs, verificationKey, errorMsgMaxSize)]
      ensures proveReply == old(proveReply) && verifyReply == old(verifyReply)
      ensures errorMsg[..] == Fill(old(errorMsg[..]), verifyReply.error)
      ensures status == verifyReply.status
    {
      calls := calls + [Verify(proof, inputs, verificationKey, errorMsgMaxSize)];
      WriteBytes(errorMsg, verifyReply.error);
      status := verifyReply.status;
    }
  }

  /**
   * `groth16_prover_zkey_file_wrapper`: allocates zero-filled buffers of
   * 4 MiB, 4 MiB and 256 bytes, makes exactly one native call with those
   * capacities, and reads the buffers back as C strings.
   */
  method Groth16ProverZkeyFileWrapper(native: Rapidsnark, zkeyPath: seq<byte>, wtnsBuffer: seq<byte>)
    returns (r: Result<ProofResult, seq<byte>>)
    requires ProveReplyReadable(native.proveReply)
    modifies native
    ensures native.calls == old(native.calls)
      + [ProverZkeyFile(zkeyPath, wtnsBuffer, |wtnsBuffer|, PROOF_CAPACITY, PUBLIC_CAPACITY, ERROR_CAPACITY)]
    ensures native.proveReply == old(native.proveReply) && native.verifyReply == old(native.verifyReply)
    ensures r == ProveOutcome(native.proveReply)
  {
    var wtnsSize := |wtnsBuffer|;
    var proofBuffer := new byte[PROOF_CAPACITY](_ => 0);
    var proofSize := PROOF_CAPACITY;
    var publicBuffer := new byte[PUBLIC_CAPACITY](_ => 0);
    var publicSize := PUBLIC_CAPACITY;
    var errorMsg := new byte[ERROR_CAPACITY](_ => 0);
    assert proofBuffer[..] == Zeros(PROOF_CAPACITY);
    assert publicBuffer[..] == Zeros(PUBLIC_CAPACITY);
    assert errorMsg[..] == Zeros(ERROR_CAPACITY);

    var result;
    result, proofSize, publicSize := native.Groth16ProverZkeyFile(
      zkeyPath, wtnsBuffer, wtnsSize,
      proofBuffer, proofSize, publicBuffer, publicSize,
      errorMsg, errorMsg.Length);
    if result != 0 {
      var errorString := ReadCString(errorMsg);
      return Err(PROVE_FAILED + errorString);
    }
    var proof := ReadCString(proofBuffer);
    var publicSignals := ReadCString(publicBuffer);
    return Ok(ProofResult(proof, publicSignals));
  }

  /**
   * `groth16_verify_wrapper`: passes the three texts NUL-terminated, makes
   * exactly one native call with a 256-byte error buffer, and maps the
   * status.  A text with an interior NUL makes `CString::new(..).unwrap()`
   * panic, hence the precondition.
   */
  method Groth16VerifyWrapper(native: Rapidsnark, proof: seq<byte>, inputs: seq<byte>, verificationKey: seq<byte>)
    returns (r: Result<bool, seq<byte>>)
    requires NoNul(proof) && NoNul(inputs) && NoNul(verificationKey)
    requires VerifyReplyReadable(native.verifyReply)
    modifies native
    ensures native.calls == old(native.calls)
      + [Verify(proof + [0], inputs + [0], verificationKey + [0], ERROR_CAPACITY)]
    ensures native.proveReply == old(native.proveReply) && native.verifyReply == old(native.verifyReply)
    ensures r == VerifyOutcome(native.verifyReply)
  {
    var proofCstr := CStringNew(proof).value;
    var inputsCstr := CStringNew(inputs).value;
    var verificationKeyCstr := CStringNew(verificationKey).value;

    var errorMsg := new byte[ERROR_CAPACITY](_ => 0);
    assert errorMsg[..] == Zeros(ERROR_CAPACITY);
    var result := native.Groth16Verify(proofCstr, inputsCstr, verificationKeyCstr, errorMsg, errorMsg.Length);
    if result == 2 {
      var errorString := ReadCString(errorMsg);
      return Err(VERIFY_FAILED + errorString);
    }
    return Ok(result == 0);
  }

  // ---------------------------------------------------------------------
  // Lemmas
  // ---------------------------------------------------------------------

  /** Text free of NUL and shorter than the buffer is read back whole. */
  lemma ReadBackShort(cap: nat, text: seq<byte>)
    requires NoNul(text) && |text| < cap
    ensures ReadBack(cap, text) == text
  {
    var buf := Fill(Zeros(cap), text);
    assert buf == text + Zeros(cap - |text|);
    CStrOfText(text, Zeros(cap - |text|));
  }

  /** Whatever the native side writes, the text read back is the written bytes up to their first NUL. */
  lemma ReadBackPrefix(cap: nat, bytes: seq<byte>)
    ensures var t := ReadBack(cap, bytes);
      |t| < cap ==> (|t| <= |bytes| ==> t == bytes[..|t|]) && (|t| < |bytes| ==> bytes[|t|] == 0)
    ensures NoNul(ReadBack(cap, bytes))
  {
  }

  /** A buffer never yields more text than it holds. */
  lemma ReadBackBounded(cap: nat, bytes: seq<byte>)
    ensures |ReadBack(cap, bytes)| <= cap && |ReadBack(cap, bytes)| <= |bytes|
  {
    var buf := Fill(Zeros(cap), bytes);
    var t := CStr(buf);
    if |t| > |bytes| {
      assert buf[|bytes|] == 0;
      assert t[|bytes|] == buf[|bytes|];
    }
  }

  /** The prove wrapper fails exactly when the native status is non-zero. */
  lemma ProveFailsIffNonzero(reply: ProveReply)
    ensures ProveOutcome(reply).Err? <==> reply.status != 0
    ensures ProveOutcome(reply).Err? ==> PROVE_FAILED <= ProveOutcome(reply).error
  {
  }

  /** The sizes the native side reports never affect the result. */
  lemma ProveIgnoresSizes(reply: ProveReply, proofSize: nat, publicSize: nat)
    ensures ProveOutcome(reply.(proofSize := proofSize, publicSize := publicSize)) == ProveOutcome(reply)
  {
  }

  /** An empty error message leaves just the fixed prefix. */
  lemma EmptyProveError(reply: ProveReply)
    requires reply.status != 0 && reply.error == []
    ensures ProveOutcome(reply) == Err(Ascii("Proof generation failed: "))
  {
    ReadBackShort(ERROR_CAPACITY, []);
    assert PROVE_FAILED + [] == PROVE_FAILED;
  }

  /** On success the proof and the public signals are returned as the native side wrote them, provided they fit. */
  lemma ProveSuccess(reply: ProveReply)
    requires reply.status == 0
    requires NoNul(reply.proof) && |reply.proof| < PROOF_CAPACITY
    requires NoNul(reply.publicSignals) && |reply.publicSignals| < PUBLIC_CAPACITY
    ensures ProveOutcome(reply) == Ok(ProofResult(reply.proof, reply.publicSignals))
  {
    ReadBackShort(PROOF_CAPACITY, reply.proof);
    ReadBackShort(PUBLIC_CAPACITY, reply.publicSignals);
  }

  /** Status 0 means valid, 2 means failure, every other status (1 included) means invalid. */
  lemma VerifyStatus(reply: VerifyReply)
    ensures VerifyOutcome(reply) == Ok(true) <==> reply.status == 0
    ensures VerifyOutcome(reply) == Ok(false) <==> reply.status != 0 && reply.status != 2
    ensures VerifyOutcome(reply).Err? <==> reply.status == 2
    ensures reply.status == 2 ==> VerifyOutcome(reply).error == VERIFY_FAILED + ReadBack(ERROR_CAPACITY, reply.error)
  {
  }
}
