/**
 * The helpers the integration tests use to feed a circuit: bytes expanded
 * into bits least-significant first, the bits as "0"/"1" strings under the
 * single input "in", and the witness pipeline that ends in a `wtns` file.
 */
module TestHelpers {
  import opened Wrappers
  import opened Bytes
  import opened Decimal
  import opened CircuitInputs
  import Wtns

  /** `byte >> j`. */
  function Shr(b: nat, j: nat): (r: nat)
    ensures r <= b
  {
    if j == 0 then b else Shr(b / 2, j - 1)
  }

  /** `(byte >> j) & 1 == 1`. */
  predicate Bit(b: byte, j: nat)
  {
    Shr(b, j) % 2 == 1
  }

  /** The eight bits of one byte, least significant first. */
  function ByteBits(b: byte): (r: seq<bool>)
    ensures |r| == 8
  {
    seq(8, j requires 0 <= j < 8 => Bit(b, j))
  }

  /** The bits of all bytes, byte order kept. */
  function BitsOf(bytes: seq<byte>): (r: seq<bool>)
    ensures |r| == 8 * |bytes|
  {
    if bytes == [] then [] else BitsOf(bytes[..|bytes| - 1]) + ByteBits(bytes[|bytes| - 1])
  }

  /** `bytes_to_bits`: two nested loops pushing one bit at a time. */
  method BytesToBits(bytes: seq<byte>) returns (bits: seq<bool>)
    ensures bits == BitsOf(bytes)
  {
    bits := [];
    for i := 0 to |bytes|
      invariant bits == BitsOf(bytes[..i])
    {
      var byte := bytes[i];
      for j := 0 to 8
        invariant bits == BitsOf(bytes[..i]) + ByteBits(byte)[..j]
      {
        var bit := Shr(byte, j) % 2;
        assert ByteBits(byte)[..j + 1] == ByteBits(byte)[..j] + [bit == 1];
        bits := bits + [bit == 1];
      }
      assert bytes[..i + 1][..i] == bytes[..i];
      assert ByteBits(byte)[..8] == ByteBits(byte);
    }
    assert bytes[..|bytes|] == bytes;
  }

  /** `(bit as i32).to_string()`. */
  function BitString(bit: bool): string
  {
    if bit then "1" else "0"
  }

  /** The inputs `bytes_to_circuit_inputs` builds: one key, "in", with one string per bit. */
  function CircuitInputsOf(input: seq<byte>): RawInputs
  {
    var bits := BitsOf(input);
    map["in" := seq(|bits|, k requires 0 <= k < |bits| => BitString(bits[k]))]
  }

  /** `bytes_to_circuit_inputs`. */
  method BytesToCircuitInputs(inputVec: seq<byte>) returns (inputs: RawInputs)
    ensures inputs == CircuitInputsOf(inputVec)
  {
    var bits := BytesToBits(inputVec);
    var convertedVec := seq(|bits|, k requires 0 <= k < |bits| => BitString(bits[k]));
    inputs := map[];
    inputs := inputs["in" := convertedVec];
  }

  /**
   * `compute_witness`: every input parsed as base 10, the witness function
   * applied, the result encoded as a `wtns` file.  Unparsable input makes the
   * `unwrap` panic, hence the precondition.
   */
  method ComputeWitness(inputs: RawInputs, witnessFn: WtnsFn) returns (r: Result<seq<byte>, Wtns.IoError>)
    requires AllParse(inputs)
    ensures r == Ok(Wtns.WtnsFile(witnessFn(ParseInputs(inputs))))
  {
    var bigintInputs := ParseInputs(inputs);
    var wtns := witnessFn(bigintInputs);
    r := Wtns.ParseBigintsToWitness(wtns);
  }

  // ---------------------------------------------------------------------
  // Lemmas
  // ---------------------------------------------------------------------

  /** Bit 8 i + j is bit j of byte i. */
  lemma {:induction false} BitAt(bytes: seq<byte>, i: nat, j: nat)
    requires i < |bytes| && j < 8
    ensures BitsOf(bytes)[8 * i + j] == Bit(bytes[i], j)
  {
    var last := |bytes| - 1;
    if i < last {
      BitAt(bytes[..last], i, j);
    }
  }

  lemma ShrStep(b: nat, j: nat)
    ensures Shr(b, j + 1) == Shr(b / 2, j)
  {
  }

  /** Reassembles a little-endian bit string into its number. */
  function FromBits(bits: seq<bool>): (r: nat)
    ensures r < Pow2(|bits|)
  {
    if bits == [] then 0 else (if bits[0] then 1 else 0) + 2 * FromBits(bits[1..])
  }

  function Pow2(k: nat): (r: nat)
    ensures r >= 1
  {
    if k == 0 then 1 else 2 * Pow2(k - 1)
  }

  /** Regrouping the bits eight at a time. */
  function BitsToBytes(bits: seq<bool>): (r: seq<byte>)
    requires |bits| % 8 == 0
    ensures |r| == |bits| / 8
  {
    if bits == [] then []
    else
      var b := FromBits(bits[..8]);
      assert b < 256 by { assert Pow2(8) == 256; }
      [b] + BitsToBytes(bits[8..])
  }

  /** The low k bits of b, least significant first. */
  function LowBits(b: nat, k: nat): (r: seq<bool>)
    ensures |r| == k
  {
    seq(k, j requires 0 <= j < k => Shr(b, j) % 2 == 1)
  }

  /** The low k bits of b, least significant first, reassemble to b modulo 2^k. */
  lemma {:induction false} FromLowBits(b: nat, k: nat)
    ensures FromBits(LowBits(b, k)) == b % Pow2(k)
  {
    if k > 0 {
      var s := LowBits(b, k);
      var t := LowBits(b / 2, k - 1);
      forall j | 0 <= j < k - 1
        ensures s[1..][j] == t[j]
      {
        ShrStep(b, j);
      }
      assert s[1..] == t;
      FromLowBits(b / 2, k - 1);
      ModPow2Step(b, k);
    }
  }

  lemma ModPow2Step(b: nat, k: nat)
    requires k > 0
    ensures b % Pow2(k) == b % 2 + 2 * ((b / 2) % Pow2(k - 1))
  {
    var p := Pow2(k - 1);
    var q, r := b / 2, b % 2;
    var q2, r2 := q / p, q % p;
    assert b == 2 * q + r;
    assert q == p * q2 + r2;
    assert b == (2 * p) * q2 + (2 * r2 + r);
    assert 0 <= 2 * r2 + r < 2 * p;
    DivModUnique(b, 2 * p, q2, 2 * r2 + r);
  }

  /** The eight bits of a byte reassemble to the byte. */
  lemma ByteOfBits(b: byte)
    ensures FromBits(ByteBits(b)) == b
  {
    FromLowBits(b, 8);
    assert ByteBits(b) == LowBits(b, 8);
    assert Pow2(8) == 256;
  }

  /** Regrouping the bits eight at a time, least significant first, gives back the bytes. */
  lemma {:induction false} BitsRoundTrip(bytes: seq<byte>)
    ensures BitsToBytes(BitsOf(bytes)) == bytes
  {
    if bytes != [] {
      var bits := BitsOf(bytes);
      var first := bytes[0];
      BitsOfCons(bytes);
      assert bits[..8] == ByteBits(first);
      assert bits[8..] == BitsOf(bytes[1..]);
      ByteOfBits(first);
      BitsRoundTrip(bytes[1..]);
      assert [first] + bytes[1..] == bytes;
    }
  }

  /** The bits of a byte string start with the bits of its first byte. */
  lemma {:induction false} BitsOfCons(bytes: seq<byte>)
    requires bytes != []
    ensures BitsOf(bytes) == ByteBits(bytes[0]) + BitsOf(bytes[1..])
  {
    var n := |bytes|;
    if n > 1 {
      BitsOfCons(bytes[..n - 1]);
      assert bytes[..n - 1][1..] == bytes[1..][..n - 2];
      assert bytes[..n - 1][0] == bytes[0];
    } else {
      assert bytes[..n - 1] == [];
      assert bytes[1..] == [];
    }
  }

  /** One key, "in", with one "0" or "1" per bit, in bit order. */
  lemma CircuitInputsShape(input: seq<byte>)
    ensures var inputs := CircuitInputsOf(input);
      && inputs.Keys == {"in"}
      && |inputs["in"]| == 8 * |input|
      && forall i, j :: 0 <= i < |input| && 0 <= j < 8 ==>
           inputs["in"][8 * i + j] == (if Bit(input[i], j) then "1" else "0")
  {
    var inputs := CircuitInputsOf(input);
    forall i, j | 0 <= i < |input| && 0 <= j < 8
      ensures inputs["in"][8 * i + j] == (if Bit(input[i], j) then "1" else "0")
    {
      BitAt(input, i, j);
    }
  }

  /** The circuit inputs always parse, each to 0 or 1 according to its bit. */
  lemma CircuitInputsParse(input: seq<byte>)
    ensures AllParse(CircuitInputsOf(input))
    ensures var parsed := ParseInputs(CircuitInputsOf(input));
      var bits := BitsOf(input);
      && parsed.Keys == {"in"}
      && |parsed["in"]| == |bits|
      && forall k :: 0 <= k < |bits| ==> parsed["in"][k] == (if bits[k] then 1 else 0)
  {
    DecimalRoundTrip(0);
    DecimalRoundTrip(1);
    assert NatToDecimal(0) == "0" && NatToDecimal(1) == "1";
    var inputs := CircuitInputsOf(input);
    assert AllParse(inputs);
  }
}
