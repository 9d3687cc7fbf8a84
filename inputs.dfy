/**
 * Named circuit inputs and the witness function that turns them into the
 * full wire assignment.
 */
module CircuitInputs {
  import opened Wrappers
  import opened Decimal

  /** `HashMap<String, Vec<String>>`: named inputs as base-10 text. */
  type RawInputs = map<string, seq<string>>

  /** `HashMap<String, Vec<BigInt>>`: named inputs as integers. */
  type Inputs = map<string, seq<int>>

  /** `WtnsFn`: the circuit-specific witness generator, opaque to this layer. */
  type WtnsFn = Inputs -> seq<int>

  /** Every input text is accepted by `BigInt::from_str` (otherwise `unwrap` panics). */
  predicate AllParse(inputs: RawInputs)
  {
    forall k <- inputs :: forall i :: 0 <= i < |inputs[k]| ==> ParseBigInt(inputs[k][i]).Some?
  }

  /**
   * The `into_iter().map(..).collect()` pipeline: every value of every input
   * parsed as base 10, keys and order kept.
   */
  function ParseInputs(inputs: RawInputs): (r: Inputs)
    requires AllParse(inputs)
    ensures r.Keys == inputs.Keys
    ensures forall k <- r :: |r[k]| == |inputs[k]|
    ensures forall k <- r :: forall i :: 0 <= i < |r[k]| ==> ParseBigInt(inputs[k][i]) == Some(r[k][i])
  {
    map k | k in inputs :: seq(|inputs[k]|, i requires 0 <= i < |inputs[k]| => ParseBigInt(inputs[k][i]).value)
  }
}
