/**
 * NUL-terminated text read back from a byte buffer, as
 * `CStr::from_ptr(ptr)` does: everything before the first NUL byte.
 */
module CStrings {
  import opened Bytes

  /** The C string a buffer holds: its bytes before the first NUL, or all of it if it has none. */
  function CStr(bs: seq<byte>): (r: seq<byte>)
    ensures |r| <= |bs| && r == bs[..|r|]
    ensures forall i :: 0 <= i < |r| ==> r[i] != 0
    ensures |r| < |bs| ==> bs[|r|] == 0
  {
    if bs == [] || bs[0] == 0 then [] else [bs[0]] + CStr(bs[1..])
  }

  /** A buffer whose C string ends inside it: reading it does not run past its end. */
  predicate Terminated(bs: seq<byte>)
  {
    exists i :: 0 <= i < |bs| && bs[i] == 0
  }

  /** Text without a NUL byte is its own C string once a NUL follows it. */
  lemma {:induction false} CStrOfText(text: seq<byte>, rest: seq<byte>)
    requires forall i :: 0 <= i < |text| ==> text[i] != 0
    requires rest == [] || rest[0] == 0
    ensures CStr(text + rest) == text
  {
    if text != [] {
      assert (text + rest)[1..] == text[1..] + rest;
      CStrOfText(text[1..], rest);
    }
  }

  /**
   * `CStr::from_ptr` on a buffer: scans for the terminating NUL.  The buffer
   * must hold one, otherwise the scan runs past its end.
   */
  method ReadCString(buf: array<byte>) returns (s: seq<byte>)
    requires Terminated(buf[..])
    ensures s == CStr(buf[..])
  {
    ghost var z :| 0 <= z < buf.Length && buf[z] == 0;
    var i := 0;
    while buf[i] != 0
      invariant 0 <= i <= z
      invariant forall k :: 0 <= k < i ==> buf[k] != 0
      decreases z - i
    {
      i := i + 1;
    }
    s := buf[..i];
    CStrOfText(s, buf[i..]);
    assert buf[..] == s + buf[i..];
  }
}
