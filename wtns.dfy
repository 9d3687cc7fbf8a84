/**
 * The iden3 `wtns` witness container written by `parse_bigints_to_witness`
 * (the layout witnesscalc uses): magic "wtns", version 2, two sections.
 *
 *   offset  0: "wtns" | version u32 | section count u32
 *   offset 12: section 1 id u32 = 1 | length u64 = 40
 *   offset 24: n8 u32 = 32 | q, 32 bytes | witness count u32
 *   offset 64: section 2 id u32 = 2 | length u64 = 32 * n
 *   offset 76: n values, 32 little-endian bytes each
 *
 * The decoder is not part of the Rust code; it is the inverse the format
 * promises, used to state the round trip.
 */
module Wtns {
  import opened Wrappers
  import opened Bytes

  const VERSION: nat := 2
  const N_SECTIONS: nat := 2
  const N8: nat := 32
  /** The BN254 scalar field modulus. */
  const Q: nat := 21888242871839275222246405745257275088548364400416034343698204186575808495617
  const U32_LIMIT: nat := 0x1_0000_0000
  const U64_LIMIT: nat := 0x1_0000_0000_0000_0000
  /** Bytes before the first witness value. */
  const DATA_OFFSET: nat := 76

  /** The error type of `io::Result`; the encoder never produces one. */
  datatype IoError = IoError(message: string)

  function Magic(): (r: seq<byte>)
    ensures |r| == 4
  {
    Ascii("wtns")
  }

  /** One value: `to_le_bytes` (minimal two's complement) resized to n8 bytes. */
  function Slot(v: int): (r: seq<byte>)
    ensures |r| == N8
  {
    Resize(SignedLe(v), N8, 0)
  }

  /** The section-2 payload: the values' slots in order. */
  function Slots(vs: seq<int>): (r: seq<byte>)
    ensures |r| == N8 * |vs|
  {
    if vs == [] then [] else Slots(vs[..|vs| - 1]) + Slot(vs[|vs| - 1])
  }

  /**
   * Everything before the first value, for `n` values, piece by piece in
   * the order the Rust code appends the pieces.
   */
  function Header(n: nat): seq<byte>
  {
    Magic() + Le(VERSION, 4) + Le(N_SECTIONS, 4)
    + Le(1, 4) + Le(8 + N8, 8) + Le(N8, 4) + SignedLe(Q) + Le(n % U32_LIMIT, 4)
    + Le(2, 4) + Le(n * N8, 8)
  }

  /** The container `parse_bigints_to_witness` returns for `bigints`. */
  function WtnsFile(bigints: seq<int>): seq<byte>
  {
    Header(|bigints|) + Slots(bigints)
  }

  /** `parse_bigints_to_witness`: appends header, both sections and every value to a growing buffer. */
  method ParseBigintsToWitness(bigints: seq<int>) returns (r: Result<seq<byte>, IoError>)
    ensures r == Ok(WtnsFile(bigints))
  {
    var buffer: seq<byte> := [];
    var version, nSections, n8 := VERSION, N_SECTIONS, N8;
    var q := Q;
    var nWitnessValues := |bigints| % U32_LIMIT;  // `as u32`

    buffer := buffer + Ascii("wtns");
    assert buffer == Magic();
    buffer := buffer + Le(version, 4);
    buffer := buffer + Le(nSections, 4);

    var sectionId1, sectionLength1 := 1, 8 + n8;
    buffer := buffer + Le(sectionId1, 4);
    buffer := buffer + Le(sectionLength1, 8);
    buffer := buffer + Le(n8, 4);
    buffer := buffer + SignedLe(q);
    buffer := buffer + Le(nWitnessValues, 4);

    var sectionId2, sectionLength2 := 2, |bigints| * n8;
    buffer := buffer + Le(sectionId2, 4);
    buffer := buffer + Le(sectionLength2, 8);
    assert buffer == Header(|bigints|);

    buffer := AppendValues(buffer, bigints);
    return Ok(buffer);
  }

  /** The value loop of `parse_bigints_to_witness`: each value's slot is appended in order. */
  method AppendValues(header: seq<byte>, bigints: seq<int>) returns (buffer: seq<byte>)
    ensures buffer == header + Slots(bigints)
  {
    buffer := header;
    for i := 0 to |bigints|
      invariant buffer == header + Slots(bigints[..i])
    {
      var bytes := SignedLe(bigints[i]);
      bytes := Resize(bytes, N8, 0);
      SlotsSnoc(bigints, i);
      Assoc(header, Slots(bigints[..i]), bytes);
      buffer := buffer + bytes;
    }
    assert bigints[..|bigints|] == bigints;
  }

  lemma SlotsSnoc(vs: seq<int>, i: nat)
    requires i < |vs|
    ensures Slots(vs[..i + 1]) == Slots(vs[..i]) + Slot(vs[i])
  {
    assert vs[..i + 1][..i] == vs[..i];
  }

  // ---------------------------------------------------------------------
  // The three parts of a container
  // ---------------------------------------------------------------------

  /** Magic, version and section count (offsets 0-11). */
  function Preamble(): seq<byte>
  {
    Magic() + Le(VERSION, 4) + Le(N_SECTIONS, 4)
  }

  /**
   * Section 1, field parameters (offsets 12-63): id 1, declared length 8 + n8,
   * then n8, q and the witness count truncated to u32.
   */
  function FieldSection(n: nat): (r: seq<byte>)
    ensures |r| == 52
  {
    QEncoding();
    Le(1, 4) + Le(8 + N8, 8) + Le(N8, 4) + SignedLe(Q) + Le(n % U32_LIMIT, 4)
  }

  /** Section 2, witness data (from offset 64): id 2, declared length n * n8, then the slots. */
  function DataSection(vs: seq<int>): seq<byte>
  {
    Le(2, 4) + Le(|vs| * N8, 8) + Slots(vs)
  }

  // ---------------------------------------------------------------------
  // Decoder (the inverse of the format)
  // ---------------------------------------------------------------------

  datatype DecodeError =
    | Truncated
    | BadMagic
    | BadVersion
    | BadSectionCount
    | BadFieldSection
    | BadField
    | BadDataSection
    | BadLength
    | NotReduced(index: nat)

  /** Checks magic, version and section count. */
  predicate PreambleOk(pre: seq<byte>)
    requires |pre| == 12
  {
    pre[..4] == Magic() && LeValue(pre[4..8]) == VERSION && LeValue(pre[8..]) == N_SECTIONS
  }

  /** Checks section 1 and yields the witness count it declares. */
  function DecodeFieldSection(fs: seq<byte>): Result<nat, DecodeError>
    requires |fs| == 52
  {
    if LeValue(fs[..4]) != 1 || LeValue(fs[4..12]) != 8 + N8 then Err(BadFieldSection)
    else if LeValue(fs[12..16]) != N8 || LeValue(fs[16..48]) != Q then Err(BadField)
    else Ok(LeValue(fs[48..]))
  }

  /** Slot values of `n` consecutive 32-byte slots; each must be below q. */
  function DecodeSlots(data: seq<byte>, n: nat): Result<seq<int>, DecodeError>
    requires |data| == N8 * n
  {
    if n == 0 then Ok([])
    else
      match DecodeSlots(data[..N8 * (n - 1)], n - 1)
      case Err(e) => Err(e)
      case Ok(vs) =>
        var v := LeValue(data[N8 * (n - 1)..]);
        if v < Q then Ok(vs + [v]) else Err(NotReduced(n - 1))
  }

  /** Checks section 2 against the declared count `n` and reads its values. */
  function DecodeDataSection(ds: seq<byte>, n: nat): Result<seq<int>, DecodeError>
    requires |ds| >= 12
  {
    if LeValue(ds[..4]) != 2 || LeValue(ds[4..12]) != n * N8 then Err(BadDataSection)
    else if |ds| != 12 + n * N8 then Err(BadLength)
    else DecodeSlots(ds[12..], n)
  }

  /** Reads a `wtns` container, checking every header field before trusting the payload. */
  function DecodeWtns(bs: seq<byte>): Result<seq<int>, DecodeError>
  {
    if |bs| < DATA_OFFSET then Err(Truncated)
    else if !PreambleOk(bs[..12]) then
      if bs[..4] != Magic() then Err(BadMagic)
      else if LeValue(bs[4..8]) != VERSION then Err(BadVersion)
      else Err(BadSectionCount)
    else
      match DecodeFieldSection(bs[12..64])
      case Err(e) => Err(e)
      case Ok(n) => DecodeDataSection(bs[64..], n)
  }

  /** Every value is a reduced field element. */
  predicate Reduced(vs: seq<int>)
  {
    forall i :: 0 <= i < |vs| ==> 0 <= vs[i] < Q
  }

  // ---------------------------------------------------------------------
  // Lemmas
  // ---------------------------------------------------------------------

  lemma PowSmall()
    ensures Pow256(4) == U32_LIMIT && Pow256(8) == U64_LIMIT
  {
    assert Pow256(8) == 0x10000000000000000;
  }

  lemma PowBig()
    ensures Pow256(31) == 0x100000000000000000000000000000000000000000000000000000000000000
    ensures Pow256(32) == 256 * Pow256(31)
  {
    assert Pow256(8) == 0x10000000000000000;
    assert Pow256(12) == 0x1000000000000000000000000;
    assert Pow256(16) == 0x100000000000000000000000000000000;
    assert Pow256(20) == 0x10000000000000000000000000000000000000000;
    assert Pow256(24) == 0x1000000000000000000000000000000000000000000000000;
    assert Pow256(28) == 0x100000000000000000000000000000000000000000000000000000000;
    assert Pow256(30) == 0x1000000000000000000000000000000000000000000000000000000000000;
  }

  /** q fits in 32 signed bytes with its top byte below 0x80, so section 1 really is 40 bytes long. */
  lemma QEncoding()
    ensures SignedLe(Q) == Le(Q, N8) && |SignedLe(Q)| == N8
    ensures SignedLe(Q)[N8 - 1] < 0x80
    ensures LeValue(SignedLe(Q)) == Q
  {
    PowBig();
    assert SignBound(31) <= Q < SignBound(32);
    SignedLeLength(Q, 32);
    SignedLeNonneg(Q);
    LeValueOfLe(Q, N8);
    var top := SignedLe(Q)[N8 - 1];
    LeValueTopByte(SignedLe(Q));
    assert LeValue(SignedLe(Q)[..N8 - 1]) + Pow256(N8 - 1) * top == Q;
    assert Pow256(N8 - 1) * top <= Q;
    assert Pow256(N8 - 1) * 0x80 == SignBound(32);
  }

  lemma {:induction false} LeValueTopByte(bs: seq<byte>)
    requires |bs| >= 1
    ensures LeValue(bs) == LeValue(bs[..|bs| - 1]) + Pow256(|bs| - 1) * bs[|bs| - 1]
  {
    if |bs| > 1 {
      var t := bs[1..];
      var k := |t| - 1;
      LeValueTopByte(t);
      assert t[..k] == bs[..|bs| - 1][1..];
      assert LeValue(bs[..|bs| - 1]) == bs[0] + 256 * LeValue(t[..k]);
      assert Pow256(k + 1) == 256 * Pow256(k);
      assert t[k] == bs[|bs| - 1];
      var top, lo := Pow256(k) * t[k], LeValue(t[..k]);
      assert 256 * (lo + top) == 256 * lo + 256 * top;
      assert 256 * top == Pow256(k + 1) * t[k];
    }
  }

  lemma Assoc(a: seq<byte>, b: seq<byte>, c: seq<byte>)
    ensures a + b + c == a + (b + c)
  {
  }

  /** The three pieces of a concatenation are found again at their offsets. */
  lemma Cut3(a: seq<byte>, b: seq<byte>, c: seq<byte>)
    ensures var f := a + b + c;
      f[..|a|] == a && f[|a|..|a| + |b|] == b && f[|a| + |b|..] == c
  {
  }

  /** The container is its three parts in order: offsets 0-11, 12-63 and from 64. */
  lemma WtnsParts(bigints: seq<int>)
    ensures WtnsFile(bigints) == Preamble() + FieldSection(|bigints|) + DataSection(bigints)
  {
    var n := |bigints|;
    var p := Preamble();
    var id1, l1, w, q, c := Le(1, 4), Le(8 + N8, 8), Le(N8, 4), SignedLe(Q), Le(n % U32_LIMIT, 4);
    var id2, l2, sl := Le(2, 4), Le(n * N8, 8), Slots(bigints);
    Assoc(p, id1, l1);
    Assoc(p, id1 + l1, w);
    Assoc(p, id1 + l1 + w, q);
    Assoc(p, id1 + l1 + w + q, c);
    var f := FieldSection(n);
    assert p + id1 + l1 + w + q + c == p + f;
    Assoc(p + f, id2, l2);
    Assoc(p + f, id2 + l2, sl);
  }

  /** Header: "wtns", version 2 and section count 2, each count as u32 LE (offsets 0-11). */
  lemma PreambleFields()
    ensures var p := Preamble();
      |p| == 12 && p[..4] == Ascii("wtns") && LeValue(p[4..8]) == 2 && LeValue(p[8..]) == 2
  {
    Cut3(Magic(), Le(VERSION, 4), Le(N_SECTIONS, 4));
    PowSmall();
    LeValueOfLe(VERSION, 4);
    LeValueOfLe(N_SECTIONS, 4);
  }

  /**
   * Section 1 (offsets 12-63): id 1 and declared length 40, then n8 = 32,
   * q in exactly 32 bytes, and the witness count (`as u32`); the payload
   * is as long as declared.
   */
  lemma FieldSectionFields(n: nat)
    ensures var f := FieldSection(n);
      && |f| == 52
      && LeValue(f[..4]) == 1 && LeValue(f[4..12]) == 40
      && |f[12..]| == LeValue(f[4..12])
      && LeValue(f[12..16]) == N8
      && f[16..48] == Le(Q, 32) && LeValue(f[16..48]) == Q
      && LeValue(f[48..]) == n % U32_LIMIT
  {
    var a, b := Le(1, 4), Le(8 + N8, 8);
    var t := Le(N8, 4) + SignedLe(Q) + Le(n % U32_LIMIT, 4);
    FieldSectionSplit(n);
    PowSmall();
    LeValueOfLe(1, 4);
    LeValueOfLe(8 + N8, 8);
    FieldPayloadFields(n);
    SectionOfParts(FieldSection(n), a, b, t);
  }

  /** Section 1 is its 12-byte section header followed by its 40-byte payload. */
  lemma FieldSectionSplit(n: nat)
    ensures FieldSection(n) == Le(1, 4) + Le(8 + N8, 8) + (Le(N8, 4) + SignedLe(Q) + Le(n % U32_LIMIT, 4))
  {
    var a, b := Le(1, 4), Le(8 + N8, 8);
    Assoc(a + b + Le(N8, 4), SignedLe(Q), Le(n % U32_LIMIT, 4));
    Assoc(a + b, Le(N8, 4), SignedLe(Q) + Le(n % U32_LIMIT, 4));
  }

  lemma SectionOfParts(f: seq<byte>, a: seq<byte>, b: seq<byte>, t: seq<byte>)
    requires |a| == 4 && |b| == 8 && |t| == 40
    requires f == a + b + t || (|f| == 52 && a == f[..4] && b == f[4..12] && t == f[12..])
    ensures f == a + b + t && f[..4] == a && f[4..12] == b && f[12..] == t
    ensures f[12..16] == t[..4] && f[16..48] == t[4..36] && f[48..] == t[36..]
  {
  }

  lemma FieldPayloadFields(n: nat)
    ensures var t := Le(N8, 4) + SignedLe(Q) + Le(n % U32_LIMIT, 4);
      && |t| == 40
      && LeValue(t[..4]) == N8
      && t[4..36] == Le(Q, 32) && LeValue(t[4..36]) == Q
      && LeValue(t[36..]) == n % U32_LIMIT
  {
    QEncoding();
    PowSmall();
    Cut3(Le(N8, 4), SignedLe(Q), Le(n % U32_LIMIT, 4));
    LeValueOfLe(N8, 4);
    LeValueOfLe(n % U32_LIMIT, 4);
  }

  /**
   * Section 2 (from offset 64): id 2, declared length 32 n reduced modulo
   * 2^64 as the wrapping `u64` multiply gives it, then exactly n slots; the
   * declared length equals the payload's whenever it does not wrap.
   */
  lemma DataSectionFields(vs: seq<int>)
    ensures var d := DataSection(vs);
      && |d| == 12 + N8 * |vs|
      && LeValue(d[..4]) == 2 && LeValue(d[4..12]) == (N8 * |vs|) % U64_LIMIT
      && d[12..] == Slots(vs)
      && (N8 * |vs| < U64_LIMIT ==> |d[12..]| == LeValue(d[4..12]))
  {
    var m := |vs| * N8;
    assert m == N8 * |vs|;
    var d, len := DataSection(vs), Le(m, 8);
    Cut3(Le(2, 4), len, Slots(vs));
    assert d[4..12] == len;
    PowSmall();
    LeValueOfLe(2, 4);
    LengthField(m);
  }

  /** An 8-byte length field reads back as the length modulo 2^64, and as the length itself when it fits. */
  lemma LengthField(m: nat)
    ensures LeValue(Le(m, 8)) == m % U64_LIMIT
    ensures m < U64_LIMIT ==> LeValue(Le(m, 8)) == m
  {
    PowSmall();
    LeValueOfLeMod(m, 8);
    if m < U64_LIMIT {
      LeValueOfLe(m, 8);
    }
  }

  /** Offsets 0-11, 12-63 and 64- hold the three parts: the output is 76 + 32 n bytes long. */
  lemma WtnsLayout(bigints: seq<int>)
    ensures var f := WtnsFile(bigints);
      && |f| == DATA_OFFSET + N8 * |bigints|
      && f[..12] == Preamble() && f[12..64] == FieldSection(|bigints|) && f[64..] == DataSection(bigints)
      && f[DATA_OFFSET..] == Slots(bigints)
  {
    WtnsParts(bigints);
    PreambleFields();
    FieldSectionFields(|bigints|);
    var f := WtnsFile(bigints);
    var p, fs, ds := Preamble(), FieldSection(|bigints|), DataSection(bigints);
    Cut3(p, fs, ds);
    Cut3(Le(2, 4), Le(|bigints| * N8, 8), Slots(bigints));
    assert f[DATA_OFFSET..] == f[64..][12..];
  }

  /** Empty input still gives a well-formed container: 76 bytes, count 0, section-2 length 0. */
  lemma EmptyWitness()
    ensures |WtnsFile([])| == DATA_OFFSET
    ensures LeValue(WtnsFile([])[60..64]) == 0 && LeValue(WtnsFile([])[68..76]) == 0
  {
    WtnsLayout([]);
    FieldSectionFields(0);
    DataSectionFields([]);
    var f := WtnsFile([]);
    assert f[60..64] == FieldSection(0)[48..];
    assert f[68..76] == DataSection([])[4..12];
  }

  lemma {:induction false} SlotsAt(vs: seq<int>, i: nat)
    requires i < |vs|
    ensures Slots(vs)[N8 * i..N8 * i + N8] == Slot(vs[i])
  {
    var last := |vs| - 1;
    var pre := Slots(vs[..last]);
    if i < last {
      SlotsAt(vs[..last], i);
      assert Slots(vs)[N8 * i..N8 * i + N8] == pre[N8 * i..N8 * i + N8];
    } else {
      assert Slots(vs)[N8 * i..N8 * i + N8] == Slot(vs[last]);
    }
  }

  /**
   * The slot at offset 76 + 32 i holds value i: for a non-negative value its
   * 32-byte little-endian encoding, so it decodes to the value mod 2^256.
   */
  lemma ValueSlot(bigints: seq<int>, i: nat)
    requires i < |bigints|
    ensures var f, o := WtnsFile(bigints), DATA_OFFSET + N8 * i;
      o + N8 <= |f| && f[o..o + N8] == Slot(bigints[i])
    ensures var f, o := WtnsFile(bigints), DATA_OFFSET + N8 * i;
      bigints[i] >= 0 ==> f[o..o + N8] == Le(bigints[i], N8) && LeValue(f[o..o + N8]) == bigints[i] % Pow256(N8)
    ensures var f, o, v := WtnsFile(bigints), DATA_OFFSET + N8 * i, bigints[i];
      var L := |SignedLe(v)|;
      v < 0 && 0 <= v + SignBound(N8) ==>
        && L <= N8 && f[o..o + N8] == Le(v % Pow256(L), L) + Zeros(N8 - L)
        && LeValue(f[o..o + N8]) == v + Pow256(L)
  {
    SlotLocated(bigints, i);
    if bigints[i] >= 0 {
      SlotOfNonneg(bigints[i]);
    } else {
      SlotOfNegative(bigints[i]);
    }
  }

  lemma SlotLocated(bigints: seq<int>, i: nat)
    requires i < |bigints|
    ensures var f, o := WtnsFile(bigints), DATA_OFFSET + N8 * i;
      o + N8 <= |f| && f[o..o + N8] == Slot(bigints[i])
  {
    var f, j := WtnsFile(bigints), N8 * i;
    WtnsLayout(bigints);
    SlotsAt(bigints, i);
    assert j + N8 <= |f[DATA_OFFSET..]|;
    SubSlice(f, DATA_OFFSET, j, j + N8);
  }

  lemma SubSlice(f: seq<byte>, k: nat, a: nat, b: nat)
    requires a <= b && k + b <= |f|
    ensures f[k + a..k + b] == f[k..][a..b]
  {
  }

  /** A non-negative value's slot is its 32-byte encoding, which reads back as the value mod 2^256. */
  lemma SlotOfNonneg(v: int)
    requires v >= 0
    ensures Slot(v) == Le(v, N8) && LeValue(Slot(v)) == v % Pow256(N8)
  {
    ResizeSignedNonneg(v, N8);
    LeValueOfLeMod(v, N8);
  }

  /**
   * A negative value's slot is its shortest two's-complement bytes (the
   * L-byte encoding of v + 256^L) zero-padded or truncated to 32 bytes:
   * the 32-byte encoding of v + 256^L, not of v mod 2^256.  When the
   * encoding fits, the slot reads back as v + 256^L.
   */
  lemma SlotOfNegative(v: int)
    requires v < 0
    ensures var L := |SignedLe(v)|;
      && L >= 1 && 0 <= v + SignBound(L) && v + SignBound(L - 1) < 0
      && Slot(v) == Le(v % Pow256(L), N8)
      && (0 <= v + SignBound(N8) ==> L <= N8 && Slot(v) == Le(v % Pow256(L), L) + Zeros(N8 - L))
      && (L <= N8 ==> LeValue(Slot(v)) == v + Pow256(L))
  {
    SignedLeNeg(v);
    var L := |SignedLe(v)|;
    var x := v % Pow256(L);
    ResizeLe(x, L, N8);
    if L <= N8 {
      ResizePad(SignedLe(v), N8);
      LeValueOfLe(x, L);
      LeValueAppendZeros(Le(x, L), N8 - L);
    }
    if 0 <= v + SignBound(N8) && L > N8 {
      SignBoundOrder(N8, L - 1);
    }
  }

  /**
   * A negative value is not sign-extended: its two's-complement bytes are
   * padded with zeros, so -1 is written as the value 255.
   */
  lemma NegativeOneSlot()
    ensures Slot(-1) == [255] + Zeros(31)
    ensures LeValue(Slot(-1)) == 255
  {
    var s := Slot(-1);
    assert SignedLe(-1) == [255];
    assert s == [255] + Zeros(31);
    LeValueAppendZeros([255], 31);
  }

  lemma {:induction false} LeValueAppendZeros(bs: seq<byte>, m: nat)
    ensures LeValue(bs + Zeros(m)) == LeValue(bs)
  {
    if bs == [] {
      assert bs + Zeros(m) == Zeros(m);
      LeZero(m);
      LeValueOfLe(0, m);
    } else {
      assert (bs + Zeros(m))[1..] == bs[1..] + Zeros(m);
      LeValueAppendZeros(bs[1..], m);
    }
  }

  lemma SlotOfReduced(v: int)
    requires 0 <= v < Q
    ensures Slot(v) == Le(v, N8) && LeValue(Slot(v)) == v
  {
    ResizeSignedNonneg(v, N8);
    PowBig();
    LeValueOfLe(v, N8);
  }

  lemma {:induction false} DecodeSlotsOfSlots(vs: seq<int>)
    requires Reduced(vs)
    ensures DecodeSlots(Slots(vs), |vs|) == Ok(vs)
  {
    if vs != [] {
      var n := |vs|;
      var pre, last := vs[..n - 1], vs[n - 1];
      assert Slots(vs) == Slots(pre) + Slot(last);
      assert pre + [last] == vs;
      DecodeSlotsOfSlots(pre);
      SlotOfReduced(last);
      DecodeSlotsAppend(Slots(pre), Slot(last), n - 1, pre);
    }
  }

  /** One more reduced slot after decodable data decodes to one more value. */
  lemma DecodeSlotsAppend(pre: seq<byte>, slot: seq<byte>, m: nat, ws: seq<int>)
    requires |pre| == N8 * m && |slot| == N8
    requires DecodeSlots(pre, m) == Ok(ws) && LeValue(slot) < Q
    ensures DecodeSlots(pre + slot, m + 1) == Ok(ws + [LeValue(slot)])
  {
    var d := pre + slot;
    assert d[..N8 * m] == pre;
    assert d[N8 * m..] == slot;
  }

  lemma PreambleDecodes()
    ensures PreambleOk(Preamble())
  {
    PreambleFields();
  }

  lemma FieldSectionDecodes(n: nat)
    requires n < U32_LIMIT
    ensures DecodeFieldSection(FieldSection(n)) == Ok(n)
  {
    FieldSectionFields(n);
    FieldDecodeOf(FieldSection(n), n);
  }

  lemma FieldDecodeOf(fs: seq<byte>, n: nat)
    requires |fs| == 52 && n < U32_LIMIT
    requires LeValue(fs[..4]) == 1 && LeValue(fs[4..12]) == 40 && LeValue(fs[12..16]) == N8
    requires LeValue(fs[16..48]) == Q && LeValue(fs[48..]) == n % U32_LIMIT
    ensures DecodeFieldSection(fs) == Ok(n)
  {
  }

  lemma DataSectionDecodes(vs: seq<int>)
    requires Reduced(vs) && |vs| < U32_LIMIT
    ensures DecodeDataSection(DataSection(vs), |vs|) == Ok(vs)
  {
    PowSmall();
    DataSectionFields(vs);
    DecodeSlotsOfSlots(vs);
  }

  /** Round trip: decoding the encoding of reduced values gives them back, in order. */
  lemma DecodeOfEncode(bigints: seq<int>)
    requires Reduced(bigints) && |bigints| < U32_LIMIT
    ensures DecodeWtns(WtnsFile(bigints)) == Ok(bigints)
  {
    PowSmall();
    WtnsParts(bigints);
    PreambleFields();
    PreambleDecodes();
    FieldSectionDecodes(|bigints|);
    DataSectionFields(bigints);
    DataSectionDecodes(bigints);
    DecodeOfParts(Preamble(), FieldSection(|bigints|), DataSection(bigints), |bigints|, bigints);
  }

  /** The decoder reads the three parts independently. */
  lemma DecodeOfParts(p: seq<byte>, fs: seq<byte>, ds: seq<byte>, n: nat, vs: seq<int>)
    requires |p| == 12 && |fs| == 52 && |ds| >= 12
    requires PreambleOk(p) && DecodeFieldSection(fs) == Ok(n) && DecodeDataSection(ds, n) == Ok(vs)
    ensures DecodeWtns(p + fs + ds) == Ok(vs)
  {
    Cut3(p, fs, ds);
  }

  lemma DecodeSlotsLast(data: seq<byte>, n: nat, vs: seq<int>, pre: seq<byte>, last: seq<byte>)
    requires |data| == N8 * n && n > 0 && DecodeSlots(data, n) == Ok(vs)
    requires pre == data[..N8 * (n - 1)] && last == data[N8 * (n - 1)..]
    ensures |pre| == N8 * (n - 1) && |last| == N8 && data == pre + last
    ensures |vs| >= 1 && DecodeSlots(pre, n - 1) == Ok(vs[..|vs| - 1])
    ensures vs[|vs| - 1] == LeValue(last) < Q
  {
  }

  lemma {:induction false} SlotsOfDecodeSlots(data: seq<byte>, n: nat, vs: seq<int>)
    requires |data| == N8 * n && DecodeSlots(data, n) == Ok(vs)
    ensures |vs| == n && Reduced(vs) && Slots(vs) == data
  {
    if n > 0 {
      var pre, last := data[..N8 * (n - 1)], data[N8 * (n - 1)..];
      DecodeSlotsLast(data, n, vs, pre, last);
      var pvs, v := vs[..|vs| - 1], vs[|vs| - 1];
      SlotsOfDecodeSlots(pre, n - 1, pvs);
      SlotOfLast(last, v);
      SnocParts(pvs, v, vs);
    }
  }

  lemma SlotOfLast(last: seq<byte>, v: int)
    requires |last| == N8 && v == LeValue(last) < Q
    ensures 0 <= v < Q && Slot(v) == last
  {
    SlotOfReduced(v);
    LeOfLeValue(last);
  }

  lemma SnocParts(pvs: seq<int>, v: int, vs: seq<int>)
    requires |vs| >= 1 && pvs == vs[..|vs| - 1] && v == vs[|vs| - 1]
    requires Reduced(pvs) && 0 <= v < Q
    ensures Reduced(vs) && Slots(vs) == Slots(pvs) + Slot(v)
  {
    forall i | 0 <= i < |vs|
      ensures 0 <= vs[i] < Q
    {
      if i < |pvs| {
        assert vs[i] == pvs[i];
      }
    }
  }

  /** A byte string is its prefix, middle and suffix. */
  lemma Split3(p: seq<byte>, i: nat, j: nat)
    requires i <= j <= |p|
    ensures p == p[..i] + p[i..j] + p[j..]
  {
  }

  lemma PreambleOfDecode(pre: seq<byte>)
    requires |pre| == 12 && PreambleOk(pre)
    ensures pre == Preamble()
  {
    PowSmall();
    LeOfLeValue(pre[4..8]);
    LeOfLeValue(pre[8..]);
    Split3(pre, 4, 8);
  }

  lemma FieldSectionOfDecode(fs: seq<byte>, n: nat)
    requires |fs| == 52 && DecodeFieldSection(fs) == Ok(n)
    ensures n < U32_LIMIT && fs == FieldSection(n)
  {
    PowSmall();
    LeOfLeValue(fs[..4]);
    LeOfLeValue(fs[4..12]);
    SectionOfParts(fs, fs[..4], fs[4..12], fs[12..]);
    FieldPayloadOfDecode(fs[12..], n);
    FieldSectionSplit(n);
  }

  lemma FieldPayloadOfDecode(t: seq<byte>, n: nat)
    requires |t| == 40 && LeValue(t[..4]) == N8 && LeValue(t[4..36]) == Q && LeValue(t[36..]) == n
    ensures n < U32_LIMIT && t == Le(N8, 4) + SignedLe(Q) + Le(n % U32_LIMIT, 4)
  {
    PowSmall();
    QEncoding();
    LeOfLeValue(t[..4]);
    LeOfLeValue(t[4..36]);
    LeOfLeValue(t[36..]);
    assert n % U32_LIMIT == n;
    Split3(t, 4, 36);
  }

  lemma DataSectionOfDecode(ds: seq<byte>, n: nat, vs: seq<int>)
    requires |ds| >= 12 && DecodeDataSection(ds, n) == Ok(vs)
    ensures |vs| == n && Reduced(vs) && ds == DataSection(vs)
  {
    PowSmall();
    SlotsOfDecodeSlots(ds[12..], n, vs);
    LeOfLeValue(ds[..4]);
    LeOfLeValue(ds[4..12]);
    Split3(ds, 4, 12);
  }

  /** The decoder accepts nothing but encodings: whatever it reads back re-encodes to the same bytes. */
  lemma EncodeOfDecode(bs: seq<byte>, vs: seq<int>)
    requires DecodeWtns(bs) == Ok(vs)
    ensures Reduced(vs) && |vs| < U32_LIMIT
    ensures WtnsFile(vs) == bs
  {
    var n := DecodeFieldSection(bs[12..64]).value;
    PreambleOfDecode(bs[..12]);
    FieldSectionOfDecode(bs[12..64], n);
    DataSectionOfDecode(bs[64..], n, vs);
    Split3(bs, 12, 64);
    WtnsParts(vs);
  }
}
