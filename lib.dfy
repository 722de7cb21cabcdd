/** Fixed-width integers and the big-endian integer readers of the crate root
    (src/lib.rs). */
module Lib {
  import opened Wrappers

  type u8 = x: int | 0 <= x < 0x100
  type u16 = x: int | 0 <= x < 0x1_0000
  type u32 = x: int | 0 <= x < 0x1_0000_0000
  type i32 = x: int | -0x8000_0000 <= x < 0x8000_0000

  /** Reference meaning of a byte string read most significant byte first
      (Horner's rule over the bytes). */
  function BeValue(s: seq<u8>): nat
  {
    if s == [] then 0 else BeValue(s[..|s| - 1]) * 0x100 + s[|s| - 1]
  }

  /** `u16::from_be_bytes`. */
  function U16FromBeBytes(b: seq<u8>): (r: u16)
    requires |b| == 2
    ensures r == BeValue(b)
  {
    assert b[..1][..0] == [];
    assert BeValue(b[..1]) == b[0];
    (b[0] as int) * 0x100 + b[1]
  }

  /** `u32::from_be_bytes`. */
  function U32FromBeBytes(b: seq<u8>): (r: u32)
    requires |b| == 4
    ensures r == BeValue(b)
  {
    BeValueOfFour(b);
    (b[0] as int) * 0x100_0000 + (b[1] as int) * 0x1_0000 + (b[2] as int) * 0x100 + b[3]
  }

  lemma BeValueOfFour(b: seq<u8>)
    requires |b| == 4
    ensures BeValue(b) == (b[0] as int) * 0x100_0000 + (b[1] as int) * 0x1_0000 + (b[2] as int) * 0x100 + b[3]
  {
    assert b[..1][..0] == [];
    assert BeValue(b[..1]) == b[0];
    assert b[..2][..1] == b[..1];
    assert BeValue(b[..2]) == (b[0] as int) * 0x100 + b[1];
    assert b[..3][..2] == b[..2];
    assert BeValue(b[..3]) == (b[0] as int) * 0x1_0000 + (b[1] as int) * 0x100 + b[2];
  }

  /** The inverse of `u32::from_be_bytes`: the four bytes a writer stores,
      peeled off the value one byte at a time from the least significant end. */
  function U32ToBeBytes(v: u32): (b: seq<u8>)
    ensures |b| == 4
  {
    var q1 := v / 0x100;
    var q2 := q1 / 0x100;
    [q2 / 0x100, q2 % 0x100, q1 % 0x100, v % 0x100]
  }

  /** Splitting `hi * 256 + lo` by a byte recovers both parts. */
  lemma SplitByte(hi: nat, lo: nat)
    requires lo < 0x100
    ensures (hi * 0x100 + lo) / 0x100 == hi && (hi * 0x100 + lo) % 0x100 == lo
  {
  }

  /** `try_parse_u32`: a slice of exactly four bytes is read as a big-endian
      u32; any other length is an error that reports the length found. */
  function TryParseU32(bytes: seq<u8>): (r: Result<u32, nat>)
    ensures r.Err? <==> |bytes| != 4
    ensures r.Err? ==> r.error == |bytes|
    ensures r.Ok? ==> r.value == BeValue(bytes)
  {
    if |bytes| != 4 then Err(|bytes|) else Ok(U32FromBeBytes(bytes))
  }

  /** Reinterpretation of a u32 bit pattern as an i32 (two's complement). */
  function U32AsI32(u: u32): (r: i32)
    ensures (r - u) % 0x1_0000_0000 == 0
  {
    if u < 0x8000_0000 then u else u - 0x1_0000_0000
  }

  /** `try_parse_i32`: a four-byte big-endian two's-complement read, failing
      on any other length like `try_parse_u32`. */
  function TryParseI32(bytes: seq<u8>): (r: Result<i32, nat>)
    ensures r.Err? <==> |bytes| != 4
    ensures r.Err? ==> r.error == |bytes|
    ensures r.Ok? ==> (r.value - BeValue(bytes)) % 0x1_0000_0000 == 0
  {
    if |bytes| != 4 then Err(|bytes|) else Ok(U32AsI32(U32FromBeBytes(bytes)))
  }

  /** The four bytes a writer stores for an i32. */
  function I32ToBeBytes(v: i32): (b: seq<u8>)
    ensures |b| == 4
  {
    U32ToBeBytes(if v < 0 then v + 0x1_0000_0000 else v)
  }

  /** Two i32 values with the same bit pattern are equal, so the congruence in
      the contract of TryParseI32 determines its result. */
  lemma I32Congruent(x: i32, y: i32)
    requires (x - y) % 0x1_0000_0000 == 0
    ensures x == y
  {
    var d := x - y;
    assert -0x1_0000_0000 < d < 0x1_0000_0000;
    assert d == (d / 0x1_0000_0000) * 0x1_0000_0000;
  }

  /** Parsing what a writer stored gives back the stored u32. */
  lemma U32RoundTrip(v: u32)
    ensures TryParseU32(U32ToBeBytes(v)) == Ok(v)
  {
    var b := U32ToBeBytes(v);
    var q1 := v / 0x100;
    var q2 := q1 / 0x100;
    assert v == q1 * 0x100 + b[3];
    assert q1 == q2 * 0x100 + b[2];
    assert q2 == (b[0] as int) * 0x100 + b[1];
    BeValueOfFour(b);
  }

  /** Writing back a parsed u32 reproduces the four input bytes. */
  lemma U32BytesRoundTrip(b: seq<u8>)
    requires |b| == 4
    ensures U32ToBeBytes(TryParseU32(b).value) == b
  {
    var v := TryParseU32(b).value;
    BeValueOfFour(b);
    var q2 := (b[0] as int) * 0x100 + b[1];
    var q1 := q2 * 0x100 + b[2];
    assert v == q1 * 0x100 + b[3];
    SplitByte(q1, b[3]);
    SplitByte(q2, b[2]);
    SplitByte(b[0], b[1]);
  }

  /** Parsing what a writer stored gives back the stored i32. */
  lemma I32RoundTrip(v: i32)
    ensures TryParseI32(I32ToBeBytes(v)) == Ok(v)
  {
    var u: u32 := if v < 0 then v + 0x1_0000_0000 else v;
    U32RoundTrip(u);
    var r := TryParseI32(I32ToBeBytes(v));
    I32Congruent(r.value, v);
  }
}
