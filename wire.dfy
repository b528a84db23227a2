/**
 * Fixed-width integers as the UDF bridge lays them out in a frame: the C code stores
 * `int8_t`, `int16_t`, `int32_t` and `int64_t` values by casting the cursor
 * (`*(int32_t *) buf = ...`), which on the supported targets is little-endian two's
 * complement. This module states that layout and proves that reading back what was
 * written gives the value, and that every byte string of the right width is the
 * image of exactly one value.
 */
module Wire {

  type byte = x: int | 0 <= x < 0x100
  type i8 = x: int | -0x80 <= x < 0x80
  type i16 = x: int | -0x8000 <= x < 0x8000
  type i32 = x: int | -0x8000_0000 <= x < 0x8000_0000
  type i64 = x: int | -0x8000_0000_0000_0000 <= x < 0x8000_0000_0000_0000

  /** 256 to the power n: the number of distinct values n bytes can hold. */
  function Pow256(n: nat): (p: nat)
    ensures p >= 1
  {
    if n == 0 then 1 else 256 * Pow256(n - 1)
  }

  /** Half the range of an n-byte integer: signed values lie in [-Half(n), Half(n)). */
  function Half(n: nat): (h: int)
    requires n >= 1
    ensures Pow256(n) == 2 * h
  {
    128 * Pow256(n - 1)
  }

  lemma PowersOf256()
    ensures Half(1) == 0x80 && Pow256(1) == 0x100
    ensures Half(2) == 0x8000 && Pow256(2) == 0x1_0000
    ensures Half(4) == 0x8000_0000 && Pow256(4) == 0x1_0000_0000
    ensures Half(8) == 0x8000_0000_0000_0000 && Pow256(8) == 0x1_0000_0000_0000_0000
  {
    assert Pow256(1) == 0x100;
    assert Pow256(2) == 0x1_0000;
    assert Pow256(3) == 0x100_0000;
    assert Pow256(4) == 0x1_0000_0000;
    assert Pow256(5) == 0x100_0000_0000;
    assert Pow256(6) == 0x1_0000_0000_0000;
    assert Pow256(7) == 0x100_0000_0000_0000;
  }

  /** The n little-endian bytes of an unsigned value that fits in n bytes. */
  function EncodeUnsigned(u: nat, n: nat): (s: seq<byte>)
    requires u < Pow256(n)
    ensures |s| == n
  {
    if n == 0 then [] else [u % 256] + EncodeUnsigned(u / 256, n - 1)
  }

  /** The unsigned value of a little-endian byte string; it always fits in |s| bytes. */
  function DecodeUnsigned(s: seq<byte>): (u: nat)
    ensures u < Pow256(|s|)
  {
    if s == [] then 0 else s[0] + 256 * DecodeUnsigned(s[1..])
  }

  lemma {:induction false} DecodeEncodeUnsigned(u: nat, n: nat)
    requires u < Pow256(n)
    ensures DecodeUnsigned(EncodeUnsigned(u, n)) == u
  {
    if n > 0 {
      var s := EncodeUnsigned(u, n);
      assert s[1..] == EncodeUnsigned(u / 256, n - 1);
      DecodeEncodeUnsigned(u / 256, n - 1);
    }
  }

  lemma {:induction false} EncodeDecodeUnsigned(s: seq<byte>)
    ensures EncodeUnsigned(DecodeUnsigned(s), |s|) == s
  {
    if s != [] {
      var u := DecodeUnsigned(s);
      assert u % 256 == s[0] && u / 256 == DecodeUnsigned(s[1..]);
      EncodeDecodeUnsigned(s[1..]);
    }
  }

  /** Two's complement: the unsigned n-byte pattern that stores the signed value v. */
  function EncodeInt(v: int, n: nat): (s: seq<byte>)
    requires n >= 1 && -Half(n) <= v < Half(n)
    ensures |s| == n
  {
    EncodeUnsigned(if v < 0 then v + Pow256(n) else v, n)
  }

  /** The signed value stored in a non-empty little-endian byte string. */
  function DecodeInt(s: seq<byte>): (v: int)
    requires |s| >= 1
    ensures -Half(|s|) <= v < Half(|s|)
  {
    var u := DecodeUnsigned(s);
    if u >= Half(|s|) then u - Pow256(|s|) else u
  }

  lemma DecodeEncodeInt(v: int, n: nat)
    requires n >= 1 && -Half(n) <= v < Half(n)
    ensures DecodeInt(EncodeInt(v, n)) == v
  {
    DecodeEncodeUnsigned(if v < 0 then v + Pow256(n) else v, n);
  }

  lemma EncodeDecodeInt(s: seq<byte>)
    requires |s| >= 1
    ensures EncodeInt(DecodeInt(s), |s|) == s
  {
    EncodeDecodeUnsigned(s);
  }

  // The four widths the frame uses.

  function EncodeI8(v: i8): (s: seq<byte>)
    ensures |s| == 1 && DecodeInt(s) == v
  {
    PowersOf256();
    DecodeEncodeInt(v, 1);
    EncodeInt(v, 1)
  }

  function EncodeI16(v: i16): (s: seq<byte>)
    ensures |s| == 2 && DecodeInt(s) == v
  {
    PowersOf256();
    DecodeEncodeInt(v, 2);
    EncodeInt(v, 2)
  }

  function EncodeI32(v: i32): (s: seq<byte>)
    ensures |s| == 4 && DecodeInt(s) == v
  {
    PowersOf256();
    DecodeEncodeInt(v, 4);
    EncodeInt(v, 4)
  }

  function EncodeI64(v: i64): (s: seq<byte>)
    ensures |s| == 8 && DecodeInt(s) == v
  {
    PowersOf256();
    DecodeEncodeInt(v, 8);
    EncodeInt(v, 8)
  }

  function DecodeI8(s: seq<byte>): (v: i8)
    requires |s| == 1
    ensures EncodeI8(v) == s
  {
    PowersOf256();
    EncodeDecodeInt(s);
    DecodeInt(s)
  }

  function DecodeI16(s: seq<byte>): (v: i16)
    requires |s| == 2
    ensures EncodeI16(v) == s
  {
    PowersOf256();
    EncodeDecodeInt(s);
    DecodeInt(s)
  }

  function DecodeI32(s: seq<byte>): (v: i32)
    requires |s| == 4
    ensures EncodeI32(v) == s
  {
    PowersOf256();
    EncodeDecodeInt(s);
    DecodeInt(s)
  }

  function DecodeI64(s: seq<byte>): (v: i64)
    requires |s| == 8
    ensures EncodeI64(v) == s
  {
    PowersOf256();
    EncodeDecodeInt(s);
    DecodeInt(s)
  }
}
