/** Result codes, fixed-width integers, their little-endian byte layout, and the checksum fold. */
module Bytes {

  datatype Option<+T> = None | Some(value: T)

  /** The result codes of the public interface. */
  datatype Status = Ok | Inval | NoMem | NotFound | Io | Busy | Timeout | Unsupported | Corrupt | Collision

  type byte = x: int | 0 <= x < 0x100
  type u16 = x: int | 0 <= x < 0x1_0000
  type u32 = x: int | 0 <= x < 0x1_0000_0000
  type u64 = x: int | 0 <= x < 0x1_0000_0000_0000_0000
  type i64 = x: int | -0x8000_0000_0000_0000 <= x < 0x8000_0000_0000_0000

  /** A C string without its terminator. */
  type CString = s: seq<byte> | 0 !in s

  /** What a C string function sees of a buffer: the bytes before the first NUL. */
  function UpToNul(s: seq<byte>): (r: CString)
    ensures |r| <= |s| && r == s[..|r|]
    ensures 0 !in s ==> r == s
    ensures |r| < |s| ==> s[|r|] == 0
  {
    if s == [] || s[0] == 0 then [] else [s[0]] + UpToNul(s[1..])
  }

  /** The cast (uint64_t)v of a signed value. */
  function ToUnsigned(v: i64): u64 {
    if v < 0 then v + 0x1_0000_0000_0000_0000 else v
  }

  /** The cast (int64_t)x of an unsigned value. */
  function ToSigned(x: u64): i64 {
    if x < 0x8000_0000_0000_0000 then x else x - 0x1_0000_0000_0000_0000
  }

  function Pow256(n: nat): (r: nat)
    ensures r > 0
  {
    if n == 0 then 1 else 256 * Pow256(n - 1)
  }

  /** The n low bytes of x, least significant first. */
  function Le(n: nat, x: nat): (s: seq<byte>)
    ensures |s| == n
  {
    if n == 0 then [] else [x % 256] + Le(n - 1, x / 256)
  }

  /** The number whose little-endian bytes are s. */
  function FromLe(s: seq<byte>): (x: nat)
    ensures x < Pow256(|s|)
  {
    if s == [] then 0 else s[0] + 256 * FromLe(s[1..])
  }

  lemma {:induction false} LeRoundTrip(n: nat, x: nat)
    requires x < Pow256(n)
    ensures FromLe(Le(n, x)) == x
  {
    if n > 0 {
      LeRoundTrip(n - 1, x / 256);
      assert Le(n, x)[1..] == Le(n - 1, x / 256);
    }
  }

  /** The bytes are those of the number they spell. */
  lemma {:induction false} LeOf(s: seq<byte>)
    ensures Le(|s|, FromLe(s)) == s
  {
    if s != [] {
      LeOf(s[1..]);
      assert s == [s[0]] + s[1..];
    }
  }

  lemma Pow256Values()
    ensures Pow256(2) == 0x1_0000
    ensures Pow256(4) == 0x1_0000_0000
    ensures Pow256(8) == 0x1_0000_0000_0000_0000
  {
    assert Pow256(1) == 256 * Pow256(0);
    assert Pow256(2) == 256 * Pow256(1);
    assert Pow256(3) == 256 * Pow256(2);
    assert Pow256(4) == 256 * Pow256(3);
    assert Pow256(5) == 256 * Pow256(4);
    assert Pow256(6) == 256 * Pow256(5);
    assert Pow256(7) == 256 * Pow256(6);
    assert Pow256(8) == 256 * Pow256(7);
  }

  function Put16(x: u16): (s: seq<byte>)
    ensures |s| == 2 && FromLe(s) == x
  {
    Pow256Values();
    LeRoundTrip(2, x);
    Le(2, x)
  }

  function Put32(x: u32): (s: seq<byte>)
    ensures |s| == 4 && FromLe(s) == x
  {
    Pow256Values();
    LeRoundTrip(4, x);
    Le(4, x)
  }

  function Put64(x: u64): (s: seq<byte>)
    ensures |s| == 8 && FromLe(s) == x
  {
    Pow256Values();
    LeRoundTrip(8, x);
    Le(8, x)
  }

  function Get16(s: seq<byte>): u16
    requires |s| == 2
  {
    Pow256Values();
    FromLe(s)
  }

  function Get32(s: seq<byte>): u32
    requires |s| == 4
  {
    Pow256Values();
    FromLe(s)
  }

  function Get64(s: seq<byte>): u64
    requires |s| == 8
  {
    Pow256Values();
    FromLe(s)
  }

  lemma PutGet(s: seq<byte>)
    ensures |s| == 2 ==> Put16(Get16(s)) == s
    ensures |s| == 4 ==> Put32(Get32(s)) == s
    ensures |s| == 8 ==> Put64(Get64(s)) == s
  {
    LeOf(s);
  }

  /** One byte of the running checksum. The library's polynomial is left
      arbitrary: every result holds for any step. */
  type CrcStep = (u32, byte) -> u32

  /** The checksum of buf continued from state c. */
  function Crc(step: CrcStep, c: u32, buf: seq<byte>): u32
    decreases |buf|
  {
    if buf == [] then c else Crc(step, step(c, buf[0]), buf[1..])
  }

  /** Feeding a buffer in two pieces gives the digest of the whole. */
  lemma {:induction false} CrcConcat(step: CrcStep, c: u32, a: seq<byte>, b: seq<byte>)
    ensures Crc(step, c, a + b) == Crc(step, Crc(step, c, a), b)
    decreases |a|
  {
    if a == [] {
      assert a + b == b;
    } else {
      assert (a + b)[1..] == a[1..] + b;
      CrcConcat(step, step(c, a[0]), a[1..], b);
    }
  }
}
