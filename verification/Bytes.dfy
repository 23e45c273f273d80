/** Bytes, little-endian integers and the small result types shared by every module. */
module Bytes {

  type byte = x: nat | x < 0x100
  type u16 = x: nat | x < 0x1_0000
  type u32 = x: nat | x < 0x1_0000_0000
  type bytes = seq<byte>

  const U16_MODULUS: nat := 0x1_0000
  const U32_MODULUS: nat := 0x1_0000_0000

  datatype Option<+T> = None | Some(value: T)

  /** `write_le16`. */
  function Le16(v: u16): (r: bytes)
    ensures |r| == 2
  {
    [v % 256, v / 256]
  }

  /** `write_le32`. */
  function Le32(v: u32): (r: bytes)
    ensures |r| == 4
  {
    Le16(v % U16_MODULUS) + Le16(v / U16_MODULUS)
  }

  /** `read_le16`. */
  function ReadLe16(p: bytes): (v: nat)
    requires |p| == 2
    ensures v < U16_MODULUS
  {
    var lo: nat, hi: nat := p[0], p[1];
    lo + 256 * hi
  }

  /** `read_le32`. */
  function ReadLe32(p: bytes): (v: nat)
    requires |p| == 4
    ensures v < U32_MODULUS
  {
    ReadLe16(p[..2]) + U16_MODULUS * ReadLe16(p[2..])
  }

  lemma ReadWrite16(v: u16)
    ensures ReadLe16(Le16(v)) == v
  {
  }

  lemma WriteRead16(p: bytes)
    requires |p| == 2
    ensures Le16(ReadLe16(p)) == p
  {
  }

  lemma ReadWrite32(v: u32)
    ensures ReadLe32(Le32(v)) == v
  {
    assert Le32(v)[..2] == Le16(v % U16_MODULUS);
    assert Le32(v)[2..] == Le16(v / U16_MODULUS);
  }

  lemma WriteRead32(p: bytes)
    requires |p| == 4
    ensures Le32(ReadLe32(p)) == p
  {
    var lo, hi := ReadLe16(p[..2]), ReadLe16(p[2..]);
    var v := ReadLe32(p);
    assert v % U16_MODULUS == lo && v / U16_MODULUS == hi;
    WriteRead16(p[..2]);
    WriteRead16(p[2..]);
    hide Le16, ReadLe16;
    assert p == p[..2] + p[2..];
  }

  lemma SliceOfDrop(s: bytes, off: nat, a: nat, b: nat)
    requires off + a <= off + b <= |s|
    ensures s[off + a..off + b] == s[off..][a..b]
  {
  }

  lemma SliceOfTake(s: bytes, n: nat, a: nat, b: nat)
    requires a <= b <= n <= |s|
    ensures s[a..b] == s[..n][a..b]
  {
  }

  lemma SliceSplit(s: bytes, a: nat, b: nat, c: nat)
    requires a <= b <= c <= |s|
    ensures s[a..c] == s[a..b] + s[b..c]
  {
  }

  /** The concatenation of a list of byte strings. */
  function Concat(parts: seq<bytes>): bytes
  {
    if parts == [] then [] else parts[0] + Concat(parts[1..])
  }

  lemma Assoc<T>(a: seq<T>, b: seq<T>, c: seq<T>)
    ensures (a + b) + c == a + (b + c)
  {
  }

  lemma ConcatFront(first: bytes, more: seq<bytes>)
    ensures Concat([]) == []
    ensures Concat([first] + more) == first + Concat(more)
  {
    assert ([first] + more)[1..] == more;
  }

  lemma {:induction false} ConcatAppend(a: seq<bytes>, b: seq<bytes>)
    ensures Concat(a + b) == Concat(a) + Concat(b)
  {
    if a == [] {
      assert a + b == b;
    } else {
      ConcatAppend(a[1..], b);
      assert (a + b)[1..] == a[1..] + b && (a + b)[0] == a[0];
      assert a[0] + (Concat(a[1..]) + Concat(b)) == (a[0] + Concat(a[1..])) + Concat(b);
    }
  }

  /** The text a C string function sees in a NUL-terminated buffer. */
  function CString(s: bytes): (r: bytes)
    ensures r <= s
    ensures 0 !in r
    ensures |r| < |s| ==> s[|r|] == 0
  {
    if s == [] || s[0] == 0 then [] else [s[0]] + CString(s[1..])
  }

  lemma {:induction false} CStringOfNulFree(s: bytes)
    requires 0 !in s
    ensures CString(s) == s
  {
    if s != [] {
      CStringOfNulFree(s[1..]);
    }
  }
}
