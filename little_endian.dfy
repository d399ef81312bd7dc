/** Bytes, the fixed-width integers of the wire format, and their
    little-endian images (least significant byte first, two's complement
    for the signed widths), as GSF's LittleEndian class reads and writes
    them. */
module LittleEndian {

  type byte = x: int | 0 <= x < 0x100
  type int16 = x: int | -0x8000 <= x < 0x8000
  type int32 = x: int | -0x8000_0000 <= x < 0x8000_0000

  const Int32Modulus: int := 0x1_0000_0000

  /** The value that C#'s unchecked Int32 arithmetic yields for an exact
      result x: x itself when it fits, otherwise x reduced into the Int32
      range modulo 2^32. */
  function Int32(x: int): (r: int32)
    ensures -0x8000_0000 <= x < 0x8000_0000 ==> r == x
  {
    if -0x8000_0000 <= x < 0x8000_0000 then x
    else
      var u := x % Int32Modulus;
      if u < 0x8000_0000 then u else u - Int32Modulus
  }

  /** Int32 keeps x's residue modulo 2^32: it is the two's complement
      truncation to 32 bits. */
  lemma Int32Wraps(x: int)
    ensures Int32(x) % Int32Modulus == x % Int32Modulus
  {
  }

  function Pow256(n: nat): (p: nat)
    ensures p > 0
  {
    if n == 0 then 1 else 256 * Pow256(n - 1)
  }

  /** The unsigned number whose little-endian image is b. */
  function Unsigned(b: seq<byte>): (u: nat)
    ensures u < Pow256(|b|)
  {
    if b == [] then 0 else b[0] + 256 * Unsigned(b[1..])
  }

  /** The n-byte little-endian image of u (u taken modulo 256^n). */
  function UnsignedBytes(u: nat, n: nat): (b: seq<byte>)
    ensures |b| == n
  {
    if n == 0 then [] else [u % 256] + UnsignedBytes(u / 256, n - 1)
  }

  lemma {:induction false} UnsignedOfBytes(u: nat, n: nat)
    requires u < Pow256(n)
    ensures Unsigned(UnsignedBytes(u, n)) == u
  {
    if n > 0 {
      assert u / 256 < Pow256(n - 1);
      UnsignedOfBytes(u / 256, n - 1);
      assert UnsignedBytes(u, n)[1..] == UnsignedBytes(u / 256, n - 1);
    }
  }

  lemma {:induction false} BytesOfUnsigned(b: seq<byte>)
    ensures UnsignedBytes(Unsigned(b), |b|) == b
  {
    if b != [] {
      BytesOfUnsigned(b[1..]);
      var u := Unsigned(b);
      assert u % 256 == b[0] && u / 256 == Unsigned(b[1..]);
    }
  }

  /** Half the range of an n-byte image: the signed values are
      [-HalfRange(n), HalfRange(n)). */
  function HalfRange(n: nat): (h: int)
    requires n > 0
    ensures h > 0 && 2 * h == Pow256(n)
  {
    128 * Pow256(n - 1)
  }

  /** The two's complement number whose little-endian image is b. */
  function Signed(b: seq<byte>): (x: int)
    requires |b| > 0
    ensures -HalfRange(|b|) <= x < HalfRange(|b|)
  {
    var u := Unsigned(b);
    if u < HalfRange(|b|) then u else u - Pow256(|b|)
  }

  /** The n-byte two's complement little-endian image of x. */
  function SignedBytes(x: int, n: nat): (b: seq<byte>)
    ensures |b| == n
  {
    UnsignedBytes(x % Pow256(n), n)
  }

  /** The two image widths of the wire format and their moduli. */
  lemma WireWidths()
    ensures Pow256(2) == 0x1_0000 && HalfRange(2) == 0x8000
    ensures Pow256(4) == 0x1_0000_0000 && HalfRange(4) == 0x8000_0000
  {
    assert Pow256(1) == 0x100;
    assert Pow256(3) == 0x100_0000;
  }

  lemma SignedOfBytes(x: int, n: nat)
    requires n == 2 || n == 4
    requires -HalfRange(n) <= x < HalfRange(n)
    ensures Signed(SignedBytes(x, n)) == x
  {
    WireWidths();
    var p := Pow256(n);
    var u := x % p;
    if x >= 0 {
      assert u == x;
    } else {
      assert (x + p) % p == u;
      assert u == x + p;
    }
    UnsignedOfBytes(u, n);
  }

  lemma BytesOfSigned(b: seq<byte>)
    requires |b| == 2 || |b| == 4
    ensures SignedBytes(Signed(b), |b|) == b
  {
    WireWidths();
    var p := Pow256(|b|);
    var u := Unsigned(b);
    if u >= HalfRange(|b|) {
      assert (u - p) % p == u;
    }
    assert Signed(b) % p == u;
    BytesOfUnsigned(b);
  }

  /** LittleEndian.ToInt16: the Int16 stored at startIndex. */
  function ToInt16(buffer: seq<byte>, startIndex: int): int16
    requires 0 <= startIndex && startIndex + 2 <= |buffer|
  {
    WireWidths();
    Signed(buffer[startIndex..startIndex + 2])
  }

  /** LittleEndian.ToInt32: the Int32 stored at startIndex. */
  function ToInt32(buffer: seq<byte>, startIndex: int): int32
    requires 0 <= startIndex && startIndex + 4 <= |buffer|
  {
    WireWidths();
    Signed(buffer[startIndex..startIndex + 4])
  }

  /** LittleEndian.GetBytes for an Int16. */
  function GetBytes16(x: int16): (b: seq<byte>)
    ensures |b| == 2
  {
    SignedBytes(x, 2)
  }

  /** LittleEndian.GetBytes for an Int32. */
  function GetBytes32(x: int32): (b: seq<byte>)
    ensures |b| == 4
  {
    SignedBytes(x, 4)
  }

  /** ToInt16 reads back what GetBytes wrote. */
  lemma ToInt16OfGetBytes(x: int16)
    ensures ToInt16(GetBytes16(x), 0) == x
  {
    SignedOfBytes(x, 2);
    assert GetBytes16(x)[0..2] == GetBytes16(x);
  }

  /** ToInt32 reads back what GetBytes wrote. */
  lemma ToInt32OfGetBytes(x: int32)
    ensures ToInt32(GetBytes32(x), 0) == x
  {
    SignedOfBytes(x, 4);
    assert GetBytes32(x)[0..4] == GetBytes32(x);
  }

  /** Reading an Int32 and writing it back gives the same four bytes. */
  lemma GetBytesOfToInt32(buffer: seq<byte>, startIndex: int)
    requires 0 <= startIndex && startIndex + 4 <= |buffer|
    ensures GetBytes32(ToInt32(buffer, startIndex)) == buffer[startIndex..startIndex + 4]
  {
    BytesOfSigned(buffer[startIndex..startIndex + 4]);
  }

  /** Reading an Int16 and writing it back gives the same two bytes. */
  lemma GetBytesOfToInt16(buffer: seq<byte>, startIndex: int)
    requires 0 <= startIndex && startIndex + 2 <= |buffer|
    ensures GetBytes16(ToInt16(buffer, startIndex)) == buffer[startIndex..startIndex + 2]
  {
    BytesOfSigned(buffer[startIndex..startIndex + 2]);
  }
}
