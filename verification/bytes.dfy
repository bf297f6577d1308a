/**
  Bytes as they travel on the wire, and the Java/Netty conversions between
  bytes and integers that the client uses.

  Netty's ByteBuf reads and writes big-endian and returns Java's signed
  `byte`, `short` and `int`; `writeByte`, `writeShort` and `writeInt` keep
  only the low 8, 16 and 32 bits of their argument. Apache Commons Lang's
  `Conversion.byteArrayToInt(src, pos, 0, 0, 4)` assembles four bytes
  least-significant first. Integers in Dafny are unbounded, so every
  two's-complement wrap is written out here.
*/
module Bytes {

  /** One octet, unsigned. */
  type byte = b: int | 0 <= b < 256

  const BYTE_RANGE: int := 0x100
  const SHORT_RANGE: int := 0x1_0000
  const INT_RANGE: int := 0x1_0000_0000

  /** Value fits a Java `byte`. */
  predicate IsJavaByte(v: int) { -0x80 <= v < 0x80 }

  /** Value fits a Java `short`. */
  predicate IsJavaShort(v: int) { -0x8000 <= v < 0x8000 }

  /** Value fits a Java `int`. */
  predicate IsJavaInt(v: int) { -0x8000_0000 <= v < 0x8000_0000 }

  /** Two's-complement reading of an unsigned value below `range`, the value count of a Java byte, short or int. */
  function Signed(u: int, range: int): (v: int)
    requires range == BYTE_RANGE || range == SHORT_RANGE || range == INT_RANGE
    requires 0 <= u < range
    ensures -(range / 2) <= v < range - range / 2
    ensures v % range == u % range
  {
    if u < range - range / 2 then u else u - range
  }

  /** Big-endian unsigned value of `s[pos..pos+n]`. */
  function UnsignedBE(s: seq<byte>, pos: nat, n: nat): (u: nat)
    requires pos + n <= |s|
    decreases n
  {
    if n == 0 then 0 else UnsignedBE(s, pos, n - 1) * 256 + s[pos + n - 1]
  }

  /** Little-endian unsigned value of `s[pos..pos+n]`. */
  function UnsignedLE(s: seq<byte>, pos: nat, n: nat): (u: nat)
    requires pos + n <= |s|
    decreases n
  {
    if n == 0 then 0 else s[pos] + 256 * UnsignedLE(s, pos + 1, n - 1)
  }

  lemma UnsignedBEBound(s: seq<byte>, pos: nat, n: nat, range: nat)
    requires pos + n <= |s|
    requires range == Pow256(n)
    ensures UnsignedBE(s, pos, n) < range
    decreases n
  {
    if n > 0 {
      UnsignedBEBound(s, pos, n - 1, Pow256(n - 1));
    }
  }

  lemma UnsignedLEBound(s: seq<byte>, pos: nat, n: nat, range: nat)
    requires pos + n <= |s|
    requires range == Pow256(n)
    ensures UnsignedLE(s, pos, n) < range
    decreases n
  {
    if n > 0 {
      UnsignedLEBound(s, pos + 1, n - 1, Pow256(n - 1));
    }
  }

  function Pow256(n: nat): (p: nat)
    ensures p > 0
  {
    if n == 0 then 1 else 256 * Pow256(n - 1)
  }

  /** Netty `readByte` at `pos`: a signed byte. */
  function ReadByte(s: seq<byte>, pos: nat): (v: int)
    requires pos + 1 <= |s|
    ensures IsJavaByte(v)
    ensures v % BYTE_RANGE == s[pos]
  {
    Signed(s[pos], BYTE_RANGE)
  }

  /** Netty `readShort` at `pos`: two bytes, big-endian, signed. */
  function ReadShort(s: seq<byte>, pos: nat): (v: int)
    requires pos + 2 <= |s|
    ensures IsJavaShort(v)
  {
    UnsignedBEBound(s, pos, 2, SHORT_RANGE);
    Signed(UnsignedBE(s, pos, 2), SHORT_RANGE)
  }

  /** Netty `readInt` at `pos`: four bytes, big-endian, signed. */
  function ReadInt(s: seq<byte>, pos: nat): (v: int)
    requires pos + 4 <= |s|
    ensures IsJavaInt(v)
  {
    UnsignedBEBound(s, pos, 4, INT_RANGE);
    Signed(UnsignedBE(s, pos, 4), INT_RANGE)
  }

  /** Commons Lang `byteArrayToInt(s, pos, 0, 0, 4)`: four bytes, least significant first, signed. */
  function ReadIntLE(s: seq<byte>, pos: nat): (v: int)
    requires pos + 4 <= |s|
    ensures IsJavaInt(v)
  {
    UnsignedLEBound(s, pos, 4, INT_RANGE);
    Signed(UnsignedLE(s, pos, 4), INT_RANGE)
  }

  /** Netty `writeByte(v)`: the low 8 bits. */
  function WriteByte(v: int): (s: seq<byte>)
    ensures |s| == 1
  {
    [v % BYTE_RANGE]
  }

  /** Netty `writeShort(v)`: the low 16 bits, big-endian. */
  function WriteShort(v: int): (s: seq<byte>)
    ensures |s| == 2
  {
    var u := v % SHORT_RANGE;
    [u / 0x100, u % 0x100]
  }

  /** Netty `writeInt(v)`: the low 32 bits, big-endian. */
  function WriteInt(v: int): (s: seq<byte>)
    ensures |s| == 4
  {
    var u := v % INT_RANGE;
    [u / 0x100_0000, (u / 0x1_0000) % 0x100, (u / 0x100) % 0x100, u % 0x100]
  }

  /** The low 32 bits of `v`, least significant byte first (the layout `ReadIntLE` reads). */
  function WriteIntLE(v: int): (s: seq<byte>)
    ensures |s| == 4
  {
    var u := v % INT_RANGE;
    [u % 0x100, (u / 0x100) % 0x100, (u / 0x1_0000) % 0x100, u / 0x100_0000]
  }

  /** What `writeByte` wrote, `readByte` gives back, for every Java byte. */
  lemma ByteRoundTrip(v: int, rest: seq<byte>)
    requires IsJavaByte(v)
    ensures ReadByte(WriteByte(v) + rest, 0) == v
  {
  }

  /** What `writeShort` wrote, `readShort` gives back, for every Java short. */
  lemma ShortRoundTrip(v: int, rest: seq<byte>)
    requires IsJavaShort(v)
    ensures ReadShort(WriteShort(v) + rest, 0) == v
  {
    var s := WriteShort(v) + rest;
    var u := v % SHORT_RANGE;
    assert UnsignedBE(s, 0, 2) == (u / 0x100) * 256 + u % 0x100 by {
      assert UnsignedBE(s, 0, 1) == u / 0x100;
    }
  }

  /** What `writeInt` wrote, `readInt` gives back, for every Java int. */
  lemma IntRoundTrip(v: int, rest: seq<byte>)
    requires IsJavaInt(v)
    ensures ReadInt(WriteInt(v) + rest, 0) == v
  {
    var s := WriteInt(v) + rest;
    var u := v % INT_RANGE;
    assert s[..4] == WriteInt(v);
    assert UnsignedBE(s, 0, 4) == u by {
      UnsignedBEFour(s, 0);
      SplitFourBytes(u);
    }
    SignedLowBits(v);
  }

  /** What `WriteIntLE` wrote, `ReadIntLE` gives back, for every Java int. */
  lemma IntLERoundTrip(v: int, prefix: seq<byte>, rest: seq<byte>)
    requires IsJavaInt(v)
    ensures ReadIntLE(prefix + WriteIntLE(v) + rest, |prefix|) == v
  {
    var s := prefix + WriteIntLE(v) + rest;
    var p := |prefix|;
    var u := v % INT_RANGE;
    assert s[p..p + 4] == WriteIntLE(v);
    assert UnsignedLE(s, p, 4) == u by {
      UnsignedLEFour(s, p);
      SplitFourBytes(u);
    }
    SignedLowBits(v);
  }

  /** The two's-complement reading of the low 32 bits of a Java int is the int. */
  lemma SignedLowBits(v: int)
    requires IsJavaInt(v)
    ensures Signed(v % INT_RANGE, INT_RANGE) == v
  {
    if v < 0 {
      assert v % INT_RANGE == v + INT_RANGE;
    }
  }

  /**
    Java `int` addition's result: the low 32 bits of the exact sum, read as
    two's complement. A sum that fits is unchanged; one just past
    `Integer.MAX_VALUE` turns negative.
  */
  function IntWrap(v: int): (w: int)
    ensures IsJavaInt(w) && (v - w) % INT_RANGE == 0
    ensures IsJavaInt(v) ==> w == v
    ensures 0x8000_0000 <= v < INT_RANGE ==> w == v - INT_RANGE
  {
    if IsJavaInt(v) then v
    else Signed(v % INT_RANGE, INT_RANGE)
  }

  /** Four big-endian bytes, as a number. */
  lemma UnsignedBEFour(s: seq<byte>, pos: nat)
    requires pos + 4 <= |s|
    ensures UnsignedBE(s, pos, 4) == ((s[pos] as int * 256 + s[pos + 1]) * 256 + s[pos + 2]) * 256 + s[pos + 3]
  {
    assert UnsignedBE(s, pos, 1) == s[pos];
    assert UnsignedBE(s, pos, 2) == s[pos] as int * 256 + s[pos + 1];
  }

  /** Four little-endian bytes, as a number. */
  lemma UnsignedLEFour(s: seq<byte>, pos: nat)
    requires pos + 4 <= |s|
    ensures UnsignedLE(s, pos, 4) == s[pos] as int + 256 * (s[pos + 1] as int + 256 * (s[pos + 2] as int + 256 * s[pos + 3] as int))
  {
    assert UnsignedLE(s, pos + 3, 1) == s[pos + 3];
    assert UnsignedLE(s, pos + 2, 2) == s[pos + 2] as int + 256 * s[pos + 3] as int;
  }

  /** A big-endian value depends only on the bytes it is read from. */
  lemma UnsignedBEWindow(s: seq<byte>, t: seq<byte>, pos: nat, n: nat)
    requires pos + n <= |s| && pos + n <= |t|
    requires s[pos..pos + n] == t[pos..pos + n]
    ensures UnsignedBE(s, pos, n) == UnsignedBE(t, pos, n)
    decreases n
  {
    if n > 0 {
      assert s[pos + n - 1] == s[pos..pos + n][n - 1] == t[pos + n - 1];
      assert s[pos..pos + n - 1] == s[pos..pos + n][..n - 1];
      assert t[pos..pos + n - 1] == t[pos..pos + n][..n - 1];
      UnsignedBEWindow(s, t, pos, n - 1);
    }
  }

  /** A little-endian value depends only on the bytes it is read from. */
  lemma UnsignedLEWindow(s: seq<byte>, t: seq<byte>, pos: nat, n: nat)
    requires pos + n <= |s| && pos + n <= |t|
    requires s[pos..pos + n] == t[pos..pos + n]
    ensures UnsignedLE(s, pos, n) == UnsignedLE(t, pos, n)
    decreases n
  {
    if n > 0 {
      assert s[pos] == s[pos..pos + n][0] == t[pos];
      assert s[pos + 1..pos + n] == s[pos..pos + n][1..];
      assert t[pos + 1..pos + n] == t[pos..pos + n][1..];
      UnsignedLEWindow(s, t, pos + 1, n - 1);
    }
  }

  /** The four base-256 digits of a 32-bit value reassemble to that value. */
  lemma SplitFourBytes(u: int)
    requires 0 <= u < INT_RANGE
    ensures ((u / 0x100_0000 * 256 + (u / 0x1_0000) % 0x100) * 256 + (u / 0x100) % 0x100) * 256 + u % 0x100 == u
  {
    var q1 := u / 0x100;
    var q2 := q1 / 0x100;
    var q3 := q2 / 0x100;
    assert u == q1 * 256 + u % 0x100;
    assert q1 == q2 * 256 + q1 % 0x100;
    assert q2 == q3 * 256 + q2 % 0x100;
    assert q2 == u / 0x1_0000;
    assert q3 == u / 0x100_0000;
    assert q1 % 0x100 == (u / 0x100) % 0x100;
  }
}
