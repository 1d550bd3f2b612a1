/** Bytes, little-endian 32-bit words and the ASCII codec, as the tool uses them
    on a little-endian host. */
module Bytes {

  type byte = b: int | 0 <= b < 256

  const Two32: int := 0x1_0000_0000
  const Two31: int := 0x8000_0000

  function Min(a: int, b: int): int { if a < b then a else b }

  /** v reduced to a signed 32-bit integer, as C# int arithmetic wraps. */
  function Wrap32(v: int): (r: int)
    ensures -Two31 <= r < Two31
    ensures -Two31 <= v < Two31 ==> r == v
  {
    var s := v % Two32;
    if s < Two31 then s else s - Two32
  }

  /** The unsigned word stored at off, least significant byte first
      (BitConverter.ToUInt32). */
  function U32At(s: seq<byte>, off: int): (v: int)
    requires 0 <= off && off + 4 <= |s|
    ensures 0 <= v < Two32
  {
    s[off] as int + 256 * (s[off + 1] as int) + 65536 * (s[off + 2] as int) + 16777216 * (s[off + 3] as int)
  }

  /** Writing back a word that was read gives the bytes it was read from. */
  lemma U32BytesOfU32At(s: seq<byte>, off: int)
    requires 0 <= off && off + 4 <= |s|
    ensures U32Bytes(U32At(s, off)) == s[off..off + 4]
  {
    var b0, b1, b2, b3 := s[off] as int, s[off + 1] as int, s[off + 2] as int, s[off + 3] as int;
    var q2 := b2 + 256 * b3;
    var q1 := b1 + 256 * q2;
    assert U32At(s, off) == b0 + 256 * q1;
    DivMod256(b0, q1);
    DivMod256(b1, q2);
    DivMod256(b2, b3);
    DivMod256(b3, 0);
  }

  /** Dividing a + 256 * q by 256 splits off the low byte a. */
  lemma DivMod256(a: int, q: int)
    requires 0 <= a < 256
    ensures (a + 256 * q) % 256 == a && (a + 256 * q) / 256 == q
  {
  }

  /** The signed word stored at off, in two's complement (BitConverter.ToInt32). */
  function I32At(s: seq<byte>, off: int): (v: int)
    requires 0 <= off && off + 4 <= |s|
    ensures -Two31 <= v < Two31
  {
    var u := U32At(s, off);
    if u < Two31 then u else u - Two32
  }

  /** The unsigned word at off depends only on the four bytes there. */
  lemma U32AtSlice(s: seq<byte>, off: int)
    requires 0 <= off && off + 4 <= |s|
    ensures U32At(s, off) == U32At(s[off..off + 4], 0)
  {
    assert s[off..off + 4][0] == s[off];
    assert s[off..off + 4][1] == s[off + 1];
    assert s[off..off + 4][2] == s[off + 2];
    assert s[off..off + 4][3] == s[off + 3];
  }

  /** The signed word at off depends only on the four bytes there. */
  lemma I32AtSlice(s: seq<byte>, off: int)
    requires 0 <= off && off + 4 <= |s|
    ensures I32At(s, off) == I32At(s[off..off + 4], 0)
  {
    U32AtSlice(s, off);
  }

  /** The four bytes written for v by shifting and masking: v is reduced modulo
      2^32, as a cast to uint or the bit pattern of an int does. */
  function U32Bytes(v: int): (b: seq<byte>)
    ensures |b| == 4
  {
    [v % 256, v / 256 % 256, v / 256 / 256 % 256, v / 256 / 256 / 256 % 256]
  }

  /** Reading back the bytes written for v gives v modulo 2^32. */
  lemma U32RoundTrip(v: int)
    ensures U32At(U32Bytes(v), 0) == v % Two32
  {
    var q1 := v / 256;
    var q2 := q1 / 256;
    var q3 := q2 / 256;
    var q4 := q3 / 256;
    var x := v % 256 + 256 * (q1 % 256) + 65536 * (q2 % 256) + 16777216 * (q3 % 256);
    assert v == x + Two32 * q4;
    ModUnique(v, q4, x);
  }

  lemma ModUnique(v: int, q: int, r: int)
    requires 0 <= r < Two32 && v == q * Two32 + r
    ensures v % Two32 == r
  {
  }

  /** A signed 32-bit value survives a write and a signed read. */
  lemma I32RoundTrip(v: int)
    requires -Two31 <= v < Two31
    ensures I32At(U32Bytes(v), 0) == v
  {
    U32RoundTrip(v);
  }

  /** Concatenation regrouped; stating it as a lemma keeps the solver from
      rediscovering it by extensionality inside larger proofs. */
  lemma ConcatAssoc<T>(a: seq<T>, b: seq<T>, c: seq<T>)
    ensures a + (b + c) == a + b + c
  {
  }

  /** Adjacent slices join into one. */
  lemma SliceJoin<T>(s: seq<T>, a: int, b: int, c: int)
    requires 0 <= a <= b <= c <= |s|
    ensures s[a..b] + s[b..c] == s[a..c]
  {
  }

  /** A slice of a slice is a slice. */
  lemma SubSlice<T>(s: seq<T>, off: int, n: int, a: int, b: int)
    requires 0 <= off && off + n <= |s| && 0 <= a <= b <= n
    ensures s[off + a..off + b] == s[off..off + n][a..b]
  {
    var t := s[off..off + n];
    assert forall i :: a <= i < b ==> t[i] == s[off + i];
  }

  /** Printable ASCII, space to tilde. */
  predicate Printable(b: byte) { 32 <= b <= 126 }

  /** magic occurs in s at off (IsAt and StartsWith). */
  predicate HasAt(s: seq<byte>, off: int, magic: seq<byte>)
  {
    0 <= off && off + |magic| <= |s| && s[off..off + |magic|] == magic
  }

  /** Encoding.ASCII.GetString: bytes above 127 decode to '?'. */
  function AsciiChar(b: byte): char
  {
    if b < 128 then b as char else '?'
  }

  function AsciiDecode(bs: seq<byte>): (s: string)
    ensures |s| == |bs|
  {
    seq(|bs|, i requires 0 <= i < |bs| => AsciiChar(bs[i]))
  }

  /** Encoding.ASCII.GetBytes: characters above 127 encode to '?'. */
  function AsciiByte(c: char): byte
  {
    if c as int < 128 then c as int else 63
  }

  function AsciiEncode(s: string): (bs: seq<byte>)
    ensures |bs| == |s|
  {
    seq(|s|, i requires 0 <= i < |s| => AsciiByte(s[i]))
  }

  /** On 7-bit text, decoding what was encoded gives the text back. */
  lemma AsciiDecodeEncode(s: string)
    requires forall i :: 0 <= i < |s| ==> s[i] as int < 128
    ensures AsciiDecode(AsciiEncode(s)) == s
  {
    var bs := AsciiEncode(s);
    forall i | 0 <= i < |s| ensures AsciiDecode(bs)[i] == s[i] {
      assert bs[i] == s[i] as int;
    }
  }

  /** On 7-bit bytes, encoding what was decoded gives the bytes back. */
  lemma {:induction false} AsciiRoundTrip(bs: seq<byte>)
    requires forall i :: 0 <= i < |bs| ==> bs[i] < 128
    ensures AsciiEncode(AsciiDecode(bs)) == bs
  {
    var s := AsciiDecode(bs);
    forall i | 0 <= i < |bs| ensures AsciiEncode(s)[i] == bs[i] {
      assert s[i] == bs[i] as char;
    }
  }
}
