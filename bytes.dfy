/** Bytes and 32-bit words as the container stores them.
    The machine that runs the tool is taken to be little-endian: the memory
    image of a uint32 is its least significant byte first. */
module Bytes {

  type byte = x: int | 0 <= x < 0x100
  type u32 = x: int | 0 <= x < 0x1_0000_0000

  /** The conversion of a non-negative integer to uint32 (wraps modulo 2^32). */
  function Trunc32(v: nat): (r: u32)
    ensures r <= v
    ensures v < 0x1_0000_0000 ==> r == v
  {
    v % 0x1_0000_0000
  }

  /** Incrementing a uint32 wraps as incrementing before the conversion does. */
  lemma Trunc32Increment(v: nat)
    ensures Trunc32(Trunc32(v) + 1) == Trunc32(v + 1)
  {
    var m := 0x1_0000_0000;
    assert v == v / m * m + v % m;
    if v % m + 1 == m {
      assert v + 1 == (v / m + 1) * m;
    } else {
      assert v + 1 == v / m * m + (v % m + 1);
    }
  }

  /** The four bytes of `v` in memory, least significant first. */
  function LittleEndian(v: u32): (r: seq<byte>)
    ensures |r| == 4
  {
    [v % 0x100, v / 0x100 % 0x100, v / 0x100 / 0x100 % 0x100, v / 0x100 / 0x100 / 0x100]
  }

  /** The uint32 whose memory image is `b`. */
  function FromLittleEndian(b: seq<byte>): (v: u32)
    requires |b| == 4
  {
    b[0] as int + 0x100 * (b[1] as int) + 0x1_0000 * (b[2] as int) + 0x100_0000 * (b[3] as int)
  }

  lemma FromToLittleEndian(v: u32)
    ensures FromLittleEndian(LittleEndian(v)) == v
  {
    var q1 := v / 0x100;
    var q2 := q1 / 0x100;
    var q3 := q2 / 0x100;
    assert v == v % 0x100 + 0x100 * q1;
    assert q1 == q1 % 0x100 + 0x100 * q2;
    assert q2 == q2 % 0x100 + 0x100 * q3;
  }

  lemma ToFromLittleEndian(b: seq<byte>)
    requires |b| == 4
    ensures LittleEndian(FromLittleEndian(b)) == b
  {
    var v := FromLittleEndian(b);
    assert v % 0x100 == b[0] && v / 0x100 == b[1] as int + 0x100 * (b[2] as int) + 0x1_0000 * (b[3] as int);
    var q1 := v / 0x100;
    assert q1 % 0x100 == b[1] && q1 / 0x100 == b[2] as int + 0x100 * (b[3] as int);
    var q2 := q1 / 0x100;
    assert q2 % 0x100 == b[2] && q2 / 0x100 == b[3];
  }

  /** Two words are equal exactly when their memory images are. */
  lemma LittleEndianInjective(v: u32, w: u32)
    ensures LittleEndian(v) == LittleEndian(w) <==> v == w
  {
    if LittleEndian(v) == LittleEndian(w) {
      FromToLittleEndian(v);
      FromToLittleEndian(w);
    }
  }

  function Reversed4(b: seq<byte>): (r: seq<byte>)
    requires |b| == 4
    ensures |r| == 4 && forall k :: 0 <= k < 4 ==> r[k] == b[3 - k]
  {
    [b[3], b[2], b[1], b[0]]
  }

  /** The word whose memory image is the image of `v` reversed. */
  function Swap32(v: u32): (r: u32)
    ensures LittleEndian(r) == Reversed4(LittleEndian(v))
  {
    ToFromLittleEndian(Reversed4(LittleEndian(v)));
    FromLittleEndian(Reversed4(LittleEndian(v)))
  }

  lemma Swap32Involution(v: u32)
    ensures Swap32(Swap32(v)) == v
  {
    assert Reversed4(Reversed4(LittleEndian(v))) == LittleEndian(v);
    LittleEndianInjective(Swap32(Swap32(v)), v);
  }

  /** Swapping changes a word exactly when its memory image is not a palindrome. */
  lemma Swap32Changes(v: u32)
    ensures Swap32(v) == v <==> Reversed4(LittleEndian(v)) == LittleEndian(v)
  {
    LittleEndianInjective(Swap32(v), v);
  }

  /** The value stored by the helper that writes a uint32 field of the header or
      a segment length: unchanged, or with its four bytes reversed when the
      endian-swap mode is on. */
  function WriteValueU32(v: u32, swap: bool): (r: u32)
    ensures LittleEndian(r) == if swap then Reversed4(LittleEndian(v)) else LittleEndian(v)
    ensures !swap ==> r == v
  {
    if swap then Swap32(v) else v
  }
}
