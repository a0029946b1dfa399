/**
 Machine words.  Integers are unbounded in Dafny, so the widths of the Go types are
 written out: a fixed-width value is an integer in range, and every operation that can
 wrap around says so.
 */
module Words {

  type byte = b: int | 0 <= b < 0x100
  type u16 = w: int | 0 <= w < 0x1_0000
  type u32 = w: int | 0 <= w < 0x1_0000_0000

  const TWO32: int := 0x1_0000_0000

  /** Addition on uint32, with wrap-around. */
  function Add32(a: u32, b: nat): u32 {
    if a + b < TWO32 then a + b else (a + b) % TWO32
  }

  /** The two octets of a 16-bit word, and the two words of a 32-bit one. */
  function Hi(v: u16): byte {
    v / 0x100
  }

  function Lo(v: u16): byte {
    v % 0x100
  }

  function Hi16(v: u32): u16 {
    v / 0x1_0000
  }

  function Lo16(v: u32): u16 {
    v % 0x1_0000
  }

  /** `uint16(hi)<<8 + uint16(lo)` */
  function Word(hi: byte, lo: byte): u16 {
    hi as int * 0x100 + lo as int
  }

  /** Big-endian Uint16 and Uint32, reading at the given offset. */
  function Get16(s: seq<byte>, at: nat): u16
    requires at + 2 <= |s|
  {
    Word(s[at], s[at + 1])
  }

  function Get32(s: seq<byte>, at: nat): u32
    requires at + 4 <= |s|
  {
    Get16(s, at) * 0x1_0000 + Get16(s, at + 2)
  }

  lemma WordParses(data: seq<byte>, at: nat, v: u16)
    requires at + 2 <= |data| && data[at] == Hi(v) && data[at + 1] == Lo(v)
    ensures Get16(data, at) == v
  {
  }

  lemma LongParses(data: seq<byte>, at: nat, v: u32)
    requires at + 4 <= |data|
    requires data[at] == Hi(Hi16(v)) && data[at + 1] == Lo(Hi16(v))
    requires data[at + 2] == Hi(Lo16(v)) && data[at + 3] == Lo(Lo16(v))
    ensures Get32(data, at) == v
  {
    WordParses(data, at, Hi16(v));
    WordParses(data, at + 2, Lo16(v));
  }

  /** Bitwise or on non-negative integers, bit by bit. */
  function BitOr(a: nat, b: nat): nat {
    if a == 0 then b
    else if b == 0 then a
    else 2 * BitOr(a / 2, b / 2) + (if a % 2 == 1 || b % 2 == 1 then 1 else 0)
  }

  function Pow2(n: nat): nat
    ensures Pow2(n) >= 1
  {
    if n == 0 then 1 else 2 * Pow2(n - 1)
  }

  /** Numbers that share no bit are or-ed by adding them. */
  lemma {:induction false} BitOrDisjoint(a: nat, n: nat, b: nat)
    requires b < Pow2(n)
    ensures BitOr(a * Pow2(n), b) == a * Pow2(n) + b
  {
    if n > 0 && a > 0 && b > 0 {
      var p := Pow2(n - 1);
      assert a * Pow2(n) == 2 * (a * p);
      assert (a * Pow2(n)) / 2 == a * p;
      assert a * p > 0;
      BitOrDisjoint(a, n - 1, b / 2);
    }
  }

  lemma {:induction false} BitOrBound(a: nat, b: nat, n: nat)
    requires a < Pow2(n) && b < Pow2(n)
    ensures BitOr(a, b) < Pow2(n)
  {
    if a > 0 && b > 0 {
      BitOrBound(a / 2, b / 2, n - 1);
    }
  }

  // ---------------------------------------------------------------- byte buffers

  function Spliced(s: seq<byte>, at: nat, t: seq<byte>): (r: seq<byte>)
    requires at + |t| <= |s|
    ensures |r| == |s|
  {
    s[..at] + t + s[at + |t|..]
  }

  lemma SplicedTwice(s: seq<byte>, at: nat, a: seq<byte>, b: seq<byte>)
    requires at + |a| + |b| <= |s|
    ensures Spliced(Spliced(s, at, a), at + |a|, b) == Spliced(s, at, a + b)
  {
    assert Spliced(s, at, a)[..at + |a|] == s[..at] + a;
    assert Spliced(s, at, a)[at + |a| + |b|..] == s[at + |a| + |b|..];
  }

  /** `copy(dst[at:], src)`, for a source that fits */
  method CopyInto(dst: array<byte>, at: nat, src: seq<byte>)
    requires at + |src| <= dst.Length
    modifies dst
    ensures dst[..] == Spliced(old(dst[..]), at, src)
  {
    forall i | 0 <= i < |src| {
      dst[at + i] := src[i];
    }
  }

  /** binary.BigEndian.PutUint16(dst[at:], v) and PutUint32 */
  method PutUint16(dst: array<byte>, at: nat, v: u16)
    requires at + 2 <= dst.Length
    modifies dst
    ensures dst[at] == Hi(v) && dst[at + 1] == Lo(v)
    ensures forall i :: 0 <= i < dst.Length && i != at && i != at + 1 ==> dst[i] == old(dst[i])
  {
    dst[at], dst[at + 1] := Hi(v), Lo(v);
  }

  method PutUint32(dst: array<byte>, at: nat, v: u32)
    requires at + 4 <= dst.Length
    modifies dst
    ensures dst[at] == Hi(Hi16(v)) && dst[at + 1] == Lo(Hi16(v))
    ensures dst[at + 2] == Hi(Lo16(v)) && dst[at + 3] == Lo(Lo16(v))
    ensures forall i :: 0 <= i < dst.Length && !(at <= i < at + 4) ==> dst[i] == old(dst[i])
  {
    PutUint16(dst, at, Hi16(v));
    PutUint16(dst, at + 2, Lo16(v));
  }
}
