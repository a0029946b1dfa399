/**
 The TCP and IPv4 checksums of listener/canary.

 The reference is the one's-complement sum of section 1 of RFC 1071: 16-bit words added
 with an end-around carry after each addition.  The code instead adds everything up in a
 uint32 and folds the carries in at the end; it does so in two separate TCP
 implementations, one for sending and one for receiving, and once more for the IP header.
 */
module Checksum {
  import opened Words

  // ---------------------------------------------------------------- reference

  /** One's-complement addition: the carry out of bit 15 is added back in. */
  function OcAdd(a: u16, b: u16): u16 {
    if a + b > 0xffff then a + b - 0xffff else a + b
  }

  function OcSum(ws: seq<u16>): u16 {
    if ws == [] then 0 else OcAdd(ws[0], OcSum(ws[1..]))
  }

  /** The big-endian 16-bit words of a byte string, an odd last byte padded with zero. */
  function WordsOf(s: seq<byte>): seq<u16> {
    if |s| == 0 then []
    else if |s| == 1 then [Word(s[0], 0)]
    else [Word(s[0], s[1])] + WordsOf(s[2..])
  }

  /** The pseudo header of section 3.1 of RFC 793. */
  function PseudoHeader(src: Address, dst: Address, length: u16): seq<u16> {
    [Get16(src, 0), Get16(src, 2), Get16(dst, 0), Get16(dst, 2), 6, length]
  }

  type Address = a: seq<byte> | |a| == 4 witness [0, 0, 0, 0]

  /** The bytes with the 16-bit checksum field at offset `at` taken as zero. */
  function Zeroed(s: seq<byte>, at: nat): (z: seq<byte>)
    requires at + 2 <= |s|
    ensures |z| == |s|
  {
    s[at := 0][at + 1 := 0]
  }

  function WithField(s: seq<byte>, at: nat, c: u16): (f: seq<byte>)
    requires at + 2 <= |s|
    ensures |f| == |s|
  {
    s[at := Hi(c)][at + 1 := Lo(c)]
  }

  predicate SegmentSized(data: seq<byte>) {
    20 <= |data| <= 0xffff
  }

  function TcpWords(data: seq<byte>, src: Address, dst: Address): seq<u16>
    requires SegmentSized(data)
  {
    PseudoHeader(src, dst, |data|) + WordsOf(data)
  }

  /** What section 3.1 of RFC 793 asks to be put in the checksum field. */
  function TcpChecksum(data: seq<byte>, src: Address, dst: Address): u16
    requires SegmentSized(data)
  {
    0xffff - OcSum(TcpWords(Zeroed(data, 16), src, dst))
  }

  /** The receiver's test of section 3.1 of RFC 793: everything sums to all ones. */
  predicate TcpValid(data: seq<byte>, src: Address, dst: Address)
    requires SegmentSized(data)
  {
    OcSum(TcpWords(data, src, dst)) == 0xffff
  }

  // ---------------------------------------------------------------- carries deferred

  function Total(ws: seq<u16>): nat {
    if ws == [] then 0 else ws[0] + Total(ws[1..])
  }

  /** What the summing loops add up: the words of a byte string, as a plain integer. */
  function ByteTotal(s: seq<byte>): nat {
    if |s| == 0 then 0
    else if |s| == 1 then Word(s[0], 0)
    else Word(s[0], s[1]) + ByteTotal(s[2..])
  }

  /** The only 16-bit value that is congruent to n modulo 0xffff and zero just when n is. */
  function Folded(n: nat): u16 {
    if n == 0 then 0 else 1 + (n - 1) % 0xffff
  }

  /** Deferring every carry to the end gives the same one's-complement sum. */
  lemma {:induction false} OcSumIsFoldedTotal(ws: seq<u16>)
    ensures OcSum(ws) == Folded(Total(ws))
  {
    if ws != [] {
      OcSumIsFoldedTotal(ws[1..]);
    }
  }

  lemma {:induction false} TotalOfWords(s: seq<byte>)
    ensures Total(WordsOf(s)) == ByteTotal(s)
  {
    if |s| >= 2 {
      TotalOfWords(s[2..]);
      assert WordsOf(s)[1..] == WordsOf(s[2..]);
    }
  }

  /** A whole segment leaves room in the uint32 accumulator. */
  lemma {:induction false} ByteTotalBound(s: seq<byte>)
    ensures ByteTotal(s) <= 0x8000 * (|s| + 1)
  {
    if |s| >= 2 {
      ByteTotalBound(s[2..]);
    }
  }

  lemma ByteTotalStep(s: seq<byte>, i: nat)
    requires i + 2 <= |s|
    ensures ByteTotal(s[i..]) == Word(s[i], s[i + 1]) + ByteTotal(s[i + 2..])
  {
    assert s[i..][2..] == s[i + 2..];
  }

  lemma {:induction false} TotalConcat(a: seq<u16>, b: seq<u16>)
    ensures Total(a + b) == Total(a) + Total(b)
  {
    if a == [] {
      assert a + b == b;
    } else {
      assert (a + b)[1..] == a[1..] + b;
      TotalConcat(a[1..], b);
    }
  }

  function PseudoTotal(src: Address, dst: Address, length: u16): (t: nat)
    ensures t == Total(PseudoHeader(src, dst, length))
  {
    var p := PseudoHeader(src, dst, length);
    assert p[1..][1..] == p[2..];
    assert p[2..][1..] == p[3..];
    assert p[3..][1..] == p[4..];
    assert p[4..][1..] == p[5..];
    assert Total(p[5..]) == p[5];
    assert Total(p[4..]) == p[4] + Total(p[5..]);
    assert Total(p[3..]) == p[3] + Total(p[4..]);
    assert Total(p[2..]) == p[2] + Total(p[3..]);
    assert Total(p[1..]) == p[1] + Total(p[2..]);
    Get16(src, 0) + Get16(src, 2) + Get16(dst, 0) + Get16(dst, 2) + 6 + length
  }

  // ---------------------------------------------------------------- the folding loops

  /** `csum = (csum >> 16) + (csum & 0xffff)` until no carry is left. */
  method FoldCarries(sum: u32) returns (r: u16)
    ensures r == Folded(sum)
  {
    var csum := sum;
    while csum > 0xffff
      invariant 0 <= csum < TWO32
      invariant Folded(csum) == Folded(sum)
      decreases csum
    {
      FoldOnce(csum / 0x1_0000, csum % 0x1_0000);
      csum := csum / 0x1_0000 + csum % 0x1_0000;
    }
    r := csum;
  }

  lemma {:induction false} DropMultiples(q: nat, m: nat)
    ensures (q * 0xffff + m) % 0xffff == m % 0xffff
  {
    if q > 0 {
      DropMultiples(q - 1, m);
      DropOne((q - 1) * 0xffff + m);
    }
  }

  lemma DropOne(m: nat)
    ensures (m + 0xffff) % 0xffff == m % 0xffff
  {
  }

  lemma FoldOnce(hi: nat, lo: nat)
    ensures Folded(hi * 0x1_0000 + lo) == Folded(hi + lo)
  {
    if hi + lo > 0 {
      DropMultiples(hi, hi + lo - 1);
    }
  }

  /** Folding can be done before a word is added: then there is one carry at most. */
  lemma FoldedAdd(sum: nat, c: u16)
    requires sum > 0
    ensures 0 < Folded(sum)
    ensures Folded(sum + c) == if Folded(sum) + c <= 0xffff then Folded(sum) + c else Folded(sum) + c - 0xffff
  {
    var q, m := (sum - 1) / 0xffff, (sum - 1) % 0xffff;
    assert sum - 1 == q * 0xffff + m;
    DropMultiples(q, m + c);
    if m + c >= 0xffff {
      DropOne(m + c - 0xffff);
    }
  }

  /** Complementing before or after cutting down to 16 bits is the same. */
  lemma TruncatedComplement(f: u16)
    ensures Lo16(TWO32 - 1 - f) == 0xffff - f
  {
    assert TWO32 - 1 - f == 0xffff * 0x1_0000 + (0xffff - f);
  }

  lemma NoCarryLeft(f: u16)
    ensures Lo16(f + Hi16(f)) == f
  {
  }

  // ---------------------------------------------------------------- the two TCP sums

  lemma TcpFold(z: seq<byte>, src: Address, dst: Address)
    requires SegmentSized(z)
    ensures Folded(PseudoTotal(src, dst, |z|) + ByteTotal(z)) == OcSum(TcpWords(z, src, dst))
  {
    hide Folded, OcSum, ByteTotal, Total, WordsOf;
    TotalOfWords(z);
    TotalConcat(PseudoHeader(src, dst, |z|), WordsOf(z));
    OcSumIsFoldedTotal(TcpWords(z, src, dst));
  }

  /** The word loop of csum, which steps over the checksum field at offset 16. */
  method CsumWords(data: seq<byte>, start: u32) returns (csum: u32)
    requires SegmentSized(data) && start <= 0x8_0000
    ensures csum == start + ByteTotal(Zeroed(data, 16))
  {
    hide ByteTotal, Word;
    ghost var z, k := Zeroed(data, 16), 0;
    ByteTotalBound(z);
    assert z[0..] == z;
    csum := start;
    var length := |data|;
    var i := 0;
    while i + 1 < length
      invariant 0 <= i <= length && i == 2 * k
      invariant csum + ByteTotal(z[i..]) == start + ByteTotal(z)
    {
      ByteTotalStep(z, i);
      WordInTwo(0, 0);
      if i != 16 {
        csum := Add32(csum, Word(data[i], data[i + 1]));
      }
      i, k := i + 2, k + 1;
    }
    ByteTotalEnd(z, i);
    if length % 2 == 1 {
      csum := Add32(csum, Word(data[length - 1], 0));
    }
  }

  method CsumPseudo(srcip: Address, dstip: Address, length: u16) returns (csum: u32)
    ensures csum == PseudoTotal(srcip, dstip, length)
  {
    csum := 0;
    csum := Add32(csum, Word(srcip[0], srcip[1]));
    csum := Add32(csum, Word(srcip[2], srcip[3]));
    csum := Add32(csum, Word(dstip[0], dstip[1]));
    csum := Add32(csum, Word(dstip[2], dstip[3]));
    csum := Add32(csum, 6);
    csum := Add32(csum, length);
  }

  /** csum of tcp.go: used by the receiver. */
  method Csum(data: seq<byte>, srcip: Address, dstip: Address) returns (c: u16)
    requires SegmentSized(data)
    ensures c == TcpChecksum(data, srcip, dstip)
  {
    var csum := CsumPseudo(srcip, dstip, |data|);
    csum := CsumWords(data, csum);
    TcpFold(Zeroed(data, 16), srcip, dstip);
    var folded := FoldCarries(csum);
    c := Lo16(TWO32 - 1 - folded);
    TruncatedComplement(folded);
  }

  /** The addresses, the protocol and the length as updateTCPChecksum adds them up. */
  function SenderPseudo(src: Address, dst: Address, length: nat): (t: u32)
    ensures t <= 0x8_0000
  {
    Get16(src, 0) + Get16(src, 2) + Get16(dst, 0) + Get16(dst, 2) + 6 +
    length % 0x1_0000 + length / 0x1_0000 % 0x1_0000
  }

  /** What updateTCPChecksum computes: for a long segment its uint32 sum wraps around. */
  function SenderChecksum(data: seq<byte>, src: Address, dst: Address): u16
    requires 20 <= |data|
  {
    0xffff - Folded((SenderPseudo(src, dst, |data|) + ByteTotal(Zeroed(data, 16))) % TWO32)
  }

  /** For every segment that an IP packet can carry, the sender's sum is that of RFC 793. */
  lemma SenderChecksumIsTcpChecksum(data: seq<byte>, src: Address, dst: Address)
    requires SegmentSized(data)
    ensures SenderChecksum(data, src, dst) == TcpChecksum(data, src, dst)
  {
    hide ByteTotal, OcSum, Folded, TcpWords, SenderPseudo, PseudoTotal;
    var z := Zeroed(data, 16);
    ByteTotalBound(z);
    SamePseudo(src, dst, |data|);
    NoWrap(SenderPseudo(src, dst, |data|) + ByteTotal(z));
    TcpFold(z, src, dst);
  }

  lemma SamePseudo(src: Address, dst: Address, length: u16)
    ensures SenderPseudo(src, dst, length) == PseudoTotal(src, dst, length)
  {
    hide Get16;
  }

  lemma NoWrap(n: nat)
    requires n < TWO32
    ensures n % TWO32 == n
  {
  }

  lemma DropWrap(n: nat)
    ensures (n + TWO32) % TWO32 == n % TWO32
  {
  }

  /** Adding a word and then the rest is adding both, whether the sum wraps or not. */
  lemma AddedModulo(csum: u32, w: u16, rest: nat)
    ensures (Add32(csum, w) + rest) % TWO32 == (csum + w + rest) % TWO32
  {
    if csum + w >= TWO32 {
      var over := csum + w - TWO32;
      DropWrap(over);
      NoWrap(over);
      DropWrap(over + rest);
    }
  }

  lemma WordInTwo(hi: byte, lo: byte)
    ensures Word(hi, lo) == Word(hi, 0) + lo
    ensures Word(0, 0) == 0
  {
  }

  /** What is left behind the last whole word. */
  lemma ByteTotalEnd(s: seq<byte>, i: nat)
    requires i <= |s| <= i + 1
    ensures ByteTotal(s[i..]) == if i == |s| then 0 else Word(s[i], 0)
  {
  }

  /** The word loop of updateTCPChecksum: the same sum, byte by byte. */
  method UpdateWords(data: array<byte>, start: u32) returns (csum: u32)
    requires 20 <= data.Length
    ensures csum == (start + ByteTotal(Zeroed(data[..], 16))) % TWO32
  {
    hide Add32, ByteTotal, Word;
    ghost var z, k := Zeroed(data[..], 16), 0;
    assert z[0..] == z;
    csum := start;
    var length := data.Length - 1;
    var i := 0;
    while i < length
      invariant 0 <= i <= length + 1 && i == 2 * k
      invariant (csum + ByteTotal(z[i..])) % TWO32 == (start + ByteTotal(z)) % TWO32
    {
      ByteTotalStep(z, i);
      WordInTwo(z[i], z[i + 1]);
      if i != 16 {
        ghost var rest := ByteTotal(z[i + 2..]);
        AddedModulo(csum, Word(data[i], 0), data[i + 1] as int + rest);
        csum := Add32(csum, Word(data[i], 0));
        AddedModulo(csum, data[i + 1], rest);
        csum := Add32(csum, data[i + 1]);
      }
      i, k := i + 2, k + 1;
    }
    ByteTotalEnd(z, i);
    if data.Length % 2 == 1 {
      AddedModulo(csum, Word(data[length], 0), 0);
      csum := Add32(csum, Word(data[length], 0));
    }
    NoWrap(csum);
  }

  method UpdatePseudo(src: Address, dst: Address, length: nat) returns (csum: u32)
    ensures csum == SenderPseudo(src, dst, length)
  {
    csum := 0;
    csum := Add32(csum, Word(src[0], 0) + Word(src[2], 0));
    csum := Add32(csum, src[1] as int + src[3] as int);
    csum := Add32(csum, Word(dst[0], 0) + Word(dst[2], 0));
    csum := Add32(csum, dst[1] as int + dst[3] as int);
    csum := Add32(csum, 6);
    csum := Add32(csum, length % 0x1_0000);
    csum := Add32(csum, length / 0x1_0000 % 0x1_0000);
  }

  method ComplementedSum(src: Address, dst: Address, data: array<byte>) returns (sum: u16)
    requires 20 <= data.Length
    ensures sum == SenderChecksum(data[..], src, dst)
  {
    var csum := UpdatePseudo(src, dst, data.Length);
    csum := UpdateWords(data, csum);
    var folded := FoldCarries(csum);
    NoCarryLeft(folded);
    sum := 0xffff - Lo16(folded + Hi16(folded));
  }

  /** updateTCPChecksum of canary_linux.go: patches the segment in place before sending. */
  method UpdateTcpChecksum(src: Address, dst: Address, data: array<byte>)
    requires 20 <= data.Length
    modifies data
    ensures data[..] == WithField(old(data[..]), 16, SenderChecksum(old(data[..]), src, dst))
    ensures data.Length <= 0xffff ==>
      data[..] == WithField(old(data[..]), 16, TcpChecksum(old(data[..]), src, dst))
  {
    if data.Length <= 0xffff {
      SenderChecksumIsTcpChecksum(data[..], src, dst);
    }
    var csum := ComplementedSum(src, dst, data);
    data[16] := Hi(csum);
    data[17] := Lo(csum);
  }

  // ---------------------------------------------------------------- the IP header sum

  /** The word loop in send over an IPv4 header without options. */
  method IpWords(data: array<byte>) returns (csum: u32)
    requires 20 <= data.Length
    ensures csum == ByteTotal(Zeroed(data[..20], 10))
  {
    ghost var z, k := Zeroed(data[..20], 10), 0;
    ByteTotalBound(z);
    assert z[0..] == z;
    csum := 0;
    var i := 0;
    while i < 20
      invariant 0 <= i <= 20 && i == 2 * k
      invariant csum + ByteTotal(z[i..]) == ByteTotal(z)
    {
      ByteTotalStep(z, i);
      if i != 10 {
        csum := Add32(csum, Word(data[i], 0));
        csum := Add32(csum, data[i + 1]);
      }
      i, k := i + 2, k + 1;
    }
  }

  /** The part of send that fills in bytes 10 and 11. */
  method UpdateIpChecksum(data: array<byte>)
    requires 20 <= data.Length
    modifies data
    ensures data[..] == WithField(old(data[..]), 10, IpChecksum(old(data[..20])))
  {
    var csum := IpWords(data);
    TotalOfWords(Zeroed(data[..20], 10));
    OcSumIsFoldedTotal(WordsOf(Zeroed(data[..20], 10)));
    var folded := FoldCarries(csum);
    var sum := 0xffff - folded;
    data[10] := Hi(sum);
    data[11] := Lo(sum);
  }

  /** Section 3.1 of RFC 791: the complement of the sum of the header words. */
  function IpChecksum(header: seq<byte>): u16
    requires |header| == 20
  {
    0xffff - OcSum(WordsOf(Zeroed(header, 10)))
  }

  // ---------------------------------------------------------------- what is promised

  /** Writing a 16-bit field changes the total by the value of the field. */
  lemma {:induction false} TotalOfField(s: seq<byte>, at: nat, c: u16)
    requires at % 2 == 0 && at + 2 <= |s|
    ensures ByteTotal(WithField(s, at, c)) == ByteTotal(Zeroed(s, at)) + c
    decreases |s|
  {
    var f, z := WithField(s, at, c), Zeroed(s, at);
    if at == 0 {
      assert f[2..] == z[2..];
    } else {
      assert f[2..] == WithField(s[2..], at - 2, c);
      assert z[2..] == Zeroed(s[2..], at - 2);
      TotalOfField(s[2..], at - 2, c);
    }
  }

  /** Adding the complement of a non-zero sum gives all ones, and nothing else does. */
  lemma FoldsToOnes(sum: nat, c: u16)
    requires sum > 0
    ensures Folded(sum + c) == 0xffff <==> c == 0xffff - Folded(sum) || c == 0xffff == Folded(sum)
  {
    hide Folded;
    FoldedAdd(sum, c);
  }

  /**
   The sum that updateTCPChecksum stores makes the segment pass the test of RFC 793, and
   the receiver's own comparison accepts a segment exactly when it passes that test and
   its field is not the second representation of zero, 0xffff.
   */
  lemma TcpChecksumSound(data: seq<byte>, src: Address, dst: Address, c: u16)
    requires SegmentSized(data)
    ensures c == TcpChecksum(data, src, dst) <==>
            TcpValid(WithField(data, 16, c), src, dst) && c != 0xffff
  {
    hide Folded, OcSum, ByteTotal, TcpWords, PseudoTotal;
    var z, f := Zeroed(data, 16), WithField(data, 16, c);
    PseudoPositive(src, dst, |data|);
    TotalOfField(data, 16, c);
    TcpFold(z, src, dst);
    TcpFold(f, src, dst);
    FoldedAdd(PseudoTotal(src, dst, |data|) + ByteTotal(z), c);
    FoldsToOnes(PseudoTotal(src, dst, |data|) + ByteTotal(z), c);
  }

  /** The second representation of zero passes the test of RFC 793 just where the first is what is computed. */
  lemma SecondZero(data: seq<byte>, src: Address, dst: Address)
    requires SegmentSized(data)
    ensures TcpValid(WithField(data, 16, 0xffff), src, dst) <==> TcpChecksum(data, src, dst) == 0
  {
    hide Folded, OcSum, ByteTotal, TcpWords, PseudoTotal;
    var z, f := Zeroed(data, 16), WithField(data, 16, 0xffff);
    PseudoPositive(src, dst, |data|);
    TotalOfField(data, 16, 0xffff);
    TcpFold(z, src, dst);
    TcpFold(f, src, dst);
    FoldedAdd(PseudoTotal(src, dst, |data|) + ByteTotal(z), 0xffff);
    FoldsToOnes(PseudoTotal(src, dst, |data|) + ByteTotal(z), 0xffff);
  }

  /** The protocol number alone sees to that. */
  lemma PseudoPositive(src: Address, dst: Address, length: u16)
    ensures PseudoTotal(src, dst, length) > 0
  {
  }

  lemma FoldsAlike(sum: nat, a: u16, b: u16)
    requires sum > 0
    ensures Folded(sum + a) == Folded(sum + b) <==> a == b || (a == 0 && b == 0xffff) || (a == 0xffff && b == 0)
  {
    hide Folded;
    FoldedAdd(sum, a);
    FoldedAdd(sum, b);
  }

  /** What the checksum detects: any change of one word, but for exchanging the two zeros. */
  lemma ChangedWordDetected(data: seq<byte>, src: Address, dst: Address, at: nat, a: u16, b: u16)
    requires SegmentSized(data) && at % 2 == 0 && at + 2 <= |data| && at != 16
    ensures TcpChecksum(WithField(data, at, a), src, dst) == TcpChecksum(WithField(data, at, b), src, dst) <==>
            a == b || (a == 0 && b == 0xffff) || (a == 0xffff && b == 0)
  {
    hide OcSum, TcpWords, ByteTotal, Folded, PseudoTotal;
    var z := Zeroed(data, 16);
    PseudoPositive(src, dst, |data|);
    assert Zeroed(WithField(data, at, a), 16) == WithField(z, at, a);
    assert Zeroed(WithField(data, at, b), 16) == WithField(z, at, b);
    TotalOfField(z, at, a);
    TotalOfField(z, at, b);
    TcpFold(WithField(z, at, a), src, dst);
    TcpFold(WithField(z, at, b), src, dst);
    FoldsAlike(PseudoTotal(src, dst, |data|) + ByteTotal(Zeroed(z, at)), a, b);
  }

  /** Why handleTCP may hand its two addresses to the check in either order. */
  lemma TcpChecksumSymmetric(data: seq<byte>, src: Address, dst: Address)
    requires SegmentSized(data)
    ensures TcpChecksum(data, src, dst) == TcpChecksum(data, dst, src)
  {
    hide Folded, OcSum, ByteTotal, TcpWords, Get16;
    TcpFold(Zeroed(data, 16), src, dst);
    TcpFold(Zeroed(data, 16), dst, src);
  }

  /** The field itself does not take part, so a stored sum can be recomputed in place. */
  lemma TcpChecksumIgnoresField(data: seq<byte>, src: Address, dst: Address, c: u16)
    requires SegmentSized(data)
    ensures TcpChecksum(WithField(data, 16, c), src, dst) == TcpChecksum(data, src, dst)
  {
    assert Zeroed(WithField(data, 16, c), 16) == Zeroed(data, 16);
  }

  /** The stored IP header sum makes all header words add up to all ones. */
  lemma IpChecksumSound(header: seq<byte>)
    requires |header| == 20 && header[0] != 0
    ensures OcSum(WordsOf(WithField(header, 10, IpChecksum(header)))) == 0xffff
  {
    var z := Zeroed(header, 10);
    TotalOfField(header, 10, IpChecksum(header));
    OcSumIsFoldedTotal(WordsOf(z));
    OcSumIsFoldedTotal(WordsOf(WithField(header, 10, IpChecksum(header))));
    TotalOfWords(z);
    TotalOfWords(WithField(header, 10, IpChecksum(header)));
    FoldsToOnes(ByteTotal(z), IpChecksum(header));
  }
}
