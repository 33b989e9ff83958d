/** The one's-complement checksum of netstack.c and socket.c, on a little-endian machine. */
module Checksum {
  import opened Basics

  const U16: int := 0x1_0000

  /** Two bytes as the 16-bit load of this machine sees them. */
  function Word(lo: byte, hi: byte): int { lo + 256 * hi }

  function Swap16(x: int): int { x % 256 * 256 + x / 256 % 256 }

  function WordSum(s: seq<byte>): nat {
    if s == [] then 0
    else if |s| == 1 then s[0]
    else Word(s[0], s[1]) + WordSum(s[2..])
  }

  /** The end-around-carry loop. */
  function Fold(x: nat): (r: nat)
    ensures r < U16
  {
    if x < U16 then x else Fold(x % U16 + x / U16)
  }

  function Complement(x: int): int { U16 - 1 - x }

  function Sum16(s: seq<byte>): int { Complement(Fold(WordSum(s))) }

  // ---- what the fold computes ------------------------------------------------

  /** Folding is reduction modulo 2^16 - 1 with 0xFFFF, not 0, for nonzero multiples. */
  lemma {:induction false} FoldIsModulo(x: nat)
    ensures Fold(x) == if x == 0 then 0 else (x - 1) % 65535 + 1
  {
    if x >= U16 {
      var y := x % U16 + x / U16;
      FoldIsModulo(y);
      assert x - y == x / U16 * 65535;
      SubMultiple(y - 1, x / U16);
    }
  }

  lemma {:induction false} SubMultiple(a: nat, k: nat)
    ensures (a + k * 65535) % 65535 == a % 65535
  {
    if k > 0 { SubMultiple(a, k - 1); }
  }

  /** Sums that agree modulo 65535, neither zero, fold alike. */
  lemma FoldCongruent(x: nat, y: nat, k: nat)
    requires x > 0 && y == x + k * 65535
    ensures Fold(y) == Fold(x)
  {
    FoldIsModulo(x);
    FoldIsModulo(y);
    SubMultiple(x - 1, k);
  }

  /** The difference between a sum and its fold is a multiple of 65535. */
  lemma FoldQuotient(x: nat) returns (k: nat)
    ensures x == Fold(x) + k * 65535
  {
    FoldIsModulo(x);
    k := if x == 0 then 0 else (x - 1) / 65535;
  }

  // ---- sums of pieces ----------------------------------------------------------

  lemma {:induction false} WordSumConcat(a: seq<byte>, b: seq<byte>)
    requires |a| % 2 == 0
    ensures WordSum(a + b) == WordSum(a) + WordSum(b)
  {
    if a == [] {
      assert a + b == b;
    } else {
      assert (a + b)[2..] == a[2..] + b;
      WordSumConcat(a[2..], b);
    }
  }

  lemma {:induction false} WordSumBound(s: seq<byte>)
    ensures WordSum(s) <= 65535 * ((|s| + 1) / 2)
  {
    if |s| > 1 { WordSumBound(s[2..]); }
  }

  function PutShort(s: seq<byte>, k: nat, w: int): seq<byte>
    requires k + 1 < |s| && 0 <= w < U16
  {
    s[k := w % 256][k + 1 := w / 256]
  }

  lemma WordSumPut(s: seq<byte>, k: nat, w: int)
    requires k % 2 == 0 && k + 1 < |s| && 0 <= w < U16
    ensures WordSum(PutShort(s, k, w)) == WordSum(s) - Word(s[k], s[k + 1]) + w
  {
    var t := PutShort(s, k, w);
    assert s == s[..k] + s[k..] && t == s[..k] + t[k..];
    WordSumConcat(s[..k], s[k..]);
    WordSumConcat(s[..k], t[k..]);
    assert s[k..][2..] == t[k..][2..];
  }

  // ---- the checksum law ---------------------------------------------------------

  /** Writing the checksum of a buffer over a zeroed word of it makes the buffer check. */
  lemma InsertThenVerify(s: seq<byte>, k: nat)
    requires k % 2 == 0 && k + 1 < |s| && s[k] == 0 && s[k + 1] == 0
    ensures Sum16(PutShort(s, k, Sum16(s))) == 0
  {
    var x := WordSum(s);
    WordSumPut(s, k, Sum16(s));
    var q := FoldQuotient(x);
    if x == 0 {
      assert Fold(65535) == 65535;
    } else {
      assert x + Complement(Fold(x)) == 65535 + q * 65535;
      FoldCongruent(65535, x + Complement(Fold(x)), q);
    }
  }

  lemma ChecksOut(x: nat)
    ensures Complement(Fold(x)) == 0 <==> x > 0 && x % 65535 == 0
  {
    FoldIsModulo(x);
    if x > 0 {
      var q, r := (x - 1) / 65535, (x - 1) % 65535;
      assert x == q * 65535 + (r + 1);
      SubMultiple(r + 1, q);
    }
  }

  /** What verification catches: changing one aligned word of a buffer that checks goes
      unnoticed exactly when the old and new words are equal modulo 65535, the only such
      pair of different words being 0 and 0xFFFF (and the rest of the buffer not zero). */
  lemma Detects(s: seq<byte>, k: nat, w: int)
    requires k % 2 == 0 && k + 1 < |s| && 0 <= w < U16
    requires Sum16(s) == 0
    ensures Sum16(PutShort(s, k, w)) == 0
            <==> (var v := Word(s[k], s[k + 1]);
                  w == v || (v == 0 && w == 65535) || (v == 65535 && w == 0 && WordSum(s) > 65535))
  {
    var x, y := WordSum(s), WordSum(PutShort(s, k, w));
    WordSumPut(s, k, w);
    ChecksOut(x);
    ChecksOut(y);
    MultipleMoves(x, y, Word(s[k], s[k + 1]), w);
  }

  lemma MultipleMoves(x: nat, y: nat, v: int, w: int)
    requires x > 0 && x % 65535 == 0 && y == x - v + w && 0 <= v < U16 && 0 <= w < U16
    ensures (y > 0 && y % 65535 == 0)
            <==> (w == v || (v == 0 && w == 65535) || (v == 65535 && w == 0 && x > 65535))
  {
    var q := x / 65535;
    assert x == q * 65535;
    if y % 65535 == 0 {
      var p := y / 65535;
      assert w - v == (p - q) * 65535;
    }
  }

  // ---- byte order: RFC 1071 sums big-endian words --------------------------------

  function NetworkSum(s: seq<byte>): nat {
    if s == [] then 0
    else if |s| == 1 then 256 * s[0]
    else Word(s[1], s[0]) + NetworkSum(s[2..])
  }

  lemma {:induction false} OrdersCongruent(s: seq<byte>) returns (k: nat)
    ensures 256 * WordSum(s) == NetworkSum(s) + k * 65535
    ensures NetworkSum(s) == 0 <==> WordSum(s) == 0
  {
    if s == [] {
      k := 0;
    } else if |s| == 1 {
      k := 0;
    } else {
      var r := OrdersCongruent(s[2..]);
      k := r + s[1];
    }
  }

  lemma SwapTimes256(f: nat) returns (k: int)
    requires f < U16
    ensures Swap16(f) == 256 * f + k * 65535
    ensures 0 <= Swap16(f) < U16 && (Swap16(f) == 0 <==> f == 0)
    ensures Swap16(Complement(f)) == Complement(Swap16(f))
  {
    var h, l := f / 256, f % 256;
    assert f == 256 * h + l && h < 256;
    k := -h;
    var g := Complement(f);
    assert g == 256 * (255 - h) + (255 - l);
    assert g / 256 == 255 - h && g % 256 == 255 - l;
  }

  /** The little-endian sum, stored as is, puts on the wire the very bytes that RFC 1071
      defines on big-endian words: no byte swap is needed, odd lengths included. */
  lemma ByteOrderIndependent(s: seq<byte>)
    ensures Swap16(Sum16(s)) == Complement(Fold(NetworkSum(s)))
  {
    var l, b := WordSum(s), NetworkSum(s);
    var k := OrdersCongruent(s);
    var ql := FoldQuotient(l);
    var qb := FoldQuotient(b);
    var ks := SwapTimes256(Fold(l));
    FoldZero(l);
    FoldZero(b);
    SameResidue(Swap16(Fold(l)), Fold(b), ks + k + qb - 256 * ql);
  }

  lemma FoldZero(x: nat)
    ensures Fold(x) == 0 <==> x == 0
  {
    FoldIsModulo(x);
  }

  lemma SameResidue(x: int, y: int, k: int)
    requires 0 <= x <= 65535 && 0 <= y <= 65535 && x - y == k * 65535
    requires x == 0 <==> y == 0
    ensures x == y
  {
  }

  // ---- the loops ------------------------------------------------------------------

  /** sum += the words of the buffer, with the additions taken modulo 2^32. */
  method AddWords(sum0: nat, buf: array<byte>, len: nat) returns (sum: nat)
    requires len <= buf.Length && len < U16 && sum0 == 0
    ensures sum == WordSum(buf[..len]) && sum <= 65535 * 32768
  {
    var i, l := 0, len;
    sum := sum0;
    WordSumBound(buf[..len]);
    while l > 1
      invariant i + l == len && i % 2 == 0
      invariant sum + WordSum(buf[i..len]) == WordSum(buf[..len])
    {
      assert buf[i..len][2..] == buf[i + 2..len];
      sum := Add32(sum, Word(buf[i], buf[i + 1]));
      i, l := i + 2, l - 2;
    }
    if l == 1 {
      sum := Add32(sum, buf[i]);
    }
  }

  method FoldLoop(sum0: nat) returns (sum: nat)
    requires sum0 < U32
    ensures sum == Fold(sum0)
  {
    sum := sum0;
    while sum / U16 != 0
      invariant Fold(sum) == Fold(sum0)
      decreases sum
    {
      sum := sum % U16 + sum / U16;
    }
  }

  method NetChecksum(buf: array<byte>, len: nat) returns (c: int)
    requires len <= buf.Length && len < U16
    ensures c == Sum16(buf[..len])
  {
    var sum := AddWords(0, buf, len);
    sum := FoldLoop(sum);
    c := Complement(sum);
  }

  // ---- TCP: the pseudo header --------------------------------------------------------

  const IPPROTO_TCP: int := 6

  /** Source, destination, zero, protocol and length as they lie in memory: addresses in
      network order already, the length big-endian. */
  function PseudoHeader(src: int, dst: int, len: nat): seq<byte>
    requires 0 <= src < U32 && 0 <= dst < U32 && len < U16
  {
    WordBytes(src) + WordBytes(dst) + [0, IPPROTO_TCP, len / 256, len % 256]
  }

  /** The pseudo header of section 3.1 of RFC 793, byte by byte. */
  lemma PseudoHeaderIs(src: int, dst: int, len: nat)
    requires 0 <= src < U32 && 0 <= dst < U32 && len < U16
    ensures var p := PseudoHeader(src, dst, len);
      && |p| == 12 && p[8] == 0 && p[9] == 6 && 256 * p[10] as int + p[11] as int == len
      && FromWord(p[0], p[1], p[2], p[3]) == src && FromWord(p[4], p[5], p[6], p[7]) == dst
  {
    WordBack(src);
    WordBack(dst);
  }

  function PseudoSum(src: int, dst: int, len: nat): nat
    requires 0 <= src < U32 && 0 <= dst < U32 && len < U16
  {
    src % U16 + src / U16 + dst % U16 + dst / U16 + Swap16(IPPROTO_TCP) + Swap16(len)
  }

  lemma PseudoSumIs(src: int, dst: int, len: nat)
    requires 0 <= src < U32 && 0 <= dst < U32 && len < U16
    ensures WordSum(PseudoHeader(src, dst, len)) == PseudoSum(src, dst, len)
  {
    AddressSum(src);
    AddressSum(dst);
    TailSum(len);
    var t: seq<byte> := [0, IPPROTO_TCP, len / 256, len % 256];
    WordSumConcat(WordBytes(src) + WordBytes(dst), t);
    WordSumConcat(WordBytes(src), WordBytes(dst));
  }

  lemma TailSum(len: nat)
    requires len < U16
    ensures WordSum([0, IPPROTO_TCP, len / 256, len % 256]) == Swap16(IPPROTO_TCP) + Swap16(len)
  {
    var t: seq<byte> := [0, IPPROTO_TCP, len / 256, len % 256];
    assert t[2..][2..] == [];
    assert WordSum(t) == Word(t[0], t[1]) + WordSum(t[2..]);
    assert WordSum(t[2..]) == Word(t[2], t[3]) + WordSum(t[2..][2..]);
  }

  lemma AddressSum(x: int)
    requires 0 <= x < U32
    ensures WordSum(WordBytes(x)) == x % U16 + x / U16
  {
    assert WordBytes(x)[2..][2..] == [];
    var q := x / 256;
    assert x / U16 == q / 256;
    assert x == 256 * q + x % 256 && q == 256 * (q / 256) + q % 256;
    assert x % U16 == 256 * (q % 256) + x % 256;
    var b := WordBytes(x);
    assert WordSum(b) == Word(b[0], b[1]) + WordSum(b[2..]);
    assert WordSum(b[2..]) == Word(b[2], b[3]) + WordSum(b[2..][2..]);
  }

  lemma HalvesSmall(x: int)
    requires 0 <= x < U32
    ensures 0 <= x % U16 < U16 && 0 <= x / U16 < U16 && 0 <= Swap16(x) < U16
  {
  }

  /** sum += six 16-bit words: nothing wraps. */
  method AddSix(sum0: nat, a: nat, b: nat, c: nat, d: nat, e: nat, f: nat) returns (sum: nat)
    requires sum0 <= 65535 * 32768
    requires a < U16 && b < U16 && c < U16 && d < U16 && e < U16 && f < U16
    ensures sum == sum0 + a + b + c + d + e + f && sum < U32
  {
    sum := Add32(sum0, a);
    sum := Add32(sum, b);
    sum := Add32(sum, c);
    sum := Add32(sum, d);
    sum := Add32(sum, e);
    sum := Add32(sum, f);
  }

  /** tcp_checksum is the plain checksum of the pseudo header followed by the segment, for
      odd segment lengths too. */
  method TcpChecksum(src: int, dst: int, data: array<byte>, len: nat) returns (c: int)
    requires 0 <= src < U32 && 0 <= dst < U32 && len <= data.Length && len < U16
    ensures c == Sum16(PseudoHeader(src, dst, len) + data[..len])
  {
    var sum := AddWords(0, data, len);
    sum := AddPseudo(sum, src, dst, len);
    PseudoFirst(src, dst, data[..len]);
    sum := FoldLoop(sum);
    c := Complement(sum);
  }

  method AddPseudo(sum0: nat, src: int, dst: int, len: nat) returns (sum: nat)
    requires sum0 <= 65535 * 32768 && 0 <= src < U32 && 0 <= dst < U32 && len < U16
    ensures sum == sum0 + PseudoSum(src, dst, len) && sum < U32
  {
    HalvesSmall(src);
    HalvesSmall(dst);
    HalvesSmall(len);
    sum := AddSix(sum0, src % U16, src / U16, dst % U16, dst / U16, Swap16(IPPROTO_TCP), Swap16(len));
  }

  lemma PseudoFirst(src: int, dst: int, data: seq<byte>)
    requires 0 <= src < U32 && 0 <= dst < U32 && |data| < U16
    ensures WordSum(PseudoHeader(src, dst, |data|) + data) == PseudoSum(src, dst, |data|) + WordSum(data)
  {
    PseudoSumIs(src, dst, |data|);
    HeadFirst(PseudoHeader(src, dst, |data|), data, PseudoSum(src, dst, |data|));
  }

  lemma HeadFirst(head: seq<byte>, data: seq<byte>, n: nat)
    requires |head| == 12 && WordSum(head) == n
    ensures WordSum(head + data) == n + WordSum(data)
  {
    WordSumConcat(head, data);
  }
}
