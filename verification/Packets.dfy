/** Headers as ipv4_send and tcp_send_packet lay them out in memory, and as ipv4_rx and
    socket_tcp_input read them back. */
module Packets {
  import opened Basics
  import opened Checksum

  const WINDOW: int := 65535

  datatype Header = Header(srcPort: int, dstPort: int, seqNo: int, ackNo: int, flags: byte, window: int)

  ghost predicate ValidHeader(h: Header) {
    && 0 <= h.srcPort < U16 && 0 <= h.dstPort < U16 && 0 <= h.window < U16
    && 0 <= h.seqNo < U32 && 0 <= h.ackNo < U32
  }

  /** net_htons and net_htonl followed by a little-endian store. */
  function Big16(x: int): seq<byte>
    requires 0 <= x < U16
  {
    [x / 256, x % 256]
  }

  function Big32(x: int): seq<byte>
    requires 0 <= x < U32
  {
    [x / 256 / 256 / 256, x / 256 / 256 % 256, x / 256 % 256, x % 256]
  }

  function Read16(s: seq<byte>, i: nat): int
    requires i + 2 <= |s|
  {
    var a: int := s[i];
    256 * a + s[i + 1]
  }

  function Read32(s: seq<byte>, i: nat): int
    requires i + 4 <= |s|
  {
    var a: int := s[i];
    256 * (256 * (256 * a + s[i + 1]) + s[i + 2]) + s[i + 3]
  }

  lemma Big32Read(x: int)
    requires 0 <= x < U32
    ensures Read32(Big32(x), 0) == x
  {
    var q := x / 256;
    assert q == 256 * (q / 256) + q % 256 && x == 256 * q + x % 256;
  }

  // ---- TCP segments ------------------------------------------------------------

  /** The segment with a zero checksum field. */
  function RawSegment(h: Header, payload: seq<byte>): seq<byte>
    requires ValidHeader(h)
  {
    Big16(h.srcPort) + Big16(h.dstPort) + Big32(h.seqNo) + Big32(h.ackNo)
    + [0x50, h.flags] + Big16(h.window) + [0, 0, 0, 0] + payload
  }

  function Encode(src: int, dst: int, h: Header, payload: seq<byte>): seq<byte>
    requires ValidHeader(h) && 0 <= src < U32 && 0 <= dst < U32 && |payload| + 20 < U16
  {
    var raw := RawSegment(h, payload);
    PutShort(raw, 16, Sum16(PseudoHeader(src, dst, |raw|) + raw))
  }

  datatype Parsed = Dropped | Segment(h: Header, payload: seq<byte>)

  /** The reading side: header length from the offset nibble, everything else big-endian. */
  function Parse(s: seq<byte>): Parsed {
    if |s| < 20 then Dropped
    else
      var hl := s[12] / 16 * 4;
      if hl < 20 || |s| < hl then Dropped
      else Segment(Header(Read16(s, 0), Read16(s, 2), Read32(s, 4), Read32(s, 8), s[13], Read16(s, 14)), s[hl..])
  }

  /** n bytes from place i on as one number, highest first. */
  function Big(s: seq<byte>, i: nat, n: nat): nat
    requires i + n <= |s|
  {
    if n == 0 then 0 else 256 * Big(s, i, n - 1) + s[i + n - 1] as int
  }

  lemma BigNext(s: seq<byte>, i: nat, n: nat)
    requires i + n < |s|
    ensures Big(s, i, n + 1) == 256 * Big(s, i, n) + s[i + n] as int && Big(s, i, 0) == 0
  {
  }

  lemma BigTwo(s: seq<byte>, i: nat, x: int)
    requires 0 <= x < U16 && i + 2 <= |s| && s[i..i + 2] == Big16(x)
    ensures Big(s, i, 2) == x
  {
    var b := s[i..i + 2];
    assert s[i] == b[0] && s[i + 1] == b[1];
    BigNext(s, i, 0);
    BigNext(s, i, 1);
  }

  lemma BigFour(s: seq<byte>, i: nat, x: int)
    requires 0 <= x < U32 && i + 4 <= |s| && s[i..i + 4] == Big32(x)
    ensures Big(s, i, 4) == x
  {
    Big32Read(x);
    var b := s[i..i + 4];
    assert s[i] == b[0] && s[i + 1] == b[1] && s[i + 2] == b[2] && s[i + 3] == b[3];
    BigNext(s, i, 0);
    BigNext(s, i, 1);
    BigNext(s, i, 2);
    BigNext(s, i, 3);
  }

  lemma Middle(a: seq<byte>, b: seq<byte>, c: seq<byte>)
    ensures (a + b + c)[|a|..|a| + |b|] == b
  {
  }

  lemma RawParts(h: Header, payload: seq<byte>)
    requires ValidHeader(h)
    ensures var s := RawSegment(h, payload);
      && |s| == 20 + |payload| && s[0..2] == Big16(h.srcPort) && s[2..4] == Big16(h.dstPort)
      && s[4..8] == Big32(h.seqNo) && s[8..12] == Big32(h.ackNo)
      && s[12] == 0x50 && s[13] == h.flags && s[14..16] == Big16(h.window)
      && s[18] == 0 && s[19] == 0 && s[20..] == payload
  {
    var s := RawSegment(h, payload);
    var ports := Big16(h.srcPort) + Big16(h.dstPort);
    var numbers := Big32(h.seqNo) + Big32(h.ackNo);
    var head: seq<byte> := [0x50, h.flags];
    var window := Big16(h.window);
    var zeros: seq<byte> := [0, 0, 0, 0];
    assert s == ports + numbers + head + window + zeros + payload;
    assert s[..12] == ports + numbers;
    Middle(ports + numbers + head, window, zeros + payload);
    assert ports + numbers + head + window + (zeros + payload) == s;
  }

  /** A segment on the wire has the header of section 3.1 of RFC 793: ports, sequence and
      acknowledgement numbers, five words of header, flags, window, checksum, no urgent data; then
      the payload. */
  lemma SegmentLayout(src: int, dst: int, h: Header, payload: seq<byte>)
    requires ValidHeader(h) && 0 <= src < U32 && 0 <= dst < U32 && |payload| + 20 < U16
    ensures Laid(Encode(src, dst, h, payload), h, payload)
  {
    var raw := RawSegment(h, payload);
    RawLaid(h, payload);
    LaidElsewhere(raw, Sum16(PseudoHeader(src, dst, |raw|) + raw), h, payload);
  }

  ghost predicate Laid(s: seq<byte>, h: Header, payload: seq<byte>) {
    && |s| == 20 + |payload| && s[20..] == payload
    && Big(s, 0, 2) == h.srcPort && Big(s, 2, 2) == h.dstPort && Big(s, 4, 4) == h.seqNo && Big(s, 8, 4) == h.ackNo
    && s[12] == 0x50 && s[13] == h.flags && Big(s, 14, 2) == h.window && s[18] == 0 && s[19] == 0
  }

  lemma RawLaid(h: Header, payload: seq<byte>)
    requires ValidHeader(h)
    ensures Laid(RawSegment(h, payload), h, payload)
  {
    var s := RawSegment(h, payload);
    RawParts(h, payload);
    BigTwo(s, 0, h.srcPort);
    BigTwo(s, 2, h.dstPort);
    BigTwo(s, 14, h.window);
    BigFour(s, 4, h.seqNo);
    BigFour(s, 8, h.ackNo);
  }

  lemma {:induction false} BigSame(s: seq<byte>, t: seq<byte>, i: nat, n: nat)
    requires i + n <= |s| && i + n <= |t| && forall k :: i <= k < i + n ==> s[k] == t[k]
    ensures Big(s, i, n) == Big(t, i, n)
  {
    if n > 0 { BigSame(s, t, i, n - 1); }
  }

  lemma LaidElsewhere(s: seq<byte>, c: int, h: Header, payload: seq<byte>)
    requires Laid(s, h, payload) && 0 <= c < U16
    ensures Laid(PutShort(s, 16, c), h, payload)
  {
    var t := PutShort(s, 16, c);
    assert t[20..] == s[20..];
    BigSame(s, t, 0, 2);
    BigSame(s, t, 2, 2);
    BigSame(s, t, 4, 4);
    BigSame(s, t, 8, 4);
    BigSame(s, t, 14, 2);
  }

  /** What is sent is what is parsed, ... */
  lemma ParseEncode(src: int, dst: int, h: Header, payload: seq<byte>)
    requires ValidHeader(h) && 0 <= src < U32 && 0 <= dst < U32 && |payload| + 20 < U16
    ensures Parse(Encode(src, dst, h, payload)) == Segment(h, payload)
  {
    var raw := RawSegment(h, payload);
    var c := Sum16(PseudoHeader(src, dst, |raw|) + raw);
    RawReads(h, payload);
    PutElsewhere(raw, c);
  }

  lemma RawReads(h: Header, payload: seq<byte>)
    requires ValidHeader(h)
    ensures Parse(RawSegment(h, payload)) == Segment(h, payload)
  {
    var s := RawSegment(h, payload);
    assert s[0..2] == Big16(h.srcPort) && s[2..4] == Big16(h.dstPort);
    assert s[4..8] == Big32(h.seqNo) && s[8..12] == Big32(h.ackNo);
    assert s[14..16] == Big16(h.window) && s[12] == 0x50 && s[13] == h.flags;
    assert s[20..] == payload;
    Big32Read(h.seqNo);
    Big32Read(h.ackNo);
    assert Read32(s, 4) == Read32(s[4..8], 0) && Read32(s, 8) == Read32(s[8..12], 0);
    assert Read16(s, 0) == Read16(s[0..2], 0) && Read16(s, 2) == Read16(s[2..4], 0)
      && Read16(s, 14) == Read16(s[14..16], 0);
  }

  /** The checksum field is not among what is parsed. */
  lemma PutElsewhere(s: seq<byte>, c: int)
    requires |s| >= 20 && s[12] == 0x50 && 0 <= c < U16
    ensures Parse(PutShort(s, 16, c)) == Parse(s)
  {
    assert PutShort(s, 16, c)[20..] == s[20..];
  }

  /** ... and a peer that verifies the checksum accepts it. */
  lemma EncodeVerifies(src: int, dst: int, h: Header, payload: seq<byte>)
    requires ValidHeader(h) && 0 <= src < U32 && 0 <= dst < U32 && |payload| + 20 < U16
    ensures var s := Encode(src, dst, h, payload);
      Sum16(PseudoHeader(src, dst, |s|) + s) == 0
  {
    var raw := RawSegment(h, payload);
    var s := Encode(src, dst, h, payload);
    var p := PseudoHeader(src, dst, |raw|);
    InsertThenVerify(p + raw, 28);
    assert PutShort(p + raw, 28, Sum16(p + raw)) == p + s;
  }

  /** tcp_send_packet up to the hand-over to IP. */
  method BuildSegment(src: int, dst: int, h: Header, payload: seq<byte>, buf: array<byte>) returns (total: nat)
    requires ValidHeader(h) && 0 <= src < U32 && 0 <= dst < U32
    requires |payload| <= 1480 && buf.Length == 1500
    modifies buf
    ensures total == 20 + |payload| && buf[..total] == Encode(src, dst, h, payload)
  {
    var head := RawSegment(h, []);
    for i := 0 to 20
      invariant forall k :: 0 <= k < i ==> buf[k] == head[k]
    {
      buf[i] := head[i];
    }
    for i := 0 to |payload|
      invariant forall k :: 0 <= k < 20 ==> buf[k] == head[k]
      invariant forall k :: 0 <= k < i ==> buf[20 + k] == payload[k]
    {
      buf[20 + i] := payload[i];
    }
    total := 20 + |payload|;
    assert buf[..total] == RawSegment(h, payload);
    var c := TcpChecksum(src, dst, buf, total);
    buf[16] := c % 256;
    buf[17] := c / 256;
    assert buf[..total] == PutShort(RawSegment(h, payload), 16, c);
  }

  // ---- the IPv4 header ------------------------------------------------------------

  class IpLayer {
    var ipId: int

    constructor ()
      ensures ipId == 1000
    {
      ipId := 1000;
    }

    /** The header ipv4_send builds checks, and says what was asked for. */
    method FillHeader(src: int, dst: int, proto: byte, len: nat, packet: array<byte>)
      requires 0 <= src < U32 && 0 <= dst < U32 && len <= 1480 && packet.Length == 1500
      requires 0 <= ipId < U16
      modifies this, packet
      ensures ipId == (old(ipId) + 1) % U16
      ensures Sum16(packet[..20]) == 0
      ensures packet[0] == 0x45 && Read16(packet[..20], 2) == 20 + len && Read16(packet[..20], 4) == old(ipId)
      ensures packet[8] == 64 && packet[9] == proto
      ensures packet[12..16] == WordBytes(src) && packet[16..20] == WordBytes(dst)
      ensures packet[20..] == old(packet[20..])
    {
      FillFields(src, dst, proto, len, packet);
      ghost var h := packet[..20];
      var c := NetChecksum(packet, 20);
      packet[10], packet[11] := c % 256, c / 256;
      assert packet[..20] == PutShort(h, 10, c);
      InsertThenVerify(h, 10);
      assert packet[12..16] == h[12..16] && packet[16..20] == h[16..20];
      assert packet[20..] == old(packet[20..]);
    }

    /** Everything but the checksum, which is zero. */
    method FillFields(src: int, dst: int, proto: byte, len: nat, packet: array<byte>)
      requires 0 <= src < U32 && 0 <= dst < U32 && len <= 1480 && packet.Length == 1500
      requires 0 <= ipId < U16
      modifies this, packet
      ensures ipId == (old(ipId) + 1) % U16
      ensures packet[0] == 0x45 && Read16(packet[..20], 2) == 20 + len && Read16(packet[..20], 4) == old(ipId)
      ensures packet[8] == 64 && packet[9] == proto && packet[10] == packet[11] == 0
      ensures packet[12..16] == WordBytes(src) && packet[16..20] == WordBytes(dst)
      ensures packet[20..] == old(packet[20..])
    {
      packet[0], packet[1] := 0x45, 0;
      var n := 20 + len;
      packet[2], packet[3] := n / 256, n % 256;
      packet[4], packet[5] := ipId / 256, ipId % 256;
      ipId := (ipId + 1) % U16;
      packet[6], packet[7] := 0, 0;
      packet[8], packet[9] := 64, proto;
      packet[10], packet[11] := 0, 0;
      PutWord(packet, 12, src);
      PutWord(packet, 16, dst);
      assert packet[12..16] == WordBytes(src) && packet[16..20] == WordBytes(dst);
      assert packet[20..] == old(packet[20..]);
    }
  }
}
