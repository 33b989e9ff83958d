/** The established TCP data path: the chunker, the receive ring and the sequence counters,
    and what a lossless in-order channel between two of them carries. */
module TcpStream {
  import opened Basics
  import opened Checksum
  import opened Packets

  const RING: nat := 65536
  const MSS: nat := 1460

  const FIN: int := 0x01
  const SYN: int := 0x02
  const RST: int := 0x04
  const PSH: int := 0x08
  const ACK: int := 0x10

  datatype TcpState = Closed | SynSent | Established | FinWait1 | FinWait2 | CloseWait | Listen

  function SeqAdd(a: int, n: nat): int { (a + n) % U32 }

  // ---- chunking ---------------------------------------------------------------

  /** The segments a buffer becomes, h giving the ports, the ack and the first sequence
      number. */
  function Chunks(h: Header, data: seq<byte>): seq<Parsed>
    decreases |data|
  {
    if data == [] then []
    else
      var n := if |data| > MSS then MSS else |data|;
      [Segment(h, data[..n])] + Chunks(h.(seqNo := SeqAdd(h.seqNo, n)), data[n..])
  }

  function Payloads(segs: seq<Parsed>): seq<byte>
    requires forall s :: s in segs ==> s.Segment?
  {
    if segs == [] then [] else segs[0].payload + Payloads(segs[1..])
  }

  /** Segments that follow each other without gap or overlap from one number to another. */
  ghost predicate Contiguous(segs: seq<Parsed>, from: int, to: int) {
    if segs == [] then from == to
    else
      && segs[0].Segment? && segs[0].h.seqNo == from
      && Contiguous(segs[1..], SeqAdd(from, |segs[0].payload|), to)
  }

  lemma {:induction false} ChunksCarry(h: Header, data: seq<byte>)
    ensures forall s :: s in Chunks(h, data) ==> s.Segment? && 0 < |s.payload| <= MSS
    ensures Payloads(Chunks(h, data)) == data
    decreases |data|
  {
    if data != [] {
      var n := if |data| > MSS then MSS else |data|;
      var rest := Chunks(h.(seqNo := SeqAdd(h.seqNo, n)), data[n..]);
      ChunksCarry(h.(seqNo := SeqAdd(h.seqNo, n)), data[n..]);
      assert Chunks(h, data) == [Segment(h, data[..n])] + rest;
      assert Chunks(h, data)[1..] == rest;
      assert data == data[..n] + data[n..];
    }
  }

  lemma {:induction false} ChunksContiguous(h: Header, data: seq<byte>)
    requires 0 <= h.seqNo < U32
    ensures Contiguous(Chunks(h, data), h.seqNo, SeqAdd(h.seqNo, |data|))
    decreases |data|
  {
    if data != [] {
      var n := if |data| > MSS then MSS else |data|;
      var h' := h.(seqNo := SeqAdd(h.seqNo, n));
      ChunksContiguous(h', data[n..]);
      SeqAddAdd(h.seqNo, n, |data| - n);
      assert Chunks(h, data)[1..] == Chunks(h', data[n..]);
    }
  }

  lemma SeqAddAdd(a: int, m: nat, n: nat)
    ensures SeqAdd(SeqAdd(a, m), n) == SeqAdd(a, m + n)
  {
  }

  lemma {:induction false} PayloadsConcat(a: seq<Parsed>, b: seq<Parsed>)
    requires forall s :: s in a + b ==> s.Segment?
    ensures forall s :: s in a ==> s.Segment?
    ensures forall s :: s in b ==> s.Segment?
    ensures Payloads(a + b) == Payloads(a) + Payloads(b)
  {
    assert forall s :: s in a || s in b ==> s in a + b;
    if a == [] {
      assert a + b == b;
    } else {
      assert (a + b)[1..] == a[1..] + b;
      PayloadsConcat(a[1..], b);
    }
  }

  lemma {:induction false} ContiguousConcat(a: seq<Parsed>, b: seq<Parsed>, from: int, mid: int, to: int)
    requires Contiguous(a, from, mid) && Contiguous(b, mid, to)
    ensures Contiguous(a + b, from, to)
  {
    if a == [] {
      assert a + b == b;
    } else {
      assert (a + b)[1..] == a[1..] + b;
      ContiguousConcat(a[1..], b, SeqAdd(from, |a[0].payload|), mid, to);
    }
  }

  /** What the ring keeps of an arriving payload: bytes past its capacity are dropped. */
  function Accept(ring: seq<byte>, payload: seq<byte>): seq<byte>
    requires |ring| <= RING
  {
    var room := RING - |ring|;
    ring + (if |payload| <= room then payload else payload[..room])
  }

  // ---- the socket ---------------------------------------------------------------

  function At(head: nat, i: nat): nat { (head + i) % RING }

  lemma AtDistinct(head: nat, i: nat, j: nat)
    requires head < RING && i < j < RING
    ensures At(head, i) != At(head, j)
  {
  }

  lemma AtAdd(head: nat, i: nat, j: nat)
    ensures At(At(head, i), j) == At(head, i + j)
  {
  }

  const Open: set<TcpState> := {Established, FinWait1, FinWait2}

  datatype View = View(tcpState: TcpState, localSeq: int, remoteSeq: int, remoteWindow: int, error: int,
                       finReceived: bool, ring: seq<byte>, out: seq<Parsed>, credit: nat)

  /** Packets handed to IP, as many as it takes. */
  function Answered(v: View, acks: seq<Parsed>): View {
    var n := if v.credit < |acks| then v.credit else |acks|;
    v.(out := v.out + acks[..n], credit := v.credit - n)
  }

  /** The acknowledgements of a payload of n bytes and of a FIN, for a receiver that expects
      ackNo; `me` is the header it sends under. */
  function Acks(me: Header, ackNo: int, n: nat, fin: bool): seq<Parsed> {
    (if n > 0 then [Segment(me.(ackNo := SeqAdd(ackNo, n)), [])] else [])
    + (if fin then [Segment(me.(ackNo := SeqAdd(ackNo, n + 1)), [])] else [])
  }

  /** An open connection after a segment. */
  function Heard(v: View, me: Header, payload: seq<byte>, fin: bool): View
    requires |v.ring| <= RING
  {
    Answered(v, Acks(me, v.remoteSeq, |payload|, fin)).(
      ring := Accept(v.ring, payload),
      remoteSeq := SeqAdd(v.remoteSeq, |payload| + if fin then 1 else 0),
      finReceived := v.finReceived || fin,
      tcpState := if fin && v.tcpState == Established then CloseWait else v.tcpState)
  }

  lemma DataThenFin(v: View, me: Header, payload: seq<byte>)
    requires |v.ring| <= RING && 0 <= v.remoteSeq < U32 && me.ackNo == v.remoteSeq
    ensures var w := Heard(v, me, payload, false);
      |w.ring| <= RING && Heard(w, me.(ackNo := w.remoteSeq), [], true) == Heard(v, me, payload, true)
  {
    var w := Heard(v, me, payload, false);
    SeqAddAdd(v.remoteSeq, |payload|, 1);
    assert Accept(w.ring, []) == w.ring;
    var first, last := Acks(me, v.remoteSeq, |payload|, false), Acks(me.(ackNo := w.remoteSeq), w.remoteSeq, 0, true);
    assert Acks(me, v.remoteSeq, |payload|, true) == first + last;
  }

  /** A segment from one port to another, under a sequence number, acknowledging everything before
      ackNo if its flags say so, and offering the full window. */
  ghost predicate From(s: Parsed, local: int, remote: int, seqNo: int, ackNo: int, flags: byte, payload: seq<byte>) {
    && s.Segment? && s.payload == payload && s.h.srcPort == local && s.h.dstPort == remote && s.h.seqNo == seqNo
    && s.h.flags == flags && s.h.window == 65535 && s.h.ackNo == if flags / 16 % 2 == 1 then ackNo else 0
  }

  /** Chunks of any beginning of a buffer go out under the header they were given. */
  lemma AllFrom(h: Header, data: seq<byte>)
    ensures forall n :: 0 <= n <= |data| ==>
      forall s :: s in Chunks(h, data[..n]) ==> s.Segment? && s.h == h.(seqNo := s.h.seqNo)
  {
    forall n | 0 <= n <= |data|
      ensures forall s :: s in Chunks(h, data[..n]) ==> s.Segment? && s.h == h.(seqNo := s.h.seqNo) {
      SameHeader(h, data[..n]);
    }
  }

  lemma {:induction false} SameHeader(h: Header, data: seq<byte>)
    ensures forall s :: s in Chunks(h, data) ==> s.Segment? && s.h == h.(seqNo := s.h.seqNo)
    decreases |data|
  {
    if data != [] {
      var n := if |data| > MSS then MSS else |data|;
      SameHeader(h.(seqNo := SeqAdd(h.seqNo, n)), data[n..]);
    }
  }

  class Socket {
    var localPort: int
    var remotePort: int
    var tcpState: TcpState
    var localSeq: int
    var remoteSeq: int
    var remoteWindow: int
    var error: int
    var finReceived: bool
    const rx: array<byte>
    var rxHead: nat
    var rxTail: nat
    var rxCount: nat
    /** Packets handed to IP, and how many more IP will take before it fails. */
    var out: seq<Parsed>
    var credit: nat

    ghost predicate Valid()
      reads this
    {
      && rx.Length == RING
      && rxHead < RING && rxCount <= RING && rxTail == At(rxHead, rxCount)
      && 0 <= localSeq < U32 && 0 <= remoteSeq < U32
      && 0 <= localPort < U16 && 0 <= remotePort < U16
    }

    function Contents(): (s: seq<byte>)
      requires rx.Length == RING
      reads this, rx
      ensures |s| == rxCount
    {
      seq(rxCount, i requires 0 <= i < rxCount reads this, rx => rx[At(rxHead, i)])
    }

    constructor (localPort: int, remotePort: int, localSeq: int, remoteSeq: int, credit: nat)
      requires 0 <= localSeq < U32 && 0 <= remoteSeq < U32 && 0 <= localPort < U16 && 0 <= remotePort < U16
      ensures Valid() && fresh(rx) && Contents() == [] && out == [] && tcpState == Established
      ensures this.localSeq == localSeq && this.remoteSeq == remoteSeq
    {
      this.localPort, this.remotePort, this.localSeq, this.remoteSeq := localPort, remotePort, localSeq, remoteSeq;
      this.credit := credit;
      tcpState, remoteWindow, error, finReceived := Established, WINDOW, 0, false;
      rx := new byte[RING];
      rxHead, rxTail, rxCount := 0, 0, 0;
      out := [];
    }

    /** The header tcp_send_packet fills in. */
    function Template(flags: byte): Header
      reads this
    {
      Header(localPort, remotePort, localSeq, if flags / ACK % 2 == 1 then remoteSeq else 0, flags, WINDOW)
    }

    method SendPacket(flags: byte, payload: seq<byte>) returns (ok: bool)
      modifies this`out, this`credit
      ensures ok == (old(credit) > 0)
      ensures credit == if ok then old(credit) - 1 else 0
      ensures out == if ok then old(out) + [Segment(Template(flags), payload)] else old(out)
      ensures ok ==> From(out[|old(out)|], localPort, remotePort, localSeq, remoteSeq, flags, payload)
    {
      ok := credit > 0;
      if ok {
        out := out + [Segment(Template(flags), payload)];
        credit := credit - 1;
      }
    }

    /** The first n bytes of the buffer are out, under headers that h began. */
    ghost predicate Sent(h: Header, before: seq<Parsed>, data: seq<byte>, n: nat)
      reads this
    {
      && Valid() && n <= |data| && 0 <= h.seqNo < U32
      && localSeq == SeqAdd(h.seqNo, n)
      && Template(ACK + PSH) == h.(seqNo := localSeq)
      && out == before + Chunks(h, data[..n])
    }

    /** One turn of the chunking loop. */
    method SendChunk(ghost h: Header, ghost before: seq<Parsed>, data: seq<byte>, p: nat, chunk: nat, ghost k: nat)
      returns (ok: bool)
      requires Sent(h, before, data, p) && p == MSS * k && p < |data|
      requires chunk == if |data| - p > MSS then MSS else |data| - p
      modifies this`out, this`credit, this`localSeq
      ensures Sent(h, before, data, if ok then p + chunk else p)
      ensures !ok ==> credit == 0
    {
      ghost var c, s := Chunks(h, data[..p]), Segment(h.(seqNo := localSeq), data[p..p + chunk]);
      ok := SendPacket(ACK + PSH, data[p..p + chunk]);
      if ok {
        assert out == before + (c + [s]);
        SeqAddAdd(h.seqNo, p, chunk);
        ChunksGrow(h, data, k, chunk);
        localSeq := SeqAdd(localSeq, chunk);
      }
    }

    /** The bytes handed over are the first n of the buffer as chunks; n falls short of the
        whole only when IP refused a packet, and then at a chunk boundary. */
    method SendTo(data: seq<byte>) returns (r: int, ghost n: nat)
      requires Valid()
      modifies this`out, this`credit, this`localSeq
      ensures Sent(old(Template((ACK + PSH) as byte)), old(out), data, n)
      ensures data == [] ==> r == 0
      ensures data != [] && tcpState != Established ==> r == -1 && n == 0
      ensures data != [] && tcpState == Established ==> r == if n == 0 then -1 else n
      ensures tcpState == Established && n < |data| ==> credit == 0 && exists k: nat :: n == MSS * k
      ensures |old(out)| <= |out| && out[..|old(out)|] == old(out)
      ensures forall k :: |old(out)| <= k < |out| ==>
        var s := out[k];
        s.Segment? && From(s, localPort, remotePort, s.h.seqNo, remoteSeq, (ACK + PSH) as byte, s.payload)
    {
      ghost var h, before := Template(ACK + PSH), out;
      AllFrom(h, data);
      n := 0;
      assert data[..0] == [];
      if data == [] {
        r := 0;
        return;
      }
      if tcpState != Established {
        r := -1;
        return;
      }
      var remaining := |data|;
      var p := 0;
      ghost var k := 0;
      while remaining > 0
        invariant 0 <= remaining && p + remaining == |data| && p == n
        invariant 0 <= k && (remaining > 0 ==> p == MSS * k)
        invariant Sent(h, before, data, p)
      {
        var chunk := if remaining > MSS then MSS else remaining;
        var ok := SendChunk(h, before, data, p, chunk, k);
        if !ok {
          r := if |data| == remaining then -1 else |data| - remaining;
          return;
        }
        p, remaining, n, k := p + chunk, remaining - chunk, n + chunk, k + 1;
      }
      r := |data|;
    }

    method Push(b: byte)
      requires Valid() && rxCount < RING
      modifies this`rxTail, this`rxCount, rx
      ensures Valid() && Contents() == old(Contents()) + [b]
    {
      forall i | 0 <= i < rxCount ensures At(rxHead, i) != rxTail { AtDistinct(rxHead, i, rxCount); }
      rx[rxTail] := b;
      rxTail := (rxTail + 1) % RING;
      rxCount := rxCount + 1;
    }

    /** The receive loop of socket_tcp_input. */
    method Store(payload: seq<byte>)
      requires Valid() && |payload| < U16
      modifies this`rxTail, this`rxCount, rx
      ensures Valid() && Contents() == Accept(old(Contents()), payload)
    {
      ghost var ring := Contents();
      for b := 0 to |payload|
        invariant Valid() && Contents() == Accept(ring, payload[..b])
      {
        assert payload[..b + 1] == payload[..b] + [payload[b]];
        if rxCount < RING {
          Push(payload[b]);
        }
      }
      assert payload[..|payload|] == payload;
    }

    /** What a segment can change. */
    function State(): View
      requires rx.Length == RING
      reads this, rx
    {
      View(tcpState, localSeq, remoteSeq, remoteWindow, error, finReceived, Contents(), out, credit)
    }

    /** One segment addressed to this socket. The acknowledgement covers the whole payload,
        also what the ring had no room for. */
    method Input(h: Header, payload: seq<byte>)
      requires Valid() && ValidHeader(h) && |payload| < U16
      modifies this, rx
      ensures Valid() && rxHead == old(rxHead) && localPort == old(localPort) && remotePort == old(remotePort)
      ensures h.flags / RST % 2 == 1 ==> State() == old(State()).(tcpState := Closed, error := 104)
      ensures h.flags / RST % 2 == 0 && old(tcpState) in Open ==>
                State() == Heard(old(State()), old(Template((ACK) as byte)), payload, h.flags / FIN % 2 == 1)
      ensures h.flags / RST % 2 == 0 && old(tcpState) == SynSent && h.flags / SYN % 2 == 1 && h.flags / ACK % 2 == 1 ==>
                var me := old(Template((ACK) as byte)).(seqNo := h.ackNo, ackNo := SeqAdd(h.seqNo, 1));
                State() == Answered(old(State()), [Segment(me, [])]).(tcpState := Established,
                  remoteSeq := SeqAdd(h.seqNo, 1), localSeq := h.ackNo, remoteWindow := h.window)
      ensures h.flags / RST % 2 == 0 && old(tcpState) == SynSent
              && !(h.flags / SYN % 2 == 1 && h.flags / ACK % 2 == 1) ==>
                State() == old(State())
      ensures h.flags / RST % 2 == 0 && old(tcpState) !in Open && old(tcpState) != SynSent ==> State() == old(State())
    {
      if h.flags / RST % 2 == 1 {
        tcpState, error := Closed, 104;
      } else if tcpState == SynSent {
        if h.flags / SYN % 2 == 1 && h.flags / ACK % 2 == 1 { InputSyn(h); }
      } else if tcpState == Established || tcpState == FinWait1 || tcpState == FinWait2 {
        InputOpen(payload, h.flags / FIN % 2 == 1);
      }
    }

    method InputSyn(h: Header)
      requires Valid() && ValidHeader(h)
      modifies this`remoteSeq, this`localSeq, this`remoteWindow, this`tcpState, this`out, this`credit
      ensures Valid()
      ensures var me := old(Template((ACK) as byte)).(seqNo := h.ackNo, ackNo := SeqAdd(h.seqNo, 1));
        State() == Answered(old(State()), [Segment(me, [])]).(tcpState := Established,
          remoteSeq := SeqAdd(h.seqNo, 1), localSeq := h.ackNo, remoteWindow := h.window)
    {
      remoteSeq, localSeq, remoteWindow := SeqAdd(h.seqNo, 1), h.ackNo, h.window;
      tcpState := Established;
      var _ := SendPacket(ACK, []);
    }

    method InputOpen(payload: seq<byte>, fin: bool)
      requires Valid() && |payload| < U16
      modifies this`rxTail, this`rxCount, rx, this`remoteSeq, this`out, this`credit, this`finReceived, this`tcpState
      ensures Valid() && State() == Heard(old(State()), old(Template((ACK) as byte)), payload, fin)
    {
      ghost var v, me := State(), Template(ACK);
      InputData(payload);
      if fin {
        DataThenFin(v, me, payload);
        InputFin();
      }
    }

    method InputData(payload: seq<byte>)
      requires Valid() && |payload| < U16
      modifies this`rxTail, this`rxCount, rx, this`remoteSeq, this`out, this`credit
      ensures Valid() && State() == Heard(old(State()), old(Template((ACK) as byte)), payload, false)
    {
      if |payload| > 0 {
        Store(payload);
        remoteSeq := SeqAdd(remoteSeq, |payload|);
        var _ := SendPacket(ACK, []);
      }
    }

    method InputFin()
      requires Valid()
      modifies this`remoteSeq, this`out, this`credit, this`finReceived, this`tcpState
      ensures Valid() && State() == Heard(old(State()), old(Template((ACK) as byte)), [], true)
    {
      finReceived := true;
      remoteSeq := SeqAdd(remoteSeq, 1);
      var _ := SendPacket(ACK, []);
      if tcpState == Established { tcpState := CloseWait; }
    }

    /** sock_recvfrom once there is something to read. */
    method Receive(len: nat, dst: array<byte>) returns (n: nat)
      requires Valid() && len <= dst.Length && dst != rx
      modifies this`rxHead, this`rxCount, dst
      ensures Valid()
      ensures n == (if len < old(rxCount) then len else old(rxCount))
      ensures dst[..n] == old(Contents())[..n] && Contents() == old(Contents())[n..]
    {
      ghost var ring, head := Contents(), rxHead;
      n := if len < rxCount then len else rxCount;
      for i := 0 to n
        invariant rxHead == At(head, i) && rxHead < RING
        invariant rxCount == old(rxCount)
        invariant forall k :: 0 <= k < i ==> dst[k] == ring[k]
      {
        AtAdd(head, i, 1);
        dst[i] := rx[rxHead];
        rxHead := (rxHead + 1) % RING;
      }
      rxCount := rxCount - n;
      forall i | 0 <= i <= rxCount ensures At(rxHead, i) == At(head, n + i) { AtAdd(head, n, i); }
    }
  }

  lemma {:induction false} ChunksGrow(h: Header, data: seq<byte>, k: nat, chunk: nat)
    requires MSS * k < |data| && 0 <= h.seqNo < U32
    requires chunk == if |data| - MSS * k > MSS then MSS else |data| - MSS * k
    ensures Chunks(h, data[..MSS * k + chunk])
            == Chunks(h, data[..MSS * k])
               + [Segment(h.(seqNo := SeqAdd(h.seqNo, MSS * k)), data[MSS * k..MSS * k + chunk])]
    decreases k
  {
    var n := MSS * k;
    if k == 0 {
      assert data[..chunk][..chunk] == data[0..chunk];
      assert Chunks(h, data[..0]) == [];
      assert Chunks(h.(seqNo := SeqAdd(h.seqNo, chunk)), data[..chunk][chunk..]) == [];
    } else {
      var h' := h.(seqNo := SeqAdd(h.seqNo, MSS));
      ChunksGrow(h', data[MSS..], k - 1, chunk);
      assert data[..n][MSS..] == data[MSS..][..n - MSS];
      assert data[..n + chunk][MSS..] == data[MSS..][..n - MSS + chunk];
      assert data[..n][..MSS] == data[..n + chunk][..MSS];
      assert data[MSS..][n - MSS..n - MSS + chunk] == data[n..n + chunk];
      SeqAddAdd(h.seqNo, MSS, n - MSS);
    }
  }

  // ---- two sockets and a lossless in-order channel ---------------------------------

  /** One direction of a connection: bytes the sender has handed over, segments on their
      way, the receiver's ring, the bytes its program has read, and both counters. */
  datatype Flow = Flow(sent: seq<byte>, flight: seq<Parsed>, ring: seq<byte>, got: seq<byte>, localSeq: int,
    remoteSeq: int)

  datatype Step = DoSend(h: Header, data: seq<byte>) | DoDeliver | DoReceive(n: nat)

  ghost predicate Sane(f: Flow) {
    && (forall s :: s in f.flight ==> s.Segment?)
    && |f.ring| <= RING && 0 <= f.localSeq < U32
  }

  /** The socket methods' contracts, as steps of the flow. */
  function Next(f: Flow, s: Step): Flow
    requires Sane(f)
  {
    match s
    case DoSend(h, data) =>
      f.(sent := f.sent + data, flight := f.flight + Chunks(h.(seqNo := f.localSeq), data),
         localSeq := SeqAdd(f.localSeq, |data|))
    case DoDeliver =>
      if f.flight == [] then f
      else f.(flight := f.flight[1..], ring := Accept(f.ring, f.flight[0].payload),
              remoteSeq := SeqAdd(f.remoteSeq, |f.flight[0].payload|))
    case DoReceive(n) =>
      var k := if n < |f.ring| then n else |f.ring|;
      f.(got := f.got + f.ring[..k], ring := f.ring[k..])
  }

  /** The ring can hold the segment being delivered. */
  ghost predicate HasRoom(f: Flow, s: Step)
    requires Sane(f)
  {
    s.DoDeliver? && f.flight != [] ==> |f.ring| + |f.flight[0].payload| <= RING
  }

  ghost predicate Intact(f: Flow)
    requires Sane(f)
  {
    f.got + f.ring + Payloads(f.flight) == f.sent
  }

  ghost predicate InStep(f: Flow) {
    Contiguous(f.flight, f.remoteSeq, f.localSeq)
  }

  lemma NextSane(f: Flow, s: Step)
    requires Sane(f)
    ensures Sane(Next(f, s))
  {
    if s.DoSend? { ChunksCarry(s.h.(seqNo := f.localSeq), s.data); }
  }

  /** The receiver's counter tracks the sender's, whatever is dropped. */
  lemma NextInStep(f: Flow, s: Step)
    requires Sane(f) && InStep(f)
    ensures InStep(Next(f, s))
  {
    if s.DoSend? {
      var c := Chunks(s.h.(seqNo := f.localSeq), s.data);
      ChunksContiguous(s.h.(seqNo := f.localSeq), s.data);
      ContiguousConcat(f.flight, c, f.remoteSeq, f.localSeq, SeqAdd(f.localSeq, |s.data|));
    }
  }

  lemma ConcatAssoc(a: seq<byte>, b: seq<byte>, c: seq<byte>)
    ensures a + (b + c) == a + b + c
  {
  }

  lemma SendIntact(f: Flow, h: Header, data: seq<byte>)
    requires Sane(f) && Intact(f)
    ensures Sane(Next(f, DoSend(h, data))) && Intact(Next(f, DoSend(h, data)))
  {
    NextSane(f, DoSend(h, data));
    var c := Chunks(h.(seqNo := f.localSeq), data);
    ChunksCarry(h.(seqNo := f.localSeq), data);
    assert forall s :: s in f.flight + c ==> s.Segment?;
    PayloadsConcat(f.flight, c);
    ConcatAssoc(f.got + f.ring, Payloads(f.flight), data);
  }

  lemma DeliverIntact(f: Flow)
    requires Sane(f) && Intact(f) && f.flight != []
    ensures Sane(Next(f, DoDeliver))
    ensures Intact(Next(f, DoDeliver)) <==> HasRoom(f, DoDeliver)
  {
    NextSane(f, DoDeliver);
    var p, rest := f.flight[0].payload, Payloads(f.flight[1..]);
    var g := Next(f, DoDeliver);
    assert Payloads(f.flight) == p + rest;
    if HasRoom(f, DoDeliver) {
      assert f.got + (f.ring + p) + rest == f.got + f.ring + (p + rest);
    } else {
      assert |g.got + g.ring + rest| < |f.sent|;
    }
  }

  /** One step keeps the stream intact exactly when the ring had room for it. */
  lemma NextIntact(f: Flow, s: Step)
    requires Sane(f) && Intact(f)
    ensures Sane(Next(f, s))
    ensures Intact(Next(f, s)) <==> HasRoom(f, s)
  {
    match s
    case DoSend(h, data) => SendIntact(f, h, data);
    case DoDeliver => if f.flight != [] { DeliverIntact(f); }
    case DoReceive(n) =>
      var k := if n < |f.ring| then n else |f.ring|;
      assert f.got + f.ring == f.got + f.ring[..k] + f.ring[k..];
  }

  function Held(f: Flow): nat
    requires Sane(f)
  {
    |f.got| + |f.ring| + |Payloads(f.flight)|
  }

  /** A lost byte never comes back. */
  lemma NextHeld(f: Flow, s: Step)
    requires Sane(f)
    ensures Sane(Next(f, s))
    ensures |Next(f, s).sent| - Held(Next(f, s)) >= |f.sent| - Held(f)
  {
    NextSane(f, s);
    if s.DoSend? {
      ChunksCarry(s.h.(seqNo := f.localSeq), s.data);
      PayloadsConcat(f.flight, Chunks(s.h.(seqNo := f.localSeq), s.data));
    }
  }

  function Run(f: Flow, steps: seq<Step>): Flow
    requires Sane(f)
    decreases |steps|
  {
    if steps == [] then f else NextSane(f, steps[0]); Run(Next(f, steps[0]), steps[1..])
  }

  ghost predicate AlwaysRoom(f: Flow, steps: seq<Step>)
    requires Sane(f)
    decreases |steps|
  {
    steps == [] || (HasRoom(f, steps[0]) && (NextSane(f, steps[0]); AlwaysRoom(Next(f, steps[0]), steps[1..])))
  }

  lemma {:induction false} RunHeld(f: Flow, steps: seq<Step>)
    requires Sane(f)
    ensures Sane(Run(f, steps))
    ensures |Run(f, steps).sent| - Held(Run(f, steps)) >= |f.sent| - Held(f)
    decreases |steps|
  {
    if steps != [] {
      NextHeld(f, steps[0]);
      RunHeld(Next(f, steps[0]), steps[1..]);
    }
  }

  /** Over any run, bytes read, ring and channel together are exactly the bytes sent if and
      only if no delivery ever found the ring without room; the counters agree regardless. */
  lemma {:induction false} RunIntact(f: Flow, steps: seq<Step>)
    requires Sane(f) && Intact(f) && InStep(f)
    ensures Sane(Run(f, steps)) && InStep(Run(f, steps))
    ensures Intact(Run(f, steps)) <==> AlwaysRoom(f, steps)
    decreases |steps|
  {
    if steps != [] {
      var g := Next(f, steps[0]);
      NextIntact(f, steps[0]);
      NextInStep(f, steps[0]);
      if HasRoom(f, steps[0]) {
        RunIntact(g, steps[1..]);
      } else {
        LostForever(f, steps);
        RunInStep(g, steps[1..]);
      }
    }
  }

  lemma {:induction false} RunInStep(f: Flow, steps: seq<Step>)
    requires Sane(f) && InStep(f)
    ensures Sane(Run(f, steps)) && InStep(Run(f, steps))
    decreases |steps|
  {
    if steps != [] {
      NextSane(f, steps[0]);
      NextInStep(f, steps[0]);
      RunInStep(Next(f, steps[0]), steps[1..]);
    }
  }

  lemma LostForever(f: Flow, steps: seq<Step>)
    requires Sane(f) && Intact(f) && steps != [] && !HasRoom(f, steps[0])
    ensures Sane(Run(f, steps)) && !Intact(Run(f, steps))
  {
    NextSane(f, steps[0]);
    var g := Next(f, steps[0]);
    assert Payloads(f.flight) == f.flight[0].payload + Payloads(f.flight[1..]);
    assert |f.sent| == Held(f);
    assert Held(g) < |g.sent|;
    RunHeld(g, steps[1..]);
    var e := Run(f, steps);
    assert |e.got + e.ring + Payloads(e.flight)| == Held(e) < |e.sent|;
  }

  function Deliveries(n: nat): seq<Step> {
    if n == 0 then [] else [DoDeliver] + Deliveries(n - 1)
  }

  lemma {:induction false} Drained(f: Flow)
    requires Sane(f)
    ensures Sane(Run(f, Deliveries(|f.flight|))) && Run(f, Deliveries(|f.flight|)).flight == []
    ensures Run(f, Deliveries(|f.flight|)).sent == f.sent && Run(f, Deliveries(|f.flight|)).localSeq == f.localSeq
    ensures AlwaysRoom(f, Deliveries(|f.flight|)) <==> |f.ring| + |Payloads(f.flight)| <= RING
    decreases |f.flight|
  {
    if f.flight != [] {
      NextSane(f, DoDeliver);
      assert Deliveries(|f.flight|)[1..] == Deliveries(|f.flight| - 1);
      Drained(Next(f, DoDeliver));
    }
  }

  /** A buffer sent and delivered while the receiving program reads nothing: bytes are lost
      exactly when it is longer than the ring, and every one of them is acknowledged all the
      same. */
  lemma Unread(h: Header, data: seq<byte>, seqNo: int)
    requires 0 <= seqNo < U32
    ensures var f := Flow([], [], [], [], seqNo, seqNo);
      var steps := [DoSend(h, data)] + Deliveries(|Chunks(h.(seqNo := seqNo), data)|);
      && Sane(f) && Sane(Run(f, steps))
      && Run(f, steps).sent == data && Run(f, steps).flight == []
      && Run(f, steps).remoteSeq == Run(f, steps).localSeq == SeqAdd(seqNo, |data|)
      && (Intact(Run(f, steps)) <==> |data| <= RING)
  {
    var f := Flow([], [], [], [], seqNo, seqNo);
    var s := DoSend(h, data);
    var steps := [s] + Deliveries(|Chunks(h.(seqNo := seqNo), data)|);
    NextSane(f, s);
    var g := Next(f, s);
    ChunksCarry(h.(seqNo := seqNo), data);
    assert g.flight == Chunks(h.(seqNo := seqNo), data);
    assert steps[1..] == Deliveries(|g.flight|);
    Drained(g);
    RunIntact(f, steps);
  }

  /** 46 full segments without a read overrun the ring. */
  lemma RingOverrun(h: Header, seqNo: int) returns (steps: seq<Step>)
    requires 0 <= seqNo < U32
    ensures var f := Flow([], [], [], [], seqNo, seqNo);
      && Sane(f) && Sane(Run(f, steps)) && !Intact(Run(f, steps)) && !AlwaysRoom(f, steps)
      && |Run(f, steps).sent| == 46 * MSS && Run(f, steps).remoteSeq == Run(f, steps).localSeq
  {
    var data := seq(46 * MSS, _ => 0 as byte);
    Unread(h, data, seqNo);
    steps := [DoSend(h, data)] + Deliveries(|Chunks(h.(seqNo := seqNo), data)|);
    RunIntact(Flow([], [], [], [], seqNo, seqNo), steps);
  }

  /** Socket a sending to socket b over the channel; `flow` is what the laws above are about
      and each method takes it one step. */
  class Connection {
    const a: Socket
    const b: Socket
    var flight: seq<Parsed>
    ghost var flow: Flow

    ghost predicate Valid()
      reads this, a, b, b.rx
    {
      && a != b && a.Valid() && b.Valid() && a.rx != b.rx
      && a.tcpState == Established && b.tcpState == Established
      && Sane(flow) && flow.flight == flight && flow.ring == b.Contents()
      && flow.localSeq == a.localSeq && flow.remoteSeq == b.remoteSeq
      && forall s :: s in flight ==> s.Segment? && s.h.flags == 24 && ValidHeader(s.h) && |s.payload| <= MSS
    }

    constructor (a: Socket, b: Socket)
      requires a != b && a.Valid() && b.Valid() && a.rx != b.rx
      requires a.tcpState == Established && b.tcpState == Established && b.Contents() == [] && b.remoteSeq == a.localSeq
      ensures Valid() && Intact(flow) && InStep(flow) && this.a == a && this.b == b
    {
      this.a, this.b, flight := a, b, [];
      flow := Flow([], [], [], [], a.localSeq, b.remoteSeq);
    }

    method Send(data: seq<byte>) returns (r: int, ghost s: Step)
      requires Valid()
      modifies this, a`out, a`credit, a`localSeq
      ensures Valid()
      ensures s.DoSend? && s.data <= data && flow == Next(old(flow), s)
      ensures a.credit > 0 ==> s.data == data
    {
      var before := a.out;
      ghost var n;
      ghost var h := a.Template(24);
      r, n := a.SendTo(data);
      flight := flight + a.out[|before|..];
      s := DoSend(h, data[..n]);
      assert n == |data| ==> data[..n] == data;
      assert a.out[|before|..] == Chunks(h, data[..n]);
      flow := Next(flow, s);
      NextSane(old(flow), s);
      ChunksCarry(h, data[..n]);
      ChunksHeaders(h, data[..n]);
    }

    method Deliver()
      requires Valid()
      modifies this, b, b.rx
      ensures Valid() && flow == Next(old(flow), DoDeliver)
    {
      NextSane(flow, DoDeliver);
      flow := Next(flow, DoDeliver);
      if flight != [] {
        var s := flight[0];
        flight := flight[1..];
        b.Input(s.h, s.payload);
      }
    }

    method Receive(len: nat, dst: array<byte>) returns (n: nat)
      requires Valid() && len <= dst.Length && dst != b.rx
      modifies this, b`rxHead, b`rxCount, dst
      ensures Valid() && flow == Next(old(flow), DoReceive(len))
      ensures n <= dst.Length && flow.got == old(flow.got) + dst[..n]
    {
      NextSane(flow, DoReceive(len));
      flow := Next(flow, DoReceive(len));
      n := b.Receive(len, dst);
    }
  }

  /** Chunk k carries the k-th 1460 bytes, or what is left, under the header of the first with the
      sequence number moved by as many bytes. */
  lemma {:induction false} ChunkAt(h: Header, data: seq<byte>, k: nat)
    requires 1460 * k < |data| && 0 <= h.seqNo < U32
    ensures k < |Chunks(h, data)|
    ensures var end := if |data| < 1460 * k + 1460 then |data| else 1460 * k + 1460;
      Chunks(h, data)[k] == Segment(h.(seqNo := (h.seqNo + 1460 * k) % U32), data[1460 * k..end])
    decreases k
  {
    if k > 0 {
      var next := h.(seqNo := SeqAdd(h.seqNo, MSS));
      ChunkAt(next, data[MSS..], k - 1);
      SeqAddAdd(h.seqNo, MSS, MSS * (k - 1));
      var end := if |data| < 1460 * k + 1460 then |data| else 1460 * k + 1460;
      assert data[MSS..][MSS * (k - 1)..end - MSS] == data[MSS * k..end];
      assert Chunks(h, data)[k] == Chunks(next, data[MSS..])[k - 1];
    }
  }

  /** An open connection after a segment, in numbers: the ring takes what there is room for, the next
      byte expected is past the whole payload and the FIN, and each of the two is acknowledged, as
      far as IP takes packets. */
  lemma HeardMeans(v: View, me: Header, payload: seq<byte>, fin: bool)
    requires |v.ring| <= 65536
    ensures var u, all := Heard(v, me, payload, fin), (if payload == [] then 0 else 1) + (if fin then 1 else 0);
      var room, sent := 65536 - |v.ring|, if v.credit < all then v.credit else all;
      && u.ring == v.ring + (if |payload| <= room then payload else payload[..room])
      && u.remoteSeq == (v.remoteSeq + |payload| + if fin then 1 else 0) % U32
      && u == v.(ring := u.ring, remoteSeq := u.remoteSeq, out := u.out, credit := v.credit - sent,
                 finReceived := v.finReceived || fin,
                 tcpState := if fin && v.tcpState == Established then CloseWait else v.tcpState)
      && |u.out| == |v.out| + sent && u.out[..|v.out|] == v.out
      && (sent > 0 && payload != [] ==>
            u.out[|v.out|] == Segment(me.(ackNo := (v.remoteSeq + |payload|) % U32), []))
      && (sent == all && fin ==> u.out[|u.out| - 1] == Segment(me.(ackNo := u.remoteSeq), []))
  {
  }

  lemma {:induction false} ChunksHeaders(h: Header, data: seq<byte>)
    requires ValidHeader(h)
    ensures forall s :: s in Chunks(h, data) ==> s.Segment? && s.h.flags == h.flags && ValidHeader(s.h)
    decreases |data|
  {
    if data != [] {
      var n := if |data| > MSS then MSS else |data|;
      ChunksHeaders(h.(seqNo := SeqAdd(h.seqNo, n)), data[n..]);
    }
  }
}
