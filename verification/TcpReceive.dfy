/** The receiving side of an established TCP connection: `kernel/net/TCPSocket.cpp` over `kernel/net/IPSocket.cpp`. */
module TcpReceive {
  const SEQUENCE_SPACE := 0x1_0000_0000
  const QUEUE_CAPACITY := 16
  const MAX_OOO_PACKETS := 8

  type Byte = x: int | 0 <= x < 256

  datatype State = Established | CloseWait | Closed

  datatype Segment = Segment(sequence: nat, payload: seq<Byte>, fin: bool, rst: bool)

  function Flatten(q: seq<seq<Byte>>): seq<Byte> {
    if q == [] then [] else q[0] + Flatten(q[1..])
  }

  lemma {:induction false} FlattenSnoc(q: seq<seq<Byte>>, p: seq<Byte>)
    ensures Flatten(q + [p]) == Flatten(q) + p
  {
    if q == [] {
      assert q + [p] == [p] && [p][1..] == [];
    } else {
      FlattenSnoc(q[1..], p);
      assert (q + [p])[1..] == q[1..] + [p];
    }
  }

  /** The sequence number of byte `at` of the peer's stream, whose byte 0 has number `first`. */
  function SequenceOf(first: nat, at: nat): nat { (first + at) % SEQUENCE_SPACE }

  lemma SequenceAdd(first: nat, at: nat, n: nat)
    ensures (SequenceOf(first, at) + n) % SEQUENCE_SPACE == SequenceOf(first, at + n)
  {
  }

  /** Two positions share a sequence number exactly when they are a multiple of 2^32 bytes apart. */
  lemma SequenceMatches(first: nat, a: nat, b: nat)
    ensures SequenceOf(first, a) == SequenceOf(first, b) <==> (a - b) % SEQUENCE_SPACE == 0
    ensures -SEQUENCE_SPACE < a - b < SEQUENCE_SPACE ==> (SequenceOf(first, a) == SequenceOf(first, b) <==> a == b)
  {
  }

  /** A segment from position `at` of the stream arrives, or the application takes one queued payload. */
  datatype Event = Arrive(segment: Segment, routed: bool, at: nat) | ReadOne(len: nat)

  /** How far the connection has come. */
  datatype View = View(established: bool, pos: nat, queued: nat)

  function Next(v: View, e: Event): View {
    match e
    case ReadOne(_) => if v.queued > 0 then v.(queued := v.queued - 1) else v
    case Arrive(s, _, at) =>
      if !v.established then v
      else if s.rst then v.(established := false)
      else if at != v.pos then v
      else if s.payload != [] && v.queued == QUEUE_CAPACITY then v.(established := !s.fin)
      else View(!s.fin, v.pos + |s.payload|, if s.payload == [] then v.queued else v.queued + 1)
  }

  function After(v: View, es: seq<Event>): View {
    if es == [] then v else Next(After(v, es[..|es| - 1]), es[|es| - 1])
  }

  class TcpSocket {
    var state: State
    var ack: nat
    var lastAck: nat
    var oooPackets: nat
    var queue: seq<seq<Byte>>

    ghost const stream: seq<Byte>   // all the bytes the peer sends
    ghost const first: nat          // the sequence number of stream[0]: `m_ack` when the connection was established
    ghost var pos: nat              // the bytes queued so far
    ghost var delivered: seq<Byte>  // the bytes taken off the queue by the application
    ghost var sent: seq<nat>        // the acknowledgement numbers sent
    ghost var acked: seq<nat>       // the positions they stand for

    ghost predicate BytesOk()
      reads this`pos, this`delivered, this`queue
    {
      pos <= |stream| && delivered + Flatten(queue) == stream[..pos] && |queue| <= QUEUE_CAPACITY
    }

    /** Acknowledgement number i that was sent is that of byte acked[i]. */
    ghost predicate SentOk()
      reads this`sent, this`acked
    {
      |sent| == |acked| && forall i: nat :: i < |sent| ==> sent[i] == SequenceOf(first, acked[i])
    }

    /** What was read and what is queued are the peer's first `pos` bytes, and nothing beyond them was acknowledged. */
    ghost predicate Valid()
      reads this
    {
      && BytesOk() && SentOk()
      && (state == Established ==> ack == SequenceOf(first, pos) && forall i: nat :: i < |acked| ==> acked[i] <= pos)
    }

    constructor (ack: nat, lastAck: nat, ghost stream: seq<Byte>)
      requires ack < SEQUENCE_SPACE
      ensures Valid() && state == Established && pos == 0 && this.stream == stream && queue == [] && sent == []
      ensures first == this.ack == ack && this.lastAck == lastAck
    {
      state, this.ack, this.lastAck, oooPackets, queue := Established, ack, lastAck, 0, [];
      this.stream, first, pos, delivered, sent, acked := stream, ack, 0, [], [], [];
    }

    /** The segment carries the peer's bytes from position `a`. */
    ghost predicate Authentic(s: Segment, a: nat)
    {
      && a + |s.payload| <= |stream| && s.payload == stream[a..a + |s.payload|] && |s.payload| <= 0xFFFF
      && s.sequence == SequenceOf(first, a)
    }

    /** `IPSocket::recv_packet`: the bounded receive queue. */
    method Enqueue(payload: seq<Byte>) returns (ok: bool)
      modifies this`queue
      ensures ok <==> |old(queue)| != QUEUE_CAPACITY
      ensures queue == if ok then old(queue) + [payload] else old(queue)
    {
      if |queue| == QUEUE_CAPACITY {
        return false;
      }
      queue := queue + [payload];
      return true;
    }

    /** In-order bytes go on the queue if it has room; no bytes always do. */
    method Accept(payload: seq<Byte>) returns (ok: bool)
      requires BytesOk() && pos + |payload| <= |stream| && payload == stream[pos..pos + |payload|]
      modifies this`queue, this`pos
      ensures BytesOk() && (ok <==> payload == [] || |old(queue)| != QUEUE_CAPACITY)
      ensures queue == if ok && payload != [] then old(queue) + [payload] else old(queue)
      ensures pos == if ok then old(pos) + |payload| else old(pos)
    {
      ok := true;
      if |payload| != 0 {
        FlattenSnoc(queue, payload);
        ok := Enqueue(payload);
      }
      if ok {
        assert stream[..pos] + payload == stream[..pos + |payload|];
        pos := pos + |payload|;
      }
    }

    /** `send_ack`: an acknowledgement of everything before position `upTo`, unless it would repeat the last one. */
    method SendAck(dupe: bool, routed: bool, ghost upTo: nat)
      requires SentOk() && ack == SequenceOf(first, upTo)
      modifies this`lastAck, this`sent, this`acked
      ensures SentOk()
      ensures if !routed || (!dupe && old(lastAck) == ack) then
                sent == old(sent) && acked == old(acked) && lastAck == old(lastAck)
              else sent == old(sent) + [ack] && acked == old(acked) + [upTo] && lastAck == ack
    {
      if !dupe && lastAck == ack {
        return;
      }
      if routed {
        lastAck := ack;
        sent, acked := sent + [ack], acked + [upTo];
      }
    }

    /** A segment in order: what fits is queued and acknowledged, and a FIN is acknowledged in any case. */
    method ReceiveInOrder(s: Segment, routed: bool)
      requires Valid() && state == Established && Authentic(s, pos)
      modifies this
      ensures Valid() && delivered == old(delivered)
      ensures ViewOf() == Next(old(ViewOf()), Arrive(s.(rst := false), routed, old(pos)))
      ensures var refused, a := s.payload != [] && |old(queue)| == QUEUE_CAPACITY, old(pos);
              && pos == (if refused then a else a + |s.payload|) && oooPackets == 0
              && queue == (if refused || s.payload == [] then old(queue) else old(queue) + [s.payload])
              && (s.fin <==> state == CloseWait) && (!s.fin ==> ack == SequenceOf(first, pos))
              && (s.fin ==> ack == SequenceOf(first, a + |s.payload| + 1))
              && (refused && !s.fin ==> sent == old(sent))
              && (!refused || s.fin ==> sent == if routed && old(lastAck) != ack then old(sent) + [ack] else old(sent))
              && lastAck == (if sent == old(sent) then old(lastAck) else ack)
    {
      hide BytesOk, SequenceOf, SentOk;
      ghost var a := pos;
      oooPackets := 0;
      SequenceAdd(first, a, |s.payload|);
      SequenceAdd(first, a, |s.payload| + 1);
      var ok := Accept(s.payload);
      if s.fin {
        ack := (s.sequence + |s.payload| + 1) % SEQUENCE_SPACE;
        SendAck(false, routed, a + |s.payload| + 1);
        state := CloseWait;
      } else if ok {
        ack := (s.sequence + |s.payload|) % SEQUENCE_SPACE;
        SendAck(false, routed, pos);
      }
    }

    /** The `Established` case of `recv_packet`, for a segment less than 2^32 bytes away from the expected one. */
    method Receive(s: Segment, routed: bool, ghost a: nat)
      requires Valid() && state == Established && Authentic(s, a) && -SEQUENCE_SPACE < a - pos < SEQUENCE_SPACE
      modifies this
      ensures Valid() && delivered == old(delivered)
      ensures s.rst ==>
                && state == Closed && pos == old(pos) && sent == old(sent) && queue == old(queue) && ack == old(ack)
                && oooPackets == old(oooPackets)
      ensures !s.rst && a != old(pos) ==>
                && state == Established && pos == old(pos) && queue == old(queue) && ack == old(ack)
                && oooPackets == old(oooPackets) + 1
                && sent == (if routed && oooPackets > MAX_OOO_PACKETS then old(sent) + [ack] else old(sent))
                && lastAck == (if routed && oooPackets > MAX_OOO_PACKETS then ack else old(lastAck))
      ensures ViewOf() == Next(old(ViewOf()), Arrive(s, routed, a))
      ensures !s.rst && a == old(pos) ==>
                var refused := s.payload != [] && |old(queue)| == QUEUE_CAPACITY;
                && pos == (if refused then old(pos) else old(pos) + |s.payload|) && oooPackets == 0
                && queue == (if refused || s.payload == [] then old(queue) else old(queue) + [s.payload])
                && (s.fin <==> state == CloseWait) && (!s.fin ==> ack == SequenceOf(first, pos))
                && (ack == old(ack) <==> (refused || s.payload == []) && !s.fin)
                && (refused && !s.fin ==> sent == old(sent))
                && (!refused || s.fin ==>
                      sent == if routed && old(lastAck) != ack then old(sent) + [ack] else old(sent))
                && lastAck == (if sent == old(sent) then old(lastAck) else ack)
                && (s.fin ==> ack == SequenceOf(first, a + |s.payload| + 1))
                && (s.fin ==> (ack == SequenceOf(first, pos + 1) <==> !refused))
    {
      hide BytesOk, SequenceOf, SentOk;
      if s.rst {
        state := Closed;
        return;
      }
      SequenceMatches(first, a, pos);
      if s.sequence != ack {
        oooPackets := oooPackets + 1;
        if oooPackets > MAX_OOO_PACKETS {
          SendAck(true, routed, pos);
        }
        return;
      }
      SequenceMatches(first, a + |s.payload|, a);
      SequenceMatches(first, a + |s.payload| + 1, a);
      SequenceMatches(first, a + |s.payload| + 1, a + 1);
      ReceiveInOrder(s, routed);
    }

    ghost function ViewOf(): View
      reads this
    {
      View(state == Established, pos, |queue|)
    }

    /** `recvfrom`: the oldest payload leaves the queue; what does not fit into the buffer is gone. */
    method Read(len: nat) returns (buffer: seq<Byte>)
      requires Valid()
      modifies this`queue, this`delivered
      ensures Valid() && ViewOf() == Next(old(ViewOf()), ReadOne(len))
      ensures old(queue) == [] ==> buffer == [] && delivered == old(delivered)
      ensures old(queue) != [] ==>
                && delivered == old(delivered) + old(queue)[0] && buffer <= old(queue)[0]
                && |buffer| == if len < |old(queue)[0]| then len else |old(queue)[0]|
    {
      buffer := [];
      if |queue| > 0 {
        var payload := queue[0];
        buffer := if len < |payload| then payload[..len] else payload;
        assert Flatten(queue) == queue[0] + Flatten(queue[1..]);
        queue := queue[1..];
        delivered := delivered + payload;
      }
    }

    /** The event brings the peer's bytes, from less than 2^32 bytes away. */
    ghost predicate Fair(v: View, e: Event) {
      e.Arrive? && v.established ==> Authentic(e.segment, e.at) && -SEQUENCE_SPACE < e.at - v.pos < SEQUENCE_SPACE
    }

    /**
     Any run of arrivals, in any order, repeated or missing, and of reads: what was read and what is queued
     is a prefix of the peer's stream, and its length depends on the events alone.
     */
    method Run(events: seq<Event>)
      requires Valid()
      requires forall n: nat :: n < |events| ==> Fair(After(ViewOf(), events[..n]), events[n])
      modifies this
      ensures Valid() && ViewOf() == After(old(ViewOf()), events)
      ensures delivered + Flatten(queue) == stream[..After(old(ViewOf()), events).pos]
    {
      hide SequenceOf, Authentic;
      ghost var v := ViewOf();
      for n := 0 to |events|
        invariant Valid() && ViewOf() == After(v, events[..n])
      {
        assert events[..n + 1][..n] == events[..n];
        match events[n]
        case ReadOne(len) => var buffer := Read(len);
        case Arrive(s, routed, at) =>
          if state == Established {
            assert Fair(After(v, events[..n]), events[n]);
            Receive(s, routed, at);
          }
      }
      assert events[..|events|] == events;
    }
  }

  /** A FIN on a segment that the full queue refused: the refused byte is acknowledged all the same. */
  method RefusedFinIsAcked() returns (socket: TcpSocket)
    ensures fresh(socket) && socket.Valid() && |socket.queue| == QUEUE_CAPACITY && socket.pos == 16
    ensures socket.state == CloseWait && socket.sent != [] && socket.sent[|socket.sent| - 1] == 18
  {
    socket := new TcpSocket(0, 0, seq(17, _ => 0));
    for i := 0 to QUEUE_CAPACITY
      invariant fresh(socket) && socket.Valid() && socket.state == Established && socket.first == 0
      invariant socket.pos == |socket.queue| == i && |socket.stream| == 17 && socket.stream == seq(17, _ => 0)
      invariant socket.lastAck == i
    {
      socket.Receive(Segment(i, [0], false, false), true, i);
    }
    socket.Receive(Segment(16, [0], true, false), true, 16);
  }
}
