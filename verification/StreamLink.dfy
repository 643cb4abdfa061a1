/** The two streams of the code, connected: what they do with each other's datagrams, HEARTBEATs and
    ACKNACKs are steps of StreamPair, from the moment they are set up. */
module StreamLink {
  import opened SeqNum
  import opened Slots
  import opened Messages
  import opened MessageHeaders
  import opened CommonReliableStream
  import opened OutputWindow
  import opened OutputInvariants
  import opened InputWindow
  import opened InputInvariants
  import opened StreamPair
  import StreamReassembly
  import O = OutputReliableStream
  import I = InputReliableStream

  /** The octets that travel for a message on the network. */
  ghost predicate IsDatagram(session: Session, octets: seq<byte>, d: Data) {
    session.Valid() && octets == session.Datagram(d.i, d.m)
  }

  ghost predicate OnWire(session: Session, octets: seq<byte>, wire: seq<Data>) {
    exists k :: 0 <= k < |wire| && IsDatagram(session, octets, wire[k])
  }

  /** Whatever the transport has taken is on the network of the pair. */
  ghost predicate Carried(session: Session, taken: seq<seq<byte>>, wire: seq<Data>) {
    forall octets <- taken :: OnWire(session, octets, wire)
  }

  /** Two streams, each with its own memory. */
  ghost predicate Apart(output: O.OutputReliableStream, input: I.InputReliableStream) {
    && output.base != input.base && output.base.buffer != input.base.buffer
    && output.base.Shape() && input.base.Shape()
    && output.base.Capacity() <= output.offset + input.base.Capacity()
  }

  /** Two streams of one session in the states of the pair p, the transport from one to the other, and the
      octets that the receiving one has handed over so far. */
  ghost predicate Linked(output: O.OutputReliableStream, input: I.InputReliableStream, transport: O.Transport,
                         handed: seq<seq<byte>>, p: Pair)
    reads output, output.base, output.base.buffer, input, input.base, input.base.buffer, transport
  {
    && Apart(output, input) && output.Valid() && input.Valid()
    && p.s == output.view && p.r == input.view && Inv(p)
    && Carried(output.session, transport.taken, p.wire)
    && I.AllJoinable(p.units) && handed == I.HandedAll(p.units)
  }

  lemma LinkedParts(output: O.OutputReliableStream, input: I.InputReliableStream, transport: O.Transport,
                    handed: seq<seq<byte>>, p: Pair)
    requires Linked(output, input, transport, handed, p)
    ensures Apart(output, input) && output.Valid() && input.Valid() && Inv(p)
    ensures p.s == output.view && p.r == input.view && p.s.Valid() && p.r.Valid()
    ensures output.base != input.base && output.base.buffer != input.base.buffer
    ensures output.session.Valid() && Carried(output.session, transport.taken, p.wire)
    ensures I.AllJoinable(p.units) && handed == I.HandedAll(p.units)
  {
  }

  lemma Link(output: O.OutputReliableStream, input: I.InputReliableStream, transport: O.Transport,
             handed: seq<seq<byte>>, p: Pair)
    requires Apart(output, input) && output.Valid() && input.Valid() && Inv(p)
    requires p.s == output.view && p.r == input.view
    requires output.session.Valid() && Carried(output.session, transport.taken, p.wire)
    requires I.AllJoinable(p.units) && handed == I.HandedAll(p.units)
    ensures Linked(output, input, transport, handed, p)
  {
  }

  /** What the code has handed over, octet for octet: the user parts of the first messages sent, cut into
      submessages where their fragments end, each once and in order. */
  lemma HandedIsSent(output: O.OutputReliableStream, input: I.InputReliableStream, transport: O.Transport,
                     handed: seq<seq<byte>>, p: Pair)
    requires Linked(output, input, transport, handed, p)
    ensures p.s.Valid() && -1 <= input.view.handled <= output.view.sent < |output.view.msgs|
    ensures var pieces := StreamReassembly.Pieces(output.view.msgs[..input.view.handled + 1]);
      I.AllJoinable(pieces) && handed == I.HandedAll(pieces)
  {
    hide *;
    LinkedParts(output, input, transport, handed, p);
    IsSafe(p);
    StreamReassembly.UnitsArePieces(p.units);
  }

  lemma CarriedMore(session: Session, taken: seq<seq<byte>>, wire: seq<Data>, more: seq<Data>)
    requires session.Valid() && Carried(session, taken, wire) && wire <= more
    ensures Carried(session, taken, more)
  {
    hide Session.Datagram;
    forall octets <- taken
      ensures OnWire(session, octets, more)
    {
      var k :| 0 <= k < |wire| && IsDatagram(session, octets, wire[k]);
      assert more[k] == wire[k];
    }
  }

  lemma CarriedOne(session: Session, taken: seq<seq<byte>>, wire: seq<Data>, d: Data)
    requires session.Valid() && Carried(session, taken, wire)
    ensures Carried(session, taken + [session.Datagram(d.i, d.m)], wire + [d])
  {
    hide Session.Datagram;
    CarriedMore(session, taken, wire, wire + [d]);
    assert IsDatagram(session, session.Datagram(d.i, d.m), (wire + [d])[|wire|]);
  }

  /** Datagrams offered again are those of the messages that the pair sends again. */
  lemma {:induction false} DatagramsOnWire(session: Session, msgs: seq<message>, low: int, high: int, octets: seq<byte>)
    returns (i: int)
    requires session.Valid() && 0 <= low <= high <= |msgs| && octets in O.Datagrams(session, msgs, low, high)
    ensures low <= i < high && IsDatagram(session, octets, Data(i, msgs[i]))
    decreases high - low
  {
    hide Session.Datagram;
    assert low < high;
    if octets == session.Datagram(high - 1, msgs[high - 1]) {
      i := high - 1;
    } else {
      i := DatagramsOnWire(session, msgs, low, high - 1, octets);
    }
  }

  lemma CarriedAgain(session: Session, now: seq<seq<byte>>, before: seq<seq<byte>>, wire: seq<Data>, s: Sender, again: bool)
    requires session.Valid() && Carried(session, before, wire) && -1 <= s.acked <= s.sent < |s.msgs|
    requires O.TakenOf(now, before, if again then O.Datagrams(session, s.msgs, s.acked + 1, s.sent + 1) else [])
    ensures Carried(session, now, wire + if again then Resent(s) else [])
  {
    hide O.Datagrams;
    hide Resent;
    hide OnWire;
    var more := wire + if again then Resent(s) else [];
    CarriedMore(session, before, wire, more);
    forall octets <- now
      ensures OnWire(session, octets, more)
    {
      if octets !in before {
        AgainOnWire(session, octets, wire, s);
      }
    }
  }

  lemma AgainOnWire(session: Session, octets: seq<byte>, wire: seq<Data>, s: Sender)
    requires session.Valid() && -1 <= s.acked <= s.sent < |s.msgs|
    requires octets in O.Datagrams(session, s.msgs, s.acked + 1, s.sent + 1)
    ensures OnWire(session, octets, wire + Resent(s))
  {
    hide O.Datagrams;
    hide Resent;
    hide Session.Datagram;
    var i := DatagramsOnWire(session, s.msgs, s.acked + 1, s.sent + 1, octets);
    ResentAt(s, i);
    assert (wire + Resent(s))[|wire| + i - s.acked - 1] == Data(i, s.msgs[i]);
  }

  lemma ResentAt(s: Sender, i: int)
    requires -1 <= s.acked <= s.sent < |s.msgs| && s.acked < i <= s.sent
    ensures |Resent(s)| == s.sent - s.acked && Resent(s)[i - s.acked - 1] == Data(i, s.msgs[i])
  {
  }

  /** The two streams are set up. */
  method Connect(outputBase: ReliableStream, inputBase: ReliableStream, session: Session, accepts: seq<bool>)
    returns (output: O.OutputReliableStream, input: I.InputReliableStream, transport: O.Transport)
    requires outputBase.Valid() && inputBase.Valid() && session.Valid()
    requires outputBase != inputBase && outputBase.buffer != inputBase.buffer
    requires IsPowerOfTwo(outputBase.history) && outputBase.history == inputBase.history <= 0x4000
    requires session.Offset() + SUBHEADER_SIZE < outputBase.Capacity() < SEQ_NUM_SIZE
    requires SUBHEADER_SIZE < inputBase.Capacity() && outputBase.Capacity() <= session.Offset() + inputBase.Capacity()
    modifies outputBase, outputBase.buffer, inputBase, inputBase.buffer
    ensures output.session == session && output.base == outputBase && input.base == inputBase
    ensures Linked(output, input, transport, [],
                   Init(Config(outputBase.history, session.Offset(), outputBase.Capacity())))
  {
    hide Inv;
    output := new O.OutputReliableStream(outputBase, session);
    input := new I.InputReliableStream(inputBase);
    transport := new O.Transport(accepts);
    ConfigValid(output);
    InitInv(output.view.cfg);
  }

  lemma ConfigValid(output: O.OutputReliableStream)
    requires output.Valid()
    ensures output.session.Valid() && output.view.Valid() && output.view.cfg.Valid()
  {
  }

  /** The pair after a step of its sender that acknowledges nothing. */
  lemma SenderTaken(p: Pair, e: Step)
    requires Inv(p) && (e.Written? || e.Sent? || e.Refused?) && p.s.Valid() && p.r.Valid() && Enabled(p, e)
    ensures CanStep(p, e)
    ensures var q := Next(p, e);
      && Inv(q) && q.r == p.r && q.units == p.units
      && (e.Written? ==> q.s == p.s.Write(e.data, e.pad) && q.wire == p.wire)
      && (e.Sent? ==> q.s == p.s.SendNext() && q.wire == p.wire + [Data(p.s.sent + 1, p.s.msgs[p.s.sent + 1])])
      && (e.Refused? ==> q.s == Refuse(p.s) && q.wire == p.wire)
  {
    StepInv(p, e);
    hide Inv;
    hide Sender.Valid;
    hide Sender.Write;
    hide Sender.SendNext;
    hide Refuse;
  }

  /** The sender's own steps. */
  lemma SenderEnabled(p: Pair, data: seq<byte>, pad: seq<byte>)
    requires p.s.Valid() && p.r.Valid()
    ensures Readable(data) && Kind(data) == NoFragmented && p.s.IsPadding(pad) ==> Enabled(p, Written(data, pad))
    ensures Readable(data) ==> data != []
    ensures p.s.HasNext() ==> Enabled(p, Sent) && Enabled(p, Refused) && 0 <= p.s.sent + 1 < |p.s.msgs|
  {
  }

  /** A submessage is written to the stream. */
  method WriteOne(output: O.OutputReliableStream, input: I.InputReliableStream, transport: O.Transport,
                  data: seq<byte>, ghost handed: seq<seq<byte>>, ghost p: Pair)
    returns (available: bool, ghost pad: seq<byte>)
    requires Linked(output, input, transport, handed, p) && Readable(data) && Kind(data) == NoFragmented
    modifies output`lastWritten, output`view, output.base`lens, output.base`blocks, output.base.buffer
    ensures CanStep(p, Written(data, pad)) && Linked(output, input, transport, handed, Next(p, Written(data, pad)))
    ensures available <==> HasRoom(p.s, data)
  {
    hide *;
    LinkedParts(output, input, transport, handed, p);
    available, pad := output.Write(data);
    SenderEnabled(p, data, pad);
    SenderTaken(p, Written(data, pad));
    Link(output, input, transport, handed, Next(p, Written(data, pad)));
  }

  /** One turn of the flush loop: a message goes out, or is refused and taken back. */
  method SendOne(output: O.OutputReliableStream, input: I.InputReliableStream, transport: O.Transport,
                 ghost handed: seq<seq<byte>>, ghost p: Pair)
    returns (more: bool, sent: bool)
    requires Linked(output, input, transport, handed, p)
    modifies output`lastWritten, output`lastSent, output`view, output.base`blocks, output.base.buffer, transport
    ensures more == p.s.HasNext() && (sent ==> more)
    ensures !more ==> Linked(output, input, transport, handed, p)
    ensures more ==> p.s.Valid() && -1 <= p.s.sent && p.s.sent + 1 < |p.s.msgs| && output.session.Valid()
                     && transport.offered == old(transport.offered)
                          + [output.session.Datagram(p.s.sent + 1, p.s.msgs[p.s.sent + 1])]
                     && |transport.taken| == |old(transport.taken)| + if sent then 1 else 0
    ensures more ==> var e := if sent then Sent else Refused;
      CanStep(p, e) && Linked(output, input, transport, handed, Next(p, e))
  {
    hide *;
    LinkedParts(output, input, transport, handed, p);
    SenderEnabled(p, [], []);
    ghost var taken := transport.taken;
    more, sent := output.FlushOne(transport);
    ghost var q := p;
    if more {
      SenderTaken(p, if sent then Sent else Refused);
      q := Next(p, if sent then Sent else Refused);
      if sent {
        CarriedOne(output.session, taken, p.wire, Data(p.s.sent + 1, p.s.msgs[p.s.sent + 1]));
      }
    }
    Link(output, input, transport, handed, q);
  }

  /** The pair after the arrival of a message, or of a HEARTBEAT, which the receiver has answered. */
  lemma ReceiverTaken(p: Pair, e: Step)
    requires Inv(p) && (e.DataArrives? || e.HeartbeatArrives?) && p.s.Valid() && p.r.Valid() && Enabled(p, e)
    ensures CanStep(p, e)
    ensures var q := Next(p, e);
      && Inv(q) && q.s == p.s && q.wire == p.wire && q.acks == p.acks + [Ack(q.r.FirstUnacked(), e.bits)]
      && q.r == (if e.DataArrives? then Arrival(p, e.k).r else p.r.Announce(e.last))
      && q.units == if e.DataArrives? then p.units + Arrival(p, e.k).units else p.units
  {
    StepInv(p, e);
    hide Inv;
    hide Receiver.FirstUnacked;
    hide Arrival;
  }

  lemma ReceiverEnabled(p: Pair, k: nat, bits: seq<bool>, last: SeqNum)
    requires p.s.Valid() && p.r.Valid()
    ensures k < |p.wire| && InAge(p.r, p.wire[k].i) && Arrival(p, k).r.Valid() && Arrival(p, k).r.IsBitmap(bits) ==>
      Enabled(p, DataArrives(k, bits))
    ensures p.r.Announce(last).Valid() && p.r.Announce(last).IsBitmap(bits) ==> Enabled(p, HeartbeatArrives(last, bits))
  {
  }

  lemma StillReceiving(input: I.InputReliableStream)
    requires input.Valid()
    ensures input.view.Valid() && input.view.history > 0 && input.base.Shape()
    ensures input.lastAnnounced == Wire(input.lastAnnounced) == input.view.announced
  {
  }

  /** A datagram of any message ever sent arrives, however late or often: it is read, what it makes
      ready is handed over, and an ACKNACK is the answer. */
  method Deliver(output: O.OutputReliableStream, input: I.InputReliableStream, transport: O.Transport,
                 datagram: seq<byte>, lengths: seq<nat>, ghost handed: seq<seq<byte>>, ghost p: Pair, ghost k: nat)
    returns (now: seq<seq<byte>>, first: SeqNum, bits: seq<bool>)
    requires Linked(output, input, transport, handed, p) && k < |p.wire| && InAge(p.r, p.wire[k].i)
    requires IsDatagram(output.session, datagram, p.wire[k])
    requires I.AreLengths(lengths, p.r.Receive(Wire(p.wire[k].i), p.wire[k].m).r.DeliverAll().units)
    modifies input`lastHandled, input`lastAnnounced, input`cleanupFlag, input`view
    modifies input.base`lens, input.base`blocks, input.base.buffer
    ensures CanStep(p, DataArrives(k, bits)) && Linked(output, input, transport, handed + now, Next(p, DataArrives(k, bits)))
    ensures I.AllJoinable(Arrival(p, k).units) && now == I.HandedAll(Arrival(p, k).units)
    ensures first == Wire(Next(p, DataArrives(k, bits)).r.FirstUnacked())
  {
    hide *;
    LinkedParts(output, input, transport, handed, p);
    Received(output, input, transport, handed, datagram, p, k);
    var parsed := output.session.ReadHeader(datagram);
    now := input.ReadStream(parsed.seqNum, parsed.m, lengths);
    first, bits := input.ComputeAckNack();
    StillReceiving(input);
    ReceiverEnabled(p, k, bits, 0);
    ReceiverTaken(p, DataArrives(k, bits));
    I.HandedAppend(p.units, Arrival(p, k).units);
    Link(output, input, transport, handed + now, Next(p, DataArrives(k, bits)));
  }

  lemma Received(output: O.OutputReliableStream, input: I.InputReliableStream, transport: O.Transport,
                 handed: seq<seq<byte>>, datagram: seq<byte>, p: Pair, k: nat)
    requires Linked(output, input, transport, handed, p) && k < |p.wire| && InAge(p.r, p.wire[k].i)
    requires IsDatagram(output.session, datagram, p.wire[k])
    ensures var d := p.wire[k];
      && Readable(d.m) && input.base.Shape() && |d.m| <= input.base.Capacity()
      && output.session.ReadHeader(datagram) == Accepted(Wire(d.i), d.m)
      && SearchesEnd(p.r.Receive(Wire(d.i), d.m).r) && StoresReadable(p.r.Receive(Wire(d.i), d.m).r)
      && Arrival(p, k) == p.r.ReadStream(Wire(d.i), d.m)
  {
    var d := p.wire[k];
    OnNetwork(p, k);
    HeaderRoundTrip(output.session, d.i, d.m);
    ArrivalSearchable(p, k);
    hide Inv;
    hide SearchesEnd;
    hide StoresReadable;
    hide Receiver.ReadStream;
    hide Session.ReadHeader;
  }

  /** Messages on the network are readable, and fit in a slot. */
  lemma OnNetwork(p: Pair, k: nat)
    requires Inv(p) && k < |p.wire|
    ensures Readable(p.wire[k].m) && p.s.cfg.offset + |p.wire[k].m| <= p.s.cfg.capacity
  {
    assert p.wire[k] in p.wire;
  }

  /** A HEARTBEAT of the sender is read by the receiver, which answers with an ACKNACK. */
  method Announce(output: O.OutputReliableStream, input: I.InputReliableStream, transport: O.Transport,
                  ghost handed: seq<seq<byte>>, ghost p: Pair)
    returns (first: SeqNum, bits: seq<bool>)
    requires Linked(output, input, transport, handed, p)
    modifies input`lastAnnounced, input`view
    ensures CanStep(p, HeartbeatArrives(Wire(p.s.sent), bits))
    ensures var q := Next(p, HeartbeatArrives(Wire(p.s.sent), bits));
      && Linked(output, input, transport, handed, q)
      && q.acks == p.acks + [Ack(q.r.FirstUnacked(), bits)] && first == Wire(q.r.FirstUnacked())
  {
    hide *;
    LinkedParts(output, input, transport, handed, p);
    StillReceiving(input);
    var firstUnacked, lastUnacked := output.Heartbeat();
    input.ProcessHeartbeat(firstUnacked, lastUnacked, input.lastAnnounced, p.s.sent);
    first, bits := input.ComputeAckNack();
    StillReceiving(input);
    ReceiverEnabled(p, 0, bits, lastUnacked);
    ReceiverTaken(p, HeartbeatArrives(lastUnacked, bits));
    Link(output, input, transport, handed, Next(p, HeartbeatArrives(lastUnacked, bits)));
  }

  /** The pair after its oldest ACKNACK has arrived. */
  lemma AckTaken(p: Pair, first: SeqNum, bits: seq<bool>)
    requires Inv(p) && p.acks != [] && |bits| == 16 && p.acks[0].bits == bits && first == Wire(p.acks[0].first)
    ensures p.s.Valid() && p.s.IsCurrentAckNack(first) && CanStep(p, AckArrives)
    ensures var q := Next(p, AckArrives);
      && Inv(q) && q.r == p.r && q.units == p.units && q.s == p.s.ProcessAckNack(BitmapValue(bits), first).(sendLost := false)
      && -1 <= q.s.acked <= q.s.sent < |q.s.msgs|
      && q.wire == p.wire + if BitmapValue(bits) > 0 then Resent(q.s) else []
  {
    hide *;
    AckInv(p);
    AckStep(p);
    AckNackState(p, first, bits);
    AckedBounds(Next(p, AckArrives));
    BitmapSet(bits);
  }

  lemma AckNackState(p: Pair, first: SeqNum, bits: seq<bool>)
    requires p.acks != [] && CanStep(p, AckArrives) && p.acks[0].bits == bits && first == Wire(p.acks[0].first)
    ensures p.s.Valid() && p.s.IsCurrentAckNack(first) && |bits| == 16
    ensures var q := Next(p, AckArrives);
      q.r == p.r && q.units == p.units && q.s == p.s.ProcessAckNack(BitmapValue(bits), first).(sendLost := false)
  {
    hide Sender.Valid;
    hide Sender.ProcessAckNack;
    hide Sender.IsCurrentAckNack;
    hide Resent;
    hide BitmapValue;
  }

  lemma AckedBounds(q: Pair)
    requires Inv(q)
    ensures -1 <= q.s.acked <= q.s.sent < |q.s.msgs|
  {
  }

  lemma BitmapSet(bits: seq<bool>)
    requires |bits| == 16
    ensures BitmapValue(bits) > 0 <==> exists i :: 0 <= i < 16 && bits[i]
  {
  }

  /** The oldest ACKNACK under way is read by the sender, which sends again what was lost. */
  method Acknowledge(output: O.OutputReliableStream, input: I.InputReliableStream, transport: O.Transport,
                     first: SeqNum, bits: seq<bool>, ghost handed: seq<seq<byte>>, ghost p: Pair)
    requires Linked(output, input, transport, handed, p) && p.acks != [] && |bits| == 16
    requires p.acks[0].bits == bits && first == Wire(p.acks[0].first)
    modifies output`lastAcknown, output`sendLost, output`view, output.base`lens, output.base.buffer, transport
    ensures CanStep(p, AckArrives) && Linked(output, input, transport, handed, Next(p, AckArrives))
    ensures transport.offered == old(transport.offered)
              + if BitmapValue(bits) > 0
                then O.Datagrams(output.session, output.view.msgs, output.view.acked + 1, output.view.sent + 1) else []
  {
    hide *;
    LinkedParts(output, input, transport, handed, p);
    AckTaken(p, first, bits);
    ghost var taken := transport.taken;
    output.ReadAckNack(BitmapValue(bits), first, transport);
    CarriedAgain(output.session, transport.taken, taken, p.wire, output.view, BitmapValue(bits) > 0);
    Link(output, input, transport, handed, Next(p, AckArrives));
  }

  /** The network loses an ACKNACK. */
  lemma Lose(output: O.OutputReliableStream, input: I.InputReliableStream, transport: O.Transport,
             handed: seq<seq<byte>>, p: Pair, k: nat)
    requires Linked(output, input, transport, handed, p) && k < |p.acks|
    ensures CanStep(p, AckLost(k)) && Linked(output, input, transport, handed, Next(p, AckLost(k)))
  {
    hide *;
    LinkedParts(output, input, transport, handed, p);
    LossEnabled(p, k);
    StepInv(p, AckLost(k));
    LossStep(p, k);
    Link(output, input, transport, handed, Next(p, AckLost(k)));
  }

  lemma LossEnabled(p: Pair, k: nat)
    requires p.s.Valid() && p.r.Valid() && k < |p.acks|
    ensures Enabled(p, AckLost(k))
  {
  }

  lemma LossStep(p: Pair, k: nat)
    requires CanStep(p, AckLost(k))
    ensures Next(p, AckLost(k)) == p.(acks := Next(p, AckLost(k)).acks)
  {
    hide CanStep;
  }
}
