/** One output stream and one input stream of the same history, connected by a network that loses,
    repeats and reorders messages but does not let them grow too old, and that loses ACKNACKs but
    keeps their order. */
module StreamPair {
  import opened SeqNum
  import opened Messages
  import opened OutputWindow
  import opened OutputInvariants
  import opened InputWindow
  import opened InputInvariants

  /** A message on the network.  The receiver is given its 16-bit number, not its index. */
  datatype Data = Data(i: int, m: message)

  /** An ACKNACK on the network: the first number not acknowledged, and the bitmap. */
  datatype Ack = Ack(first: int, bits: seq<bool>)

  datatype Pair = Pair(s: Sender, r: Receiver, wire: seq<Data>, acks: seq<Ack>, units: seq<seq<message>>)

  datatype Step =
    | Written(data: seq<byte>, pad: seq<byte>)
    | Sent
    | Refused
    | DataArrives(k: nat, bits: seq<bool>)
    | HeartbeatArrives(last: SeqNum, bits: seq<bool>)
    | AckArrives
    | AckLost(k: nat)

  /** Messages that have ever been sent may arrive at any time. */
  function Arrival(p: Pair, k: nat): Delivery
    requires k < |p.wire|
  {
    p.r.ReadStream(Wire(p.wire[k].i), p.wire[k].m)
  }

  ghost predicate Enabled(p: Pair, e: Step)
    requires p.s.Valid() && p.r.Valid()
  {
    match e
    case Written(data, pad) => Readable(data) && Kind(data) == NoFragmented && p.s.IsPadding(pad)
    case Sent => p.s.HasNext()
    case Refused => p.s.HasNext()
    case DataArrives(k, bits) =>
      k < |p.wire| && InAge(p.r, p.wire[k].i) && Arrival(p, k).r.history > 0 && Arrival(p, k).r.IsBitmap(bits)
    case HeartbeatArrives(last, bits) => p.r.Announce(last).IsBitmap(bits)
    case AckArrives => p.acks != []
    case AckLost(k) => k < |p.acks|
  }

  /** The messages sent again by the nack loop. */
  function Resent(s: Sender): seq<Data>
    requires -1 <= s.acked <= s.sent < |s.msgs|
  {
    seq(s.sent - s.acked, k requires 0 <= k < s.sent - s.acked => Data(s.acked + 1 + k, s.msgs[s.acked + 1 + k]))
  }

  /** read_submessage_acknack. */
  ghost function AckNack(p: Pair, a: Ack): Pair
    requires p.s.Valid() && |a.bits| == 16 && p.s.IsCurrentAckNack(Wire(a.first))
  {
    AckNackValid(p.s, BitmapValue(a.bits), Wire(a.first));
    var t := p.s.ProcessAckNack(BitmapValue(a.bits), Wire(a.first));
    p.(s := t.(sendLost := false), wire := p.wire + if t.sendLost then Resent(t) else [])
  }

  /** The receiver has changed, and acknowledges. */
  function Acknowledge(p: Pair, bits: seq<bool>): Pair {
    p.(acks := p.acks + [Ack(p.r.FirstUnacked(), bits)])
  }

  ghost predicate CanStep(p: Pair, e: Step) {
    && p.s.Valid() && p.r.Valid() && Enabled(p, e)
    && (e.AckArrives? ==> |p.acks[0].bits| == 16 && p.s.IsCurrentAckNack(Wire(p.acks[0].first)))
  }

  ghost function Next(p: Pair, e: Step): Pair
    requires CanStep(p, e)
  {
    match e
    case Written(data, pad) => p.(s := p.s.Write(data, pad))
    case Sent => p.(s := p.s.SendNext(), wire := p.wire + [Data(p.s.sent + 1, p.s.msgs[p.s.sent + 1])])
    case Refused => p.(s := Refuse(p.s))
    case DataArrives(k, bits) =>
      var d := Arrival(p, k);
      Acknowledge(p.(r := d.r, units := p.units + d.units), bits)
    case HeartbeatArrives(last, bits) => Acknowledge(p.(r := p.r.Announce(last)), bits)
    case AckArrives => AckNack(p.(acks := p.acks[1..]), p.acks[0])
    case AckLost(k) => p.(acks := p.acks[..k] + p.acks[k + 1..])
  }

  function Init(cfg: Config): Pair {
    Pair(InitSender(cfg), InitReceiver(cfg.history), [], [], [])
  }

  /** What the sender has sent. */
  function SentLog(s: Sender): seq<message>
    requires s.Valid()
  {
    s.msgs[..s.sent + 1]
  }

  /** The ACKNACKs under way acknowledge ever more, from what the sender knows to what the receiver does. */
  ghost predicate AcksInOrder(acks: seq<Ack>, low: int, high: int) {
    && low <= high
    && (forall a <- acks :: low <= a.first <= high && |a.bits| == 16)
    && (forall j, k | 0 <= j < k < |acks| :: acks[j].first <= acks[k].first)
  }

  ghost predicate Inv(p: Pair) {
    && p.s.Valid() && WellFormed(Log(p.s), p.s.cfg.history)
    && p.r.history == p.s.cfg.history && Agrees(p.r, SentLog(p.s)) && p.r.Quiescent()
    && AreUnits(p.units) && Flatten(p.units) == SentLog(p.s)[..p.r.handled + 1]
    && (forall d <- p.wire :: 0 <= d.i <= p.s.sent && d.m == p.s.msgs[d.i])
    && AcksInOrder(p.acks, p.s.acked + 1, p.r.FirstUnacked())
  }

  lemma InitInv(cfg: Config)
    requires cfg.Valid()
    ensures Inv(Init(cfg))
  {
    InitValid(cfg);
  }

  /** The sent messages can be searched for the ends of fragment runs. */
  lemma SentFollow(s: Sender)
    requires s.Valid() && WellFormed(Log(s), s.cfg.history)
    ensures FragmentsFollow(SentLog(s), s.cfg.history)
  {
    FollowInPrefix(Log(s), s.cfg.history, s.sent + 1);
    assert Log(s)[..s.sent + 1] == SentLog(s);
  }

  /** The sender may send and write more: what the receiver has still agrees. */
  lemma AgreesWithMore(r: Receiver, log: seq<message>, more: seq<message>)
    requires Agrees(r, log) && log <= more && forall m <- more :: Readable(m)
    ensures Agrees(r, more)
  {
  }

  lemma LogReadable(s: Sender)
    requires s.Valid()
    ensures forall m <- SentLog(s) :: Readable(m)
    ensures |SentLog(s)| == s.sent + 1
  {
  }

  lemma KeepsSentLog(s: Sender, t: Sender)
    requires s.Valid() && t.Valid() && KeepsSent(s, t)
    ensures SentLog(s) <= SentLog(t)
  {
    assert t.msgs[..s.sent + 1] == t.msgs[..t.sent + 1][..s.sent + 1];
  }

  /** A step of the sender that acknowledges nothing. */
  lemma SenderMoves(p: Pair, t: Sender)
    requires Inv(p) && t.Valid() && KeepsSent(p.s, t) && t.acked == p.s.acked && WellFormed(Log(t), t.cfg.history)
    ensures Inv(p.(s := t))
  {
    hide Sender.Valid;
    hide WellFormed;
    hide Log;
    hide Receiver.Quiescent;
    hide AcksInOrder;
    hide AreUnits;
    KeepsSentLog(p.s, t);
    LogReadable(t);
    LogReadable(p.s);
    SentIsWritten(p.s);
    SentIsWritten(t);
    AgreesWithMore(p.r, SentLog(p.s), SentLog(t));
    forall d <- p.wire
      ensures 0 <= d.i <= t.sent && d.m == t.msgs[d.i]
    {
      assert p.s.msgs[d.i] == SentLog(p.s)[d.i] == SentLog(t)[d.i];
    }
  }

  lemma WrittenInv(p: Pair, data: seq<byte>, pad: seq<byte>)
    requires Inv(p) && Readable(data) && Kind(data) == NoFragmented && p.s.IsPadding(pad)
    ensures Inv(p.(s := p.s.Write(data, pad)))
  {
    WriteValid(p.s, data, pad);
    WriteWellFormed(p.s, data, pad);
    hide Sender.Write;
    hide WellFormed;
    hide Log;
    SenderMoves(p, p.s.Write(data, pad));
  }

  lemma SentInv(p: Pair)
    requires Inv(p) && p.s.HasNext()
    ensures Inv(Next(p, Sent))
  {
    hide Inv;
    hide Sender.Valid;
    hide Sender.SendNext;
    hide WellFormed;
    hide Log;
    InvValid(p);
    SendValid(p.s);
    SendKeepsLog(p.s);
    NewOnWire(p);
    SenderMoves(p, p.s.SendNext());
    WireGrows(p.(s := p.s.SendNext()), Data(p.s.sent + 1, p.s.msgs[p.s.sent + 1]));
  }

  lemma WireGrows(p: Pair, d: Data)
    requires Inv(p) && 0 <= d.i <= p.s.sent && d.i < |p.s.msgs| && d.m == p.s.msgs[d.i]
    ensures Inv(p.(wire := p.wire + [d]))
  {
    hide Sender.Valid;
    hide WellFormed;
    hide Log;
    hide Agrees;
    hide Receiver.Quiescent;
    hide AreUnits;
    hide AcksInOrder;
  }

  /** The message that has been sent may be on the network. */
  lemma NewOnWire(p: Pair)
    requires Inv(p)
    ensures p.s.Valid() && WellFormed(Log(p.s), p.s.cfg.history) && p.s.sent + 1 < |p.s.msgs|
    ensures p.s.HasNext() ==>
      var t := p.s.SendNext(); t.sent == p.s.sent + 1 < |t.msgs| && t.msgs[t.sent] == p.s.msgs[t.sent]
  {
  }

  lemma RefusedInv(p: Pair)
    requires Inv(p) && p.s.HasNext()
    ensures Inv(p.(s := Refuse(p.s)))
  {
    RefuseRestores(p.s);
    RefuseKeepsLog(p.s);
    hide Refuse;
    hide WellFormed;
    SenderMoves(p, Refuse(p.s));
  }

  /** A step of the receiver. */
  lemma ReceiverMoves(p: Pair, d: Delivery, bits: seq<bool>)
    requires Inv(p) && Advanced(p.r, d, SentLog(p.s)) && |bits| == 16
    ensures Inv(Acknowledge(p.(r := d.r, units := p.units + d.units), bits))
    ensures p.r.FirstUnacked() <= d.r.FirstUnacked() <= p.s.sent + 1
  {
    hide Sender.Valid;
    hide WellFormed;
    hide Log;
    hide Receiver.Quiescent;
    hide Receiver.Valid;
    hide Receiver.FirstUnacked;
    hide IsUnit;
    hide Readable;
    hide FragmentsFollow;
    hide Flatten;
    var log := SentLog(p.s);
    LogReadable(p.s);
    FirstMoves(p, d);
    UnitsFollow(p.units, d.units, log, p.r.handled, d.r.handled);
    AcksFollow(p.acks, Ack(d.r.FirstUnacked(), bits), p.s.acked + 1, p.r.FirstUnacked());
  }

  lemma FirstMoves(p: Pair, d: Delivery)
    requires Inv(p) && Advanced(p.r, d, SentLog(p.s))
    ensures -1 <= p.r.handled && p.r.FirstUnacked() <= d.r.FirstUnacked() <= p.s.sent + 1
  {
    hide Receiver.FirstUnacked;
    hide Flatten;
    hide Log;
    SentFollow(p.s);
    FirstGrows(p.r, d, SentLog(p.s));
    NeverFull(d.r, SentLog(p.s));
  }

  lemma UnitsFollow(units: seq<seq<message>>, more: seq<seq<message>>, log: seq<message>, a: int, b: int)
    requires AreUnits(units) && AreUnits(more) && -1 <= a <= b < |log|
    requires Flatten(units) == log[..a + 1] && Flatten(more) == log[a + 1..b + 1]
    ensures AreUnits(units + more) && Flatten(units + more) == log[..b + 1]
  {
    hide IsUnit;
    hide Flatten;
    FlattenAppend(units, more);
    assert log[..b + 1] == log[..a + 1] + log[a + 1..b + 1];
  }

  lemma AcksFollow(acks: seq<Ack>, a: Ack, low: int, high: int)
    requires AcksInOrder(acks, low, high) && high <= a.first && |a.bits| == 16
    ensures AcksInOrder(acks + [a], low, a.first)
  {
  }

  lemma DataInv(p: Pair, k: nat, bits: seq<bool>)
    requires Inv(p) && Enabled(p, DataArrives(k, bits))
    ensures Inv(Next(p, DataArrives(k, bits)))
    ensures p.r.FirstUnacked() <= Arrival(p, k).r.FirstUnacked()
  {
    var i, log := p.wire[k].i, SentLog(p.s);
    assert p.wire[k] in p.wire;
    ReadStreamIsLog(p.r, i, log);
    hide Receiver.ReadStream;
    hide Advanced;
    ReceiverMoves(p, Arrival(p, k), bits);
  }

  lemma HeartbeatInv(p: Pair, last: SeqNum, bits: seq<bool>)
    requires Inv(p) && Enabled(p, HeartbeatArrives(last, bits))
    ensures Inv(Next(p, HeartbeatArrives(last, bits)))
  {
    hide Receiver.NextUnit;
    hide Receiver.Quiescent;
    hide Receiver.FirstUnacked;
    hide Flatten;
    hide Log;
    hide WellFormed;
    var t, log := p.r.Announce(last), SentLog(p.s);
    NothingArrives(p.r, last, log);
    hide Inv;
    hide Advanced;
    hide Sender.Valid;
    ReceiverMoves(p, Delivery(t, []), bits);
    assert p.units + [] == p.units;
  }

  lemma NothingArrives(r: Receiver, last: SeqNum, log: seq<message>)
    requires Agrees(r, log) && r.Quiescent()
    ensures Advanced(r, Delivery(r.Announce(last), []), log)
  {
    AnnounceKeeps(r, last);
    assert log[r.handled + 1..r.handled + 1] == [];
  }

  /** What the receiver misses first has been sent, or is the next message. */
  lemma FirstIsSent(p: Pair)
    requires Inv(p)
    ensures p.r.FirstUnacked() <= p.s.sent + 1
  {
    SentFollow(p.s);
    NeverFull(p.r, SentLog(p.s));
  }

  lemma FirstAck(p: Pair)
    requires Inv(p) && p.acks != []
    ensures |p.acks[0].bits| == 16 && p.s.acked < p.acks[0].first <= p.r.FirstUnacked()
    ensures p.s.Valid() && p.r.Valid() && p.s.sent - p.s.acked <= 0x4000
  {
    assert p.acks[0] in p.acks;
  }

  /** An ACKNACK that arrives in order is never out of date and never ahead of what was sent. */
  lemma AckCurrent(p: Pair)
    requires Inv(p) && p.acks != []
    ensures CanStep(p, AckArrives) && p.s.acked < p.acks[0].first <= p.s.sent + 1
    ensures Ahead(Wire(p.s.acked + 1), Wire(p.acks[0].first)) == p.acks[0].first - (p.s.acked + 1)
  {
    hide Inv;
    hide Sender.Valid;
    hide Receiver.Valid;
    hide Receiver.FirstUnacked;
    hide Arrival;
    FirstAck(p);
    FirstIsSent(p);
    AheadOfIndices(p.s.acked + 1, p.acks[0].first);
  }

  /** Of two ACKNACKs under way, the second may be read first, if the network does not keep their order; then
      the first is not current any more. */
  lemma OvertakenAck(p: Pair)
    requires Inv(p) && |p.acks| >= 2 && p.acks[0].first < p.acks[1].first
    ensures |p.acks[0].bits| == |p.acks[1].bits| == 16 && p.s.Valid() && p.s.IsCurrentAckNack(Wire(p.acks[1].first))
    ensures var t := p.s.ProcessAckNack(BitmapValue(p.acks[1].bits), Wire(p.acks[1].first));
      t.Valid() && !t.IsCurrentAckNack(Wire(p.acks[0].first))
  {
    hide Sender.Valid;
    hide Receiver.FirstUnacked;
    hide Sender.IsCurrentAckNack;
    hide Sender.ProcessAckNack;
    hide Wire;
    hide Inv;
    FirstIsSent(p);
    FirstTwoAcks(p);
    LaterFirst(p.s, p.acks[0].first, p.acks[1].first, BitmapValue(p.acks[1].bits));
  }

  lemma LaterFirst(s: Sender, a: int, b: int, bitmap: SeqNum)
    requires s.Valid() && s.acked < a < b <= s.sent + 1 && s.sent - s.acked <= 0x4000
    ensures s.IsCurrentAckNack(Wire(b))
    ensures var t := s.ProcessAckNack(bitmap, Wire(b)); t.Valid() && !t.IsCurrentAckNack(Wire(a))
  {
    hide Sender.Valid;
    hide Wire;
    hide Ahead;
    AheadOfIndices(s.acked + 1, b);
    AckNackValid(s, bitmap, Wire(b));
    StaleAckNack(s.ProcessAckNack(bitmap, Wire(b)), b - a);
  }

  lemma FirstTwoAcks(p: Pair)
    requires Inv(p) && |p.acks| >= 2
    ensures |p.acks[0].bits| == |p.acks[1].bits| == 16 && p.s.Valid() && p.s.sent - p.s.acked <= 0x4000
    ensures p.s.acked < p.acks[0].first && p.acks[1].first <= p.r.FirstUnacked()
  {
    assert p.acks[0] in p.acks && p.acks[1] in p.acks;
  }

  lemma AcksTail(acks: seq<Ack>, low: int, high: int)
    requires AcksInOrder(acks, low, high) && acks != []
    ensures AcksInOrder(acks[1..], acks[0].first, high)
  {
    forall a <- acks[1..]
      ensures acks[0].first <= a.first <= high && |a.bits| == 16
    {
      var k :| 0 <= k < |acks[1..]| && acks[1..][k] == a;
      assert acks[k + 1] == a && a in acks;
    }
    assert acks[0] in acks;
  }

  /** The sender's state after the first ACKNACK under way has arrived. */
  ghost predicate AckedFirst(p: Pair, q: Pair)
    requires p.acks != []
  {
    && q.s == p.s.(acked := p.acks[0].first - 1, sendLost := false)
    && q.r == p.r && q.units == p.units && q.acks == p.acks[1..]
    && p.wire <= q.wire
    && (forall d <- q.wire :: d in p.wire || (0 <= d.i <= p.s.sent && d.i < |p.s.msgs| && d.m == p.s.msgs[d.i]))
  }

  lemma AckStep(p: Pair)
    requires Inv(p) && p.acks != []
    ensures CanStep(p, AckArrives) && AckedFirst(p, Next(p, AckArrives)) && Next(p, AckArrives).s.Valid()
    ensures Log(Next(p, AckArrives).s) == Log(p.s)
    ensures Next(p, AckArrives).wire == p.wire + if exists i :: 0 <= i < 16 && p.acks[0].bits[i]
                                                 then Resent(Next(p, AckArrives).s) else []
  {
    hide *;
    AckCurrent(p);
    AckArrivesStep(p);
    InvValid(p);
    AckNackStep(p.(acks := p.acks[1..]), p.acks[0]);
    IsAckedFirst(p, Next(p, AckArrives));
  }

  lemma AckArrivesStep(p: Pair)
    requires CanStep(p, AckArrives) && p.acks != []
    ensures p.s.Valid() && |p.acks[0].bits| == 16 && p.s.IsCurrentAckNack(Wire(p.acks[0].first))
    ensures Next(p, AckArrives) == AckNack(p.(acks := p.acks[1..]), p.acks[0])
  {
    hide AckNack;
    hide Sender.Valid;
  }

  lemma IsAckedFirst(p: Pair, q: Pair)
    requires p.acks != [] && q.s == p.s.(acked := p.acks[0].first - 1, sendLost := false)
    requires q.r == p.r && q.units == p.units && q.acks == p.acks[1..] && p.wire <= q.wire
    requires forall d <- q.wire :: d in p.wire || (0 <= d.i <= p.s.sent && d.i < |p.s.msgs| && d.m == p.s.msgs[d.i])
    ensures AckedFirst(p, q)
  {
  }

  lemma ResentIsSent(s: Sender)
    requires -1 <= s.acked <= s.sent < |s.msgs|
    ensures forall d <- Resent(s) :: 0 <= d.i <= s.sent && d.m == s.msgs[d.i]
    ensures Resent(s) == Resent(s.(sendLost := false))
  {
    assert forall k | 0 <= k < |Resent(s)| :: Resent(s)[k] == Data(s.acked + 1 + k, s.msgs[s.acked + 1 + k]);
  }

  lemma SameButLost(t: Sender)
    requires t.Valid()
    ensures t.(sendLost := false).Valid() && Log(t.(sendLost := false)) == Log(t)
  {
  }

  lemma AckNackStep(p: Pair, a: Ack)
    requires p.s.Valid() && |a.bits| == 16 && p.s.acked < a.first <= p.s.sent + 1
    requires Ahead(Wire(p.s.acked + 1), Wire(a.first)) == a.first - (p.s.acked + 1)
    ensures var q := AckNack(p, a);
      && q.s == p.s.(acked := a.first - 1, sendLost := false) && q.s.Valid() && Log(q.s) == Log(p.s)
      && q.r == p.r && q.units == p.units && q.acks == p.acks
      && q.wire == p.wire + if exists i :: 0 <= i < 16 && a.bits[i] then Resent(q.s) else []
    ensures forall d <- AckNack(p, a).wire ::
              d in p.wire || (0 <= d.i <= p.s.sent && d.i < |p.s.msgs| && d.m == p.s.msgs[d.i])
  {
    hide Resent;
    hide Log;
    hide Ahead;
    hide Readable;
    AckNackValid(p.s, BitmapValue(a.bits), Wire(a.first));
    AckNackKeepsLog(p.s, BitmapValue(a.bits), Wire(a.first));
    var t := p.s.ProcessAckNack(BitmapValue(a.bits), Wire(a.first));
    SameButLost(t);
    ResentIsSent(t);
  }

  lemma AckInv(p: Pair)
    requires Inv(p) && p.acks != []
    ensures CanStep(p, AckArrives) && Inv(Next(p, AckArrives)) && KeepsSent(p.s, Next(p, AckArrives).s)
  {
    hide CanStep;
    hide AckNack;
    hide Sender.Valid;
    hide WellFormed;
    hide Log;
    hide AcksInOrder;
    hide Agrees;
    hide AreUnits;
    hide Next;
    hide Receiver.Quiescent;
    hide Receiver.FirstUnacked;
    InvValid(p);
    AckStep(p);
    AckCurrent(p);
    AcksTail(p.acks, p.s.acked + 1, p.r.FirstUnacked());
    var q := Next(p, AckArrives);
    assert SentLog(q.s) == SentLog(p.s);
  }

  lemma LostInv(p: Pair, k: nat)
    requires Inv(p) && k < |p.acks|
    ensures Inv(Next(p, AckLost(k)))
  {
    hide Sender.Valid;
    hide WellFormed;
    hide Log;
    hide Agrees;
    hide Receiver.Quiescent;
    hide Receiver.FirstUnacked;
    hide AreUnits;
    hide AcksInOrder;
    InvValid(p);
    AcksWithout(p.acks, k, p.s.acked + 1, p.r.FirstUnacked());
  }

  lemma AcksWithout(acks: seq<Ack>, k: nat, low: int, high: int)
    requires AcksInOrder(acks, low, high) && k < |acks|
    ensures AcksInOrder(acks[..k] + acks[k + 1..], low, high)
  {
    forall a <- acks[..k] + acks[k + 1..]
      ensures a in acks
    {
    }
  }

  lemma StepInv(p: Pair, e: Step)
    requires Inv(p) && Enabled(p, e)
    ensures CanStep(p, e) && Inv(Next(p, e)) && KeepsSent(p.s, Next(p, e).s)
  {
    match e
    case Written(data, pad) => WrittenInv(p, data, pad); WriteValid(p.s, data, pad);
    case Sent => SentInv(p); SendValid(p.s);
    case Refused => RefusedInv(p); RefuseRestores(p.s);
    case DataArrives(k, bits) => DataInv(p, k, bits);
    case HeartbeatArrives(last, bits) => HeartbeatInv(p, last, bits);
    case AckArrives => AckInv(p);
    case AckLost(k) => LostInv(p, k);
  }

  ghost predicate Runs(p: Pair, steps: seq<Step>)
    decreases |steps|
  {
    steps != [] ==> CanStep(p, steps[0]) && Runs(Next(p, steps[0]), steps[1..])
  }

  ghost function Final(p: Pair, steps: seq<Step>): Pair
    requires Runs(p, steps)
    decreases |steps|
  {
    if steps == [] then p else Final(Next(p, steps[0]), steps[1..])
  }

  /** A run of steps, and where it ends. */
  lemma RunStep(p: Pair, steps: seq<Step>)
    requires Runs(p, steps)
    ensures steps == [] ==> Final(p, steps) == p
    ensures steps != [] ==> CanStep(p, steps[0]) && Runs(Next(p, steps[0]), steps[1..])
                            && Final(p, steps) == Final(Next(p, steps[0]), steps[1..])
                            && p.s.Valid() && p.r.Valid() && Enabled(p, steps[0])
  {
  }

  lemma {:induction false} RunInv(p: Pair, steps: seq<Step>)
    requires Inv(p) && Runs(p, steps)
    ensures Inv(Final(p, steps)) && KeepsSent(p.s, Final(p, steps).s) && p.units <= Final(p, steps).units
    decreases |steps|
  {
    if steps != [] {
      hide Inv;
      hide KeepsSent;
      InvValid(p);
      StepInv(p, steps[0]);
      var q := Next(p, steps[0]);
      InvValid(q);
      UnitsGrow(p, steps[0]);
      RunInv(q, steps[1..]);
      InvValid(Final(q, steps[1..]));
      KeepsSentTransitive(p.s, q.s, Final(q, steps[1..]).s);
    } else {
      InvValid(p);
    }
  }

  lemma InvValid(p: Pair)
    requires Inv(p)
    ensures p.s.Valid() && p.r.Valid() && KeepsSent(p.s, p.s)
  {
  }

  lemma UnitsGrow(p: Pair, e: Step)
    requires CanStep(p, e)
    ensures p.units <= Next(p, e).units
  {
  }

  /** In every run, whatever the network loses, repeats or reorders: what has been handed over is a
      prefix of what was sent, each message once and in order, in whole units. */
  lemma Safety(cfg: Config, steps: seq<Step>)
    requires cfg.Valid() && Runs(Init(cfg), steps)
    ensures var q := Final(Init(cfg), steps);
      && q.s.Valid() && -1 <= q.r.handled <= q.s.sent
      && Flatten(q.units) == q.s.msgs[..q.r.handled + 1] && AreUnits(q.units)
      && forall i <- q.r.stored :: q.r.handled < i <= q.s.sent && q.r.stored[i] == q.s.msgs[i]
  {
    hide *;
    InitInv(cfg);
    RunInv(Init(cfg), steps);
    IsSafe(Final(Init(cfg), steps));
  }

  lemma IsSafe(q: Pair)
    requires Inv(q)
    ensures q.s.Valid() && -1 <= q.r.handled <= q.s.sent < |q.s.msgs|
    ensures Flatten(q.units) == q.s.msgs[..q.r.handled + 1] && AreUnits(q.units)
    ensures forall i <- q.r.stored :: q.r.handled < i <= q.s.sent && q.r.stored[i] == q.s.msgs[i]
  {
    hide WellFormed;
    hide IsUnit;
    hide Flatten;
    hide Receiver.Quiescent;
    SentIsWritten(q.s);
    assert SentLog(q.s)[..q.r.handled + 1] == q.s.msgs[..q.r.handled + 1];
  }

  /** What has been sent and what has been handed over never changes later in a run. */
  lemma NeverUndone(cfg: Config, steps: seq<Step>, more: seq<Step>)
    requires cfg.Valid() && Runs(Init(cfg), steps) && Runs(Final(Init(cfg), steps), more)
    ensures var p, q := Final(Init(cfg), steps), Final(Final(Init(cfg), steps), more);
      p.s.Valid() && q.s.Valid() && SentLog(p.s) <= SentLog(q.s) && p.units <= q.units
  {
    InitInv(cfg);
    RunInv(Init(cfg), steps);
    var p := Final(Init(cfg), steps);
    RunInv(p, more);
    KeepsSentLog(p.s, Final(p, more).s);
  }

  /** In every reachable state the sender's preconditions on ACKNACKs hold, no step is impossible,
      and the receiver's search for a last fragment ends. */
  lemma NeverStuck(cfg: Config, steps: seq<Step>, e: Step)
    requires cfg.Valid() && Runs(Init(cfg), steps)
    ensures var q := Final(Init(cfg), steps);
      q.s.Valid() && q.r.Valid() && Searchable(q.r) && (Enabled(q, e) ==> CanStep(q, e))
  {
    InitInv(cfg);
    RunInv(Init(cfg), steps);
    var q := Final(Init(cfg), steps);
    SentFollow(q.s);
    AlwaysSearchable(q.r, SentLog(q.s));
    if Enabled(q, e) {
      StepInv(q, e);
    }
  }

  /** Also all the searches that a message makes when it arrives end. */
  lemma ArrivalSearchable(p: Pair, k: nat)
    requires Inv(p) && k < |p.wire| && InAge(p.r, p.wire[k].i)
    ensures var r := p.r.Receive(Wire(p.wire[k].i), p.wire[k].m).r; SearchesEnd(r) && StoresReadable(r)
  {
    assert p.wire[k] in p.wire;
    ReceiveAgrees(p.r, p.wire[k].i, SentLog(p.s));
    SentFollow(p.s);
    SearchesAlwaysEnd(p.r.Receive(Wire(p.wire[k].i), p.wire[k].m).r, SentLog(p.s));
  }
}
