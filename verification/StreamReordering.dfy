/** Progress when the network reorders what is sent again.

    An ACKNACK lets the sender go on as soon as the first fragments of a run are stored, although the
    receiver's window stays where it is until the whole run is there.  So the sender's window can run
    past the receiver's, and a message beyond it is dropped when it overtakes the missing fragments. */
module StreamReordering {
  import opened SeqNum
  import opened Messages
  import opened OutputWindow
  import opened InputWindow
  import opened InputInvariants
  import opened StreamPair
  import opened StreamProgress

  ghost predicate Arrives(steps: seq<Step>, k: nat) {
    exists j :: 0 <= j < |steps| && steps[j].DataArrives? && steps[j].k == k
  }

  ghost predicate OnlyData(steps: seq<Step>) {
    forall e <- steps :: e.DataArrives?
  }

  /** All of what has been sent again arrives, in any order, however often, and perhaps between other
      messages of the network. */
  ghost predicate RedeliveredInAnyOrder(q: Pair, resent: seq<Step>, f: Pair) {
    && Runs(q, resent) && f == Final(q, resent) && OnlyData(resent)
    && 0 <= q.s.sent - q.s.acked <= |q.wire|
    && forall k: nat | |q.wire| - (q.s.sent - q.s.acked) <= k < |q.wire| :: Arrives(resent, k)
  }

  ghost predicate Has(r: Receiver, i: int) {
    i <= r.handled || i in r.stored
  }

  /** What messages may do to the receiver. */
  ghost predicate HasMore(p: Pair, q: Pair) {
    && q.s == p.s && q.wire == p.wire && q.r.history == p.r.history && p.r.handled <= q.r.handled
    && forall i | Has(p.r, i) :: Has(q.r, i)
  }

  lemma DataHas(p: Pair, k: nat, bits: seq<bool>)
    requires Inv(p) && Enabled(p, DataArrives(k, bits))
    ensures var q := Next(p, DataArrives(k, bits));
      && Inv(q) && HasMore(p, q) && q.acks == p.acks + [Ack(q.r.FirstUnacked(), bits)]
      && (p.wire[k].i <= p.r.handled + p.r.history ==> Has(q.r, p.wire[k].i))
  {
    hide Inv;
    hide Sender.Valid;
    hide Receiver.Valid;
    hide Receiver.ReadStream;
    hide Receiver.FirstUnacked;
    DataInv(p, k, bits);
    ArrivalHas(p, k);
  }

  lemma ArrivalHas(p: Pair, k: nat)
    requires Inv(p) && k < |p.wire| && InAge(p.r, p.wire[k].i)
    ensures var r := Arrival(p, k).r;
      && r.history == p.r.history && p.r.handled <= r.handled && (forall i | Has(p.r, i) :: Has(r, i))
      && (p.wire[k].i <= p.r.handled + p.r.history ==> Has(r, p.wire[k].i))
  {
    hide Sender.Valid;
    hide Receiver.ReadStream;
    hide Receiver.Quiescent;
    InvValid(p);
    assert p.wire[k] in p.wire;
    ReadStreamIsLog(p.r, p.wire[k].i, SentLog(p.s));
  }

  /** The state after some messages have arrived in some order. */
  ghost predicate HasArrivals(p: Pair, steps: seq<Step>, f: Pair) {
    && Inv(f) && HasMore(p, f)
    && (if steps == [] then f == p else f.acks != [] && f.acks[|f.acks| - 1].first == f.r.FirstUnacked())
    && forall k: nat | k < |p.wire| && Arrives(steps, k) && p.wire[k].i <= p.r.handled + p.r.history ::
         Has(f.r, p.wire[k].i)
  }

  lemma {:induction false} AllArrive(p: Pair, steps: seq<Step>)
    requires Inv(p) && Runs(p, steps) && OnlyData(steps)
    ensures HasArrivals(p, steps, Final(p, steps))
    decreases |steps|
  {
    hide *;
    RunStep(p, steps);
    if steps == [] {
      NoArrivals(p);
    } else {
      FirstIsData(steps);
      DataHas(p, steps[0].k, steps[0].bits);
      AllArrive(Next(p, steps[0]), steps[1..]);
      ArrivalsFollow(p, steps, Next(p, steps[0]), Final(p, steps));
    }
  }

  lemma FirstIsData(steps: seq<Step>)
    requires OnlyData(steps) && steps != []
    ensures steps[0] == DataArrives(steps[0].k, steps[0].bits) && OnlyData(steps[1..])
  {
    assert steps[0] in steps;
    forall e <- steps[1..]
      ensures e.DataArrives?
    {
      assert e in steps;
    }
  }

  lemma NoArrivals(p: Pair)
    requires Inv(p)
    ensures HasArrivals(p, [], p)
  {
  }

  lemma ArrivalsFollow(p: Pair, steps: seq<Step>, q: Pair, f: Pair)
    requires steps != [] && steps[0].DataArrives? && steps[0].k < |p.wire| && HasMore(p, q)
    requires q.acks == p.acks + [Ack(q.r.FirstUnacked(), steps[0].bits)]
    requires p.wire[steps[0].k].i <= p.r.handled + p.r.history ==> Has(q.r, p.wire[steps[0].k].i)
    requires HasArrivals(q, steps[1..], f)
    ensures HasArrivals(p, steps, f)
  {
    hide Inv;
    hide Receiver.FirstUnacked;
    forall k: nat | k < |p.wire| && Arrives(steps, k) && p.wire[k].i <= p.r.handled + p.r.history
      ensures Has(f.r, p.wire[k].i)
    {
      var j :| 0 <= j < |steps| && steps[j].DataArrives? && steps[j].k == k;
      if j > 0 {
        assert steps[1..][j - 1] == steps[j];
        assert Arrives(steps[1..], k);
      }
    }
  }

  /** What the round starts from, as the receiver sees it. */
  lemma AnnouncedKeeps(p: Pair, bits: seq<bool>, q: Pair)
    requires Announced(p, bits, q)
    ensures q.r.handled == p.r.handled && q.r.history == p.r.history
  {
    hide Inv;
    hide Drain;
    hide Sender.Valid;
    hide Resent;
    hide Receiver.FirstUnacked;
    InvValid(p);
    var h := Next(p, HeartbeatArrives(Wire(p.s.sent), bits));
    Drained(h);
  }

  /** What the receiver has of the window once everything sent again has arrived. */
  lemma WindowArrived(q: Pair, resent: seq<Step>, f: Pair, i: int)
    requires Inv(q) && SentAgain(q) && q.s.acked + 1 == q.r.FirstUnacked()
    requires RedeliveredInAnyOrder(q, resent, f) && HasArrivals(q, resent, f)
    requires i <= q.s.sent && i <= q.r.handled + q.r.history
    ensures Has(f.r, i)
  {
    hide Inv;
    hide Runs;
    hide Final;
    if i <= q.s.acked {
      assert Has(q.r, i) by { BeforeFirst(q, i); }
    } else {
      var k := |q.wire| - (q.s.sent - q.s.acked) + (i - q.s.acked - 1);
      assert q.wire[k].i == i;
      assert Arrives(resent, k);
    }
  }

  lemma BeforeFirst(q: Pair, i: int)
    requires Inv(q) && i < q.r.FirstUnacked()
    ensures Has(q.r, i)
  {
    SentFollow(q.s);
    NeverFull(q.r, SentLog(q.s));
  }

  /** A round in any order completes when all that was sent is inside the receiver's window, and
      hands something over when it is not. */
  lemma AnyOrderAdvances(p: Pair, bits: seq<bool>, q: Pair, resent: seq<Step>, f: Pair)
    requires Announced(p, bits, q) && RedeliveredInAnyOrder(q, resent, f)
    ensures Inv(f) && Drain(f).s.msgs == p.s.msgs && Drain(f).s.sent == p.s.sent
    ensures p.s.sent <= p.r.handled + p.r.history ==> IsComplete(Drain(f))
    ensures p.s.sent > p.r.handled + p.r.history ==> p.r.handled < f.r.handled
  {
    hide Inv;
    hide Drain;
    hide Runs;
    hide Final;
    hide Announced;
    hide IsComplete;
    hide SentAgain;
    AnnouncedAsks(p, bits, q);
    AnnouncedKeeps(p, bits, q);
    AllArrive(q, resent);
    Drained(f);
    FirstIsMissing(f);
    if p.s.sent <= p.r.handled + p.r.history {
      if f.r.FirstUnacked() <= p.s.sent {
        WindowArrived(q, resent, f, f.r.FirstUnacked());
        assert false;
      }
      Complete(Drain(f));
    } else if f.r.handled == p.r.handled {
      WindowArrived(q, resent, f, f.r.FirstUnacked());
    }
  }

  /** A message beyond the receiver's window is dropped. */
  lemma BeyondDropped(p: Pair, k: nat, bits: seq<bool>)
    requires Inv(p) && Enabled(p, DataArrives(k, bits)) && p.wire[k].i > p.r.handled + p.r.history
    ensures !Has(Next(p, DataArrives(k, bits)).r, p.wire[k].i)
  {
    WindowDecodes(p.r.handled, p.wire[k].i, p.r.history);
    assert p.wire[k].i !in p.r.stored;
  }

  /** A message that does not arrive stays missing. */
  lemma StaysMissing(p: Pair, k: nat, bits: seq<bool>, x: int)
    requires Inv(p) && Enabled(p, DataArrives(k, bits)) && p.wire[k].i != x && !Has(p.r, x)
    ensures !Has(Next(p, DataArrives(k, bits)).r, x)
  {
    var i, log := p.wire[k].i, SentLog(p.s);
    assert p.wire[k] in p.wire;
    ReceiveAgrees(p.r, i, log);
    var a := p.r.Receive(Wire(i), log[i]);
    if a.ready {
      NotDelivered(a.r, x);
    }
  }

  lemma {:induction false} NotDelivered(r: Receiver, x: int)
    requires !Has(r, x)
    ensures !Has(r.DeliverAll().r, x)
    decreases |r.stored|
  {
    var unit := r.NextUnit();
    if unit != [] {
      DeliverRemoves(r);
      var k := x - r.handled - 1;
      assert 0 <= k < |unit| ==> r.handled + 1 + k in r.stored;
      NotDelivered(r.Deliver(), x);
    }
  }

  lemma {:induction false} StaysMissingInOrder(p: Pair, steps: seq<Step>, base: nat, low: int, x: int)
    requires Inv(p) && Runs(p, steps) && InOrder(steps, base) && Carries(p.wire, base, low, |steps|)
    requires low + |steps| <= x && !Has(p.r, x)
    ensures Inv(Final(p, steps)) && Final(p, steps).s == p.s && !Has(Final(p, steps).r, x)
    decreases |steps|
  {
    hide *;
    RunStep(p, steps);
    if steps != [] {
      NextInOrder(steps, base, p.wire, low);
      DataHas(p, base, steps[0].bits);
      StaysMissing(p, base, steps[0].bits, x);
      SameWire(p, Next(p, steps[0]));
      StaysMissingInOrder(Next(p, steps[0]), steps[1..], base + 1, low + 1, x);
    }
  }

  lemma SameWire(p: Pair, q: Pair)
    requires HasMore(p, q)
    ensures q.s == p.s && q.wire == p.wire
  {
  }

  lemma OvertakenArrives(q: Pair, e: Step, rest: seq<Step>)
    requires SentAgain(q) && q.s.sent > q.s.acked && CanStep(q, e) && e.DataArrives? && e.k == |q.wire| - 1
    requires Runs(Next(q, e), rest) && InOrder(rest, |q.wire| - (q.s.sent - q.s.acked))
    requires |rest| == q.s.sent - q.s.acked - 1
    ensures RedeliveredInAnyOrder(q, [e] + rest, Final(Next(q, e), rest))
  {
    hide Carries;
    hide CanStep;
    hide Next;
    var steps, base := [e] + rest, |q.wire| - (q.s.sent - q.s.acked);
    assert steps[1..] == rest;
    forall k: nat | base <= k < |q.wire|
      ensures Arrives(steps, k)
    {
      var j := if k == |q.wire| - 1 then 0 else k - base + 1;
      assert j > 0 ==> steps[j] == rest[j - 1];
      assert steps[j].DataArrives? && steps[j].k == k;
    }
  }

  /** The last message sent, when it is beyond the receiver's window and overtakes the others, is lost
      although nothing is lost on the network: everything sent again arrives once, and still the
      round leaves it missing. */
  lemma OvertakingLoses(p: Pair, bits: seq<bool>, q: Pair) returns (resent: seq<Step>, f: Pair)
    requires Announced(p, bits, q) && p.s.sent > p.r.handled + p.r.history
    ensures RedeliveredInAnyOrder(q, resent, f) && |resent| == q.s.sent - q.s.acked
    ensures Inv(f) && f.s.sent == p.s.sent && !Has(f.r, p.s.sent) && !IsComplete(Drain(f))
  {
    hide Inv;
    hide Drain;
    hide Announced;
    hide IsComplete;
    hide Runs;
    hide Final;
    hide Enabled;
    hide CanStep;
    hide Next;
    hide Receiver.FirstUnacked;
    AnnouncedAsks(p, bits, q);
    AnnouncedKeeps(p, bits, q);
    FirstIsMissing(q);
    var n, x := q.s.sent - q.s.acked, q.s.sent;
    var k := |q.wire| - 1;
    assert q.wire[k].i == x;
    var b := CanArrive(q, k);
    var e := DataArrives(k, b);
    StepInv(q, e);
    BeyondDropped(q, k, b);
    DataHas(q, k, b);
    var q1 := Next(q, e);
    DataGrows(q, k, b);
    var rest := CanRedeliver(q1, |q.wire| - n, q.s.acked + 1, n - 1);
    StaysMissingInOrder(q1, rest, |q.wire| - n, q.s.acked + 1, x);
    OvertakenArrives(q, e, rest);
    resent, f := [e] + rest, Final(q1, rest);
    Drained(f);
    NotComplete(Drain(f));
  }

  lemma DataGrows(p: Pair, k: nat, bits: seq<bool>)
    requires Inv(p) && Enabled(p, DataArrives(k, bits))
    ensures p.r.FirstUnacked() <= Next(p, DataArrives(k, bits)).r.FirstUnacked()
  {
    DataInv(p, k, bits);
  }

  lemma NotComplete(z: Pair)
    requires Inv(z) && !Has(z.r, z.s.sent) && 0 <= z.s.sent
    ensures !IsComplete(z)
  {
  }

  /** Every order of what is sent again completes the round exactly when all that was sent is inside
      the receiver's window. */
  lemma EveryOrderCompletes(p: Pair, bits: seq<bool>, q: Pair)
    requires Announced(p, bits, q)
    ensures (forall resent, f | RedeliveredInAnyOrder(q, resent, f) :: Inv(f) && IsComplete(Drain(f)))
            <==> p.s.sent <= p.r.handled + p.r.history
  {
    hide *;
    if p.s.sent <= p.r.handled + p.r.history {
      forall resent, f | RedeliveredInAnyOrder(q, resent, f)
        ensures Inv(f) && IsComplete(Drain(f))
      {
        AnyOrderAdvances(p, bits, q, resent, f);
      }
    } else {
      var resent, f := OvertakingLoses(p, bits, q);
    }
  }

  /** That fails only while an unfinished run of fragments is stored at the front. */
  lemma OverrunNeedsRun(p: Pair)
    requires Inv(p) && p.s.sent > p.r.handled + p.r.history
    ensures p.r.Stores(p.r.handled + 1, IntermediateFragment) && p.r.CheckLastFragment() == None
  {
  }

  /** One round: a HEARTBEAT, the ACKNACKs, what is then sent again, and the ACKNACKs. */
  datatype Round = Round(bits: seq<bool>, q: Pair, resent: seq<Step>, f: Pair)

  ghost predicate IsRound(p: Pair, round: Round) {
    Announced(p, round.bits, round.q) && RedeliveredInAnyOrder(round.q, round.resent, round.f) && Inv(round.f)
  }

  ghost predicate AreRounds(p: Pair, rounds: seq<Round>)
    decreases |rounds|
  {
    rounds != [] ==> IsRound(p, rounds[0]) && AreRounds(Drain(rounds[0].f), rounds[1..])
  }

  ghost function After(p: Pair, rounds: seq<Round>): Pair
    requires AreRounds(p, rounds)
    decreases |rounds|
  {
    if rounds == [] then p else After(Drain(rounds[0].f), rounds[1..])
  }

  /** How far the sender has run past the receiver's window. */
  function Overrun(p: Pair): int {
    p.s.sent - (p.r.handled + p.r.history)
  }

  lemma RoundReduces(p: Pair, round: Round)
    requires IsRound(p, round)
    ensures Inv(round.f)
    ensures var z := Drain(round.f);
      && Inv(z) && z.s.sent == p.s.sent && z.r.history == p.r.history
      && (if Overrun(p) <= 0 then Overrun(z) <= Overrun(p) && IsComplete(z) else Overrun(z) < Overrun(p))
  {
    hide Inv;
    hide Drain;
    hide Announced;
    hide IsComplete;
    hide Runs;
    hide Final;
    AnyOrderAdvances(p, round.bits, round.q, round.resent, round.f);
    AnnouncedKeeps(p, round.bits, round.q);
    AnnouncedAsks(p, round.bits, round.q);
    AllArrive(round.q, round.resent);
    Drained(round.f);
  }

  lemma {:induction false} RoundsReduce(p: Pair, rounds: seq<Round>)
    requires AreRounds(p, rounds) && rounds != [] && |rounds| > Overrun(p)
    ensures IsComplete(After(p, rounds)) && After(p, rounds).s.sent == p.s.sent
    decreases |rounds|
  {
    hide Inv;
    hide Drain;
    hide IsRound;
    hide IsComplete;
    RoundReduces(p, rounds[0]);
    var z := Drain(rounds[0].f);
    assert After(p, rounds) == After(z, rounds[1..]);
    if |rounds| > 1 {
      RoundsReduce(z, rounds[1..]);
    } else {
      assert After(z, rounds[1..]) == z;
    }
  }

  /** However the network reorders what is sent again, as many rounds as the history is long deliver
      everything. */
  lemma EventuallyComplete(p: Pair, rounds: seq<Round>)
    requires Inv(p) && AreRounds(p, rounds) && |rounds| >= p.r.history
    ensures IsComplete(After(p, rounds)) && After(p, rounds).s.sent == p.s.sent
  {
    assert Overrun(p) < p.r.history && 0 < p.r.history by { FirstIsMissing(p); }
    hide Inv;
    RoundsReduce(p, rounds);
  }
}

/** A run from the start after which reordering makes a round fail, in the smallest stream that allows it:
    two slots, each with room for nine octets of messages. */
module Overtaking {
  import opened SeqNum
  import opened Messages
  import opened OutputWindow
  import opened InputWindow
  import opened StreamPair
  import opened StreamProgress
  import opened StreamReordering

  const NARROW := Config(2, 4, 13)
  const ZEROS: seq<byte> := [0, 0, 0, 0, 0]
  const FIRST: message := FragmentHeader(5, false) + ZEROS
  const SECOND: message := FragmentHeader(5, true) + ZEROS
  const NO_BITS: seq<bool> := seq(16, i => false)

  lemma CutInTwo()
    ensures NARROW.Valid() && Fragments(ZEROS + ZEROS, 5, 5) == [FIRST, SECOND]
    ensures |FIRST| == |SECOND| == 9 && Kind(FIRST) == IntermediateFragment
  {
    KindOfFragment(5, false, ZEROS);
    assert (ZEROS + ZEROS)[..5] == ZEROS && (ZEROS + ZEROS)[5..] == ZEROS;
    assert Fragments(ZEROS, 5, 5) == [SECOND];
  }

  /** The sender of that run, after it has acknowledged, sent and written so much. */
  function At(acked: int, sent: int, msgs: seq<message>): Sender
    requires msgs != []
  {
    Sender(NARROW, acked, sent, |msgs| - 1, msgs, false)
  }

  lemma FragmentsWritten()
    ensures var s, data := InitSender(NARROW), ZEROS + ZEROS;
      && NARROW.Valid() && s.Valid() && Readable(data) && Kind(data) == NoFragmented && s.IsPadding([])
      && s.Write(data, []) == At(-1, -1, [FIRST, SECOND])
  {
    CutInTwo();
    var s, data, none: seq<message> := InitSender(NARROW), ZEROS + ZEROS, [[]];
    assert s.Used() == 4 && s.PlaceOf(data) == Place(0, 4, 4, [FIRST, SECOND]);
    assert [FIRST, SECOND][1..] == [SECOND] && [] + [] + FIRST == FIRST;
    assert none[0 := FIRST] + [SECOND] == [FIRST, SECOND];
  }

  lemma FragmentsSent()
    ensures var s := At(-1, -1, [FIRST, SECOND]);
      && s.Valid() && s.HasNext() && s.SendNext() == At(-1, 0, [FIRST, SECOND]) && s.SendNext().Valid()
      && s.SendNext().HasNext() && s.SendNext().SendNext() == At(-1, 1, [FIRST, SECOND, []])
  {
    CutInTwo();
    assert [FIRST, SECOND] + [[]] == [FIRST, SECOND, []];
  }

  lemma FirstArrives()
    ensures var r, t := InitReceiver(2), Receiver(2, -1, 0, map[0 := FIRST]);
      && r.Valid() && r.ReadStream(Wire(0), FIRST) == Delivery(t, []) && t.FirstUnacked() == 1 && t.IsBitmap(NO_BITS)
  {
    CutInTwo();
    var t := Receiver(2, -1, 0, map[0 := FIRST]);
    assert t.LastFragmentFrom(1) == None;
    assert t.FirstUnackedFrom(1) == 1;
  }

  lemma FirstAcknowledged()
    ensures var s := At(-1, 1, [FIRST, SECOND, []]);
      && s.Valid() && s.IsCurrentAckNack(Wire(1)) && BitmapValue(NO_BITS) == 0
      && s.ProcessAckNack(0, Wire(1)) == At(0, 1, [FIRST, SECOND, []])
  {
    CutInTwo();
  }

  lemma PlainWritten()
    ensures var s := At(0, 1, [FIRST, SECOND, []]);
      && s.Valid() && Readable(ZEROS) && Kind(ZEROS) == NoFragmented && s.IsPadding([])
      && s.Write(ZEROS, []) == At(0, 1, [FIRST, SECOND, ZEROS])
  {
    hide Sender.Valid;
    hide Sender.Used;
    hide Sender.PlaceOf;
    hide Sender.Accepts;
    hide Sender.IsPadding;
    hide Kind;
    PlainPlaced();
    var s := At(0, 1, [FIRST, SECOND, []]);
    assert [] + [] + ZEROS == ZEROS && [ZEROS][1..] == [];
    assert s.msgs[2 := ZEROS] + [] == [FIRST, SECOND, ZEROS];
  }

  lemma PlainPlaced()
    ensures var s := At(0, 1, [FIRST, SECOND, []]);
      && s.Valid() && Readable(ZEROS) && Kind(ZEROS) == NoFragmented && s.IsPadding([])
      && s.Accepts(|ZEROS|) && s.PlaceOf(ZEROS) == Place(2, 4, 0, [ZEROS])
  {
    CutInTwo();
    var s := At(0, 1, [FIRST, SECOND, []]);
    assert s.Used() == 4;
  }

  lemma PlainSent()
    ensures var s := At(0, 1, [FIRST, SECOND, ZEROS]);
      && s.Valid() && s.HasNext() && s.SendNext() == At(0, 2, [FIRST, SECOND, ZEROS, []])
  {
    CutInTwo();
    assert [FIRST, SECOND, ZEROS] + [[]] == [FIRST, SECOND, ZEROS, []];
  }

  lemma ArrivalStep(p: Pair)
    requires p.s.Valid() && p.wire == [Data(0, FIRST), Data(1, SECOND)] && p.r == InitReceiver(2)
    requires p.acks == [] && p.units == []
    ensures CanStep(p, DataArrives(0, NO_BITS))
    ensures Next(p, DataArrives(0, NO_BITS)) == p.(r := Receiver(2, -1, 0, map[0 := FIRST]), acks := [Ack(1, NO_BITS)])
  {
    FirstArrives();
    hide Receiver.ReadStream;
    hide Receiver.FirstUnacked;
    hide Receiver.IsBitmap;
  }

  lemma AckStepTaken(p: Pair)
    requires p.s == At(-1, 1, [FIRST, SECOND, []]) && p.acks == [Ack(1, NO_BITS)] && p.r.Valid()
    ensures CanStep(p, AckArrives) && Next(p, AckArrives) == p.(s := At(0, 1, [FIRST, SECOND, []]), acks := [])
  {
    FirstAcknowledged();
    hide Sender.Valid;
    hide Sender.IsCurrentAckNack;
    hide Sender.ProcessAckNack;
  }

  lemma SentStep(p: Pair)
    requires p.s.Valid() && p.s.HasNext() && p.r.Valid()
    ensures CanStep(p, Sent)
    ensures Next(p, Sent) == p.(s := p.s.SendNext(), wire := p.wire + [Data(p.s.sent + 1, p.s.msgs[p.s.sent + 1])])
  {
  }

  lemma WrittenStep(p: Pair, data: seq<byte>, pad: seq<byte>)
    requires p.s.Valid() && p.r.Valid() && Readable(data) && Kind(data) == NoFragmented && p.s.IsPadding(pad)
    ensures CanStep(p, Written(data, pad)) && Next(p, Written(data, pad)) == p.(s := p.s.Write(data, pad))
  {
  }

  /** A pair after a step that is possible there. */
  lemma OneMore(p: Pair, e: Step, q: Pair, rest: seq<Step>)
    requires CanStep(p, e) && Next(p, e) == q && Runs(q, rest)
    ensures Runs(p, [e] + rest) && Final(p, [e] + rest) == Final(q, rest)
  {
    assert ([e] + rest)[1..] == rest;
  }

  const FIRST_HELD: Receiver := Receiver(2, -1, 0, map[0 := FIRST])
  const BOTH_SENT: seq<Data> := [Data(0, FIRST), Data(1, SECOND)]
  const OVERRUN: Pair :=
    Pair(At(0, 2, [FIRST, SECOND, ZEROS, []]), FIRST_HELD, BOTH_SENT + [Data(2, ZEROS)], [], [])

  lemma PlainFollows() returns (steps: seq<Step>)
    ensures var p := Pair(At(0, 1, [FIRST, SECOND, []]), FIRST_HELD, BOTH_SENT, [], []);
      Runs(p, steps) && Final(p, steps) == OVERRUN
  {
    CutInTwo();
    hide Runs;
    hide Final;
    hide CanStep;
    hide Next;
    hide Sender.Write;
    hide Sender.SendNext;
    hide Sender.HasNext;
    PlainWritten();
    PlainSent();
    var p := Pair(At(0, 1, [FIRST, SECOND, []]), FIRST_HELD, BOTH_SENT, [], []);
    WrittenStep(p, ZEROS, []);
    var q := p.(s := At(0, 1, [FIRST, SECOND, ZEROS]));
    SentStep(q);
    NoSteps(OVERRUN, 0);
    NoStepsEnd(OVERRUN);
    OneMore(q, Sent, OVERRUN, []);
    OneMore(p, Written(ZEROS, []), q, [Sent] + []);
    steps := [Written(ZEROS, [])] + ([Sent] + []);
  }

  lemma NoStepsEnd(p: Pair)
    ensures Runs(p, []) && Final(p, []) == p
  {
  }

  lemma FirstAcknowledgedSteps() returns (steps: seq<Step>)
    ensures var p := Pair(At(-1, 1, [FIRST, SECOND, []]), InitReceiver(2), BOTH_SENT, [], []);
      Runs(p, steps) && Final(p, steps) == OVERRUN
  {
    FirstAcknowledged();
    hide Runs;
    hide Final;
    hide CanStep;
    hide Next;
    var p := Pair(At(-1, 1, [FIRST, SECOND, []]), InitReceiver(2), BOTH_SENT, [], []);
    var rest := PlainFollows();
    ArrivalStep(p);
    var q := p.(r := FIRST_HELD, acks := [Ack(1, NO_BITS)]);
    FirstArrives();
    AckStepTaken(q);
    var t := q.(s := At(0, 1, [FIRST, SECOND, []]), acks := []);
    OneMore(q, AckArrives, t, rest);
    OneMore(p, DataArrives(0, NO_BITS), q, [AckArrives] + rest);
    steps := [DataArrives(0, NO_BITS)] + ([AckArrives] + rest);
  }

  lemma FragmentsSentSteps() returns (steps: seq<Step>)
    ensures var p := Pair(At(-1, -1, [FIRST, SECOND]), InitReceiver(2), [], [], []);
      Runs(p, steps) && Final(p, steps) == OVERRUN
  {
    FragmentsSent();
    hide *;
    ReceiverReady();
    var rest := FirstAcknowledgedSteps();
    var p := Pair(At(-1, -1, [FIRST, SECOND]), InitReceiver(2), [], [], []);
    SentStep(p);
    var q := p.(s := At(-1, 0, [FIRST, SECOND]), wire := [Data(0, FIRST)]);
    SentStep(q);
    var t := q.(s := At(-1, 1, [FIRST, SECOND, []]), wire := BOTH_SENT);
    FirstTwo();
    OneMore(q, Sent, t, rest);
    OneMore(p, Sent, q, [Sent] + rest);
    steps := [Sent] + ([Sent] + rest);
  }

  lemma ReceiverReady()
    ensures InitReceiver(2).Valid()
  {
  }

  /** What the first two messages on the network are. */
  lemma FirstTwo()
    ensures var s, t := At(-1, -1, [FIRST, SECOND]), At(-1, 0, [FIRST, SECOND]);
      && [] + [Data(s.sent + 1, s.msgs[s.sent + 1])] == [Data(0, FIRST)]
      && [Data(0, FIRST)] + [Data(t.sent + 1, t.msgs[t.sent + 1])] == BOTH_SENT
  {
  }

  /** The last message sent is beyond the receiver's window, which still waits for the second fragment. */
  lemma OverrunReached() returns (steps: seq<Step>)
    ensures NARROW.Valid() && Runs(Init(NARROW), steps) && Final(Init(NARROW), steps) == OVERRUN
    ensures Inv(OVERRUN) && OVERRUN.s.sent > OVERRUN.r.handled + OVERRUN.r.history
  {
    FragmentsWritten();
    hide Runs;
    hide Final;
    hide CanStep;
    hide Next;
    hide Inv;
    hide Sender.Write;
    hide Sender.SendNext;
    hide Sender.HasNext;
    hide Kind;
    var rest := FragmentsSentSteps();
    var p := Init(NARROW);
    WrittenStep(p, ZEROS + ZEROS, []);
    OneMore(p, Written(ZEROS + ZEROS, []), p.(s := At(-1, -1, [FIRST, SECOND])), rest);
    steps := [Written(ZEROS + ZEROS, [])] + rest;
    InitInv(NARROW);
    RunInv(p, steps);
  }

  /** So there is a run from the start after which a loss-free round, in which every message sent again
      arrives once, leaves the last one missing. */
  lemma ReorderedRoundFails() returns (steps: seq<Step>, bits: seq<bool>, q: Pair, resent: seq<Step>, f: Pair)
    ensures NARROW.Valid() && Runs(Init(NARROW), steps) && Announced(Final(Init(NARROW), steps), bits, q)
    ensures RedeliveredInAnyOrder(q, resent, f) && |resent| == q.s.sent - q.s.acked
    ensures Inv(f) && !Has(f.r, f.s.sent) && !IsComplete(Drain(f))
  {
    hide *;
    steps := OverrunReached();
    var inOrder, g;
    bits, q, inOrder, g := RoundExists(OVERRUN);
    resent, f := OvertakingLoses(OVERRUN, bits, q);
  }
}
