/** Progress: from every reachable state, one loss-free round, in which what is sent again arrives in order,
    delivers everything.  StreamReordering says what is left of that in any other order. */
module StreamProgress {
  import opened SeqNum
  import opened Messages
  import opened OutputWindow
  import opened OutputInvariants
  import opened InputWindow
  import opened InputInvariants
  import opened StreamPair

  /** All ACKNACKs under way arrive. */
  ghost function Drain(p: Pair): Pair
    requires Inv(p)
    decreases |p.acks|
  {
    if p.acks == [] then p
    else
      AckInv(p);
      AckStep(p);
      Drain(Next(p, AckArrives))
  }

  ghost predicate AsksForMore(a: Ack) {
    |a.bits| == 16 && exists i :: 0 <= i < 16 && a.bits[i]
  }

  /** Then the sender knows what the last of them says, and if it reports a loss, all that is not
      acknowledged has been sent again. */
  ghost predicate IsDrained(p: Pair, q: Pair) {
    && q.acks == [] && q.r == p.r && q.units == p.units && q.s.msgs == p.s.msgs && q.s.sent == p.s.sent && q.s.cfg == p.s.cfg
    && -1 <= q.s.acked <= q.s.sent < |q.s.msgs|
    && (p.acks == [] ==> q == p)
    && (p.acks != [] ==>
          var last := p.acks[|p.acks| - 1];
          && q.s.acked + 1 == last.first
          && (AsksForMore(last) ==> |Resent(q.s)| <= |q.wire| && q.wire[|q.wire| - |Resent(q.s)|..] == Resent(q.s)))
  }

  lemma {:induction false} Drained(p: Pair)
    requires Inv(p)
    ensures Inv(Drain(p)) && IsDrained(p, Drain(p))
    decreases |p.acks|
  {
    hide Inv;
    hide CanStep;
    hide Next;
    hide Sender.Valid;
    hide Resent;
    hide AsksForMore;
    InvValid(p);
    if p.acks == [] {
      SentIsWritten(p.s);
    } else {
      AckInv(p);
      AckStep(p);
      AcksKnown(p);
      var q := Next(p, AckArrives);
      SentIsWritten(q.s);
      Drained(q);
      DrainedOne(p, q, Drain(q));
    }
  }

  /** One ACKNACK, and then the others. */
  lemma DrainedOne(p: Pair, q: Pair, z: Pair)
    requires p.acks != [] && AckedFirst(p, q) && IsDrained(q, z) && -1 <= q.s.acked <= q.s.sent < |q.s.msgs|
    requires |p.acks[0].bits| == 16
    requires q.wire == p.wire + if exists i :: 0 <= i < 16 && p.acks[0].bits[i] then Resent(q.s) else []
    ensures IsDrained(p, z)
  {
    hide Resent;
    if |p.acks| > 1 {
      assert q.acks[|q.acks| - 1] == p.acks[|p.acks| - 1];
    }
  }

  lemma AcksKnown(p: Pair)
    requires Inv(p)
    ensures forall a <- p.acks :: |a.bits| == 16
  {
  }

  /** A HEARTBEAT that announces the last message sent makes the receiver ask for the first one that
      it misses. */
  lemma HeartbeatAsks(p: Pair, bits: seq<bool>)
    requires Inv(p) && Enabled(p, HeartbeatArrives(Wire(p.s.sent), bits))
    ensures var q := Next(p, HeartbeatArrives(Wire(p.s.sent), bits));
      && Inv(q) && q.s == p.s && q.acks == p.acks + [Ack(q.r.FirstUnacked(), bits)]
      && (q.r.FirstUnacked() <= p.s.sent ==> AsksForMore(q.acks[|p.acks|]))
  {
    hide Inv;
    hide Receiver.FirstUnacked;
    hide Receiver.Valid;
    hide Sender.Valid;
    hide Receiver.IsBitmap;
    InvValid(p);
    var last := Wire(p.s.sent);
    HeartbeatInv(p, last, bits);
    var q := Next(p, HeartbeatArrives(last, bits));
    FirstIsMissing(q);
    if q.r.FirstUnacked() <= p.s.sent {
      FirstAnnounced(p.r, p.s.sent, q.r.FirstUnacked());
      FirstAsked(q.r, bits);
    }
  }

  lemma FirstIsMissing(q: Pair)
    requires Inv(q)
    ensures q.r.Valid() && 0 < q.r.history && q.s.sent < q.r.FirstUnacked() + 0x4000
    ensures q.r.handled < q.r.FirstUnacked() <= q.r.handled + q.r.history && q.r.FirstUnacked() !in q.r.stored
  {
    SentFollow(q.s);
    NeverFull(q.r, SentLog(q.s));
  }

  lemma FirstAsked(r: Receiver, bits: seq<bool>)
    requires 0 < r.history && r.IsBitmap(bits) && r.BuffersToAck() > 0
    requires r.handled < r.FirstUnacked() <= r.handled + r.history && r.FirstUnacked() !in r.stored
    ensures AsksForMore(Ack(r.FirstUnacked(), bits))
  {
    hide Receiver.FirstUnacked;
    assert r.SlotEmpty(r.FirstUnacked() + 0);
    assert bits[0];
  }

  lemma FirstAnnounced(r: Receiver, sent: int, first: int)
    requires first <= sent < first + 0x4000
    ensures Sub(r.Announce(Wire(sent)).announced, Sub(Wire(first), 1)) > 0
  {
    CmpRefines(first - 1, sent);
    AddSubRefine(first, 1);
    SubIsAhead(r.Announce(Wire(sent)).announced, Wire(first - 1));
    AheadOfIndices(first - 1, sent);
  }

  /** Steps that deliver the messages of the network from position `base` on, one after the other. */
  ghost predicate InOrder(steps: seq<Step>, base: nat) {
    forall j | 0 <= j < |steps| :: steps[j].DataArrives? && steps[j].k == base + j
  }

  /** The messages from index `low` on stand at position `base` of the network. */
  ghost predicate Carries(wire: seq<Data>, base: nat, low: int, n: nat) {
    base + n <= |wire| && forall k | base <= k < base + n :: wire[k].i == low + (k - base)
  }

  /** A message that the receiver may be waiting for arrives: it is not missing any more. */
  lemma OneArrives(p: Pair, k: nat, bits: seq<bool>, low: int)
    requires Inv(p) && Enabled(p, DataArrives(k, bits)) && p.wire[k].i == low && low <= p.r.FirstUnacked()
    ensures var q := Next(p, DataArrives(k, bits));
      && Inv(q) && q.s == p.s && q.wire == p.wire && q.acks == p.acks + [Ack(q.r.FirstUnacked(), bits)]
      && low + 1 <= q.r.FirstUnacked()
  {
    DataInv(p, k, bits);
    assert p.wire[k] in p.wire;
    SentFollow(p.s);
    MissingArrives(p.r, low, SentLog(p.s));
  }

  lemma NextInOrder(steps: seq<Step>, base: nat, wire: seq<Data>, low: int)
    requires steps != [] && InOrder(steps, base) && Carries(wire, base, low, |steps|)
    ensures steps[0] == DataArrives(base, steps[0].bits) && base < |wire| && wire[base].i == low
    ensures InOrder(steps[1..], base + 1) && Carries(wire, base + 1, low + 1, |steps| - 1)
  {
    CarriesFirst(wire, base, low, |steps|);
  }

  ghost predicate HasArrived(p: Pair, n: nat, low: int, q: Pair) {
    && Inv(q) && q.s == p.s && low + n <= q.r.FirstUnacked()
    && (n > 0 ==> q.acks != [] && q.acks[|q.acks| - 1].first == q.r.FirstUnacked())
    && (n == 0 ==> q == p)
  }

  lemma {:induction false} Redelivery(p: Pair, steps: seq<Step>, base: nat, low: int)
    requires Inv(p) && Runs(p, steps) && InOrder(steps, base) && Carries(p.wire, base, low, |steps|)
    requires low <= p.r.FirstUnacked()
    ensures HasArrived(p, |steps|, low, Final(p, steps))
    decreases |steps|
  {
    hide *;
    RunStep(p, steps);
    if steps == [] {
      NoneArrived(p, low);
    } else {
      NextInOrder(steps, base, p.wire, low);
      OneArrives(p, base, steps[0].bits, low);
      var q := Next(p, steps[0]);
      Redelivery(q, steps[1..], base + 1, low + 1);
      OneMoreArrived(p, q, |steps| - 1, low, Final(q, steps[1..]));
    }
  }

  lemma NoneArrived(p: Pair, low: int)
    requires Inv(p) && low <= p.r.FirstUnacked()
    ensures HasArrived(p, 0, low, p)
  {
  }

  lemma OneMoreArrived(p: Pair, q: Pair, n: nat, low: int, f: Pair)
    requires q.s == p.s && q.acks != [] && q.acks[|q.acks| - 1].first == q.r.FirstUnacked()
    requires HasArrived(q, n, low + 1, f)
    ensures HasArrived(p, n + 1, low, f)
  {
  }

  /** Messages sent again are young enough. */
  lemma ResentInAge(p: Pair, k: nat)
    requires Inv(p) && k < |p.wire| && p.s.acked < p.wire[k].i
    ensures InAge(p.r, p.wire[k].i)
  {
    SentFollow(p.s);
    NeverFull(p.r, SentLog(p.s));
    assert p.wire[k] in p.wire;
  }

  /** The sender's state once a HEARTBEAT that announces the last message sent has arrived, and then
      the ACKNACKs under way, the one that it provokes being the last. */
  ghost predicate Announced(p: Pair, bits: seq<bool>, q: Pair) {
    && Inv(p) && Enabled(p, HeartbeatArrives(Wire(p.s.sent), bits))
    && var h := Next(p, HeartbeatArrives(Wire(p.s.sent), bits)); Inv(h) && q == Drain(h)
  }

  /** What has been sent but not acknowledged has been sent again, in order. */
  ghost predicate SentAgain(q: Pair) {
    && 0 <= q.s.sent - q.s.acked <= |q.wire|
    && Carries(q.wire, |q.wire| - (q.s.sent - q.s.acked), q.s.acked + 1, q.s.sent - q.s.acked)
  }

  lemma HeartbeatRound(p: Pair, bits: seq<bool>)
    requires Inv(p) && Enabled(p, HeartbeatArrives(Wire(p.s.sent), bits))
    ensures CanStep(p, HeartbeatArrives(Wire(p.s.sent), bits))
            && Inv(Next(p, HeartbeatArrives(Wire(p.s.sent), bits)))
    ensures Announced(p, bits, Drain(Next(p, HeartbeatArrives(Wire(p.s.sent), bits))))
  {
    HeartbeatAsks(p, bits);
  }

  /** Then the sender knows what the receiver has in order, and has sent the rest again. */
  lemma AnnouncedAsks(p: Pair, bits: seq<bool>, q: Pair)
    requires Announced(p, bits, q)
    ensures Inv(q) && q.s.msgs == p.s.msgs && q.s.sent == p.s.sent && q.acks == []
    ensures q.s.acked + 1 == q.r.FirstUnacked() && SentAgain(q)
  {
    HeartbeatAsks(p, bits);
    var h := Next(p, HeartbeatArrives(Wire(p.s.sent), bits));
    Drained(h);
    hide Inv;
    hide Next;
    hide Enabled;
    hide Drain;
    AsksAnswered(h, q);
  }

  lemma AsksAnswered(h: Pair, q: Pair)
    requires IsDrained(h, q) && h.acks != [] && h.acks[|h.acks| - 1].first == h.r.FirstUnacked()
    requires h.r.FirstUnacked() <= h.s.sent ==> AsksForMore(h.acks[|h.acks| - 1])
    ensures SentAgain(q) && q.s.acked + 1 == q.r.FirstUnacked()
  {
    var n := q.s.sent - q.s.acked;
    if n > 0 {
      var base := |q.wire| - n;
      forall k | base <= k < base + n
        ensures q.wire[k].i == q.s.acked + 1 + (k - base)
      {
        assert q.wire[k] == q.wire[base..][k - base] == Resent(q.s)[k - base];
      }
    }
  }

  /** What has been sent again arrives, in order. */
  ghost predicate Redelivered(q: Pair, resent: seq<Step>, f: Pair) {
    && Runs(q, resent) && f == Final(q, resent)
    && |resent| == q.s.sent - q.s.acked <= |q.wire| && InOrder(resent, |q.wire| - |resent|)
  }

  /** Everything sent is acknowledged, none of it is missing at the receiver, and unless it ends inside
      a run of fragments all of it has been handed over. */
  ghost predicate IsComplete(z: Pair) {
    && z.s.Valid() && z.s.acked == z.s.sent
    && (forall i | 0 <= i <= z.s.sent :: i <= z.r.handled || i in z.r.stored)
    && (z.s.sent >= 0 && Kind(z.s.msgs[z.s.sent]) != IntermediateFragment
        ==> Flatten(z.units) == z.s.msgs[..z.s.sent + 1])
  }

  /** One loss-free round: a HEARTBEAT arrives, the ACKNACKs arrive, what is then sent again arrives in
      order, and the ACKNACKs arrive. */
  lemma Progress(p: Pair, bits: seq<bool>, q: Pair, resent: seq<Step>, f: Pair)
    requires Announced(p, bits, q) && Redelivered(q, resent, f)
    ensures Inv(f) && IsComplete(Drain(f)) && Drain(f).s.msgs == p.s.msgs && Drain(f).s.sent == p.s.sent
  {
    hide Inv;
    hide Enabled;
    hide Next;
    hide Drain;
    hide Runs;
    hide Final;
    hide InOrder;
    hide Carries;
    hide Announced;
    hide IsComplete;
    hide Receiver.FirstUnacked;
    AnnouncedAsks(p, bits, q);
    Redelivery(q, resent, |q.wire| - |resent|, q.s.acked + 1);
    Drained(f);
    Complete(Drain(f));
  }

  /** When everything sent is acknowledged, nothing is missing. */
  lemma Complete(z: Pair)
    requires Inv(z) && z.s.acked + 1 == z.r.FirstUnacked() && z.s.sent < z.r.FirstUnacked()
    ensures IsComplete(z)
  {
    var log, r := SentLog(z.s), z.r;
    SentFollow(z.s);
    NeverFull(r, log);
    if z.s.sent >= 0 && Kind(z.s.msgs[z.s.sent]) != IntermediateFragment {
      if r.handled < z.s.sent {
        assert RunEnds(log, r.handled + 1, z.s.sent + 1) by { assert Kind(log[z.s.sent]) != IntermediateFragment; }
        var k := RunEnd(log, r.handled + 1, z.s.sent + 1);
        FullRun(r, log, k);
      }
      assert SentLog(z.s)[..z.r.handled + 1] == z.s.msgs[..z.s.sent + 1];
    }
  }

  lemma SomeBitmap(r: Receiver) returns (bits: seq<bool>)
    requires r.Valid()
    ensures r.IsBitmap(bits)
  {
    bits := seq(16, i requires 0 <= i < 16 => i < r.BuffersToAck() && r.SlotEmpty(r.FirstUnacked() + i));
  }

  /** A message that has been sent again can arrive. */
  lemma CanArrive(p: Pair, k: nat) returns (bits: seq<bool>)
    requires Inv(p) && k < |p.wire| && p.s.acked < p.wire[k].i
    ensures p.s.Valid() && p.r.Valid() && Enabled(p, DataArrives(k, bits))
  {
    ResentInAge(p, k);
    assert p.wire[k] in p.wire;
    ReadStreamIsLog(p.r, p.wire[k].i, SentLog(p.s));
    bits := SomeBitmap(Arrival(p, k).r);
  }

  lemma {:induction false} CanRedeliver(p: Pair, base: nat, low: int, n: nat) returns (steps: seq<Step>)
    requires Inv(p) && Carries(p.wire, base, low, n) && p.s.acked < low <= p.r.FirstUnacked()
    ensures Runs(p, steps) && InOrder(steps, base) && |steps| == n
    decreases n
  {
    hide *;
    if n == 0 {
      steps := [];
      NoSteps(p, base);
    } else {
      CarriesFirst(p.wire, base, low, n);
      var e := CanDeliver(p, base, low);
      var rest := CanRedeliver(Next(p, e), base + 1, low + 1, n - 1);
      steps := [e] + rest;
      MoreSteps(p, e, rest, base);
    }
  }

  lemma NoSteps(p: Pair, base: nat)
    ensures Runs(p, []) && InOrder([], base)
  {
  }

  lemma MoreSteps(p: Pair, e: Step, rest: seq<Step>, base: nat)
    requires CanStep(p, e) && Runs(Next(p, e), rest) && e.DataArrives? && e.k == base && InOrder(rest, base + 1)
    ensures Runs(p, [e] + rest) && InOrder([e] + rest, base)
  {
    assert ([e] + rest)[1..] == rest;
  }

  lemma CarriesFirst(wire: seq<Data>, base: nat, low: int, n: nat)
    requires Carries(wire, base, low, n) && n > 0
    ensures base < |wire| && wire[base].i == low && Carries(wire, base + 1, low + 1, n - 1)
  {
  }

  lemma CanDeliver(p: Pair, k: nat, low: int) returns (e: Step)
    requires Inv(p) && k < |p.wire| && p.wire[k].i == low && p.s.acked < low <= p.r.FirstUnacked()
    ensures e.DataArrives? && e.k == k && CanStep(p, e) && Inv(Next(p, e))
    ensures Next(p, e).s == p.s && Next(p, e).wire == p.wire && low + 1 <= Next(p, e).r.FirstUnacked()
  {
    hide Inv;
    hide Enabled;
    hide Receiver.FirstUnacked;
    var bits := CanArrive(p, k);
    e := DataArrives(k, bits);
    StepInv(p, e);
    OneArrives(p, k, bits, low);
  }

  /** From every reachable state such a round is possible. */
  lemma RoundExists(p: Pair) returns (bits: seq<bool>, q: Pair, resent: seq<Step>, f: Pair)
    requires Inv(p)
    ensures Announced(p, bits, q) && Redelivered(q, resent, f)
  {
    hide *;
    HeartbeatKeeps(p);
    bits := SomeBitmap(p.r.Announce(Wire(p.s.sent)));
    HeartbeatEnabled(p, bits);
    HeartbeatRound(p, bits);
    q := Drain(Next(p, HeartbeatArrives(Wire(p.s.sent), bits)));
    AnnouncedAsks(p, bits, q);
    AgainCarried(q);
    resent := CanRedeliver(q, |q.wire| - (q.s.sent - q.s.acked), q.s.acked + 1, q.s.sent - q.s.acked);
    f := Final(q, resent);
    IsRedelivered(q, resent, f);
  }

  lemma AgainCarried(q: Pair)
    requires SentAgain(q)
    ensures 0 <= q.s.sent - q.s.acked <= |q.wire|
    ensures Carries(q.wire, |q.wire| - (q.s.sent - q.s.acked), q.s.acked + 1, q.s.sent - q.s.acked)
  {
  }

  lemma IsRedelivered(q: Pair, resent: seq<Step>, f: Pair)
    requires Runs(q, resent) && f == Final(q, resent) && |resent| == q.s.sent - q.s.acked <= |q.wire|
    requires InOrder(resent, |q.wire| - |resent|)
    ensures Redelivered(q, resent, f)
  {
  }

  lemma HeartbeatEnabled(p: Pair, bits: seq<bool>)
    requires p.s.Valid() && p.r.Valid() && p.r.Announce(Wire(p.s.sent)).Valid()
    requires p.r.Announce(Wire(p.s.sent)).IsBitmap(bits)
    ensures Enabled(p, HeartbeatArrives(Wire(p.s.sent), bits))
  {
  }

  lemma HeartbeatKeeps(p: Pair)
    requires Inv(p)
    ensures p.s.Valid() && p.r.Valid() && p.r.Announce(Wire(p.s.sent)).Valid()
  {
  }
}
