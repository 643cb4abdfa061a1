/** A run from the start in which a message that is cut is not handed over as one: four slots, each with room
    for twenty octets, and a cut that begins behind a submessage of five. */
module PartFilled {
  import opened SeqNum
  import opened Messages
  import opened OutputWindow
  import opened InputWindow
  import opened InputInvariants
  import opened StreamPair
  import opened StreamReassembly
  import StreamProgress
  import Overtaking

  const ROOMY := Config(4, 4, 24)
  const PLAIN: seq<byte> := [0, 0, 0, 0, 0]
  const PAD: seq<byte> := [0, 0, 0]
  const HEAD: seq<byte> := [0, 0, 0, 0, 0, 0, 0, 0]
  const TAIL: seq<byte> := [0, 0, 0, 0, 0, 0, 0, 0, 0, 0, 0, 0, 0]
  const FRONT: message := FragmentHeader(8, false) + HEAD
  const BACK: message := FragmentHeader(13, true) + TAIL
  const MIXED: message := PLAIN + (PAD + FRONT)

  /** The sender of that run, after it has sent and written so much. */
  function At(sent: int, msgs: seq<message>): Sender
    requires msgs != []
  {
    Sender(ROOMY, -1, sent, |msgs| - 1, msgs, false)
  }

  lemma CutInTwo()
    ensures |HEAD + TAIL| == 21 && Fragments(HEAD + TAIL, 8, 16) == [FRONT, BACK]
    ensures |FRONT| == 12 && |BACK| == 17 && |MIXED| == 20
    ensures Kind(BACK) == LastFragment && Kind(MIXED) == NoFragmented && Kind(PLAIN) == NoFragmented
    ensures Kind(HEAD + TAIL) == NoFragmented
  {
    KindOfFragment(13, true, TAIL);
    KindOfAppended(PLAIN, PAD + FRONT);
    assert (HEAD + TAIL)[..8] == HEAD && (HEAD + TAIL)[8..] == TAIL;
    assert Fragments(TAIL, 16, 16) == [BACK];
  }

  lemma PlainWritten()
    ensures var s := InitSender(ROOMY);
      && ROOMY.Valid() && s.Valid() && s.IsPadding([]) && s.Write(PLAIN, []) == At(-1, [PLAIN])
  {
    var s, none: seq<message> := InitSender(ROOMY), [[]];
    assert s.Used() == 4 && s.PlaceOf(PLAIN) == Place(0, 4, 0, [PLAIN]);
    assert [] + [] + PLAIN == PLAIN && [PLAIN][1..] == [];
    assert none[0 := PLAIN] + [] == [PLAIN];
  }

  lemma CutPlaced()
    ensures var s, data := At(-1, [PLAIN]), HEAD + TAIL;
      && s.Valid() && data != [] && s.IsPadding(PAD) && IsCut(s, data) && !IsFreshCut(s, data)
      && s.Accepts(|data|) && s.FirstSize() == 8 && s.PlaceOf(data) == Place(0, 12, 4, [FRONT, BACK])
  {
    CutInTwo();
    hide Kind;
    hide Fragments;
    var s := At(-1, [PLAIN]);
    assert s.Used() == 12 && s.Free() == 3 && s.cfg.Block() == 16;
  }

  lemma CutIsWritten()
    ensures var s, data := At(-1, [PLAIN]), HEAD + TAIL;
      s.Valid() && data != [] && s.Write(data, PAD) == At(-1, [MIXED, BACK])
  {
    CutPlaced();
    hide Sender.Valid;
    hide Sender.PlaceOf;
    hide Sender.Accepts;
    hide Sender.IsPadding;
    hide IsCut;
    var was: seq<message> := [PLAIN];
    assert [FRONT, BACK][1..] == [BACK] && PLAIN + PAD + FRONT == MIXED;
    assert was[0 := MIXED] + [BACK] == [MIXED, BACK];
  }

  lemma BothSent()
    ensures var s := At(-1, [MIXED, BACK]);
      && s.Valid() && s.HasNext() && s.SendNext() == At(0, [MIXED, BACK]) && s.SendNext().Valid()
      && s.SendNext().HasNext() && s.SendNext().SendNext() == At(1, [MIXED, BACK, []])
      && s.SendNext().SendNext().Valid()
  {
    CutInTwo();
    hide Kind;
    assert [MIXED, BACK] + [[]] == [MIXED, BACK, []];
  }

  const ONE_HANDED := Receiver(4, 0, 0, map[])
  const BOTH_HANDED := Receiver(4, 1, 1, map[])

  lemma FirstArrives()
    ensures var r := InitReceiver(4);
      r.Valid() && r.ReadStream(Wire(0), MIXED) == Delivery(ONE_HANDED, [[MIXED]])
    ensures ONE_HANDED.Valid()
  {
    CutInTwo();
    assert [[MIXED]] + [] == [[MIXED]];
  }

  lemma SecondArrives()
    ensures ONE_HANDED.ReadStream(Wire(1), BACK) == Delivery(BOTH_HANDED, [[BACK]])
    ensures BOTH_HANDED.Valid()
  {
    CutInTwo();
    var t := ONE_HANDED.(stored := map[1 := BACK], announced := 1);
    assert t.LastFragmentFrom(1) == Some(1);
    assert t.NextUnit() == [BACK];
    assert t.Deliver() == BOTH_HANDED;
    assert BOTH_HANDED.DeliverAll() == Delivery(BOTH_HANDED, []);
    assert [[BACK]] + [] == [[BACK]];
  }

  const BOTH_SENT: seq<Data> := [Data(0, MIXED), Data(1, BACK)]

  /** An arrival that makes the receiver t and hands units over. */
  lemma ArrivalStep(p: Pair, k: nat, t: Receiver, units: seq<seq<message>>) returns (e: Step)
    requires p.s.Valid() && p.r.Valid() && k < |p.wire| && InAge(p.r, p.wire[k].i) && t.Valid()
    requires p.r.ReadStream(Wire(p.wire[k].i), p.wire[k].m) == Delivery(t, units)
    ensures CanStep(p, e) && Next(p, e) == p.(r := t, units := p.units + units, acks := Next(p, e).acks)
  {
    var bits := StreamProgress.SomeBitmap(t);
    e := DataArrives(k, bits);
    hide Receiver.ReadStream;
    hide Receiver.FirstUnacked;
    hide Receiver.IsBitmap;
    hide Sender.Valid;
  }

  lemma Arrivals() returns (steps: seq<Step>)
    ensures var p := Pair(At(1, [MIXED, BACK, []]), InitReceiver(4), BOTH_SENT, [], []);
      Runs(p, steps) && Final(p, steps).units == [[MIXED], [BACK]]
  {
    BothSent();
    FirstArrives();
    SecondArrives();
    hide Runs;
    hide Final;
    hide CanStep;
    hide Next;
    hide Sender.Valid;
    hide Receiver.ReadStream;
    hide MIXED;
    hide BACK;
    var p := Pair(At(1, [MIXED, BACK, []]), InitReceiver(4), BOTH_SENT, [], []);
    var e := ArrivalStep(p, 0, ONE_HANDED, [[MIXED]]);
    var q := Next(p, e);
    var f := ArrivalStep(q, 1, BOTH_HANDED, [[BACK]]);
    var z := Next(q, f);
    Overtaking.NoStepsEnd(z);
    Overtaking.OneMore(q, f, z, []);
    Overtaking.OneMore(p, e, q, [f] + []);
    steps := [e] + ([f] + []);
    assert [] + [[MIXED]] + [[BACK]] == [[MIXED], [BACK]];
  }

  lemma SentSteps() returns (steps: seq<Step>)
    ensures var p := Pair(At(-1, [MIXED, BACK]), InitReceiver(4), [], [], []);
      Runs(p, steps) && Final(p, steps).units == [[MIXED], [BACK]]
  {
    BothSent();
    FirstArrives();
    WhatIsSent();
    hide *;
    var rest := Arrivals();
    var p := Pair(At(-1, [MIXED, BACK]), InitReceiver(4), [], [], []);
    Overtaking.SentStep(p);
    var q := p.(s := At(0, [MIXED, BACK]), wire := [Data(0, MIXED)]);
    Overtaking.SentStep(q);
    var t := q.(s := At(1, [MIXED, BACK, []]), wire := BOTH_SENT);
    Overtaking.OneMore(q, Sent, t, rest);
    Overtaking.OneMore(p, Sent, q, [Sent] + rest);
    steps := [Sent] + ([Sent] + rest);
  }

  lemma WhatIsSent()
    ensures var s, t := At(-1, [MIXED, BACK]), At(0, [MIXED, BACK]);
      && [] + [Data(s.sent + 1, s.msgs[s.sent + 1])] == [Data(0, MIXED)]
      && [Data(0, MIXED)] + [Data(t.sent + 1, t.msgs[t.sent + 1])] == BOTH_SENT
  {
  }

  /** Twenty-one octets are written behind five, in two fragments.  The receiver hands the first eight over
      behind the five, and the other thirteen as a message of their own. */
  lemma CutInPieces() returns (steps: seq<Step>)
    ensures var init, data := Init(ROOMY), HEAD + TAIL;
      && ROOMY.Valid() && CanStep(init, Written(PLAIN, []))
      && var p := Next(init, Written(PLAIN, []));
      && Inv(p) && CanStep(p, Written(data, PAD)) && data != [] && IsCut(p.s, data)
      && Runs(Next(p, Written(data, PAD)), steps)
      && Final(Next(p, Written(data, PAD)), steps).units == [[PLAIN + (PAD + FRONT)], [BACK]]
    ensures |FRONT| == 12 && FRONT[SUBHEADER_SIZE..] == HEAD && |BACK| == 17 && BACK[SUBHEADER_SIZE..] == TAIL
  {
    PlainWritten();
    CutPlaced();
    CutIsWritten();
    FirstArrives();
    CutInTwo();
    InitInv(ROOMY);
    hide Inv;
    hide Runs;
    hide Final;
    hide CanStep;
    hide Next;
    hide Sender.Valid;
    hide Sender.Write;
    hide Sender.IsPadding;
    hide IsCut;
    hide Kind;
    var data := HEAD + TAIL;
    var init := Init(ROOMY);
    var p := init.(s := At(-1, [PLAIN]));
    Overtaking.WrittenStep(init, PLAIN, []);
    Overtaking.WrittenStep(p, data, PAD);
    AfterStep(init, Written(PLAIN, []));
    steps := SentSteps();
  }

  lemma AfterStep(p: Pair, e: Step)
    requires Inv(p) && CanStep(p, e)
    ensures Inv(Next(p, e))
  {
    hide Inv;
    hide Next;
    StepInv(p, e);
  }
}
