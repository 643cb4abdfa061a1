/** Fragmented messages end to end: what is written in pieces is handed over whole. */
module StreamReassembly {
  import opened SeqNum
  import opened Messages
  import opened OutputWindow
  import opened OutputInvariants
  import opened InputWindow
  import opened InputInvariants
  import opened StreamPair

  /** What has been written is never rewritten; only the last message takes more while it is not sent. */
  ghost predicate Grows(log: seq<message>, more: seq<message>) {
    && |log| <= |more|
    && (forall i | 0 <= i < |log| - 1 :: more[i] == log[i])
    && (log != [] ==> log[|log| - 1] <= more[|log| - 1])
  }

  lemma GrowsTransitive(a: seq<message>, b: seq<message>, c: seq<message>)
    requires Grows(a, b) && Grows(b, c)
    ensures Grows(a, c)
  {
  }

  lemma WriteGrows(s: Sender, data: seq<byte>, pad: seq<byte>)
    requires s.Valid() && Readable(data) && s.IsPadding(pad)
    ensures s.Write(data, pad).Valid() && Grows(Log(s), Log(s.Write(data, pad)))
  {
    hide Sender.PlaceOf;
    hide Sender.IsPlace;
    hide Log;
    WriteValid(s, data, pad);
    if s.Accepts(|data|) {
      PlaceFits(s, data);
      PutLog(s, s.PlaceOf(data), pad);
      LogEnds(s);
    }
  }

  lemma StepGrows(p: Pair, e: Step)
    requires Inv(p) && Enabled(p, e)
    ensures CanStep(p, e) && Next(p, e).s.Valid() && Grows(Log(p.s), Log(Next(p, e).s))
  {
    hide Inv;
    hide Log;
    hide Sender.Valid;
    hide Sender.Write;
    hide Receiver.Valid;
    hide Receiver.FirstUnacked;
    StepInv(p, e);
    match e
    case Written(data, pad) => WriteGrows(p.s, data, pad);
    case Sent => SendKeepsLog(p.s);
    case Refused => RefuseKeepsLog(p.s);
    case DataArrives(k, bits) =>
    case HeartbeatArrives(last, bits) =>
    case AckArrives => AckStep(p);
    case AckLost(k) =>
  }

  lemma {:induction false} RunGrows(p: Pair, steps: seq<Step>)
    requires Inv(p) && Runs(p, steps)
    ensures p.s.Valid() && Final(p, steps).s.Valid() && Grows(Log(p.s), Log(Final(p, steps).s))
    decreases |steps|
  {
    hide *;
    RunStep(p, steps);
    InvValid(p);
    if steps == [] {
      GrowsReflexive(Log(p.s));
    } else {
      StepInv(p, steps[0]);
      StepGrows(p, steps[0]);
      RunGrows(Next(p, steps[0]), steps[1..]);
      GrowsTransitive(Log(p.s), Log(Next(p, steps[0]).s), Log(Final(p, steps).s));
    }
  }

  lemma GrowsReflexive(log: seq<message>)
    ensures Grows(log, log)
  {
  }

  /** What a write adds to the last message written so far. */
  ghost function AddedBy(s: Sender, data: seq<byte>, pad: seq<byte>): seq<byte>
    requires s.Valid() && Readable(data)
  {
    if s.Accepts(|data|) && s.PlaceOf(data).start == s.written && s.msgs[s.written] != []
    then pad + s.PlaceOf(data).ms[0]
    else []
  }

  /** What a run writes behind message i: the paddings and the submessages that follow in its slot. */
  ghost function WrittenBehind(p: Pair, steps: seq<Step>, i: nat): seq<byte>
    requires Runs(p, steps)
    decreases |steps|
  {
    if steps == [] then []
    else
      (if steps[0].Written? && |Log(p.s)| == i + 1 then AddedBy(p.s, steps[0].data, steps[0].pad) else [])
      + WrittenBehind(Next(p, steps[0]), steps[1..], i)
  }

  lemma WriteAdds(s: Sender, data: seq<byte>, pad: seq<byte>, i: nat)
    requires s.Valid() && Readable(data) && s.IsPadding(pad) && i < |Log(s)|
    ensures s.Write(data, pad).Valid() && i < |Log(s.Write(data, pad))|
    ensures Log(s.Write(data, pad))[i] == Log(s)[i] + if |Log(s)| == i + 1 then AddedBy(s, data, pad) else []
  {
    hide Sender.PlaceOf;
    hide Sender.IsPlace;
    hide Log;
    WriteValid(s, data, pad);
    LogEnds(s);
    if s.Accepts(|data|) {
      PlaceFits(s, data);
      PutLog(s, s.PlaceOf(data), pad);
    }
  }

  lemma StepAdds(p: Pair, e: Step, i: nat)
    requires Inv(p) && Enabled(p, e) && p.s.Valid() && i < |Log(p.s)|
    ensures CanStep(p, e) && Next(p, e).s.Valid() && i < |Log(Next(p, e).s)|
    ensures Log(Next(p, e).s)[i]
         == Log(p.s)[i] + if e.Written? && |Log(p.s)| == i + 1 then AddedBy(p.s, e.data, e.pad) else []
  {
    hide Inv;
    hide Log;
    hide Sender.Valid;
    hide Sender.Write;
    hide AddedBy;
    hide Receiver.Valid;
    hide Receiver.FirstUnacked;
    StepInv(p, e);
    match e
    case Written(data, pad) => WriteAdds(p.s, data, pad, i);
    case Sent => SendKeepsLog(p.s);
    case Refused => RefuseKeepsLog(p.s);
    case DataArrives(k, bits) =>
    case HeartbeatArrives(last, bits) =>
    case AckArrives => AckStep(p);
    case AckLost(k) =>
  }

  /** A message takes exactly what is written behind it. */
  lemma {:induction false} RunAdds(p: Pair, steps: seq<Step>, i: nat)
    requires Inv(p) && Runs(p, steps) && p.s.Valid() && i < |Log(p.s)|
    ensures Final(p, steps).s.Valid() && i < |Log(Final(p, steps).s)|
    ensures Log(Final(p, steps).s)[i] == Log(p.s)[i] + WrittenBehind(p, steps, i)
    decreases |steps|
  {
    hide Inv;
    hide Enabled;
    hide CanStep;
    hide Next;
    hide Log;
    hide AddedBy;
    hide Sender.Valid;
    RunStep(p, steps);
    if steps != [] {
      StepInv(p, steps[0]);
      StepAdds(p, steps[0], i);
      RunAdds(Next(p, steps[0]), steps[1..], i);
    }
  }

  /** Joining a unit whose last message has grown. */
  lemma {:induction false} JoinGrown(unit: seq<message>, grown: seq<message>, more: seq<byte>)
    requires |unit| > 0 && |grown| == |unit| && (forall i | 0 <= i < |unit| - 1 :: grown[i] == unit[i])
    requires grown[|unit| - 1] == unit[|unit| - 1] + more
    requires forall m <- unit :: |m| >= SUBHEADER_SIZE
    ensures forall m <- grown :: |m| >= SUBHEADER_SIZE
    ensures Join(grown, SUBHEADER_SIZE) == Join(unit, SUBHEADER_SIZE) + more
    decreases |unit|
  {
    assert unit[0] in unit;
    if |unit| > 1 {
      JoinGrown(unit[1..], grown[1..], more);
    } else {
      assert unit[1..] == [] && grown[1..] == [];
      assert grown[0][SUBHEADER_SIZE..] == unit[0][SUBHEADER_SIZE..] + more;
    }
  }

  /** The log, cut behind every message that is not an intermediate fragment. */
  function Pieces(log: seq<message>): (pieces: seq<seq<message>>)
    ensures log != [] ==> pieces != []
  {
    if log == [] then [] else Extended(Pieces(log[..|log| - 1]), log[..|log| - 1], log[|log| - 1])
  }

  /** The next message begins a piece, or goes on with the last one. */
  function Extended(pieces: seq<seq<message>>, log: seq<message>, m: message): (more: seq<seq<message>>)
    requires log != [] ==> pieces != []
    ensures more != []
  {
    if log == [] || Kind(log[|log| - 1]) != IntermediateFragment then pieces + [[m]]
    else pieces[|pieces| - 1 := pieces[|pieces| - 1] + [m]]
  }

  lemma PiecesMore(log: seq<message>, m: message)
    ensures Pieces(log + [m]) == Extended(Pieces(log), log, m)
  {
    hide Extended;
    assert (log + [m])[..|log|] == log;
  }

  /** A unit behind a log that ends with a unit. */
  lemma {:induction false} PiecesUnit(log: seq<message>, unit: seq<message>, k: nat)
    requires log != [] ==> Kind(log[|log| - 1]) != IntermediateFragment
    requires IsUnit(unit) && 0 < k <= |unit|
    ensures Pieces(log + unit[..k]) == Pieces(log) + [unit[..k]]
  {
    hide Pieces;
    var m := unit[k - 1];
    var front := unit[..k - 1];
    assert unit[..k] == front + [m];
    if k == 1 {
      assert front == [] && [m] == unit[..k] && log + unit[..k] == log + [m];
      PiecesMore(log, m);
    } else {
      PiecesUnit(log, unit, k - 1);
      assert log + unit[..k] == (log + front) + [m] && (log + front)[|log + front| - 1] == unit[k - 2];
      PiecesMore(log + front, m);
      GoesOn(Pieces(log), front, m);
    }
  }

  lemma GoesOn(pieces: seq<seq<message>>, front: seq<message>, m: message)
    ensures var all := pieces + [front];
      all[|all| - 1 := all[|all| - 1] + [m]] == pieces + [front + [m]]
  {
  }

  /** What has been handed over leaves no choice of how it was cut: the units are the pieces. */
  lemma {:induction false} UnitsArePieces(units: seq<seq<message>>)
    requires AreUnits(units)
    ensures Pieces(Flatten(units)) == units
  {
    hide Flatten;
    hide IsUnit;
    hide Pieces;
    if units == [] {
      NoPieces();
    } else {
      var n := |units| - 1;
      var before := units[..n];
      assert units == before + [units[n]] && AreUnits(before) && IsUnit(units[n]);
      UnitsArePieces(before);
      FlattenLast(before, units[n]);
      if before != [] {
        LastOfFlatten(before);
      } else {
        NoPieces();
      }
      WholeUnit(Flatten(before), units[n]);
    }
  }

  lemma NoPieces()
    ensures Flatten([]) == [] && Pieces([]) == []
  {
  }

  lemma FlattenLast(units: seq<seq<message>>, u: seq<message>)
    ensures Flatten(units + [u]) == Flatten(units) + u
  {
    FlattenAppend(units, [u]);
    assert Flatten([u]) == u by { assert [u][1..] == []; }
  }

  lemma WholeUnit(log: seq<message>, unit: seq<message>)
    requires log != [] ==> Kind(log[|log| - 1]) != IntermediateFragment
    requires IsUnit(unit)
    ensures Pieces(log + unit) == Pieces(log) + [unit]
  {
    hide Pieces;
    hide Kind;
    PiecesUnit(log, unit, |unit|);
    assert unit[..|unit|] == unit;
  }

  /** Where unit j starts in the log. */
  function Start(units: seq<seq<message>>, j: nat): nat
    requires j <= |units|
  {
    |Flatten(units[..j])|
  }

  /** Unit j is a piece of the log, and the log before it does not end inside a run of fragments. */
  lemma UnitInLog(units: seq<seq<message>>, j: nat, log: seq<message>)
    requires AreUnits(units) && j < |units| && Flatten(units) <= log
    ensures Start(units, j) + |units[j]| <= |log|
    ensures units[j] == log[Start(units, j)..Start(units, j) + |units[j]|] && IsUnit(units[j])
    ensures Start(units, j) > 0 ==> Kind(log[Start(units, j) - 1]) != IntermediateFragment
  {
    hide IsUnit;
    hide Flatten;
    FlattenAt(units, j);
    var before, rest := Flatten(units[..j]), Flatten(units[j + 1..]);
    PieceOfLog(before, units[j], rest, log);
    assert IsUnit(units[j]);
    if j > 0 {
      assert AreUnits(units[..j]);
      LastOfFlatten(units[..j]);
      assert before[|before| - 1] == log[|before| - 1];
    } else {
      NothingBefore(units);
    }
  }

  lemma FlattenAt(units: seq<seq<message>>, j: nat)
    requires j < |units|
    ensures Flatten(units) == Flatten(units[..j]) + units[j] + Flatten(units[j + 1..])
  {
    hide Flatten;
    hide IsUnit;
    assert units == units[..j] + ([units[j]] + units[j + 1..]);
    FlattenAppend(units[..j], [units[j]] + units[j + 1..]);
    FlattenFirst(units[j], units[j + 1..]);
    assert Flatten(units[..j]) + (units[j] + Flatten(units[j + 1..]))
           == Flatten(units[..j]) + units[j] + Flatten(units[j + 1..]);
  }

  lemma NothingBefore(units: seq<seq<message>>)
    ensures Start(units, 0) == 0
  {
    assert units[..0] == [];
  }

  lemma PieceOfLog(before: seq<message>, unit: seq<message>, rest: seq<message>, log: seq<message>)
    requires before + unit + rest <= log
    ensures |before| + |unit| <= |log| && unit == log[|before|..|before| + |unit|] && before == log[..|before|]
  {
    var all := before + unit + rest;
    assert forall i | 0 <= i < |all| :: all[i] == log[i];
  }

  lemma LastOfFlatten(units: seq<seq<message>>)
    requires AreUnits(units) && units != []
    ensures Flatten(units) != [] && Kind(Flatten(units)[|Flatten(units)| - 1]) != IntermediateFragment
  {
    var n := |units| - 1;
    FlattenAt(units, n);
    assert IsUnit(units[n]);
    assert units[n + 1..] == [];
  }

  /** A unit that shares a message with a run of fragments is that run. */
  lemma UnitIsRun(u: seq<message>, at: nat, run: seq<message>, start: nat, f: nat, log: seq<message>)
    requires at + |u| <= |log| && u == log[at..at + |u|] && IsUnit(u)
    requires at > 0 ==> Kind(log[at - 1]) != IntermediateFragment
    requires start + |run| <= |log| && Grows(run, log[start..start + |run|]) && IsUnit(run)
    requires start > 0 ==> Kind(log[start - 1]) != IntermediateFragment
    requires f < |run| && at <= start + f < at + |u|
    ensures at == start && |u| == |run| && Grows(run, u)
  {
    var now := log[start..start + |run|];
    forall k | 0 <= k < |run|
      ensures Kind(log[start + k]) == Kind(run[k])
    {
      assert Readable(run[k]) by { assert run[k] in run; }
      assert now[k] == run[k] + now[k][|run[k]|..];
      KindOfAppended(run[k], now[k][|run[k]|..]);
    }
    RunInLog(run, start, log);
    RunInLog(u, at, log);
    SameEnds(log, at, at + |u|, start, start + |run|, start + f);
  }

  /** A maximal run of fragments, or a plain message. */
  ghost predicate IsWhole(log: seq<message>, low: nat, high: nat) {
    && low < high <= |log|
    && (forall i | low <= i < high - 1 :: Kind(log[i]) == IntermediateFragment)
    && Kind(log[high - 1]) != IntermediateFragment
    && (low > 0 ==> Kind(log[low - 1]) != IntermediateFragment)
  }

  lemma RunInLog(run: seq<message>, start: nat, log: seq<message>)
    requires IsUnit(run) && start + |run| <= |log| && (start > 0 ==> Kind(log[start - 1]) != IntermediateFragment)
    requires forall k {:trigger run[k]} | 0 <= k < |run| :: Kind(log[start + k]) == Kind(run[k])
    ensures IsWhole(log, start, start + |run|)
  {
    forall i | start <= i < start + |run| - 1
      ensures Kind(log[i]) == IntermediateFragment
    {
      assert Kind(log[start + (i - start)]) == Kind(run[i - start]);
    }
    assert Kind(log[start + (|run| - 1)]) == Kind(run[|run| - 1]);
  }

  lemma SameEnds(log: seq<message>, a: nat, b: nat, c: nat, d: nat, x: nat)
    requires IsWhole(log, a, b) && IsWhole(log, c, d) && a <= x < b && c <= x < d
    ensures a == c && b == d
  {
  }

  /** A message too long for a slot, accepted in fragments. */
  ghost predicate IsCut(s: Sender, data: seq<byte>)
    requires s.Valid() && data != []
  {
    s.FitsFragmented(|data|) && !s.FitsCurrent(|data|) && !s.FitsSlot(|data|)
  }

  /** Such a message, written into fresh slots. */
  ghost predicate IsFreshCut(s: Sender, data: seq<byte>)
    requires s.Valid() && data != []
  {
    IsCut(s, data) && s.PlaceOf(data).at == s.cfg.offset
  }

  lemma CutWritten(s: Sender, data: seq<byte>, pad: seq<byte>)
    requires s.Valid() && Readable(data) && s.IsPadding(pad) && IsFreshCut(s, data)
    ensures s.Write(data, pad).Valid() && Log(s.Write(data, pad)) == Log(s) + s.Cut(data)
    ensures |s.Cut(data)| >= 2 && IsUnit(s.Cut(data))
  {
    WriteValid(s, data, pad);
    PlaceFits(s, data);
    CutFits(s, data);
    CutShape(s, data);
    PutLog(s, s.PlaceOf(data), pad);
  }

  lemma FragmentsHanded(w: Pair, steps: seq<Step>, before: seq<message>, cut: seq<message>, j: nat, f: nat)
    requires Inv(w) && Runs(w, steps) && w.s.Valid() && Log(w.s) == before + cut
    requires IsUnit(cut) && (before != [] ==> Kind(before[|before| - 1]) != IntermediateFragment)
    requires var q := Final(w, steps);
      j < |q.units| && f < |cut| && Start(q.units, j) <= |before| + f < Start(q.units, j) + |q.units[j]|
    ensures var u := Final(w, steps).units[j];
      && Start(Final(w, steps).units, j) == |before| && |u| == |cut| && Grows(cut, u)
      && Final(w, steps).s.Valid() && |before| + |cut| <= |Log(Final(w, steps).s)|
      && u == Log(Final(w, steps).s)[|before|..|before| + |cut|]
  {
    hide *;
    RunInv(w, steps);
    RunGrows(w, steps);
    HandedIsWritten(Final(w, steps));
    HandedRun(Final(w, steps).units, Log(Final(w, steps).s), before, cut, j, f);
  }

  lemma HandedRun(units: seq<seq<message>>, log: seq<message>, before: seq<message>, cut: seq<message>, j: nat, f: nat)
    requires AreUnits(units) && Flatten(units) <= log && Grows(before + cut, log) && |cut| >= 1
    requires IsUnit(cut) && (before != [] ==> Kind(before[|before| - 1]) != IntermediateFragment)
    requires j < |units| && f < |cut| && Start(units, j) <= |before| + f < Start(units, j) + |units[j]|
    ensures Start(units, j) == |before| && |units[j]| == |cut| && Grows(cut, units[j])
    ensures |before| + |cut| <= |log| && units[j] == log[|before|..|before| + |cut|]
  {
    hide *;
    UnitInLog(units, j, log);
    GrowsTail(before, cut, log);
    UnitIsRun(units[j], Start(units, j), cut, |before|, f, log);
  }

  lemma GrowsTail(before: seq<message>, cut: seq<message>, log: seq<message>)
    requires Grows(before + cut, log) && |cut| >= 1
    ensures |before| + |cut| <= |log| && Grows(cut, log[|before|..|before| + |cut|])
    ensures before != [] ==> log[|before| - 1] == before[|before| - 1]
  {
    var all, now := before + cut, log[|before|..|before| + |cut|];
    forall i | 0 <= i < |cut| - 1
      ensures now[i] == cut[i]
    {
      assert log[|before| + i] == all[|before| + i];
    }
    assert |all| <= |log| && log[|all| - 1] == now[|cut| - 1] && all[|all| - 1] == cut[|cut| - 1];
    if before != [] {
      assert log[|before| - 1] == all[|before| - 1];
    }
  }

  lemma HandedIsWritten(q: Pair)
    requires Inv(q)
    ensures q.s.Valid() && AreUnits(q.units) && Flatten(q.units) <= Log(q.s)
  {
    SentIsWritten(q.s);
    assert SentLog(q.s)[..q.r.handled + 1] == Log(q.s)[..q.r.handled + 1];
  }

  lemma CutJoined(s: Sender, data: seq<byte>)
    requires s.Valid() && data != []
    ensures forall m <- s.Cut(data) :: |m| >= SUBHEADER_SIZE
    ensures Join(s.Cut(data), SUBHEADER_SIZE) == data
  {
    JoinFragments(data, s.FirstSize(), s.cfg.Block());
  }

  lemma LogEnd(p: Pair)
    requires Inv(p)
    ensures p.s.Valid() && (Log(p.s) != [] ==> Kind(Log(p.s)[|Log(p.s)| - 1]) != IntermediateFragment)
  {
  }

  /** A run of fragments in the log is handed over as one unit, with what is written behind it. */
  lemma RunHanded(w: Pair, steps: seq<Step>, before: seq<message>, cut: seq<message>, j: nat, f: nat)
    requires Inv(w) && Runs(w, steps) && w.s.Valid() && Log(w.s) == before + cut && IsUnit(cut)
    requires before != [] ==> Kind(before[|before| - 1]) != IntermediateFragment
    requires forall m <- cut :: |m| >= SUBHEADER_SIZE
    requires var q := Final(w, steps);
      j < |q.units| && f < |cut| && Start(q.units, j) <= |before| + f < Start(q.units, j) + |q.units[j]|
    ensures var u := Final(w, steps).units[j];
      && Start(Final(w, steps).units, j) == |before| && |u| == |cut| && (forall m <- u :: |m| >= SUBHEADER_SIZE)
      && Join(u, SUBHEADER_SIZE)
         == Join(cut, SUBHEADER_SIZE) + WrittenBehind(w, steps, |before| + |cut| - 1)
  {
    hide *;
    var i := |before| + |cut| - 1;
    FragmentsHanded(w, steps, before, cut, j, f);
    RunAdds(w, steps, i);
    CutGrown(Final(w, steps).units[j], before, cut, Log(Final(w, steps).s), WrittenBehind(w, steps, i));
  }

  /** Whatever else is written later, and however the fragments travel, the receiver hands such a
      message over at once and unchanged: the unit that contains one of its fragments starts with its
      first one, and reassembles to the data, followed exactly by what was written behind it in the slot
      of its last fragment. */
  lemma FragmentedWriteArrives(p: Pair, data: seq<byte>, pad: seq<byte>, steps: seq<Step>, j: nat, f: nat)
    requires Inv(p) && Enabled(p, Written(data, pad)) && IsFreshCut(p.s, data)
    requires Runs(Next(p, Written(data, pad)), steps)
    requires var q := Final(Next(p, Written(data, pad)), steps);
      j < |q.units| && Start(q.units, j) <= |Log(p.s)| + f < Start(q.units, j) + |q.units[j]|
    requires f < |p.s.Cut(data)|
    ensures var w, cut := Next(p, Written(data, pad)), p.s.Cut(data);
      var u := Final(w, steps).units[j];
      && Start(Final(w, steps).units, j) == |Log(p.s)| && |u| == |cut| && (forall m <- u :: |m| >= SUBHEADER_SIZE)
      && Join(u, SUBHEADER_SIZE) == data + WrittenBehind(w, steps, |Log(p.s)| + |cut| - 1)
  {
    hide *;
    StepInv(p, Written(data, pad));
    FreshlyWritten(p, data, pad);
    var w, cut := Next(p, Written(data, pad)), p.s.Cut(data);
    LogEnd(p);
    RunHanded(w, steps, Log(p.s), cut, j, f);
  }

  lemma FreshlyWritten(p: Pair, data: seq<byte>, pad: seq<byte>)
    requires CanStep(p, Written(data, pad)) && IsFreshCut(p.s, data)
    ensures p.s.Valid() && data != [] && Next(p, Written(data, pad)).s.Valid()
    ensures Log(Next(p, Written(data, pad)).s) == Log(p.s) + p.s.Cut(data)
    ensures |p.s.Cut(data)| >= 2 && IsUnit(p.s.Cut(data)) && |Log(p.s) + p.s.Cut(data)| == |Log(p.s)| + |p.s.Cut(data)|
    ensures (forall m <- p.s.Cut(data) :: |m| >= SUBHEADER_SIZE) && Join(p.s.Cut(data), SUBHEADER_SIZE) == data
  {
    hide Log;
    hide Sender.Cut;
    hide IsFreshCut;
    hide Sender.Write;
    CutWritten(p.s, data, pad);
    CutJoined(p.s, data);
  }

  /** The unit is what the log holds where the cut was written. */
  lemma CutGrown(u: seq<message>, before: seq<message>, cut: seq<message>, log: seq<message>, more: seq<byte>)
    requires |cut| >= 1 && |before| + |cut| <= |log| && u == log[|before|..|before| + |cut|] && Grows(cut, u)
    requires log[|before| + |cut| - 1] == (before + cut)[|before| + |cut| - 1] + more
    requires forall m <- cut :: |m| >= SUBHEADER_SIZE
    ensures |u| == |cut| && (forall m <- u :: |m| >= SUBHEADER_SIZE)
    ensures Join(u, SUBHEADER_SIZE) == Join(cut, SUBHEADER_SIZE) + more
  {
    assert (before + cut)[|before| + |cut| - 1] == cut[|cut| - 1];
    JoinGrown(cut, u, more);
  }

  /** Every message that has been handed over is in one of the units. */
  lemma {:induction false} UnitCovers(units: seq<seq<message>>, k: nat) returns (j: nat)
    requires k < |Flatten(units)|
    ensures j < |units| && Start(units, j) <= k < Start(units, j) + |units[j]|
    decreases |units|
  {
    var n := |units| - 1;
    var last: seq<seq<message>> := [units[n]];
    assert units == units[..n] + last && last[1..] == [];
    FlattenAppend(units[..n], last);
    if k < |Flatten(units[..n])| {
      j := UnitCovers(units[..n], k);
      assert units[..n][..j] == units[..j];
    } else {
      j := n;
    }
  }

  /** The fragments after the first one are those of the rest of the data. */
  lemma CutRest(s: Sender, data: seq<byte>)
    requires s.Valid() && data != [] && IsCut(s, data)
    ensures 0 < s.FirstSize() < |data| && |s.Cut(data)| >= 2 && IsUnit(s.Cut(data)[1..])
    ensures s.Cut(data)[0] == FragmentHeader(s.FirstSize(), false) + data[..s.FirstSize()]
    ensures (forall m <- s.Cut(data)[1..] :: |m| >= SUBHEADER_SIZE)
    ensures Join(s.Cut(data)[1..], SUBHEADER_SIZE) == data[s.FirstSize()..]
  {
    CutFits(s, data);
    var first, b := s.FirstSize(), s.cfg.Block();
    FragmentsAreUnit(data[first..], b, b);
    JoinFragments(data[first..], b, b);
    assert s.Cut(data)[1..] == Fragments(data[first..], b, b);
  }

  /** A cut that is not fresh begins behind what the last slot holds. */
  lemma CutBehind(s: Sender, data: seq<byte>, pad: seq<byte>)
    requires s.Valid() && Readable(data) && s.IsPadding(pad) && IsCut(s, data) && !IsFreshCut(s, data)
    ensures Log(s) != [] && s.PlaceOf(data).start == |Log(s)| - 1 && s.Write(data, pad).Valid()
    ensures var n, cut := |Log(s)| - 1, s.Cut(data);
      && |cut| >= 2 && Log(s.Write(data, pad)) == Log(s)[n := Log(s)[n] + (pad + cut[0])] + cut[1..]
  {
    WriteValid(s, data, pad);
    PlaceFits(s, data);
    CutFits(s, data);
    PutLog(s, s.PlaceOf(data), pad);
    NotEmpty(s, data);
    LogEnds(s);
  }

  /** An empty slot is a fresh one. */
  lemma NotEmpty(s: Sender, data: seq<byte>)
    requires s.Valid() && data != [] && IsCut(s, data) && !IsFreshCut(s, data)
    ensures s.PlaceOf(data) == Place(s.written, s.Used(), SUBHEADER_SIZE, s.Cut(data)) && s.msgs[s.written] != []
  {
    hide Sender.Cut;
    CutFits(s, data);
  }

  lemma CutAllowed(p: Pair, data: seq<byte>, pad: seq<byte>)
    requires CanStep(p, Written(data, pad))
    ensures p.s.Valid() && Readable(data) && data != [] && p.s.IsPadding(pad)
  {
  }

  /** The log after such a write: the message that took the first fragment, whose kind is what it was, and
      a run of the other fragments. */
  lemma SplitByCut(p: Pair, data: seq<byte>, pad: seq<byte>)
    requires Inv(p) && CanStep(p, Written(data, pad)) && IsCut(p.s, data) && !IsFreshCut(p.s, data)
    ensures p.s.Valid() && data != [] && Next(p, Written(data, pad)).s.Valid() && |p.s.Cut(data)| >= 2
    ensures Log(p.s) != [] && p.s.PlaceOf(data).start == |Log(p.s)| - 1
    ensures var n, cut := |Log(p.s)| - 1, p.s.Cut(data);
      var before := Log(p.s)[n := Log(p.s)[n] + (pad + cut[0])];
      && Log(Next(p, Written(data, pad)).s) == before + cut[1..] && |before| == n + 1
      && Kind(before[n]) != IntermediateFragment && IsUnit(cut[1..])
  {
    hide Inv;
    hide Log;
    hide Sender.Cut;
    hide Sender.Write;
    hide IsCut;
    hide IsFreshCut;
    hide Sender.PlaceOf;
    CutBehind(p.s, data, pad);
    CutRest(p.s, data);
    LogEnd(p);
    LastReadable(p);
    KindOfAppended(Log(p.s)[|Log(p.s)| - 1], pad + p.s.Cut(data)[0]);
  }

  lemma LastReadable(p: Pair)
    requires Inv(p)
    ensures p.s.Valid() && (Log(p.s) != [] ==> Readable(Log(p.s)[|Log(p.s)| - 1]))
  {
  }

  /** A unit that holds a message which is not an intermediate fragment ends there. */
  lemma UnitEnds(units: seq<seq<message>>, log: seq<message>, j: nat, n: nat)
    requires AreUnits(units) && j < |units| && Flatten(units) <= log && n < |log| && Kind(log[n]) != IntermediateFragment
    requires Start(units, j) <= n < Start(units, j) + |units[j]|
    ensures Start(units, j) + |units[j]| == n + 1 && Start(units, j) + |units[j]| <= |log|
    ensures units[j][|units[j]| - 1] == log[n]
  {
    hide Flatten;
    hide Start;
    UnitInLog(units, j, log);
    var at, u := Start(units, j), units[j];
    assert log[n] == u[n - at];
  }

  /** The first fragment of a cut that is not fresh is handed over with what was in its slot, and nothing
      else of the data is. */
  lemma FirstFragmentApart(p: Pair, data: seq<byte>, pad: seq<byte>, steps: seq<Step>, j: nat)
    requires Inv(p) && Enabled(p, Written(data, pad)) && IsCut(p.s, data) && !IsFreshCut(p.s, data)
    requires Runs(Next(p, Written(data, pad)), steps)
    requires var q := Final(Next(p, Written(data, pad)), steps);
      j < |q.units| && Start(q.units, j) < |Log(p.s)| <= Start(q.units, j) + |q.units[j]|
    ensures var q := Final(Next(p, Written(data, pad)), steps);
      && Start(q.units, j) + |q.units[j]| == |Log(p.s)| && |q.units[j]| > 0 && |p.s.Cut(data)| > 0
      && q.units[j][|q.units[j]| - 1] == Log(p.s)[|Log(p.s)| - 1] + (pad + p.s.Cut(data)[0])
  {
    hide *;
    StepInv(p, Written(data, pad));
    CutAllowed(p, data, pad);
    SplitByCut(p, data, pad);
    var w, cut, n := Next(p, Written(data, pad)), p.s.Cut(data), |Log(p.s)| - 1;
    var before := Log(p.s)[n := Log(p.s)[n] + (pad + cut[0])];
    RunInv(w, steps);
    RunGrows(w, steps);
    HandedIsWritten(Final(w, steps));
    FragmentsBehind(cut);
    GrowsTail(before, cut[1..], Log(Final(w, steps).s));
    UnitEnds(Final(w, steps).units, Log(Final(w, steps).s), j, n);
  }

  lemma FragmentsBehind(cut: seq<message>)
    requires |cut| >= 2
    ensures |cut[1..]| == |cut| - 1 >= 1
  {
  }

  /** The other fragments are handed over as a unit of their own, which the receiver takes for a message:
      the data from the end of the first fragment on. */
  lemma OtherFragmentsApart(p: Pair, data: seq<byte>, pad: seq<byte>, steps: seq<Step>, j: nat, f: nat)
    requires Inv(p) && Enabled(p, Written(data, pad)) && IsCut(p.s, data) && !IsFreshCut(p.s, data)
    requires Runs(Next(p, Written(data, pad)), steps)
    requires var q := Final(Next(p, Written(data, pad)), steps);
      j < |q.units| && Start(q.units, j) <= |Log(p.s)| + f < Start(q.units, j) + |q.units[j]|
    requires f < |p.s.Cut(data)| - 1
    ensures var w, n := Next(p, Written(data, pad)), |Log(p.s)| + |p.s.Cut(data)| - 2;
      var u := Final(w, steps).units[j];
      && Start(Final(w, steps).units, j) == |Log(p.s)| && |u| == |p.s.Cut(data)| - 1
      && 0 < p.s.FirstSize() < |data| && (forall m <- u :: |m| >= SUBHEADER_SIZE)
      && Join(u, SUBHEADER_SIZE) == data[p.s.FirstSize()..] + WrittenBehind(w, steps, n)
  {
    hide *;
    StepInv(p, Written(data, pad));
    CutAllowed(p, data, pad);
    SplitByCut(p, data, pad);
    CutRest(p.s, data);
    var w, cut, n := Next(p, Written(data, pad)), p.s.Cut(data), |Log(p.s)| - 1;
    var before := Log(p.s)[n := Log(p.s)[n] + (pad + cut[0])];
    FragmentsBehind(cut);
    RunHanded(w, steps, before, cut[1..], j, f);
  }

  /** A message that is cut is handed over as one unit exactly when the cut is fresh. */
  lemma OneUnitIfFresh(p: Pair, data: seq<byte>, pad: seq<byte>, steps: seq<Step>, j: nat)
    requires Inv(p) && Enabled(p, Written(data, pad)) && IsCut(p.s, data)
    requires Runs(Next(p, Written(data, pad)), steps)
    requires var q, i := Final(Next(p, Written(data, pad)), steps), p.s.PlaceOf(data).start;
      j < |q.units| && Start(q.units, j) <= i < Start(q.units, j) + |q.units[j]|
    ensures var q, i := Final(Next(p, Written(data, pad)), steps), p.s.PlaceOf(data).start;
      i + |p.s.Cut(data)| <= Start(q.units, j) + |q.units[j]| <==> IsFreshCut(p.s, data)
  {
    hide *;
    StepInv(p, Written(data, pad));
    CutAllowed(p, data, pad);
    if IsFreshCut(p.s, data) {
      FreshStart(p.s, data);
      FragmentedWriteArrives(p, data, pad, steps, j, 0);
    } else {
      SplitByCut(p, data, pad);
      FirstFragmentApart(p, data, pad, steps, j);
    }
  }

  /** The log after a write that is not cut: the data is a message of its own, or follows what the last slot
      holds. */
  lemma PlainInLog(s: Sender, data: seq<byte>, pad: seq<byte>)
    requires s.Valid() && Readable(data) && Kind(data) == NoFragmented && s.IsPadding(pad)
    requires s.Accepts(|data|) && !IsCut(s, data) && WellFormed(Log(s), s.cfg.history)
    ensures s.Write(data, pad).Valid()
    ensures var i, log := s.PlaceOf(data).start, Log(s.Write(data, pad));
      && 0 <= i < |log| && log[i] == (if i < |Log(s)| then Log(s)[i] + (pad + data) else data)
      && Readable(log[i]) && Kind(log[i]) != IntermediateFragment
  {
    WriteValid(s, data, pad);
    PlaceFits(s, data);
    PutLog(s, s.PlaceOf(data), pad);
    LogEnds(s);
    var i := s.PlaceOf(data).start;
    if i < |Log(s)| {
      KindOfAppended(Log(s)[i], pad + data);
    }
  }

  lemma MessageGrown(m: message, more: seq<byte>)
    requires Readable(m)
    ensures Kind(m + more) == Kind(m)
  {
    KindOfAppended(m, more);
  }

  lemma WrittenLog(p: Pair, data: seq<byte>, pad: seq<byte>)
    requires Inv(p) && CanStep(p, Written(data, pad))
    ensures p.s.Valid() && Readable(data) && Kind(data) == NoFragmented && p.s.IsPadding(pad)
    ensures WellFormed(Log(p.s), p.s.cfg.history) && Next(p, Written(data, pad)).s == p.s.Write(data, pad)
  {
    hide Log;
    hide WellFormed;
    hide Sender.Write;
  }

  /** And a submessage that is not cut: whatever is written later, and however the messages travel, the unit
      that contains its message ends there, with what was in the slot before, the submessage, and exactly
      what was written behind it. */
  lemma PlainWriteArrives(p: Pair, data: seq<byte>, pad: seq<byte>, steps: seq<Step>, j: nat)
    requires Inv(p) && Enabled(p, Written(data, pad)) && data != [] && p.s.Accepts(|data|) && !IsCut(p.s, data)
    requires Runs(Next(p, Written(data, pad)), steps)
    requires var q, i := Final(Next(p, Written(data, pad)), steps), p.s.PlaceOf(data).start;
      j < |q.units| && Start(q.units, j) <= i < Start(q.units, j) + |q.units[j]|
    ensures var w, i := Next(p, Written(data, pad)), p.s.PlaceOf(data).start;
      var q := Final(w, steps);
      && 0 <= i && Start(q.units, j) + |q.units[j]| == i + 1 && |q.units[j]| > 0
      && q.units[j][|q.units[j]| - 1]
         == (if i < |Log(p.s)| then Log(p.s)[i] + (pad + data) else data) + WrittenBehind(w, steps, i)
  {
    hide *;
    StepInv(p, Written(data, pad));
    WrittenLog(p, data, pad);
    PlainInLog(p.s, data, pad);
    var w, i := Next(p, Written(data, pad)), p.s.PlaceOf(data).start;
    RunInv(w, steps);
    RunAdds(w, steps, i);
    HandedIsWritten(Final(w, steps));
    MessageGrown(Log(w.s)[i], WrittenBehind(w, steps, i));
    UnitEnds(Final(w, steps).units, Log(Final(w, steps).s), j, i);
  }

  lemma FreshStart(s: Sender, data: seq<byte>)
    requires s.Valid() && data != [] && IsFreshCut(s, data)
    ensures s.PlaceOf(data).start == |Log(s)| && |s.Cut(data)| >= 2
  {
    hide Sender.Cut;
    CutFits(s, data);
    LogEnds(s);
  }
}
