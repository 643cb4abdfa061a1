/** The receiver of a reliable stream, counted with unbounded indices: what input_reliable_stream.c
    and read_stream of session.c do.

    Messages up to `handled` have been handed over; `stored` holds those of the window that follows
    which have arrived.  `announced` is the one number that stays on the 16-bit circle, because any
    number may be announced. */
module InputWindow {
  import opened SeqNum
  import Slots
  import opened Messages

  datatype Option<T> = None | Some(value: T)

  /** What uxr_receive_reliable_message reports: is there something to read, and is it the message
      itself rather than the stored ones? */
  datatype Received = Received(r: Receiver, direct: bool, ready: bool)

  datatype Delivery = Delivery(r: Receiver, units: seq<seq<message>>)

  datatype Receiver = Receiver(history: nat, handled: int, announced: SeqNum, stored: map<int, message>) {

    ghost predicate Valid() {
      && 0 < history <= 0x4000 && -1 <= handled
      && forall i <- stored :: handled < i <= handled + history && |stored[i]| >= SUBHEADER_SIZE
    }

    /** The index of the window that a number stands for, if any. */
    function IndexOf(seqNum: SeqNum): (i: Option<int>)
      ensures i.Some? ==> handled < i.value <= handled + history && Wire(i.value) == seqNum
    {
      var d := Ahead(Wire(handled), seqNum);
      if 1 <= d <= history then Some(handled + d) else None
    }

    predicate Stores(i: int, kind: FragmentationInfo) {
      i in stored && Kind(stored[i]) == kind
    }

    /** check_last_fragment, from index k on. */
    function LastFragmentFrom(k: int): (last: Option<int>)
      ensures last.Some? ==> k <= last.value <= handled + history && Stores(last.value, LastFragment)
                             && forall i | k <= i < last.value :: Stores(i, IntermediateFragment)
      ensures last.Some? ==> forall i | k <= i <= last.value :: i in stored
      decreases handled + history + 1 - k
    {
      if k > handled + history || k !in stored then None
      else match Kind(stored[k])
        case NoFragmented => None
        case LastFragment => Some(k)
        case IntermediateFragment => LastFragmentFrom(k + 1)
    }

    function CheckLastFragment(): Option<int> {
      LastFragmentFrom(handled + 1)
    }

    /** The stored messages that follow the last handled one. */
    function Run(n: nat): (unit: seq<message>)
      requires forall i | handled < i <= handled + n :: i in stored
      ensures |unit| == n && forall k | 0 <= k < n :: unit[k] == stored[handled + 1 + k]
    {
      seq(n, k requires 0 <= k < n => stored[handled + 1 + k])
    }

    /** What uxr_next_input_reliable_buffer_available hands over; nothing if it has nothing. */
    function NextUnit(): (unit: seq<message>)
      ensures unit != [] ==> forall k | 0 <= k < |unit| :: handled + 1 + k in stored && unit[k] == stored[handled + 1 + k]
    {
      if handled + 1 !in stored then []
      else if Kind(stored[handled + 1]) == NoFragmented then [stored[handled + 1]]
      else
        match CheckLastFragment()
        case None => []
        case Some(last) => Run(last - handled)
    }

    /** The receiver after its next unit has been read to the end. */
    function Deliver(): Receiver {
      var high := handled + |NextUnit()|;
      this.(handled := high, stored := map i | i in stored && high < i :: stored[i])
    }

    /** The loop of read_stream. */
    function DeliverAll(): (d: Delivery)
      decreases |stored|
    {
      var unit := NextUnit();
      if unit == [] then Delivery(this, [])
      else
        DeliverRemoves(this);
        var rest := Deliver().DeliverAll();
        Delivery(rest.r, [unit] + rest.units)
    }

    function Announce(seqNum: SeqNum): Receiver {
      if 0 > Cmp(announced, seqNum) then this.(announced := seqNum) else this
    }

    /** A plain message handled without being stored.  Should its slot be occupied, which takes a
        peer that gives one number to two messages, it stays so and counts for a later index. */
    function Pass(): Receiver {
      var next := handled + 1;
      this.(handled := next,
            stored := if next in stored then (stored - {next})[next + history := stored[next]] else stored)
    }

    /** uxr_receive_reliable_message. */
    function Receive(seqNum: SeqNum, m: message): Received {
      match IndexOf(seqNum)
      case None => Received(Announce(seqNum), false, false)
      case Some(i) =>
        if Kind(m) == NoFragmented && i == handled + 1 then Received(Pass().Announce(seqNum), true, true)
        else if i in stored then Received(Announce(seqNum), false, false)
        else
          var r := this.(stored := stored[i := m]);
          Received(r.Announce(seqNum), false, Kind(m) != NoFragmented && r.CheckLastFragment().Some?)
    }

    /** read_stream: what is handed over because a message arrives. */
    function ReadStream(seqNum: SeqNum, m: message): Delivery {
      var a := Receive(seqNum, m);
      if !a.ready then Delivery(a.r, [])
      else
        var d := a.r.DeliverAll();
        Delivery(d.r, (if a.direct then [[m]] else []) + d.units)
    }

    /** Nothing is left to hand over. */
    predicate Quiescent() {
      NextUnit() == []
    }

    /** uxr_get_first_unacked, from index k on. */
    function FirstUnackedFrom(k: int): (first: int)
      requires handled < k
      ensures k <= handled + history + 1 ==>
                if first == handled then forall i | k <= i <= handled + history :: i in stored
                else k <= first <= handled + history && first !in stored && forall i | k <= i < first :: i in stored
      decreases handled + history + 1 - k
    {
      if k > handled + history then handled
      else if k !in stored then k
      else FirstUnackedFrom(k + 1)
    }

    function FirstUnacked(): int {
      FirstUnackedFrom(handled + 1)
    }

    /** How many numbers an ACKNACK looks at. */
    function BuffersToAck(): SeqNum {
      Sub(announced, Sub(Wire(FirstUnacked()), 1))
    }

    /** The index of the window that has the same slot as i. */
    function InWindow(i: int): (k: int)
      requires 0 < history
      ensures handled < k <= handled + history
      ensures handled < i <= handled + history ==> k == i
    {
      Slots.ModOfMultiple(if handled < i <= handled + history then i - handled - 1 else 0, history, 0);
      handled + 1 + (i - handled - 1) % history
    }

    predicate SlotEmpty(i: int)
      requires 0 < history
    {
      InWindow(i) !in stored
    }

    /** What uxr_compute_acknack may report.  Bits 0 to 15 are those of the first missing numbers;
        1 << i is defined only for i < 31, so that more than 31 numbers leave the rest open. */
    ghost predicate IsBitmap(bits: seq<bool>)
      requires 0 < history
    {
      && |bits| == 16
      && (forall i | 0 <= i < 16 && i < BuffersToAck() && SlotEmpty(FirstUnacked() + i) :: bits[i])
      && (BuffersToAck() <= 31 ==>
            forall i | 0 <= i < 16 && bits[i] :: i < BuffersToAck() && SlotEmpty(FirstUnacked() + i))
      && (BuffersToAck() == 0 ==> forall i | 0 <= i < 16 :: !bits[i])
    }
  }

  /** A bitmap as a 16-bit number, bit 0 being the least significant one. */
  function BitmapValue(bits: seq<bool>): (n: SeqNum)
    requires |bits| <= 16
    ensures n < [1, 2, 4, 8, 0x10, 0x20, 0x40, 0x80, 0x100, 0x200, 0x400, 0x800, 0x1000, 0x2000, 0x4000, 0x8000,
                 0x1_0000][|bits|]
    ensures n > 0 <==> exists i :: 0 <= i < |bits| && bits[i]
  {
    if bits == [] then 0
    else
      var high := BitmapValue(bits[1..]);
      assert forall i | 0 < i < |bits| :: bits[i] == bits[1..][i - 1];
      (if bits[0] then 1 else 0) + 2 * high
  }

  function InitReceiver(history: nat): Receiver {
    Receiver(history, -1, SEQ_NUM_MAX, map[])
  }

  /** A reset receiver waits for number 0, has nothing to hand over and asks for nothing. */
  lemma InitReceives(history: nat)
    requires 0 < history <= 0x4000
    ensures var r := InitReceiver(history);
      r.Valid() && Wire(r.FirstUnacked()) == 0 && r.Quiescent() && r.BuffersToAck() == 0
  {
    var r := InitReceiver(history);
    assert r.FirstUnacked() == r.FirstUnackedFrom(0) == 0;
  }

  lemma DeliverRemoves(r: Receiver)
    requires r.NextUnit() != []
    ensures |r.Deliver().stored| < |r.stored|
  {
    var kept, all := r.Deliver().stored.Keys, r.stored.Keys;
    assert all == kept + (all - kept) && r.handled + 1 in all - kept;
  }
}

/** What every operation of the receiver keeps. */
module InputInvariants {
  import opened SeqNum
  import opened Messages
  import opened InputWindow
  import opened OutputInvariants

  /** check_last_fragment finds exactly the end of an unbroken run of fragments. */
  ghost predicate IsRunTo(r: Receiver, last: int) {
    && r.handled < last <= r.handled + r.history && r.Stores(last, LastFragment)
    && forall i | r.handled < i < last :: r.Stores(i, IntermediateFragment)
  }

  lemma SearchFinds(r: Receiver, last: int)
    ensures r.CheckLastFragment() == Some(last) <==> IsRunTo(r, last)
  {
    if IsRunTo(r, last) {
      SearchFindsFrom(r, r.handled + 1, last);
    }
  }

  lemma {:induction false} SearchFindsFrom(r: Receiver, k: int, last: int)
    requires IsRunTo(r, last) && r.handled < k <= last
    ensures r.LastFragmentFrom(k) == Some(last)
    decreases last - k
  {
    if k < last {
      assert r.Stores(k, IntermediateFragment);
      SearchFindsFrom(r, k + 1, last);
    }
  }

  /** The search looks at one slot after the other, round the ring: it has not stopped after n slots
      when all of these hold intermediate fragments. */
  ghost predicate SearchRunsOn(r: Receiver, n: nat)
    requires r.Valid()
  {
    forall j: nat | j < n :: SlotRuns(r, j)
  }

  ghost predicate SlotRuns(r: Receiver, j: nat)
    requires r.Valid()
  {
    r.Stores(r.InWindow(r.handled + 1 + j), IntermediateFragment)
  }

  /** Not every slot of the window is a stored intermediate fragment. */
  ghost predicate Searchable(r: Receiver) {
    exists i :: r.handled < i <= r.handled + r.history && !r.Stores(i, IntermediateFragment)
  }

  /** The search of check_last_fragment ends exactly when some slot is not an intermediate fragment. */
  lemma SearchEnds(r: Receiver)
    requires r.Valid()
    ensures (exists n: nat :: !SearchRunsOn(r, n)) <==> Searchable(r)
  {
    hide Receiver.InWindow;
    hide Receiver.Stores;
    if n: nat :| !SearchRunsOn(r, n) {
      var j: nat :| j < n && !SlotRuns(r, j);
      assert r.handled < r.InWindow(r.handled + 1 + j) <= r.handled + r.history;
    }
    if i :| r.handled < i <= r.handled + r.history && !r.Stores(i, IntermediateFragment) {
      var j := i - r.handled - 1;
      assert r.InWindow(r.handled + 1 + j) == i;
      assert !SlotRuns(r, j);
      assert !SearchRunsOn(r, j + 1);
    }
  }

  function Flatten(units: seq<seq<message>>): seq<message> {
    if units == [] then [] else units[0] + Flatten(units[1..])
  }

  lemma {:induction false} FlattenAppend(a: seq<seq<message>>, b: seq<seq<message>>)
    ensures Flatten(a + b) == Flatten(a) + Flatten(b)
  {
    if a == [] {
      assert a + b == b;
    } else {
      FlattenAppend(a[1..], b);
      assert (a + b)[0] == a[0] && (a + b)[1..] == a[1..] + b;
      Associates(a[0], Flatten(a[1..]), Flatten(b));
    }
  }

  lemma Associates(a: seq<message>, b: seq<message>, c: seq<message>)
    ensures a + (b + c) == a + b + c
  {
  }

  /** Everything stored is a message of the log, under its own index. */
  ghost predicate Agrees(r: Receiver, log: seq<message>) {
    && r.Valid() && r.handled < |log|
    && (forall m <- log :: Readable(m))
    && forall i <- r.stored :: i < |log| && r.stored[i] == log[i]
  }

  ghost predicate AreUnits(units: seq<seq<message>>) {
    forall u <- units :: IsUnit(u)
  }

  /** What is handed over next is the next piece of the log, and a unit. */
  lemma NextUnitIsLog(r: Receiver, log: seq<message>)
    requires Agrees(r, log) && r.NextUnit() != []
    ensures IsUnit(r.NextUnit())
    ensures r.handled + |r.NextUnit()| < |log| && r.handled + |r.NextUnit()| <= r.handled + r.history
    ensures r.NextUnit() == log[r.handled + 1..r.handled + 1 + |r.NextUnit()|]
  {
    hide Readable;
    hide Kind;
    var u, low := r.NextUnit(), r.handled + 1;
    NextUnitKinds(r);
    assert low + (|u| - 1) in r.stored;
    forall k | 0 <= k < |u|
      ensures u[k] == log[low + k] && Readable(u[k])
    {
      assert low + k in r.stored && log[low + k] in log;
    }
    assert forall m <- u :: Readable(m);
  }

  lemma NextUnitKinds(r: Receiver)
    requires r.Valid() && r.NextUnit() != []
    ensures var u := r.NextUnit();
      && r.handled + |u| <= r.handled + r.history
      && (forall k | 0 <= k < |u| - 1 :: Kind(u[k]) == IntermediateFragment)
      && Kind(u[|u| - 1]) != IntermediateFragment && (|u| > 1 ==> Kind(u[|u| - 1]) == LastFragment)
  {
    hide Kind;
    var u := r.NextUnit();
    assert r.handled + 1 + (|u| - 1) in r.stored;
    if Kind(r.stored[r.handled + 1]) != NoFragmented {
      var last := r.CheckLastFragment().value;
      assert IsRunTo(r, last) by { SearchFinds(r, last); }
      forall k | 0 <= k < |u| - 1
        ensures Kind(u[k]) == IntermediateFragment
      {
        assert r.Stores(r.handled + 1 + k, IntermediateFragment);
      }
    }
  }

  /** What a receiver has after it has handed `units` over, starting from r. */
  ghost predicate Delivered(r: Receiver, d: Delivery, log: seq<message>) {
    && Agrees(r, log) && Agrees(d.r, log) && d.r.Quiescent()
    && d.r.history == r.history && d.r.announced == r.announced && r.handled <= d.r.handled
    && AreUnits(d.units) && Flatten(d.units) == log[r.handled + 1..d.r.handled + 1]
    && forall i <- r.stored :: i <= d.r.handled || i in d.r.stored
  }

  lemma DeliverAgrees(r: Receiver, log: seq<message>)
    requires Agrees(r, log) && r.NextUnit() != []
    ensures Agrees(r.Deliver(), log)
    ensures r.Deliver().handled == r.handled + |r.NextUnit()|
    ensures r.Deliver().history == r.history && r.Deliver().announced == r.announced
    ensures forall i <- r.stored :: i <= r.Deliver().handled || i in r.Deliver().stored
  {
    NextUnitIsLog(r, log);
    hide Receiver.NextUnit;
  }

  lemma SliceInTwo(log: seq<message>, a: int, b: int, c: int)
    requires 0 <= a <= b <= c <= |log|
    ensures log[a..c] == log[a..b] + log[b..c]
  {
  }

  lemma FlattenFirst(u: seq<message>, units: seq<seq<message>>)
    ensures Flatten([u] + units) == u + Flatten(units)
    ensures IsUnit(u) && AreUnits(units) ==> AreUnits([u] + units)
  {
    assert ([u] + units)[1..] == units;
  }

  lemma AgreesBounds(r: Receiver, log: seq<message>)
    requires Agrees(r, log)
    ensures -1 <= r.handled < |log|
  {
  }

  /** A unit is handed over, and then the rest. */
  lemma DeliveredStep(r: Receiver, d: Delivery, log: seq<message>)
    requires Agrees(r, log) && r.NextUnit() != [] && Delivered(r.Deliver(), d, log)
    ensures Delivered(r, Delivery(d.r, [r.NextUnit()] + d.units), log)
  {
    hide Receiver.NextUnit;
    hide Receiver.Deliver;
    hide IsUnit;
    hide Receiver.Quiescent;
    hide Agrees;
    hide Receiver.Valid;
    hide Flatten;
    hide AreUnits;
    NextUnitIsLog(r, log);
    DeliverAgrees(r, log);
    AgreesBounds(r, log);
    AgreesBounds(r.Deliver(), log);
    AgreesBounds(d.r, log);
    var u, next := r.NextUnit(), r.Deliver();
    SliceInTwo(log, r.handled + 1, next.handled + 1, d.r.handled + 1);
    FlattenFirst(u, d.units);
    forall i <- r.stored
      ensures i <= d.r.handled || i in d.r.stored
    {
      assert i <= next.handled || i in next.stored;
    }
  }

  lemma {:induction false} DeliverAllIsLog(r: Receiver, log: seq<message>)
    requires Agrees(r, log)
    ensures Delivered(r, r.DeliverAll(), log)
    decreases |r.stored|
  {
    hide Delivered;
    if r.NextUnit() == [] {
      NothingDelivered(r, log);
    } else {
      DeliverAgrees(r, log);
      DeliverRemoves(r);
      DeliverAllIsLog(r.Deliver(), log);
      DeliveredStep(r, r.Deliver().DeliverAll(), log);
    }
  }

  lemma NothingDelivered(r: Receiver, log: seq<message>)
    requires Agrees(r, log) && r.Quiescent()
    ensures Delivered(r, Delivery(r, []), log)
  {
    assert log[r.handled + 1..r.handled + 1] == [];
  }

  /** What is announced does not matter for what is handed over. */
  lemma AnnounceKeeps(r: Receiver, seqNum: SeqNum)
    ensures r.Announce(seqNum).NextUnit() == r.NextUnit()
    ensures r.Announce(seqNum).CheckLastFragment() == r.CheckLastFragment()
    ensures r.Announce(seqNum) == r.(announced := r.Announce(seqNum).announced)
  {
    assert forall i, kind :: r.Announce(seqNum).Stores(i, kind) == r.Stores(i, kind);
    SameSearch(r, r.Announce(seqNum));
  }

  /** The result of the search is a matter of the stored fragments alone. */
  lemma SameSearch(r: Receiver, t: Receiver)
    requires forall last :: IsRunTo(r, last) <==> IsRunTo(t, last)
    ensures r.CheckLastFragment() == t.CheckLastFragment()
  {
    match (r.CheckLastFragment(), t.CheckLastFragment())
    case (None, None) =>
    case (Some(last), _) =>
      SearchFinds(r, last);
      SearchFinds(t, last);
    case (None, Some(last)) =>
      SearchFinds(r, last);
      SearchFinds(t, last);
  }

  /** Storing a plain message ahead of the next one makes nothing ready. */
  lemma PlainStored(r: Receiver, i: int, m: message)
    requires r.Quiescent() && i !in r.stored && Kind(m) == NoFragmented && i != r.handled + 1
    ensures r.(stored := r.stored[i := m]).Quiescent()
  {
    var t := r.(stored := r.stored[i := m]);
    forall last
      ensures IsRunTo(r, last) <==> IsRunTo(t, last)
    {
      if IsRunTo(t, last) {
        assert t.Stores(i, NoFragmented);
        forall j | r.handled < j < last
          ensures r.Stores(j, IntermediateFragment)
        {
          assert t.Stores(j, IntermediateFragment);
        }
      }
      if IsRunTo(r, last) {
        forall j | r.handled < j < last
          ensures t.Stores(j, IntermediateFragment)
        {
          assert r.Stores(j, IntermediateFragment);
        }
      }
    }
    SameSearch(r, t);
  }

  /** A message of the log that is young enough to be told from a new one. */
  ghost predicate InAge(r: Receiver, i: int) {
    r.handled - (SEQ_NUM_SIZE - r.history) < i <= r.handled + 0x8000
  }

  /** Announcing index b after index a leaves the later of the two announced exactly when they are less
      than half the circle apart, or a is ahead by exactly half. */
  lemma AnnounceOrders(r: Receiver, a: int, b: int)
    requires r.announced == Wire(a) && -SEQ_NUM_SIZE < a - b < SEQ_NUM_SIZE
    ensures r.Announce(Wire(b)).announced == Wire(if a < b then b else a)
            <==> -SEQ_NUM_MIDSIZE < a - b <= SEQ_NUM_MIDSIZE
  {
    CmpRefines(a, b);
    SameNumber(a, b);
  }

  /** So a message, wherever it comes in, is taken for the last one announced exactly then. */
  lemma ReceiveAnnounces(r: Receiver, a: int, i: int, m: message)
    requires r.announced == Wire(a) && -SEQ_NUM_SIZE < a - i < SEQ_NUM_SIZE
    ensures r.Receive(Wire(i), m).r.announced == Wire(if a < i then i else a)
            <==> -SEQ_NUM_MIDSIZE < a - i <= SEQ_NUM_MIDSIZE
  {
    hide Receiver.CheckLastFragment;
    hide Receiver.IndexOf;
    AnnounceOrders(r, a, i);
  }

  /** An old message inside the age bound that takes the last announced number back. */
  lemma OldMessageAnnounced(history: nat, m: message)
    requires 0 < history <= 0x4000
    ensures var r := Receiver(history, 40000, Wire(40000), map[]);
      && r.Valid() && r.Quiescent() && InAge(r, 100)
      && r.Receive(Wire(100), m).r == r.(announced := Wire(100))
  {
    var r := Receiver(history, 40000, Wire(40000), map[]);
    WindowDecodes(r.handled, 100, history);
    assert Cmp(r.announced, Wire(100)) < 0;
  }

  /** Whatever arrives, from whatever peer: outside the window it changes nothing but the announced
      number; inside, it is handled or stored under its own index.  That nothing else appears in the
      window holds exactly when no plain message is handled over an occupied slot. */
  lemma ReceiveInWindow(r: Receiver, seqNum: SeqNum, m: message)
    requires r.Valid() && |m| >= SUBHEADER_SIZE
    ensures r.Receive(seqNum, m).r.Valid()
    ensures !(1 <= Ahead(Wire(r.handled), seqNum) <= r.history) ==>
              r.Receive(seqNum, m) == Received(r.Announce(seqNum), false, false)
              && r.Announce(seqNum) == r.(announced := r.Announce(seqNum).announced)
    ensures var a := r.Receive(seqNum, m);
      && (a.r.handled == r.handled || (a.direct && a.r.handled == r.handled + 1 && Wire(a.r.handled) == seqNum))
      && ((forall k <- a.r.stored ::
             if k in r.stored then a.r.stored[k] == r.stored[k] else Wire(k) == seqNum && a.r.stored[k] == m)
          <==> !(a.direct && r.handled + 1 in r.stored))
    ensures var a, i := r.Receive(seqNum, m), r.handled + Ahead(Wire(r.handled), seqNum);
      r.handled < i <= r.handled + r.history ==>
        if i in r.stored && !(i == r.handled + 1 && Kind(m) == NoFragmented) then a.r.stored == r.stored
        else i == a.r.handled || (i in a.r.stored && a.r.stored[i] == m)
    ensures forall k <- r.stored :: k == r.handled + 1 || (k in r.Receive(seqNum, m).r.stored
                                                          && r.Receive(seqNum, m).r.stored[k] == r.stored[k])
  {
    hide Receiver.CheckLastFragment;
    var a := r.Receive(seqNum, m);
    if a.direct && r.handled + 1 in r.stored {
      var k := r.handled + 1 + r.history;
      assert k in a.r.stored && k !in r.stored;
      SameNumber(k, r.handled + 1);
    }
  }

  /** What a received message does before anything is handed over. */
  ghost predicate Accepted(r: Receiver, i: int, a: Received, log: seq<message>)
    requires 0 <= i < |log|
  {
    && Agrees(a.r, log) && a.r.history == r.history
    && a.r.handled == (if a.direct then r.handled + 1 else r.handled)
    && (a.direct ==> a.ready && i == r.handled + 1 && Kind(log[i]) == NoFragmented)
    && (!a.ready ==> a.r.Quiescent())
    && (forall k <- r.stored :: k <= a.r.handled || k in a.r.stored)
    && (r.handled < i <= r.handled + r.history ==> i <= a.r.handled || i in a.r.stored)
    && (forall k <- a.r.stored :: k == i || k in r.stored)
  }

  lemma ReceiveAgrees(r: Receiver, i: int, log: seq<message>)
    requires Agrees(r, log) && r.Quiescent() && 0 <= i < |log| && InAge(r, i)
    ensures Accepted(r, i, r.Receive(Wire(i), log[i]), log)
  {
    hide Receiver.NextUnit;
    hide Receiver.CheckLastFragment;
    hide Receiver.Announce;
    hide Kind;
    WindowDecodes(r.handled, i, r.history);
    var m := log[i];
    if !(r.handled < i <= r.handled + r.history) {
      AnnounceKeeps(r, Wire(i));
    } else if Kind(m) == NoFragmented && i == r.handled + 1 {
      NotStored(r, log);
      AnnounceKeeps(r.Pass(), Wire(i));
    } else if i in r.stored {
      AnnounceKeeps(r, Wire(i));
    } else {
      StoredAgrees(r, i, log);
    }
  }

  lemma StoredAgrees(r: Receiver, i: int, log: seq<message>)
    requires Agrees(r, log) && r.Quiescent() && 0 <= i < |log| && r.handled < i <= r.handled + r.history
    requires i !in r.stored && (Kind(log[i]) == NoFragmented ==> i != r.handled + 1)
    ensures var t := r.(stored := r.stored[i := log[i]]);
      var ready := Kind(log[i]) != NoFragmented && t.CheckLastFragment().Some?;
      Accepted(r, i, Received(t.Announce(Wire(i)), false, ready), log)
  {
    hide Receiver.NextUnit;
    hide Receiver.CheckLastFragment;
    hide Receiver.Announce;
    hide Kind;
    var m := log[i];
    var t := r.(stored := r.stored[i := m]);
    AnnounceKeeps(t, Wire(i));
    assert Readable(m) by { assert m in log; }
    if Kind(m) == NoFragmented {
      PlainStored(r, i, m);
    } else if t.CheckLastFragment().None? {
      FragmentStored(r, i, m);
    }
  }

  lemma NotStored(r: Receiver, log: seq<message>)
    requires Agrees(r, log) && r.Quiescent() && r.handled + 1 < |log| && Kind(log[r.handled + 1]) == NoFragmented
    ensures r.handled + 1 !in r.stored
  {
  }

  lemma FragmentStored(r: Receiver, i: int, m: message)
    requires r.Quiescent() && i !in r.stored && Kind(m) != NoFragmented
    requires r.(stored := r.stored[i := m]).CheckLastFragment() == None
    ensures r.(stored := r.stored[i := m]).Quiescent()
  {
  }

  /** A message of the log arrives, however late or often: what is handed over continues the log,
      in units, and nothing that was stored is lost. */
  ghost predicate Advanced(r: Receiver, d: Delivery, log: seq<message>)
    requires r.Valid()
  {
    && Agrees(d.r, log) && d.r.Quiescent() && d.r.history == r.history && r.handled <= d.r.handled
    && AreUnits(d.units) && Flatten(d.units) == log[r.handled + 1..d.r.handled + 1]
    && forall k <- r.stored :: k <= d.r.handled || k in d.r.stored
  }

  lemma ReadStreamIsLog(r: Receiver, i: int, log: seq<message>)
    requires Agrees(r, log) && r.Quiescent() && 0 <= i < |log| && InAge(r, i)
    ensures Advanced(r, r.ReadStream(Wire(i), log[i]), log)
    ensures var t := r.ReadStream(Wire(i), log[i]).r;
      r.handled < i <= r.handled + r.history ==> i <= t.handled || i in t.stored
  {
    ReceiveAgrees(r, i, log);
    var a := r.Receive(Wire(i), log[i]);
    if !a.ready {
      assert log[r.handled + 1..r.handled + 1] == [];
    } else {
      DeliverAllIsLog(a.r, log);
      Composed(r, i, a, a.r.DeliverAll(), log);
    }
  }

  lemma Composed(r: Receiver, i: int, a: Received, d: Delivery, log: seq<message>)
    requires Agrees(r, log) && 0 <= i < |log| && a.ready && Accepted(r, i, a, log) && Delivered(a.r, d, log)
    ensures Advanced(r, Delivery(d.r, (if a.direct then [[log[i]]] else []) + d.units), log)
    ensures r.handled < i <= r.handled + r.history ==> i <= d.r.handled || i in d.r.stored
  {
    AgreesBounds(r, log);
    AgreesBounds(a.r, log);
    AgreesBounds(d.r, log);
    hide Receiver.Quiescent;
    hide Agrees;
    hide Flatten;
    hide AreUnits;
    hide Kind;
    if a.direct {
      DirectAndUnits(log, i, d.units, d.r.handled);
    } else {
      assert [] + d.units == d.units;
    }
    forall k <- r.stored
      ensures k <= d.r.handled || k in d.r.stored
    {
      assert k <= a.r.handled || k in a.r.stored;
    }
  }

  lemma DirectAndUnits(log: seq<message>, i: int, units: seq<seq<message>>, handled: int)
    requires 0 <= i <= handled < |log| && Readable(log[i]) && Kind(log[i]) == NoFragmented
    requires AreUnits(units) && Flatten(units) == log[i + 1..handled + 1]
    ensures AreUnits([[log[i]]] + units) && Flatten([[log[i]]] + units) == log[i..handled + 1]
  {
    hide AreUnits;
    hide Flatten;
    hide Kind;
    SingleUnit(log[i], units);
    assert log[i..handled + 1] == [log[i]] + log[i + 1..handled + 1];
  }

  lemma SingleUnit(m: message, units: seq<seq<message>>)
    requires AreUnits(units) && Readable(m) && Kind(m) == NoFragmented
    ensures AreUnits([[m]] + units) && Flatten([[m]] + units) == [m] + Flatten(units)
  {
    FlattenFirst([m], units);
  }

  /** The end of the run that starts at index low. */
  lemma {:induction false} RunEnd(log: seq<message>, low: nat, high: nat) returns (k: nat)
    requires high <= |log| && RunEnds(log, low, high)
    ensures low <= k < high && Kind(log[k]) != IntermediateFragment
    ensures forall i | low <= i < k :: Kind(log[i]) == IntermediateFragment
    decreases high - low
  {
    if Kind(log[low]) != IntermediateFragment {
      k := low;
    } else {
      var j :| low <= j < high && Kind(log[j]) != IntermediateFragment;
      assert RunEnds(log, low + 1, high);
      k := RunEnd(log, low + 1, high);
    }
  }

  /** The receiver can always search: runs of fragments are no longer than its window. */
  lemma AlwaysSearchable(r: Receiver, log: seq<message>)
    requires Agrees(r, log) && FragmentsFollow(log, r.history)
    ensures Searchable(r)
  {
    var low, high := r.handled + 1, r.handled + 1 + r.history;
    if i :| r.handled < i <= r.handled + r.history && i !in r.stored {
      assert !r.Stores(i, IntermediateFragment);
    } else {
      assert high - 1 in r.stored;
      assert RunEnds(log, low, low + r.history);
      var k := RunEnd(log, low, high);
      assert k in r.stored && !r.Stores(k, IntermediateFragment);
    }
  }

  /** Something of the window is always missing when nothing is left to hand over. */
  lemma NeverFull(r: Receiver, log: seq<message>)
    requires Agrees(r, log) && FragmentsFollow(log, r.history) && r.Quiescent()
    ensures r.handled < r.FirstUnacked() <= r.handled + r.history && r.FirstUnacked() !in r.stored
    ensures forall i | r.handled < i < r.FirstUnacked() :: i in r.stored
    ensures r.FirstUnacked() <= |log|
  {
    var low, high := r.handled + 1, r.handled + 1 + r.history;
    if r.FirstUnacked() == r.handled {
      assert high - 1 in r.stored;
      assert RunEnds(log, low, low + r.history);
      var k := RunEnd(log, low, high);
      FullRun(r, log, k);
    }
    assert r.handled < r.FirstUnacked() - 1 ==> r.FirstUnacked() - 1 in r.stored;
  }

  lemma FullRun(r: Receiver, log: seq<message>, last: int)
    requires Agrees(r, log) && FragmentsFollow(log, r.history)
    requires r.handled < last < |log| && last <= r.handled + r.history && Kind(log[last]) != IntermediateFragment
    requires forall i | r.handled < i <= last :: i in r.stored
    requires forall i | r.handled < i < last :: Kind(log[i]) == IntermediateFragment
    ensures !r.Quiescent()
  {
    if last > r.handled + 1 {
      assert Kind(log[last - 1]) == IntermediateFragment && Kind(log[last]) == LastFragment;
      assert IsRunTo(r, last);
      SearchFinds(r, last);
    } else if Kind(log[last]) == LastFragment {
      assert IsRunTo(r, last);
      SearchFinds(r, last);
    }
  }

  /** The first missing number never goes back. */
  lemma FirstGrows(r: Receiver, d: Delivery, log: seq<message>)
    requires Agrees(r, log) && FragmentsFollow(log, r.history) && r.Quiescent() && Advanced(r, d, log)
    ensures r.FirstUnacked() <= d.r.FirstUnacked()
  {
    NeverFull(r, log);
    NeverFull(d.r, log);
  }

  /** Once a message has arrived that is no later than the first missing one, that one is later. */
  lemma MissingArrives(r: Receiver, i: int, log: seq<message>)
    requires Agrees(r, log) && FragmentsFollow(log, r.history) && r.Quiescent()
    requires 0 <= i < |log| && InAge(r, i) && i <= r.FirstUnacked()
    ensures i + 1 <= r.ReadStream(Wire(i), log[i]).r.FirstUnacked()
  {
    hide Receiver.ReadStream;
    hide Receiver.FirstUnacked;
    hide Receiver.Quiescent;
    hide FragmentsFollow;
    hide IsUnit;
    ReadStreamIsLog(r, i, log);
    NeverFull(r, log);
    NeverFull(r.ReadStream(Wire(i), log[i]).r, log);
    FirstGrows(r, r.ReadStream(Wire(i), log[i]), log);
  }

  ghost predicate StoresReadable(r: Receiver) {
    forall i <- r.stored :: Readable(r.stored[i])
  }

  /** The searches made while one unit after the other is handed over end. */
  ghost predicate SearchesEnd(r: Receiver)
    decreases |r.stored|
  {
    Searchable(r) && (r.NextUnit() != [] ==> (DeliverRemoves(r); SearchesEnd(r.Deliver())))
  }

  /** In a pair of streams the searches always end. */
  lemma {:induction false} SearchesAlwaysEnd(r: Receiver, log: seq<message>)
    requires Agrees(r, log) && FragmentsFollow(log, r.history)
    ensures SearchesEnd(r) && StoresReadable(r)
    decreases |r.stored|
  {
    AlwaysSearchable(r, log);
    forall i <- r.stored
      ensures Readable(r.stored[i])
    {
      assert log[i] in log;
    }
    if r.NextUnit() != [] {
      DeliverAgrees(r, log);
      DeliverRemoves(r);
      SearchesAlwaysEnd(r.Deliver(), log);
    }
  }

  /** What an ACKNACK says, for announced numbers inside the window: everything before the first number
      has been handled or stored, and bit i says that the i-th number from it is missing.  With more
      than 31 numbers announced a bit may also be set for no reason. */
  lemma AckNackExact(r: Receiver, bits: seq<bool>, last: int)
    requires r.Valid() && r.IsBitmap(bits) && r.FirstUnacked() != r.handled
    requires r.announced == Wire(last) && r.FirstUnacked() - 1 <= last <= r.handled + r.history
    ensures forall i | r.handled < i < r.FirstUnacked() :: i in r.stored
    ensures forall i | 0 <= i < 16 :: r.FirstUnacked() + i <= last && r.FirstUnacked() + i !in r.stored ==> bits[i]
    ensures last - (r.FirstUnacked() - 1) <= 31 ==>
              forall i | 0 <= i < 16 :: bits[i] <==> r.FirstUnacked() + i <= last && r.FirstUnacked() + i !in r.stored
  {
    hide Receiver.FirstUnackedFrom;
    hide Receiver.InWindow;
    hide Wire;
    hide Sub;
    FirstUnackedStored(r);
    BuffersAnnounced(r, last);
    forall k | r.FirstUnacked() <= k <= last
      ensures r.SlotEmpty(k) <==> k !in r.stored
    {
      assert r.InWindow(k) == k;
    }
  }

  lemma FirstUnackedStored(r: Receiver)
    requires r.Valid() && r.FirstUnacked() != r.handled
    ensures r.handled < r.FirstUnacked() <= r.handled + r.history
    ensures forall i | r.handled < i < r.FirstUnacked() :: i in r.stored
  {
  }

  lemma BuffersAnnounced(r: Receiver, last: int)
    requires r.announced == Wire(last) && r.FirstUnacked() - 1 <= last < r.FirstUnacked() - 1 + SEQ_NUM_SIZE
    ensures r.BuffersToAck() == last - (r.FirstUnacked() - 1)
  {
    hide Receiver.FirstUnacked;
    var first := r.FirstUnacked();
    AddSubRefine(first, 1);
    SubIsAhead(Wire(last), Wire(first - 1));
    AheadOfIndices(first - 1, last);
  }
}
