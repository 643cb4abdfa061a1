/** input_reliable_stream.c and read_stream of session.c.

    The class keeps the 16-bit fields and the octet buffer of the original; `view` counts the same
    window with unbounded indices, and every contract says what happens to `view`. */
module InputReliableStream {
  import opened SeqNum
  import opened Slots
  import opened Messages
  import opened CommonReliableStream
  import opened InputWindow
  import opened InputInvariants
  import opened InputSlots

  /** The octets that read_submessage_list is given for a unit. */
  function Handed(unit: seq<message>): seq<byte>
    requires unit != [] && forall m <- unit :: |m| >= SUBHEADER_SIZE
  {
    Join(unit, Skip(unit))
  }

  /** The subheaders of fragments are skipped. */
  function Skip(unit: seq<message>): nat
    requires unit != []
  {
    if Kind(unit[0]) == NoFragmented then 0 else SUBHEADER_SIZE
  }

  /** What is handed over of a plain message is the message, and of the fragments of some data that data. */
  lemma HandedWhole(data: seq<byte>, first: nat, block: nat)
    requires Readable(data) && 0 < first < SEQ_NUM_SIZE && 0 < block < SEQ_NUM_SIZE
    ensures forall m <- Fragments(data, first, block) :: |m| >= SUBHEADER_SIZE
    ensures Handed(Fragments(data, first, block)) == data
    ensures Kind(data) == NoFragmented ==> Handed([data]) == data
  {
    JoinFragments(data, first, block);
    FragmentsShape(data, first, block);
    hide Fragments;
    hide Kind;
    hide ReadsAs;
    var fs := Fragments(data, first, block);
    assert FragmentAt(fs, 0, first, block);
    assert Skip(fs) == SUBHEADER_SIZE;
    if Kind(data) == NoFragmented {
      var one: seq<message> := [data];
      assert one[1..] == [] && Join(one, 0) == data[0..] + Join([], 0);
      assert data[0..] == data && data + [] == data;
    }
  }

  ghost predicate Joinable(unit: seq<message>) {
    unit != [] && forall m <- unit :: Readable(m)
  }

  ghost predicate AllJoinable(units: seq<seq<message>>) {
    forall u <- units :: Joinable(u)
  }

  function HandedAll(units: seq<seq<message>>): seq<seq<byte>>
    requires AllJoinable(units)
  {
    if units == [] then [] else assert Joinable(units[0]); [Handed(units[0])] + HandedAll(units[1..])
  }

  lemma {:induction false} HandedMore(units: seq<seq<message>>, unit: seq<message>)
    requires AllJoinable(units) && Joinable(unit)
    ensures AllJoinable(units + [unit]) && HandedAll(units + [unit]) == HandedAll(units) + [Handed(unit)]
  {
    var all := units + [unit];
    if units == [] {
      assert all[1..] == [] && all[0] == unit;
      var one: seq<seq<message>> := [unit];
      assert all == one;
    } else {
      assert all[1..] == units[1..] + [unit] && all[0] == units[0];
      HandedMore(units[1..], unit);
    }
  }

  lemma {:induction false} HandedAppend(a: seq<seq<message>>, b: seq<seq<message>>)
    requires AllJoinable(a) && AllJoinable(b)
    ensures AllJoinable(a + b) && HandedAll(a + b) == HandedAll(a) + HandedAll(b)
  {
    hide Handed;
    hide Joinable;
    if b == [] {
      assert a + b == a;
    } else {
      var n := |b| - 1;
      HandedAppend(a, b[..n]);
      HandedMore(b[..n], b[n]);
      HandedMore(a + b[..n], b[n]);
      assert b[..n] + [b[n]] == b && a + b[..n] + [b[n]] == a + b;
    }
  }

  /** How many octets the submessages in each unit take: what their headers tell the reader. */
  ghost predicate AreLengths(lengths: seq<nat>, units: seq<seq<message>>) {
    |lengths| == |units| && forall j | 0 <= j < |units| && Joinable(units[j]) :: lengths[j] == |Handed(units[j])|
  }

  /** The three ways of uxr_next_input_reliable_buffer_available. */
  lemma NextUnitCases(r: Receiver)
    requires r.Valid()
    ensures r.NextUnit() != []
            <==> r.handled + 1 in r.stored && (Kind(r.stored[r.handled + 1]) == NoFragmented || r.CheckLastFragment().Some?)
    ensures r.NextUnit() != [] ==>
              var plain := Kind(r.stored[r.handled + 1]) == NoFragmented;
              && r.NextUnit()[0] == r.stored[r.handled + 1] && Skip(r.NextUnit()) == (if plain then 0 else SUBHEADER_SIZE)
              && |r.NextUnit()| == if plain then 1 else r.CheckLastFragment().value - r.handled
  {
  }

  lemma UnitJoinable(r: Receiver)
    requires r.Valid() && StoresReadable(r) && r.NextUnit() != []
    ensures Joinable(r.NextUnit()) && StoresReadable(r.Deliver()) && r.Deliver().Valid()
  {
    DeliverKeeps(r);
    UnitInWindow(r);
    hide Receiver.NextUnit;
    var u := r.NextUnit();
    forall m <- u
      ensures Readable(m)
    {
      var k :| 0 <= k < |u| && u[k] == m;
      assert r.handled + 1 + k in r.stored;
    }
  }

  lemma {:induction false} UnitsJoinable(r: Receiver)
    requires r.Valid() && StoresReadable(r)
    ensures AllJoinable(r.DeliverAll().units)
    decreases |r.stored|
  {
    if r.NextUnit() != [] {
      UnitJoinable(r);
      DeliverRemoves(r);
      UnitsJoinable(r.Deliver());
    }
  }

  /** Whether a message that arrives makes the receiver search for a last fragment. */
  predicate Searches(r: Receiver, seqNum: SeqNum, m: message) {
    r.IndexOf(seqNum).Some? && r.IndexOf(seqNum).value !in r.stored && Kind(m) != NoFragmented
  }

  /** The search has passed over intermediate fragments up to index i. */
  ghost predicate SearchedTo(r: Receiver, i: int) {
    && (forall j | r.handled < j <= i :: r.Stores(j, IntermediateFragment))
    && r.CheckLastFragment() == r.LastFragmentFrom(i + 1)
  }

  lemma SearchFromStart(r: Receiver)
    ensures SearchedTo(r, r.handled)
  {
  }

  /** The next slot decides, and there is one, because some slot is not an intermediate fragment. */
  lemma SearchStep(r: Receiver, i: int)
    requires Searchable(r) && SearchedTo(r, i) && r.handled <= i
    ensures i < r.handled + r.history
    ensures i + 1 !in r.stored || Kind(r.stored[i + 1]) == NoFragmented ==> r.CheckLastFragment() == None
    ensures i + 1 in r.stored && Kind(r.stored[i + 1]) == LastFragment ==> r.CheckLastFragment() == Some(i + 1)
    ensures i + 1 in r.stored && Kind(r.stored[i + 1]) == IntermediateFragment ==> SearchedTo(r, i + 1)
  {
    hide Kind;
    var k :| r.handled < k <= r.handled + r.history && !r.Stores(k, IntermediateFragment);
  }

  /** `units` have been handed over of all those that were to be, and the receiver is now r. */
  ghost predicate HandedSoFar(all: Delivery, units: seq<seq<message>>, r: Receiver) {
    all == Delivery(r.DeliverAll().r, units + r.DeliverAll().units)
  }

  lemma NothingHanded(r: Receiver)
    ensures HandedSoFar(r.DeliverAll(), [], r)
  {
    assert [] + r.DeliverAll().units == r.DeliverAll().units;
  }

  lemma UnitHanded(all: Delivery, units: seq<seq<message>>, r: Receiver, lengths: seq<nat>)
    requires HandedSoFar(all, units, r) && r.NextUnit() != [] && AreLengths(lengths, all.units)
    requires Joinable(r.NextUnit())
    ensures HandedSoFar(all, units + [r.NextUnit()], r.Deliver())
    ensures |units| < |lengths| && lengths[|units|] == |Handed(r.NextUnit())|
  {
    DeliverRemoves(r);
    var rest := r.Deliver().DeliverAll().units;
    assert units + ([r.NextUnit()] + rest) == units + [r.NextUnit()] + rest;
    assert all.units[|units|] == r.NextUnit();
  }

  lemma AllHanded(all: Delivery, units: seq<seq<message>>, r: Receiver)
    requires HandedSoFar(all, units, r) && r.NextUnit() == []
    ensures all == Delivery(r, units)
  {
    assert units + [] == units;
  }

  class InputReliableStream {
    const base: ReliableStream
    var lastHandled: SeqNum
    var lastAnnounced: SeqNum
    var cleanupFlag: bool

    ghost var view: Receiver

    ghost function Mem(): Memory
      reads base
    {
      Memory(base.lens, base.blocks)
    }

    ghost predicate Configured()
      reads this`view, this`lastAnnounced, base, base.buffer
    {
      && base.Valid() && IsPowerOfTwo(base.history) && base.history <= 0x4000 && SUBHEADER_SIZE < base.Capacity()
      && view.Valid() && view.history == base.history && lastAnnounced == view.announced
    }

    ghost predicate Valid()
      reads this, base, base.buffer
    {
      Configured() && lastHandled == Wire(view.handled) && Represents(view, Mem())
    }

    /** uxr_init_input_reliable_stream and uxr_reset_input_reliable_stream. */
    constructor (base: ReliableStream)
      requires base.Valid() && IsPowerOfTwo(base.history) && base.history <= 0x4000 && SUBHEADER_SIZE < base.Capacity()
      modifies base, base.buffer
      ensures Valid() && this.base == base && view == InitReceiver(base.history)
    {
      hide Slot;
      this.base := base;
      cleanupFlag := false;
      lastHandled, lastAnnounced := SEQ_NUM_MAX, SEQ_NUM_MAX;
      view := InitReceiver(base.history);
      new;
      base.ResetSizes(0);
      InitRepresented(base.history, Mem());
    }

    /** The slot of a number is the slot of its index. */
    lemma SlotOf(i: int)
      requires base.Valid() && IsPowerOfTwo(base.history) && base.history <= 0x4000
      ensures Slot(Wire(i), base.history) == Slot(i, base.history) && 0 <= Slot(i, base.history) < base.history
      ensures base.Shape() && |base.lens| == |base.blocks| == base.history
      ensures |base.blocks[Slot(i, base.history)]| == base.Capacity()
    {
      hide Slot;
      SlotOfWire(i, base.history);
      base.BlockLength(Slot(i, base.history));
    }

    /** The length word of the slot of an index of the window. */
    method SlotSize(seqNum: SeqNum, ghost i: int) returns (length: nat)
      requires Valid() && seqNum == Wire(i) && view.handled < i <= view.handled + view.history
      ensures length == if i in view.stored then |view.stored[i]| else 0
      ensures length == 0 <==> i !in view.stored
    {
      hide Slot;
      hide IsPowerOfTwo;
      SlotOf(i);
      assert HoldsIndex(view, Mem(), i);
      length := base.Size(seqNum);
    }

    /** on_get_fragmentation_info of a stored message. */
    method StoredKind(seqNum: SeqNum, ghost i: int) returns (info: FragmentationInfo)
      requires Valid() && seqNum == Wire(i) && i in view.stored
      ensures info == Kind(view.stored[i])
    {
      hide Slot;
      hide IsPowerOfTwo;
      SlotOf(i);
      ghost var k, m := Slot(i, base.history), view.stored[i];
      assert HoldsIndex(view, Mem(), i);
      var header := base.Read(base.Buffer(seqNum), SUBHEADER_SIZE, k, 0);
      assert base.blocks[k][..|m|][..SUBHEADER_SIZE] == m[..SUBHEADER_SIZE];
      info := OnGetFragmentationInfo(header);
    }

    /** check_last_fragment: it ends because some slot is not an intermediate fragment. */
    method CheckLastFragment() returns (found: bool, last: SeqNum)
      requires Valid() && Searchable(view)
      ensures found == view.CheckLastFragment().Some?
      ensures found ==> last == Wire(view.CheckLastFragment().value)
    {
      hide Slot;
      hide Represents;
      hide IsPowerOfTwo;
      hide ReliableStream.Valid;
      hide Kind;
      hide Receiver.LastFragmentFrom;
      hide Receiver.CheckLastFragment;
      hide Receiver.Valid;
      hide Searchable;
      var next, moreMessages := lastHandled, true;
      found := false;
      ghost var i := view.handled;
      SearchFromStart(view);
      while moreMessages && !found
        invariant view.handled <= i && next == Wire(i)
        invariant moreMessages && !found ==> SearchedTo(view, i)
        invariant found ==> view.CheckLastFragment() == Some(i)
        invariant !moreMessages && !found ==> view.CheckLastFragment() == None
        decreases view.handled + view.history - i, moreMessages && !found
      {
        SearchStep(view, i);
        AddSubRefine(i, 1);
        next := Add(next, 1);
        i := i + 1;
        var length := SlotSize(next, i);
        moreMessages := 0 != length;
        if moreMessages {
          var info := StoredKind(next, i);
          moreMessages := info == IntermediateFragment;
          if info == LastFragment {
            found := true;
          }
        }
      }
      last := next;
    }

    /** The message is stored in the slot of its index. */
    method StoreMessage(seqNum: SeqNum, m: message, ghost i: int)
      requires Valid() && view.handled < i <= view.handled + view.history && seqNum == Wire(i)
      requires SUBHEADER_SIZE <= |m| <= base.Capacity()
      modifies this`view, base`lens, base`blocks, base.buffer
      ensures Valid() && view == old(view).(stored := old(view).stored[i := m])
    {
      hide Slot;
      hide Represents;
      hide IsPowerOfTwo;
      ghost var mem, k := Mem(), Slot(i, base.history);
      SlotOf(i);
      base.Copy(base.Buffer(seqNum), m, k, 0);
      base.SetSize(seqNum, |m|);
      assert base.blocks[k][..|m|] == base.blocks[k][0..0 + |m|] == m;
      assert Slotted(view.history, mem) by { RepresentedSlots(view, mem); }
      StoreRepresented(view, mem, Mem(), i, m);
      view := view.(stored := view.stored[i := m]);
    }

    method Announce(seqNum: SeqNum)
      requires Valid()
      modifies this`lastAnnounced, this`view
      ensures Valid() && view == old(view).Announce(seqNum)
    {
      hide Slot;
      hide Represents;
      AnnounceRepresented(view, Mem(), seqNum);
      if 0 > Cmp(lastAnnounced, seqNum) {
        lastAnnounced := seqNum;
      }
      view := view.Announce(seqNum);
    }

    /** uxr_receive_reliable_message.  If it searches, the search ends, as it does in every state of a
        pair of streams (see StreamPair). */
    method ReceiveMessage(seqNum: SeqNum, m: message) returns (ready: bool, stored: bool)
      requires Valid() && SUBHEADER_SIZE <= |m| <= base.Capacity()
      requires Searches(view, seqNum, m) ==> Searchable(view.Receive(seqNum, m).r)
      modifies this`lastHandled, this`lastAnnounced, this`view, base`lens, base`blocks, base.buffer
      ensures Valid() && view == old(view).Receive(seqNum, m).r
      ensures ready == old(view).Receive(seqNum, m).ready
      ensures ready ==> stored == !old(view).Receive(seqNum, m).direct
    {
      hide Slot;
      hide Represents;
      hide IsPowerOfTwo;
      hide ReliableStream.Valid;
      hide Kind;
      ready, stored := false, false;
      var lastHistory := Add(lastHandled, base.history);
      WindowTest(lastHandled, base.history, seqNum);
      if 0 > Cmp(lastHandled, seqNum) && 0 <= Cmp(lastHistory, seqNum) {
        ghost var i := view.IndexOf(seqNum).value;
        ready, stored := Process(seqNum, m, i);
      }
      Announce(seqNum);
    }

    /** The message of an index of the window. */
    method Process(seqNum: SeqNum, m: message, ghost i: int) returns (ready: bool, stored: bool)
      requires Valid() && SUBHEADER_SIZE <= |m| <= base.Capacity() && view.IndexOf(seqNum) == Some(i)
      requires Searches(view, seqNum, m) ==> Searchable(view.Receive(seqNum, m).r)
      modifies this`lastHandled, this`view, base`lens, base`blocks, base.buffer
      ensures Valid() && view.Announce(seqNum) == old(view).Receive(seqNum, m).r
      ensures ready == old(view).Receive(seqNum, m).ready
      ensures ready ==> stored == !old(view).Receive(seqNum, m).direct
    {
      hide Slot;
      hide Represents;
      hide IsPowerOfTwo;
      hide ReliableStream.Valid;
      ready, stored := false, false;
      var info := OnGetFragmentationInfo(m[..SUBHEADER_SIZE]);
      AddSubRefine(view.handled, 1);
      SameNumber(i, view.handled + 1);
      var next := Add(lastHandled, 1);
      if NoFragmented == info && seqNum == next {
        PassRepresented(view, Mem());
        lastHandled := next;
        view := view.Pass();
        ready := true;
      } else {
        var size := SlotSize(seqNum, i);
        if 0 == size {
          StoreMessage(seqNum, m, i);
          stored := true;
          if NoFragmented != info {
            AnnounceSearchable(view, seqNum);
            var found, _ := CheckLastFragment();
            ready := found;
          }
        }
      }
    }

    /** The next unit is being read; the slots of its first k messages are empty. */
    ghost predicate ReadingUnit(k: nat)
      reads this`view, this`lastAnnounced, this`lastHandled, base, base.buffer
    {
      && Configured() && Reading(view, Mem(), k)
      && lastHandled == Wire(view.handled + |view.NextUnit()|)
    }

    /** ub is at the start of what message k of the next unit contributes. */
    ghost predicate AtMessage(ub: Cursor, k: nat)
      requires base.Shape() && k < |view.NextUnit()|
      reads this`view
    {
      var slot := SlotAt(k);
      && base.HistoryPosition(ub.init) == slot
      && ub.next == base.Pointer(slot, Skip(view.NextUnit()))
      && ub.end == base.Pointer(slot, |view.NextUnit()[k]|)
    }

    ghost function SlotAt(k: nat): nat
      requires base.Shape()
      reads this`view
    {
      Slot(view.handled + 1 + k, base.history)
    }

    /** uxr_next_input_reliable_buffer_available. */
    method NextBufferAvailable(fragmentOffset: nat) returns (available: bool, ub: Cursor)
      requires Valid() && Searchable(view) && fragmentOffset == SUBHEADER_SIZE
      modifies this`lastHandled, base`lens, base.buffer
      ensures available == (view.NextUnit() != [])
      ensures !available ==> Valid()
      ensures available ==> base.Shape() && ReadingUnit(1) && AtMessage(ub, 0)
    {
      hide Slot;
      hide Represents;
      hide IsPowerOfTwo;
      hide ReliableStream.Valid;
      hide Kind;
      hide Searchable;
      hide Reading;
      hide Receiver.NextUnit;
      hide Receiver.CheckLastFragment;
      hide Receiver.Valid;
      hide Skip;
      NextUnitCases(view);
      AddSubRefine(view.handled, 1);
      SlotOf(view.handled + 1);
      var next := Add(lastHandled, 1);
      var internalBuffer := base.Buffer(next);
      var length := SlotSize(next, view.handled + 1);
      available := 0 != length;
      ub := Cursor(0, 0, 0);
      if available {
        var info := StoredKind(next, view.handled + 1);
        base.PositionOfPointer(Slot(view.handled + 1, base.history), 0);
        base.PositionOfPointer(Slot(view.handled + 1, base.history), SUBHEADER_SIZE);
        if NoFragmented == info {
          ub := Cursor(internalBuffer, internalBuffer, internalBuffer + length);
          EmptyFirst(next);
          lastHandled := next;
        } else {
          var last;
          available, last := CheckLastFragment();
          if available {
            EmptyFirst(next);
            ub := Cursor(internalBuffer + fragmentOffset, internalBuffer + fragmentOffset, internalBuffer + length);
            lastHandled := last;
          }
        }
      }
    }

    method EmptyFirst(next: SeqNum)
      requires Valid() && view.NextUnit() != [] && next == Wire(view.handled + 1)
      modifies base`lens, base.buffer
      ensures Configured() && Reading(view, Mem(), 1)
    {
      hide Slot;
      hide Represents;
      hide IsPowerOfTwo;
      hide ReliableStream.Valid;
      ghost var mem := Mem();
      SlotOf(view.handled + 1);
      SlotEmptied(view, mem, 0);
      base.SetSize(next, 0);
      assert Mem() == mem.(lens := mem.lens[Slot(view.handled + 1, base.history) := 0]);
    }

    /** on_full_input_buffer: the cursor moves on to the slot that follows, which is emptied if
        cleanup_flag is set. */
    method OnFullInputBuffer(ub: Cursor, ghost k: nat, ghost emptied: nat) returns (error: bool, next: Cursor)
      requires ReadingUnit(emptied) && 0 < emptied <= k < |view.NextUnit()| && Skip(view.NextUnit()) == SUBHEADER_SIZE
      requires base.HistoryPosition(ub.init) == SlotAt(k - 1) && (cleanupFlag ==> emptied == k)
      modifies base`lens, base.buffer
      ensures !error && AtMessage(next, k)
      ensures ReadingUnit(if cleanupFlag then k + 1 else emptied) && (!cleanupFlag ==> Mem() == old(Mem()))
    {
      hide Slot;
      hide IsPowerOfTwo;
      hide ReliableStream.Valid;
      hide Reading;
      hide Receiver.NextUnit;
      hide Receiver.Valid;
      hide Kind;
      ghost var i, mem := view.handled + 1 + k, Mem();
      SlotOf(i);
      NextSlot(i - 1, base.history);
      SlotOfSlot(Slot(i, base.history), base.history);
      NextHeld(view, mem, emptied, k);
      var historyPosition := 1 + base.HistoryPosition(ub.init);
      var buffer := base.Buffer(historyPosition);
      var bufferSize := base.Size(historyPosition);
      if cleanupFlag {
        SlotEmptied(view, mem, k);
        base.SetSize(historyPosition, 0);
        assert Mem() == mem.(lens := mem.lens[Slot(i, base.history) := 0]);
      }
      error := bufferSize < SUBHEADER_SIZE;
      next := ub;
      if !error {
        next := Cursor(buffer + SUBHEADER_SIZE, buffer + SUBHEADER_SIZE,
                       buffer + SUBHEADER_SIZE + (bufferSize - SUBHEADER_SIZE));
        base.PositionOfPointer(Slot(i, base.history), SUBHEADER_SIZE);
      }
    }

    /** The part of message k that the cursor is at. */
    method CopyOut(ub: Cursor, n: nat, ghost k: nat, ghost emptied: nat) returns (octets: seq<byte>)
      requires ReadingUnit(emptied) && k < emptied && AtMessage(ub, k)
      requires Skip(view.NextUnit()) <= |view.NextUnit()[k]| && n == ub.end - ub.next
      ensures octets == view.NextUnit()[k][Skip(view.NextUnit())..]
    {
      hide Slot;
      hide IsPowerOfTwo;
      hide Reading;
      hide Receiver.NextUnit;
      hide Receiver.Valid;
      hide Skip;
      EmptiedHeld(view, Mem(), emptied, k);
      ghost var i, u, skip := view.handled + 1 + k, view.NextUnit(), Skip(view.NextUnit());
      ghost var slot := Slot(i, base.history);
      SlotOf(i);
      octets := base.Read(ub.next, n, slot, skip);
      assert base.blocks[slot][skip..|u[k]|] == base.blocks[slot][..|u[k]|][skip..];
    }

    /** ub is where the walk is after the first `done` messages of the unit. */
    ghost predicate AtPart(ub: Cursor, done: nat)
      requires base.Shape() && done <= |view.NextUnit()| && view.NextUnit() != []
      reads this`view
    {
      if done == 0 then AtMessage(ub, 0) else ub.next == ub.end && base.HistoryPosition(ub.init) == SlotAt(done - 1)
    }

    ghost predicate Walking(ub: Cursor, done: nat)
      reads this, base, base.buffer
    {
      && base.Shape() && cleanupFlag && view.NextUnit() != [] && done <= |view.NextUnit()|
      && ReadingUnit(if done == 0 then 1 else done) && AtPart(ub, done)
    }

    /** What the next message of the unit contributes. */
    method ReadPart(ub: Cursor, rest: nat, ghost done: nat) returns (cursor: Cursor, octets: seq<byte>)
      requires Walking(ub, done) && done < |view.NextUnit()| && (forall m <- view.NextUnit() :: Readable(m))
      requires rest >= |view.NextUnit()[done]| - Skip(view.NextUnit())
      modifies base`lens, base.buffer
      ensures Walking(cursor, done + 1) && octets == view.NextUnit()[done][Skip(view.NextUnit())..]
    {
      hide Slot;
      hide IsPowerOfTwo;
      hide ReliableStream.Valid;
      hide Reading;
      hide Receiver.NextUnit;
      hide Receiver.Valid;
      hide AtMessage;
      hide ReliableStream.HistoryPosition;
      hide Skip;
      hide ReadingUnit;
      hide SlotAt;
      SkipOf(view);
      cursor := ub;
      if done == 0 {
        CursorRoom(cursor, 0);
      }
      if cursor.next == cursor.end {
        var error;
        error, cursor := OnFullInputBuffer(cursor, done, done);
      }
      CursorRoom(cursor, done);
      var n := if rest < cursor.end - cursor.next then rest else cursor.end - cursor.next;
      octets := CopyOut(cursor, n, done, done + 1);
      cursor := cursor.(next := cursor.next + n);
    }

    /** Readers advance over everything they are given (read_access.c:248-253): the whole unit is read,
        from slot to slot, and all its slots are freed. */
    method ReadUnit(ub: Cursor, length: nat) returns (data: seq<byte>)
      requires base.Shape() && view.NextUnit() != [] && ReadingUnit(1) && AtMessage(ub, 0)
      requires (forall m <- view.NextUnit() :: Readable(m)) && length == |Handed(view.NextUnit())|
      modifies this`cleanupFlag, this`view, base`lens, base.buffer
      ensures Valid() && view == old(view).Deliver() && data == Handed(old(view).NextUnit())
    {
      hide *;
      cleanupFlag := true;
      BeginWalk(ub);
      SkipOf(view);
      NoneCollected(view.NextUnit());
      ghost var cursor;
      data, cursor := ReadParts(ub, length);
      EndWalk(cursor);
      FinishUnit();
    }

    /** From the first part of the unit to its last. */
    method ReadParts(ub: Cursor, length: nat) returns (data: seq<byte>, ghost last: Cursor)
      requires Walking(ub, 0) && view.NextUnit() != [] && (forall m <- view.NextUnit() :: Readable(m))
      requires Collected([], length, view.NextUnit(), 0)
      modifies base`lens, base.buffer
      ensures view.NextUnit() != [] && Walking(last, |view.NextUnit()|) && data == Handed(view.NextUnit())
    {
      hide *;
      ghost var u, done := view.NextUnit(), 0;
      data := [];
      var cursor, rest: nat := ub, length;
      while rest > 0
        invariant done <= |u| && Walking(cursor, done) && Collected(data, rest, u, done)
        decreases |u| - done
      {
        OneCollected(data, rest, u, done);
        var octets;
        cursor, octets := ReadPart(cursor, rest, done);
        assert octets == u[done][Skip(u)..];
        data, rest, done := data + octets, rest - |octets|, done + 1;
      }
      AllCollected(data, rest, u, done);
      last := cursor;
    }

    lemma BeginWalk(ub: Cursor)
      requires base.Shape() && cleanupFlag && view.NextUnit() != [] && ReadingUnit(1) && AtMessage(ub, 0)
      ensures Walking(ub, 0)
    {
    }

    lemma EndWalk(ub: Cursor)
      requires view.NextUnit() != [] && Walking(ub, |view.NextUnit()|)
      ensures ReadingUnit(|view.NextUnit()|)
    {
    }

    /** The unit has been read to its end. */
    ghost method FinishUnit()
      requires view.NextUnit() != [] && ReadingUnit(|view.NextUnit()|)
      modifies this`view
      ensures Valid() && view == old(view).Deliver()
    {
      hide Slot;
      hide IsPowerOfTwo;
      hide ReliableStream.Valid;
      hide Reading;
      hide Represents;
      hide Receiver.NextUnit;
      hide Receiver.Valid;
      ReadingValid(view, Mem(), |view.NextUnit()|);
      UnitRead(view, Mem());
      DeliverKeeps(view);
      view := view.Deliver();
    }

    /** One turn of the loop of read_stream. */
    method DeliverOne(length: nat) returns (more: bool, data: seq<byte>)
      requires Valid() && Searchable(view) && StoresReadable(view)
      requires view.NextUnit() != [] ==> Joinable(view.NextUnit()) && length == |Handed(view.NextUnit())|
      modifies this`lastHandled, this`cleanupFlag, this`view, base`lens, base.buffer
      ensures Valid() && more == (old(view).NextUnit() != [])
      ensures view == if more then old(view).Deliver() else old(view)
      ensures more ==> Joinable(old(view).NextUnit()) && data == Handed(old(view).NextUnit())
    {
      hide Slot;
      hide Represents;
      hide Reading;
      hide IsPowerOfTwo;
      hide ReliableStream.Valid;
      hide Searchable;
      hide Receiver.NextUnit;
      hide Receiver.Deliver;
      var ub;
      more, ub := NextBufferAvailable(SUBHEADER_SIZE);
      data := [];
      if more {
        data := ReadUnit(ub, length);
      }
    }

    /** The loop of read_stream. */
    method DeliverEach(lengths: seq<nat>) returns (handed: seq<seq<byte>>)
      requires Valid() && SearchesEnd(view) && StoresReadable(view)
      requires AreLengths(lengths, view.DeliverAll().units)
      modifies this`lastHandled, this`cleanupFlag, this`view, base`lens, base.buffer
      ensures Valid() && view == old(view).DeliverAll().r
      ensures AllJoinable(old(view).DeliverAll().units) && handed == HandedAll(old(view).DeliverAll().units)
    {
      hide Slot;
      hide Represents;
      hide IsPowerOfTwo;
      hide ReliableStream.Valid;
      hide Receiver.NextUnit;
      hide Receiver.Deliver;
      hide Searchable;
      hide Receiver.DeliverAll;
      hide HandedSoFar;
      hide AreLengths;
      ghost var all := view.DeliverAll();
      ghost var units: seq<seq<message>> := [];
      handed := [];
      NothingHanded(view);
      var more := true;
      while more
        invariant Valid() && SearchesEnd(view) && StoresReadable(view)
        invariant HandedSoFar(all, units, view)
        invariant AllJoinable(units) && handed == HandedAll(units) && |handed| == |units|
        invariant !more ==> view.NextUnit() == []
        decreases |view.stored|, more
      {
        ghost var r := view;
        if r.NextUnit() != [] {
          DeliverRemoves(r);
          UnitJoinable(r);
          UnitHanded(all, units, r, lengths);
        }
        var data;
        more, data := DeliverOne(if |handed| < |lengths| then lengths[|handed|] else 0);
        if more {
          HandedMore(units, r.NextUnit());
          units := units + [r.NextUnit()];
          handed := handed + [data];
        }
      }
      AllHanded(all, units, view);
    }

    /** read_stream: what a message makes ready is handed over, in order.  The lengths are those that
        the reader finds in the submessage headers. */
    method ReadStream(seqNum: SeqNum, m: message, lengths: seq<nat>) returns (handed: seq<seq<byte>>)
      requires Valid() && Readable(m) && |m| <= base.Capacity() && StoresReadable(view.Receive(seqNum, m).r)
      requires Searches(view, seqNum, m) || view.Receive(seqNum, m).ready ==> SearchesEnd(view.Receive(seqNum, m).r)
      requires AreLengths(lengths, view.Receive(seqNum, m).r.DeliverAll().units)
      modifies this`lastHandled, this`lastAnnounced, this`cleanupFlag, this`view, base`lens, base`blocks, base.buffer
      ensures Valid() && view == old(view).ReadStream(seqNum, m).r
      ensures AllJoinable(old(view).ReadStream(seqNum, m).units)
              && handed == HandedAll(old(view).ReadStream(seqNum, m).units)
    {
      hide Slot;
      hide Represents;
      hide IsPowerOfTwo;
      hide ReliableStream.Valid;
      hide Receiver.NextUnit;
      hide Receiver.Receive;
      handed := [];
      ReceiveInWindow(view, seqNum, m);
      UnitsJoinable(view.Receive(seqNum, m).r);
      ghost var a, units := view.Receive(seqNum, m), view.Receive(seqNum, m).r.DeliverAll().units;
      if a.direct {
        DirectUnit(view, seqNum, m, units);
      }
      var ready, inputBufferUsed := ReceiveMessage(seqNum, m);
      if ready {
        var rest := DeliverEach(lengths);
        handed := (if !inputBufferUsed then [m] else []) + rest;
        assert [] + rest == rest && [] + units == units;
      }
    }

    /** uxr_process_heartbeat: the later one of what was announced before and what is announced now stays
        announced, exactly as long as the circle can tell which that is. */
    method ProcessHeartbeat(firstSeqNum: SeqNum, lastSeqNum: SeqNum, ghost announced: int, ghost last: int)
      requires Valid() && lastAnnounced == Wire(announced) && lastSeqNum == Wire(last)
      modifies this`lastAnnounced, this`view
      ensures Valid() && view == old(view).Announce(lastSeqNum) == old(view).(announced := lastAnnounced)
      ensures -SEQ_NUM_SIZE < announced - last < SEQ_NUM_SIZE ==>
                (lastAnnounced == Wire(if announced < last then last else announced)
                 <==> -SEQ_NUM_MIDSIZE < announced - last <= SEQ_NUM_MIDSIZE)
    {
      hide Slot;
      hide Represents;
      if -SEQ_NUM_SIZE < announced - last < SEQ_NUM_SIZE {
        AnnounceOrders(view, announced, last);
      }
      Announce(lastSeqNum);
    }

    /** uxr_get_first_unacked. */
    method GetFirstUnacked() returns (firstUnknown: SeqNum)
      requires Valid()
      ensures firstUnknown == Wire(view.FirstUnacked())
    {
      hide Slot;
      hide Represents;
      hide IsPowerOfTwo;
      hide ReliableStream.Valid;
      firstUnknown := lastHandled;
      var i, found := 0, false;
      while i < base.history && !found
        invariant 0 <= i <= base.history
        invariant !found ==> firstUnknown == Wire(view.handled)
                             && view.FirstUnacked() == view.FirstUnackedFrom(view.handled + i + 1)
        invariant found ==> firstUnknown == Wire(view.FirstUnacked())
        decreases base.history - i, !found
      {
        AddSubRefine(view.handled, i + 1);
        var seqNum := Add(lastHandled, i + 1);
        var size := SlotSize(seqNum, view.handled + i + 1);
        if 0 == size {
          firstUnknown := seqNum;
          found := true;
        } else {
          i := i + 1;
        }
      }
    }

    /** 1 << i as a 16-bit value: bit i, nothing for a bit past the end, and for i >= 31 whatever the
        machine makes of it. */
    method Shift(i: nat) returns (bits: seq<bool>)
      ensures |bits| == 16
      ensures i < 31 ==> forall k | 0 <= k < 16 :: bits[k] == (k == i)
    {
      if i < 31 {
        bits := seq(16, k => k == i);
      } else {
        bits := *;
        if |bits| != 16 {
          bits := seq(16, k => false);
        }
      }
    }

    /** uxr_compute_acknack. */
    method ComputeAckNack() returns (first: SeqNum, bits: seq<bool>)
      requires Valid()
      ensures first == Wire(view.FirstUnacked()) && view.IsBitmap(bits)
    {
      hide Slot;
      hide Represents;
      hide IsPowerOfTwo;
      hide ReliableStream.Valid;
      hide Receiver.FirstUnacked;
      hide Receiver.InWindow;
      hide Receiver.SlotEmpty;
      hide Add;
      hide Sub;
      hide Wire;
      first := GetFirstUnacked();
      ghost var from := view.FirstUnacked();
      var buffersToAck := Sub(lastAnnounced, Sub(first, 1));
      bits := seq(16, k => false);
      var i := 0;
      while i < buffersToAck
        invariant 0 <= i <= buffersToAck && |bits| == 16
        invariant forall k | 0 <= k < 16 && k < i && view.SlotEmpty(from + k) :: bits[k]
        invariant i <= 31 ==> forall k | 0 <= k < 16 && bits[k] :: k < i && view.SlotEmpty(from + k)
      {
        AddSubRefine(from, i);
        var seqNum := Add(first, i);
        var size := SlotSizeAnywhere(seqNum, from + i);
        if 0 == size {
          var bit := Shift(i);
          bits := seq(16, k requires 0 <= k < 16 => bits[k] || bit[k]);
        }
        i := i + 1;
      }
    }

    /** The length word of the slot of any index. */
    method SlotSizeAnywhere(seqNum: SeqNum, ghost i: int) returns (length: nat)
      requires Valid() && seqNum == Wire(i)
      ensures length == 0 <==> view.SlotEmpty(i)
    {
      hide Slot;
      hide IsPowerOfTwo;
      SlotOf(i);
      SameSlotInWindow(view, i);
      assert HoldsIndex(view, Mem(), view.InWindow(i));
      length := base.Size(seqNum);
    }

    lemma CursorRoom(ub: Cursor, k: nat)
      requires base.Shape() && k < |view.NextUnit()| && AtMessage(ub, k)
      ensures base.HistoryPosition(ub.init) == SlotAt(k) && ub.end - ub.next == |view.NextUnit()[k]| - Skip(view.NextUnit())
    {
    }
  }

  /** What the first `done` messages of a unit contribute has been read, and `rest` octets remain. */
  ghost predicate Collected(data: seq<byte>, rest: nat, unit: seq<message>, done: nat) {
    && Joinable(unit) && done <= |unit| && (forall m <- unit :: |m| > Skip(unit))
    && data + Join(unit[done..], Skip(unit)) == Handed(unit) && rest == |Join(unit[done..], Skip(unit))|
  }

  lemma NoneCollected(unit: seq<message>)
    requires Joinable(unit) && forall m <- unit :: |m| > Skip(unit)
    ensures Collected([], |Handed(unit)|, unit, 0)
  {
    assert unit[0..] == unit && [] + Handed(unit) == Handed(unit);
  }

  lemma OneCollected(data: seq<byte>, rest: nat, unit: seq<message>, done: nat)
    requires Collected(data, rest, unit, done) && rest > 0
    ensures done < |unit| && Skip(unit) < |unit[done]| <= rest + Skip(unit)
    ensures Collected(data + unit[done][Skip(unit)..], rest - |unit[done][Skip(unit)..]|, unit, done + 1)
  {
    hide Handed;
    hide Skip;
    var skip := Skip(unit);
    JoinStep(unit, skip, done);
    assert data + (unit[done][skip..] + Join(unit[done + 1..], skip))
           == data + unit[done][skip..] + Join(unit[done + 1..], skip);
  }

  lemma AllCollected(data: seq<byte>, rest: nat, unit: seq<message>, done: nat)
    requires Collected(data, rest, unit, done) && rest == 0
    ensures done == |unit| && data == Handed(unit)
  {
    JoinStep(unit, Skip(unit), done);
    assert data + [] == data;
  }

  lemma SkipOf(r: Receiver)
    requires r.NextUnit() != [] && forall m <- r.NextUnit() :: Readable(m)
    ensures forall m <- r.NextUnit() :: |m| > Skip(r.NextUnit())
    ensures |r.NextUnit()| > 1 ==> Skip(r.NextUnit()) == SUBHEADER_SIZE
  {
  }

  lemma DeliverKeeps(r: Receiver)
    requires r.Valid() && r.NextUnit() != []
    ensures r.Deliver().Valid() && r.Deliver().history == r.history && r.Deliver().announced == r.announced
    ensures r.Deliver().handled == r.handled + |r.NextUnit()|
  {
    hide Slot;
    UnitInWindow(r);
    hide Receiver.NextUnit;
  }

  /** The index of the window that InWindow names has the same slot. */
  lemma SameSlotInWindow(r: Receiver, i: int)
    requires 0 < r.history
    ensures Slot(r.InWindow(i), r.history) == Slot(i, r.history)
  {
    var d := i - r.handled - 1;
    var q, rem, m := d / r.history, d % r.history, (r.handled + 1 + d % r.history) / r.history;
    var slot := Slot(r.InWindow(i), r.history);
    assert i == r.history * (q + m) + slot;
    ModOfMultiple(slot, r.history, q + m);
  }

  /** A message handed over without being stored comes first. */
  lemma DirectUnit(r: Receiver, seqNum: SeqNum, m: message, units: seq<seq<message>>)
    requires Readable(m) && AllJoinable(units) && r.Receive(seqNum, m).direct
    ensures AllJoinable([[m]] + units) && HandedAll([[m]] + units) == [m] + HandedAll(units)
  {
    var one := [m];
    assert one[1..] == [] && Join(one, 0) == m;
    assert ([one] + units)[1..] == units;
  }
}
