/** How the memory of an input stream represents its receiver. */
module InputSlots {
  import opened SeqNum
  import opened Slots
  import opened Messages
  import opened InputWindow
  import opened InputInvariants
  import opened CommonReliableStream

  /** The slot of index i begins with message m. */
  ghost predicate BlockHolds(history: nat, mem: Memory, i: int, m: message)
    requires Slotted(history, mem)
  {
    |m| <= |mem.blocks[Slot(i, history)]| && mem.blocks[Slot(i, history)][..|m|] == m
  }

  /** The slot of index i is there for that index: empty, or with the stored message. */
  ghost predicate HoldsIndex(r: Receiver, mem: Memory, i: int)
    requires Slotted(r.history, mem)
  {
    if i in r.stored then mem.lens[Slot(i, r.history)] == |r.stored[i]| && BlockHolds(r.history, mem, i, r.stored[i])
    else mem.lens[Slot(i, r.history)] == 0
  }

  /** The slots are a map from the indices of the window to the messages stored for them. */
  ghost predicate Represents(r: Receiver, mem: Memory) {
    && r.Valid() && Slotted(r.history, mem)
    && forall i | r.handled < i <= r.handled + r.history :: HoldsIndex(r, mem, i)
  }

  lemma InitRepresented(history: nat, mem: Memory)
    requires Slotted(history, mem) && history <= 0x4000 && forall k | 0 <= k < history :: mem.lens[k] == 0
    ensures Represents(InitReceiver(history), mem)
  {
  }

  /** What is announced is not in the slots. */
  lemma AnnounceRepresented(r: Receiver, mem: Memory, seqNum: SeqNum)
    requires Represents(r, mem)
    ensures Represents(r.Announce(seqNum), mem)
  {
    hide Slot;
    forall i | r.handled < i <= r.handled + r.history
      ensures HoldsIndex(r.Announce(seqNum), mem, i)
    {
      assert HoldsIndex(r, mem, i);
    }
  }

  /** A message is stored in the slot of its index. */
  lemma StoreRepresented(r: Receiver, mem: Memory, mem': Memory, i: int, m: message)
    requires Represents(r, mem) && Slotted(r.history, mem') && r.handled < i <= r.handled + r.history
    requires |m| >= SUBHEADER_SIZE
    requires forall k | 0 <= k < r.history && k != Slot(i, r.history) ::
               mem'.lens[k] == mem.lens[k] && mem'.blocks[k] == mem.blocks[k]
    requires mem'.lens[Slot(i, r.history)] == |m| && BlockHolds(r.history, mem', i, m)
    ensures Represents(r.(stored := r.stored[i := m]), mem')
  {
    hide Slot;
    var t := r.(stored := r.stored[i := m]);
    OtherSlots(r.history, mem, mem', r.handled, i);
    forall j | r.handled < j <= r.handled + r.history
      ensures HoldsIndex(t, mem', j)
    {
      if j != i {
        assert HoldsIndex(r, mem, j) && SameSlot(r.history, mem, mem', j);
      }
    }
  }

  /** A plain message is handled without being stored: no slot changes. */
  lemma PassRepresented(r: Receiver, mem: Memory)
    requires Represents(r, mem)
    ensures Represents(r.Pass(), mem)
  {
    hide Slot;
    var t, j := r.Pass(), r.handled + 1;
    SlotsRepeat(j, r.history);
    assert HoldsIndex(r, mem, j);
    forall i | t.handled < i <= t.handled + t.history
      ensures HoldsIndex(t, mem, i)
    {
      if i != j + r.history {
        assert HoldsIndex(r, mem, i);
      }
    }
  }

  /** While its next unit is being read: the slots of the first k of its messages are empty already,
      although their octets are still there. */
  ghost predicate Reading(r: Receiver, mem: Memory, k: nat) {
    && r.Valid() && Slotted(r.history, mem)
    && 0 < k <= |r.NextUnit()| && r.handled + |r.NextUnit()| <= r.handled + r.history
    && (forall i | r.handled < i <= r.handled + k ::
          i in r.stored && mem.lens[Slot(i, r.history)] == 0 && BlockHolds(r.history, mem, i, r.stored[i]))
    && (forall i | r.handled + k < i <= r.handled + r.history :: HoldsIndex(r, mem, i))
  }

  /** Emptying the first slot of the unit, or the next one. */
  lemma SlotEmptied(r: Receiver, mem: Memory, k: nat)
    requires r.NextUnit() != [] && k < |r.NextUnit()|
    requires if k == 0 then Represents(r, mem) else Reading(r, mem, k)
    ensures Reading(r, mem.(lens := mem.lens[Slot(r.handled + k + 1, r.history) := 0]), k + 1)
  {
    hide Slot;
    var j := r.handled + k + 1;
    var mem' := mem.(lens := mem.lens[Slot(j, r.history) := 0]);
    UnitInWindow(r);
    hide Receiver.NextUnit;
    OtherSlots(r.history, mem, mem', r.handled, j);
    assert HoldsIndex(r, mem, j);
    forall i | r.handled + k + 1 < i <= r.handled + r.history
      ensures HoldsIndex(r, mem', i)
    {
      assert HoldsIndex(r, mem, i) && SameSlot(r.history, mem, mem', i);
    }
    forall i | r.handled < i <= r.handled + k
      ensures i in r.stored && mem'.lens[Slot(i, r.history)] == 0 && BlockHolds(r.history, mem', i, r.stored[i])
    {
      assert SameSlot(r.history, mem, mem', i);
    }
  }

  /** A unit is a part of the window. */
  lemma UnitInWindow(r: Receiver)
    requires r.Valid() && r.NextUnit() != []
    ensures |r.NextUnit()| <= r.history
    ensures forall k | 0 <= k < |r.NextUnit()| ::
              r.handled + 1 + k in r.stored && r.NextUnit()[k] == r.stored[r.handled + 1 + k]
    ensures forall i | r.handled < i <= r.handled + |r.NextUnit()| :: i in r.stored
  {
    hide Slot;
    var u := r.NextUnit();
    forall i | r.handled < i <= r.handled + |u|
      ensures i in r.stored
    {
      assert r.handled + 1 + (i - r.handled - 1) in r.stored;
    }
  }

  /** When the unit has been read to its end, all its slots are free. */
  lemma UnitRead(r: Receiver, mem: Memory)
    requires Reading(r, mem, |r.NextUnit()|)
    ensures Represents(r.Deliver(), mem)
  {
    hide Slot;
    hide Kind;
    hide Receiver.NextUnit;
    var t := r.Deliver();
    forall i | t.handled < i <= t.handled + t.history
      ensures HoldsIndex(t, mem, i)
    {
      if i <= r.handled + r.history {
        assert HoldsIndex(r, mem, i);
      } else {
        assert i !in r.stored;
        SlotsRepeat(i - r.history, r.history);
        assert mem.lens[Slot(i - r.history, r.history)] == 0;
      }
    }
  }

  lemma RepresentedSlots(r: Receiver, mem: Memory)
    requires Represents(r, mem)
    ensures r.Valid() && Slotted(r.history, mem)
  {
  }

  lemma AnnounceSearchable(r: Receiver, seqNum: SeqNum)
    ensures Searchable(r.Announce(seqNum)) ==> Searchable(r)
  {
    hide Slot;
    if i :| r.handled < i <= r.handled + r.history && !r.Announce(seqNum).Stores(i, IntermediateFragment) {
      assert !r.Stores(i, IntermediateFragment);
    }
  }

  /** The slot of the next message of the unit is as it was stored. */
  lemma NextHeld(r: Receiver, mem: Memory, emptied: nat, k: nat)
    requires Reading(r, mem, emptied) && emptied <= k < |r.NextUnit()|
    ensures r.Valid() && Slotted(r.history, mem)
    ensures mem.lens[Slot(r.handled + 1 + k, r.history)] == |r.NextUnit()[k]| >= SUBHEADER_SIZE
  {
    hide Slot;
    UnitInWindow(r);
    assert HoldsIndex(r, mem, r.handled + 1 + k);
  }

  /** The octets of a message whose slot has been emptied are still there. */
  lemma EmptiedHeld(r: Receiver, mem: Memory, emptied: nat, k: nat)
    requires Reading(r, mem, emptied) && k < emptied
    ensures r.Valid() && Slotted(r.history, mem) && k < |r.NextUnit()|
    ensures BlockHolds(r.history, mem, r.handled + 1 + k, r.NextUnit()[k])
  {
    hide Slot;
    UnitInWindow(r);
  }

  lemma ReadingValid(r: Receiver, mem: Memory, k: nat)
    requires Reading(r, mem, k)
    ensures r.Valid() && Slotted(r.history, mem)
  {
  }
}
