/** How the memory of an output stream represents its sender. */
module OutputSlots {
  import opened SeqNum
  import opened Slots
  import opened Messages
  import opened MessageHeaders
  import opened OutputWindow
  import OutputInvariants
  import opened CommonReliableStream

  ghost predicate Shape(cfg: Config, mem: Memory) {
    && cfg.Valid()
    && |mem.lens| == |mem.blocks| == cfg.history
    && (forall k | 0 <= k < cfg.history :: |mem.blocks[k]| == cfg.capacity)
  }

  /** What the slot of index i is there for. */
  ghost function Content(s: Sender, i: int): message
    requires s.Valid() && s.acked < i
  {
    if i <= s.written then s.msgs[i] else []
  }

  ghost predicate Holds(cfg: Config, mem: Memory, i: int, m: message)
    requires Shape(cfg, mem)
  {
    var k := Slot(i, cfg.history);
    mem.lens[k] == cfg.offset + |m| <= cfg.capacity && mem.blocks[k][cfg.offset..cfg.offset + |m|] == m
  }

  /** Every slot holds the one message of the window that it is there for. */
  ghost predicate Represents(s: Sender, mem: Memory) {
    && s.Valid() && Shape(s.cfg, mem)
    && forall i | s.acked < i <= s.acked + s.cfg.history :: Holds(s.cfg, mem, i, Content(s, i))
  }

  /** The messages up to index n carry their message header. */
  ghost predicate Stamped(s: Sender, mem: Memory, session: Session, n: int)
    requires s.Valid() && Shape(s.cfg, mem) && session.Valid()
  {
    forall i | s.acked < i <= n :: HasHeader(s.cfg, mem, i, session.Header(Wire(i)))
  }

  ghost predicate HasHeader(cfg: Config, mem: Memory, i: int, header: seq<byte>)
    requires Shape(cfg, mem)
  {
    mem.blocks[Slot(i, cfg.history)][..cfg.offset] == header
  }

  lemma Untouched(cfg: Config, mem: Memory, mem': Memory, i: int)
    requires Shape(cfg, mem) && Shape(cfg, mem') && SameSlot(cfg.history, mem, mem', i)
    ensures forall m :: Holds(cfg, mem, i, m) ==> Holds(cfg, mem', i, m)
    ensures forall h :: HasHeader(cfg, mem, i, h) ==> HasHeader(cfg, mem', i, h)
  {
  }

  /** Acknowledging the oldest message: its slot becomes that of a new index. */
  lemma SlotFreed(s: Sender, mem: Memory, session: Session)
    requires Represents(s, mem) && s.acked < s.sent && session.Valid() && Stamped(s, mem, session, s.sent)
    ensures var t := s.(acked := s.acked + 1);
      var mem' := mem.(lens := mem.lens[Slot(s.acked + 1, s.cfg.history) := s.cfg.offset]);
      Represents(t, mem') && Stamped(t, mem', session, t.sent)
  {
    hide Slot;
    var t := s.(acked := s.acked + 1);
    var j, h := s.acked + 1, s.cfg.history;
    var mem' := mem.(lens := mem.lens[Slot(j, h) := s.cfg.offset]);
    OtherSlots(s.cfg.history, mem, mem', s.acked, j);
    SlotsRepeat(j, h);
    forall i | t.acked < i <= t.acked + h
      ensures Holds(t.cfg, mem', i, Content(t, i))
    {
      if i != j + h {
        assert SameSlot(s.cfg.history, mem, mem', i) && Holds(s.cfg, mem, i, Content(s, i));
        Untouched(s.cfg, mem, mem', i);
      }
    }
    forall i | t.acked < i <= t.sent
      ensures HasHeader(t.cfg, mem', i, session.Header(Wire(i)))
    {
      assert SameSlot(s.cfg.history, mem, mem', i) && HasHeader(s.cfg, mem, i, session.Header(Wire(i)));
    }
  }

  /** The lengths after the slots of the n messages behind `acked` have been emptied. */
  function Emptied(lens: seq<nat>, history: nat, acked: int, n: nat, offset: nat): (e: seq<nat>)
    requires 0 < history == |lens|
    ensures |e| == history
  {
    if n == 0 then lens else Emptied(lens, history, acked, n - 1, offset)[Slot(acked + n, history) := offset]
  }

  /** A slot is empty as soon as one of these messages is its own; no other slot changes. */
  lemma {:induction false} EmptiedSlot(lens: seq<nat>, history: nat, acked: int, n: nat, offset: nat, i: int)
    requires 0 < history == |lens|
    ensures acked < i <= acked + n ==> Emptied(lens, history, acked, n, offset)[Slot(i, history)] == offset
    ensures acked + n < i <= acked + history ==>
              Emptied(lens, history, acked, n, offset)[Slot(i, history)] == lens[Slot(i, history)]
  {
    hide Slot;
    if n > 0 {
      EmptiedSlot(lens, history, acked, n - 1, offset, i);
      if acked + n < i <= acked + history {
        SlotsDiffer(i, acked + n, history);
      }
    }
  }

  lemma NoneEmptied(lens: seq<nat>, history: nat, acked: int, offset: nat)
    requires 0 < history == |lens|
    ensures Emptied(lens, history, acked, 0, offset) == lens
  {
  }

  lemma OneEmptied(lens: seq<nat>, history: nat, acked: int, n: nat, offset: nat)
    requires 0 < history == |lens|
    ensures Emptied(lens, history, acked, n + 1, offset)
         == Emptied(lens, history, acked, n, offset)[Slot(acked + n + 1, history) := offset]
  {
    hide Slot;
  }

  /** Whether something was reported lost does not matter to the slots. */
  lemma StillStamped(s: Sender, lost: bool, mem: Memory, session: Session)
    requires Represents(s, mem) && session.Valid() && Stamped(s, mem, session, s.sent)
    ensures var t := s.(sendLost := lost); Represents(t, mem) && Stamped(t, mem, session, t.sent)
  {
    hide Slot;
    var t := s.(sendLost := lost);
    SameContents(s, t, mem);
  }

  /** Acknowledging messages that have been sent. */
  lemma {:induction false} SlotsFreed(s: Sender, mem: Memory, session: Session, n: nat)
    requires Represents(s, mem) && n <= s.sent - s.acked && session.Valid() && Stamped(s, mem, session, s.sent)
    ensures var t, mem' := s.(acked := s.acked + n), mem.(lens := Emptied(mem.lens, s.cfg.history, s.acked, n, s.cfg.offset));
      Represents(t, mem') && Stamped(t, mem', session, t.sent)
  {
    hide Slot;
    hide Represents;
    hide Stamped;
    hide Sender.Valid;
    RepresentedShape(s, mem);
    if n == 0 {
      assert s.(acked := s.acked + 0) == s && mem.(lens := mem.lens) == mem;
    } else {
      SlotsFreed(s, mem, session, n - 1);
      SlotFreed(s.(acked := s.acked + (n - 1)), mem.(lens := Emptied(mem.lens, s.cfg.history, s.acked, n - 1, s.cfg.offset)), session);
    }
  }

  lemma RepresentedShape(s: Sender, mem: Memory)
    requires Represents(s, mem)
    ensures s.Valid() && Shape(s.cfg, mem) && 0 < s.cfg.history == |mem.lens| && s.cfg.history <= 0x4000
  {
  }

  /** An ACKNACK that is not current empties the slots of all messages that are sent and not acknowledged,
      and of the next one, although nobody has acknowledged them; a current one leaves every message
      behind its first number where it is. */
  lemma AckNackLoses(s: Sender, mem: Memory, firstUnacked: SeqNum, i: int)
    requires Represents(s, mem)
    ensures var n := Ahead(Wire(s.acked + 1), firstUnacked);
      var lens := Emptied(mem.lens, s.cfg.history, s.acked, n, s.cfg.offset);
      && (!s.IsCurrentAckNack(firstUnacked) && s.acked < i <= s.sent + 1 ==>
            lens[Slot(i, s.cfg.history)] == s.cfg.offset)
      && (s.IsCurrentAckNack(firstUnacked) && s.acked + n < i <= s.acked + s.cfg.history ==>
            lens[Slot(i, s.cfg.history)] == mem.lens[Slot(i, s.cfg.history)])
  {
    hide Slot;
    hide Represents;
    hide Ahead;
    hide Wire;
    hide Sender.Valid;
    RepresentedShape(s, mem);
    EmptiedSlot(mem.lens, s.cfg.history, s.acked, Ahead(Wire(s.acked + 1), firstUnacked), s.cfg.offset, i);
  }

  /** How many more numbers the nack loop may look at. */
  function NackTurns(next: SeqNum, lastSent: SeqNum): nat {
    if 0 < Cmp(next, lastSent) then 0 else 1 + Ahead(next, lastSent)
  }

  lemma NackTurnsFewer(next: SeqNum, lastSent: SeqNum)
    requires 0 >= Cmp(next, lastSent)
    ensures NackTurns(Add(next, 1), lastSent) < NackTurns(next, lastSent)
  {
  }

  /** Where the nack loop stops from `next` on: at a number whose slot is not empty, or past last_sent. */
  function NackFrom(lens: seq<nat>, history: nat, offset: nat, next: SeqNum, lastSent: SeqNum): (n: SeqNum)
    requires 0 < history == |lens|
    ensures 0 < Cmp(n, lastSent) || lens[Slot(n, history)] != offset
    decreases NackTurns(next, lastSent)
  {
    if 0 < Cmp(next, lastSent) || lens[Slot(next, history)] != offset then next
    else
      NackTurnsFewer(next, lastSent);
      NackFrom(lens, history, offset, Add(next, 1), lastSent)
  }

  /** Every slot is that of an index of the window. */
  lemma SlotInWindow(n: int, acked: int, history: nat) returns (i: int)
    requires 0 < history
    ensures acked < i <= acked + history && Slot(i, history) == Slot(n, history)
  {
    var d := n - acked - 1;
    var q, m := d / history, n / history;
    i := n - history * q;
    assert i == acked + 1 + d % history;
    assert i == history * (m - q) + n % history;
    ModOfMultiple(n % history, history, m - q);
  }

  /** After an ACKNACK that is not current the nack loop finds nothing to send again. */
  lemma NothingToNack(s: Sender, mem: Memory, firstUnacked: SeqNum)
    requires Represents(s, mem) && !s.IsCurrentAckNack(firstUnacked)
    ensures 0 < s.cfg.history == |mem.lens|
    ensures var n := Ahead(Wire(s.acked + 1), firstUnacked);
      var lens := Emptied(mem.lens, s.cfg.history, s.acked, n, s.cfg.offset);
      0 < Cmp(NackFrom(lens, s.cfg.history, s.cfg.offset, Add(Sub(firstUnacked, 1), 1), Wire(s.sent)), Wire(s.sent))
  {
    hide Slot;
    hide Represents;
    hide NackFrom;
    hide Emptied;
    hide Cmp;
    hide Add;
    hide Sub;
    hide Wire;
    hide Ahead;
    RepresentedShape(s, mem);
    var n := Ahead(Wire(s.acked + 1), firstUnacked);
    var lens := Emptied(mem.lens, s.cfg.history, s.acked, n, s.cfg.offset);
    var next := Add(Sub(firstUnacked, 1), 1);
    if n < s.cfg.history {
      AckNackNumbers(s, firstUnacked);
      AddSubRefine(s.acked + n, 1);
      PastSent(s, n);
      NackStops(lens, s.cfg.history, s.cfg.offset, next, Wire(s.sent));
    } else {
      var k := NackFrom(lens, s.cfg.history, s.cfg.offset, next, Wire(s.sent));
      var i := SlotInWindow(k, s.acked, s.cfg.history);
      EmptiedSlot(mem.lens, s.cfg.history, s.acked, n, s.cfg.offset, i);
    }
  }

  lemma PastSent(s: Sender, n: nat)
    requires s.Valid() && s.sent - s.acked < n < s.cfg.history
    ensures 0 < Cmp(Wire(s.acked + n + 1), Wire(s.sent))
  {
    CmpRefines(s.acked + n + 1, s.sent);
  }

  lemma NackStops(lens: seq<nat>, history: nat, offset: nat, next: SeqNum, lastSent: SeqNum)
    requires 0 < history == |lens| && (0 < Cmp(next, lastSent) || lens[Slot(next, history)] != offset)
    ensures NackFrom(lens, history, offset, next, lastSent) == next
  {
  }

  lemma NackPasses(lens: seq<nat>, history: nat, offset: nat, next: SeqNum, lastSent: SeqNum)
    requires 0 < history == |lens| && 0 >= Cmp(next, lastSent) && lens[Slot(next, history)] == offset
    ensures NackFrom(lens, history, offset, next, lastSent) == NackFrom(lens, history, offset, Add(next, 1), lastSent)
    ensures NackTurns(Add(next, 1), lastSent) < NackTurns(next, lastSent)
  {
    NackTurnsFewer(next, lastSent);
  }

  /** Writing the header of index n into its slot. */
  lemma SlotStamped(s: Sender, mem: Memory, mem': Memory, session: Session, n: int)
    requires Represents(s, mem) && Shape(s.cfg, mem') && s.acked < n <= s.acked + s.cfg.history
    requires session.Valid() && Stamped(s, mem, session, n - 1)
    requires mem'.lens == mem.lens
    requires forall k | 0 <= k < s.cfg.history && k != Slot(n, s.cfg.history) :: mem'.blocks[k] == mem.blocks[k]
    requires mem'.blocks[Slot(n, s.cfg.history)][s.cfg.offset..] == mem.blocks[Slot(n, s.cfg.history)][s.cfg.offset..]
    requires HasHeader(s.cfg, mem', n, session.Header(Wire(n)))
    ensures Represents(s, mem') && Stamped(s, mem', session, n)
  {
    hide Slot;
    ShapeOf(s, mem);
    OtherSlots(s.cfg.history, mem, mem', s.acked, n);
    HeldStays(s, mem, mem', n);
    hide Sender.Valid;
    hide Holds;
    forall i | s.acked < i <= s.acked + s.cfg.history
      ensures Holds(s.cfg, mem', i, Content(s, i))
    {
      assert Holds(s.cfg, mem, i, Content(s, i));
      if i != n {
        Untouched(s.cfg, mem, mem', i);
      }
    }
    hide HasHeader;
    forall i | s.acked < i <= n
      ensures HasHeader(s.cfg, mem', i, session.Header(Wire(i)))
    {
      if i != n {
        assert SameSlot(s.cfg.history, mem, mem', i) && HasHeader(s.cfg, mem, i, session.Header(Wire(i)));
        Untouched(s.cfg, mem, mem', i);
      }
    }
  }

  lemma HeldStays(s: Sender, mem: Memory, mem': Memory, n: int)
    requires Represents(s, mem) && Shape(s.cfg, mem') && s.acked < n <= s.acked + s.cfg.history && mem'.lens == mem.lens
    requires mem'.blocks[Slot(n, s.cfg.history)][s.cfg.offset..] == mem.blocks[Slot(n, s.cfg.history)][s.cfg.offset..]
    ensures Holds(s.cfg, mem', n, Content(s, n))
  {
    hide Slot;
    var k, o, m := Slot(n, s.cfg.history), s.cfg.offset, Content(s, n);
    assert Holds(s.cfg, mem, n, m);
    SameFrom(mem.blocks[k], mem'.blocks[k], o, |m|);
  }

  lemma SameFrom(a: seq<byte>, b: seq<byte>, from: nat, n: nat)
    requires from + n <= |a| == |b| && a[from..] == b[from..]
    ensures a[from..from + n] == b[from..from + n]
  {
    assert forall i | from <= i < |a| :: a[i] == a[from..][i - from] == b[from..][i - from] == b[i];
  }

  /** Changes that concern no slot: what was represented still is. */
  lemma SameContents(s: Sender, t: Sender, mem: Memory)
    requires Represents(s, mem) && t.Valid() && t.cfg == s.cfg && t.acked == s.acked
    requires forall i | s.acked < i <= s.acked + s.cfg.history :: Content(t, i) == Content(s, i)
    ensures Represents(t, mem)
  {
    hide Slot;
    forall i | t.acked < i <= t.acked + t.cfg.history
      ensures Holds(t.cfg, mem, i, Content(t, i))
    {
      assert Holds(s.cfg, mem, i, Content(s, i));
    }
  }

  /** In mem', message f of the place has its room: its slot has its length, and its first n octets. */
  ghost predicate Placed(cfg: Config, p: Place, f: nat, n: nat, mem: Memory, mem': Memory)
    requires Shape(cfg, mem) && Shape(cfg, mem') && f < |p.ms| && n <= |p.ms[f]|
  {
    var k, a := Slot(p.start + f, cfg.history), p.At(cfg, f);
    && mem'.lens[k] == a + |p.ms[f]| <= cfg.capacity
    && mem'.blocks[k][..a] == mem.blocks[k][..a]
    && mem'.blocks[k][a..a + n] == p.ms[f][..n]
  }

  ghost predicate FitsSlots(cfg: Config, p: Place) {
    && cfg.Valid()
    && 0 < |p.ms| <= cfg.history
    && (forall f | 0 <= f < |p.ms| :: p.head < |p.ms[f]| && p.At(cfg, f) + |p.ms[f]| <= cfg.capacity)
  }

  /** How much of message f is in its slot when the first `done` ones have been copied. */
  function Copied(p: Place, f: nat, done: nat): nat
    requires f < |p.ms|
  {
    if f < done then |p.ms[f]| else p.head
  }

  ghost predicate PlacedPart(cfg: Config, p: Place, f: nat, done: nat, mem: Memory, mem': Memory)
    requires Shape(cfg, mem) && Shape(cfg, mem') && f < |p.ms| && p.head <= |p.ms[f]|
  {
    Placed(cfg, p, f, Copied(p, f, done), mem, mem')
  }

  /** Half-way through a write: room has been made for the messages up to `made`, and those up to
      `done` are complete. */
  ghost predicate Placing(cfg: Config, acked: int, p: Place, made: nat, done: nat, mem: Memory, mem': Memory) {
    && Shape(cfg, mem) && Shape(cfg, mem') && FitsSlots(cfg, p)
    && done <= made <= |p.ms| && acked < p.start && p.start + |p.ms| - 1 <= acked + cfg.history
    && (forall f | 0 <= f < made :: PlacedPart(cfg, p, f, done, mem, mem'))
    && (forall i | acked < i <= acked + cfg.history && !(p.start <= i < p.start + made) ::
          SameSlot(cfg.history, mem, mem', i))
  }

  /** The subheader of fragment f is in its slot, right before the room for its part of the data. */
  ghost predicate SubheaderAt(cfg: Config, p: Place, f: nat, mem: Memory)
    requires Shape(cfg, mem) && f < |p.ms| && p.At(cfg, f) + 4 <= cfg.capacity
  {
    var k, a := Slot(p.start + f, cfg.history), p.At(cfg, f);
    ReadsAs(mem.blocks[k][a..a + 4], 13, if f == |p.ms| - 1 then {0, 1} else {0}, mem.lens[k] - a - 4)
  }

  lemma PlacedShape(cfg: Config, acked: int, p: Place, mem: Memory, mem': Memory)
    requires Placing(cfg, acked, p, |p.ms|, 0, mem, mem')
    ensures Shape(cfg, mem')
  {
  }

  lemma SubheaderPlaced(cfg: Config, acked: int, p: Place, f: nat, mem: Memory, mem': Memory, first: nat)
    requires Placing(cfg, acked, p, |p.ms|, 0, mem, mem') && f < |p.ms| && p.head == SUBHEADER_SIZE
    requires 0 < first < SEQ_NUM_SIZE && AreFragments(p.ms, first, cfg.Block())
    ensures Shape(cfg, mem') && p.At(cfg, f) + 4 <= cfg.capacity && SubheaderAt(cfg, p, f, mem')
  {
    hide Slot;
    hide ReadsAs;
    hide Kind;
    assert PlacedPart(cfg, p, f, 0, mem, mem') && FragmentAt(p.ms, f, first, cfg.Block());
  }

  lemma NothingPlaced(cfg: Config, acked: int, p: Place, mem: Memory)
    requires Shape(cfg, mem) && FitsSlots(cfg, p) && acked < p.start && p.start + |p.ms| - 1 <= acked + cfg.history
    ensures Placing(cfg, acked, p, 0, 0, mem, mem)
  {
  }

  /** Making room for the next message: its slot gets its length and its subheader. */
  lemma RoomMade(cfg: Config, acked: int, p: Place, made: nat, mem: Memory, mem': Memory, mem'': Memory)
    requires Placing(cfg, acked, p, made, 0, mem, mem') && made < |p.ms| && Shape(cfg, mem'')
    requires forall k | 0 <= k < cfg.history && k != Slot(p.start + made, cfg.history) ::
               mem''.lens[k] == mem'.lens[k] && mem''.blocks[k] == mem'.blocks[k]
    requires Placed(cfg, p, made, p.head, mem', mem'')
    ensures Placing(cfg, acked, p, made + 1, 0, mem, mem'')
  {
    hide Slot;
    hide SameSlot;
    OtherSlots(cfg.history, mem', mem'', acked, p.start + made);
    forall f | 0 <= f < made + 1
      ensures PlacedPart(cfg, p, f, 0, mem, mem'')
    {
      if f < made {
        assert PlacedPart(cfg, p, f, 0, mem, mem');
        PlacedStays(cfg, p, f, p.head, mem, mem', mem'');
      } else {
        RoomPlaced(cfg, p, made, mem, mem', mem'');
      }
    }
    forall i | acked < i <= acked + cfg.history && !(p.start <= i < p.start + made + 1)
      ensures SameSlot(cfg.history, mem, mem'', i)
    {
      SameSlotTwice(cfg.history, mem, mem', mem'', i);
    }
  }

  /** Room for a message that is not a fragment: its slot gets its length. */
  lemma LengthSet(cfg: Config, acked: int, p: Place, mem: Memory)
    requires Placing(cfg, acked, p, 0, 0, mem, mem) && |p.ms| == 1 && p.head == 0
    ensures Slotted(cfg.history, mem)
    ensures p.At(cfg, 0) + |p.ms[0]| <= cfg.capacity
    ensures Placing(cfg, acked, p, 1, 0, mem,
                    mem.(lens := mem.lens[Slot(p.start, cfg.history) := p.At(cfg, 0) + |p.ms[0]|]))
  {
    hide Slot;
    var mem' := mem.(lens := mem.lens[Slot(p.start, cfg.history) := p.At(cfg, 0) + |p.ms[0]|]);
    RoomMade(cfg, acked, p, 0, mem, mem, mem');
  }

  lemma RoomPlaced(cfg: Config, p: Place, f: nat, mem: Memory, mem': Memory, mem'': Memory)
    requires Shape(cfg, mem) && Shape(cfg, mem') && Shape(cfg, mem'') && f < |p.ms| && p.head <= |p.ms[f]|
    requires SameSlot(cfg.history, mem, mem', p.start + f) && Placed(cfg, p, f, p.head, mem', mem'')
    ensures Placed(cfg, p, f, p.head, mem, mem'')
  {
    hide Slot;
    hide Config.Valid;
  }

  /** Completing the next message: the rest of it is copied into its slot. */
  lemma MessageDone(cfg: Config, acked: int, p: Place, done: nat, mem: Memory, mem': Memory, mem'': Memory)
    requires Placing(cfg, acked, p, |p.ms|, done, mem, mem') && done < |p.ms| && Shape(cfg, mem'')
    requires mem''.lens == mem'.lens
    requires forall k | 0 <= k < cfg.history && k != Slot(p.start + done, cfg.history) :: mem''.blocks[k] == mem'.blocks[k]
    requires var k, a := Slot(p.start + done, cfg.history), p.At(cfg, done);
             && mem''.blocks[k][..a + p.head] == mem'.blocks[k][..a + p.head]
             && mem''.blocks[k][a + p.head..a + |p.ms[done]|] == p.ms[done][p.head..]
    ensures Placing(cfg, acked, p, |p.ms|, done + 1, mem, mem'')
  {
    hide Slot;
    hide Placed;
    hide SameSlot;
    var next := done + 1;
    OtherSlots(cfg.history, mem', mem'', acked, p.start + done);
    forall f | 0 <= f < |p.ms|
      ensures PlacedPart(cfg, p, f, next, mem, mem'')
    {
      assert PlacedPart(cfg, p, f, done, mem, mem');
      if f != done {
        PlacedStays(cfg, p, f, Copied(p, f, done), mem, mem', mem'');
      } else {
        RestCopied(cfg, p, done, mem, mem', mem'');
      }
    }
    forall i | acked < i <= acked + cfg.history && !(p.start <= i < p.start + |p.ms|)
      ensures SameSlot(cfg.history, mem, mem'', i)
    {
      SameSlotTwice(cfg.history, mem, mem', mem'', i);
    }
  }

  lemma PlacedStays(cfg: Config, p: Place, f: nat, n: nat, mem: Memory, mem': Memory, mem'': Memory)
    requires Shape(cfg, mem) && Shape(cfg, mem') && Shape(cfg, mem'') && f < |p.ms| && n <= |p.ms[f]|
    requires Placed(cfg, p, f, n, mem, mem') && SameSlot(cfg.history, mem', mem'', p.start + f)
    ensures Placed(cfg, p, f, n, mem, mem'')
  {
    hide Slot;
    hide Config.Valid;
  }

  lemma SameSlotTwice(history: nat, mem: Memory, mem': Memory, mem'': Memory, i: int)
    requires Slotted(history, mem) && Slotted(history, mem') && Slotted(history, mem'')
    requires SameSlot(history, mem, mem', i) && SameSlot(history, mem', mem'', i)
    ensures SameSlot(history, mem, mem'', i)
  {
    hide Slot;
  }

  lemma RestCopied(cfg: Config, p: Place, f: nat, mem: Memory, mem': Memory, mem'': Memory)
    requires Shape(cfg, mem) && Shape(cfg, mem') && Shape(cfg, mem'') && f < |p.ms| && p.head <= |p.ms[f]|
    requires Placed(cfg, p, f, p.head, mem, mem') && mem''.lens == mem'.lens
    requires var k, a := Slot(p.start + f, cfg.history), p.At(cfg, f);
             && mem''.blocks[k][..a + p.head] == mem'.blocks[k][..a + p.head]
             && mem''.blocks[k][a + p.head..a + |p.ms[f]|] == p.ms[f][p.head..]
    ensures Placed(cfg, p, f, |p.ms[f]|, mem, mem'')
  {
    hide Slot;
    var k, a, m := Slot(p.start + f, cfg.history), p.At(cfg, f), p.ms[f];
    PartReplaced(mem.blocks[k], mem'.blocks[k], mem''.blocks[k], a, p.head, m);
  }

  lemma PartReplaced(old': seq<byte>, was: seq<byte>, now: seq<byte>, a: nat, head: nat, m: seq<byte>)
    requires a <= |old'| && head <= |m| && a + |m| <= |was| == |now|
    requires was[..a] == old'[..a] && was[a..a + head] == m[..head]
    requires now[..a + head] == was[..a + head] && now[a + head..a + |m|] == m[head..]
    ensures now[..a] == old'[..a] && now[a..a + |m|] == m[..|m|]
  {
    assert now[..a] == now[..a + head][..a] == was[..a];
    assert now[a..a + head] == now[..a + head][a..] == was[..a + head][a..] == was[a..a + head];
    assert now[a..a + |m|] == now[a..a + head] + now[a + head..a + |m|];
    assert m == m[..head] + m[head..];
  }

  /** The alignment octets that a write leaves as it finds them. */
  ghost function PaddingOf(s: Sender, mem: Memory): seq<byte>
    requires s.Valid() && Shape(s.cfg, mem)
  {
    if s.Used() > s.cfg.capacity then seq(s.Used() - (s.cfg.offset + |s.Current()|), i => 0)
    else mem.blocks[Slot(s.written, s.cfg.history)][s.cfg.offset + |s.Current()|..s.Used()]
  }

  /** A complete write represents what OutputWindow says it does. */
  lemma PutRepresented(s: Sender, p: Place, mem: Memory, mem': Memory)
    requires Represents(s, mem) && s.IsPlace(p)
    requires Placing(s.cfg, s.acked, p, |p.ms|, |p.ms|, mem, mem')
    ensures s.IsPadding(PaddingOf(s, mem))
    ensures Represents(s.Put(p, PaddingOf(s, mem)), mem')
  {
    hide Slot;
    CurrentSlot(s, mem);
    hide PaddingOf;
    hide Sender.IsPadding;
    OutputInvariants.PutValid(s, p, PaddingOf(s, mem));
    hide Sender.Put;
    forall i | s.acked < i <= s.acked + s.cfg.history
      ensures Holds(s.cfg, mem', i, Content(s.Put(p, PaddingOf(s, mem)), i))
    {
      SlotPut(s, p, mem, mem', i);
    }
  }

  lemma SlotPut(s: Sender, p: Place, mem: Memory, mem': Memory, i: int)
    requires Represents(s, mem) && s.IsPlace(p) && s.Put(p, PaddingOf(s, mem)).Valid()
    requires Placing(s.cfg, s.acked, p, |p.ms|, |p.ms|, mem, mem')
    requires s.acked < i <= s.acked + s.cfg.history && s.Put(p, PaddingOf(s, mem)).acked == s.acked
    ensures Holds(s.cfg, mem', i, Content(s.Put(p, PaddingOf(s, mem)), i))
  {
    hide Slot;
    hide *;
    PlacingAt(s, p, mem, mem', i);
    PutContentAt(s, p, PaddingOf(s, mem), i);
    if i == p.start {
      HoldsFirst(s, p, mem, mem');
    } else if p.start < i < p.start + |p.ms| {
      NextPlaced(s, p, i - p.start, mem, mem');
    } else {
      Untouched(s.cfg, mem, mem', i);
    }
  }

  lemma PlacingAt(s: Sender, p: Place, mem: Memory, mem': Memory, i: int)
    requires Represents(s, mem) && Placing(s.cfg, s.acked, p, |p.ms|, |p.ms|, mem, mem')
    requires s.acked < i <= s.acked + s.cfg.history
    ensures s.Valid() && s.acked < p.start && Shape(s.cfg, mem) && Shape(s.cfg, mem')
    ensures Slotted(s.cfg.history, mem) && Slotted(s.cfg.history, mem') && Holds(s.cfg, mem, i, Content(s, i))
    ensures if p.start <= i < p.start + |p.ms|
            then Placed(s.cfg, p, i - p.start, |p.ms[i - p.start]|, mem, mem') else SameSlot(s.cfg.history, mem, mem', i)
  {
    hide Slot;
    if p.start <= i < p.start + |p.ms| {
      assert PlacedPart(s.cfg, p, i - p.start, |p.ms|, mem, mem');
    }
  }

  lemma PutContentAt(s: Sender, p: Place, pad: seq<byte>, i: int)
    requires s.Valid() && s.IsPlace(p) && s.Put(p, pad).Valid() && s.acked < i && s.Put(p, pad).acked == s.acked
    ensures 0 < |p.ms| && 0 <= s.written < |s.msgs|
    ensures Content(s.Put(p, pad), i)
         == if i == p.start then (if p.start == s.written then s.msgs[s.written] + pad else []) + p.ms[0]
            else if p.start < i < p.start + |p.ms| then p.ms[i - p.start]
            else Content(s, i)
  {
    hide Slot;
    PutContents(s, p, pad);
    hide Sender.Put;
  }

  lemma HoldsFirst(s: Sender, p: Place, mem: Memory, mem': Memory)
    requires s.Valid() && s.IsPlace(p) && Shape(s.cfg, mem) && Shape(s.cfg, mem') && s.acked < p.start
    requires Placed(s.cfg, p, 0, |p.ms[0]|, mem, mem') && Holds(s.cfg, mem, p.start, Content(s, p.start))
    ensures Holds(s.cfg, mem', p.start,
                  (if p.start == s.written then s.msgs[s.written] + PaddingOf(s, mem) else []) + p.ms[0])
  {
    hide Slot;
    var held, pad := Content(s, p.start), if p.start == s.written then PaddingOf(s, mem) else [];
    FirstPlaced(s.cfg, p, held, pad, mem, mem');
    assert p.start != s.written ==> held == [] && [] + [] + p.ms[0] == [] + p.ms[0];
  }

  lemma NextPlaced(s: Sender, p: Place, f: nat, mem: Memory, mem': Memory)
    requires s.Valid() && s.IsPlace(p) && 0 < f < |p.ms| && Shape(s.cfg, mem) && Shape(s.cfg, mem')
    requires Placed(s.cfg, p, f, |p.ms[f]|, mem, mem')
    ensures Holds(s.cfg, mem', p.start + f, p.ms[f])
  {
  }

  /** The slot of `written` holds the current message, its own or that of the oldest one. */
  lemma CurrentSlot(s: Sender, mem: Memory)
    requires Represents(s, mem)
    ensures mem.lens[Slot(s.written, s.cfg.history)] == s.cfg.offset + |s.Current()|
    ensures s.IsPadding(PaddingOf(s, mem))
  {
    hide Slot;
    if s.Open() {
      assert Holds(s.cfg, mem, s.written, Content(s, s.written));
    } else {
      assert Holds(s.cfg, mem, s.acked + 1, Content(s, s.acked + 1));
      SlotsRepeat(s.acked + 1, s.cfg.history);
    }
  }

  /** The contents after a write: the messages of its place, the rest as before. */
  lemma PutContents(s: Sender, p: Place, pad: seq<byte>)
    requires s.Valid() && s.IsPlace(p) && s.Put(p, pad).Valid()
    ensures var t := s.Put(p, pad);
      && (forall i | p.start < i < p.start + |p.ms| :: Content(t, i) == p.ms[i - p.start])
      && Content(t, p.start) == (if p.start == s.written then s.msgs[s.written] + pad else []) + p.ms[0]
      && (forall i | s.acked < i && !(p.start <= i < p.start + |p.ms|) :: Content(t, i) == Content(s, i))
  {
  }

  /** The first message of a write follows what its slot already held. */
  lemma FirstPlaced(cfg: Config, p: Place, held: message, pad: seq<byte>, mem: Memory, mem': Memory)
    requires Shape(cfg, mem) && Shape(cfg, mem') && p.ms != [] && Placed(cfg, p, 0, |p.ms[0]|, mem, mem')
    requires Holds(cfg, mem, p.start, held) && p.at == cfg.offset + |held| + |pad|
    requires pad == mem.blocks[Slot(p.start, cfg.history)][cfg.offset + |held|..p.at]
    ensures Holds(cfg, mem', p.start, held + pad + p.ms[0])
  {
    hide Slot;
    var k := Slot(p.start, cfg.history);
    Appended(mem.blocks[k], mem'.blocks[k], cfg.offset, held, pad, p.ms[0]);
  }

  lemma Appended(was: seq<byte>, now: seq<byte>, o: nat, m: seq<byte>, pad: seq<byte>, more: seq<byte>)
    requires o + |m| + |pad| + |more| <= |now| && |now| == |was|
    requires was[o..o + |m|] == m && was[o + |m|..o + |m| + |pad|] == pad
    requires now[..o + |m| + |pad|] == was[..o + |m| + |pad|]
    requires now[o + |m| + |pad|..o + |m| + |pad| + |more|] == more
    ensures now[o..o + |m + pad + more|] == m + pad + more
  {
    Follows(was, now, o, o + |m|, o + |m| + |pad|, |more|);
  }

  lemma Follows(was: seq<byte>, now: seq<byte>, from: nat, mid: nat, at: nat, n: nat)
    requires from <= mid <= at <= |was| && at + n <= |now| && now[..at] == was[..at]
    ensures now[from..at + n] == was[from..mid] + was[mid..at] + now[at..at + n]
  {
    assert forall i | 0 <= i < at :: now[i] == now[..at][i] == was[i];
  }

  lemma InitRepresented(cfg: Config, mem: Memory)
    requires Shape(cfg, mem) && forall k | 0 <= k < cfg.history :: mem.lens[k] == cfg.offset
    ensures Represents(InitSender(cfg), mem)
  {
  }

  /** How many of the slots of the indices low..high-1 have length n. */
  ghost function CountFree(lens: seq<nat>, n: nat, low: int, high: int): nat
    requires |lens| > 0 && low <= high
    decreases high - low
  {
    if low == high then 0
    else CountFree(lens, n, low, high - 1) + if lens[Slot(high - 1, |lens|)] == n then 1 else 0
  }

  lemma {:induction false} CountFreeFirst(lens: seq<nat>, n: nat, low: int, high: int)
    requires |lens| > 0 && low < high
    ensures CountFree(lens, n, low, high)
         == (if lens[Slot(low, |lens|)] == n then 1 else 0) + CountFree(lens, n, low + 1, high)
    decreases high - low
  {
    hide Slot;
    if low + 1 < high {
      CountFreeFirst(lens, n, low, high - 1);
    }
  }

  /** A whole turn of the ring counts every slot once, wherever it starts. */
  lemma {:induction false} CountFreeTurn(lens: seq<nat>, n: nat, low: nat)
    requires |lens| > 0
    ensures CountFree(lens, n, low, low + |lens|) == CountFree(lens, n, 0, |lens|)
  {
    hide Slot;
    if low > 0 {
      CountFreeTurn(lens, n, low - 1);
      CountFreeFirst(lens, n, low - 1, low - 1 + |lens|);
      SlotsRepeat(low - 1, |lens|);
    }
  }

  /** Counting empty slots counts the room left in the window. */
  lemma FreeSlots(s: Sender, mem: Memory)
    requires Represents(s, mem)
    ensures CountFree(mem.lens, s.cfg.offset, 0, s.cfg.history) == s.Free()
  {
    hide Slot;
    CountFreeTurn(mem.lens, s.cfg.offset, s.acked + 1);
    CountWindow(s, mem, s.acked + 1 + s.cfg.history);
  }

  lemma {:induction false} CountWindow(s: Sender, mem: Memory, high: int)
    requires Represents(s, mem) && s.acked < high <= s.acked + 1 + s.cfg.history
    ensures CountFree(mem.lens, s.cfg.offset, s.acked + 1, high)
         == if high <= s.written then 0 else high - s.written - if s.msgs[s.written] == [] then 0 else 1
    decreases high
  {
    hide Slot;
    if s.acked + 1 < high {
      CountWindow(s, mem, high - 1);
      assert Holds(s.cfg, mem, high - 1, Content(s, high - 1));
    }
  }

  /** The 16-bit test of output_reliable_stream.c:180-182 says whether the window has a next
      message, also across the wrap. */
  lemma NextTest(s: Sender, mem: Memory)
    requires Represents(s, mem) && IsPowerOfTwo(s.cfg.history)
    ensures Add(Wire(s.sent), 1) == Wire(s.sent + 1)
    ensures s.HasNext() <==>
              && 0 >= Cmp(Wire(s.sent + 1), Wire(s.written))
              && mem.lens[Slot(Wire(s.sent + 1), s.cfg.history)] > s.cfg.offset
              && Sub(Wire(s.sent), Wire(s.acked)) != s.cfg.history
  {
    hide Slot;
    SlotOfWire(s.sent + 1, s.cfg.history);
    WindowNumbers(s.sent, s.written, s.acked);
    if s.sent - s.acked != s.cfg.history {
      assert Holds(s.cfg, mem, s.sent + 1, Content(s, s.sent + 1));
    }
  }

  lemma WindowNumbers(sent: int, written: int, acked: int)
    requires acked <= sent < written <= acked + 0x4001
    ensures 0 >= Cmp(Wire(sent + 1), Wire(written))
    ensures Sub(Wire(sent), Wire(acked)) == sent - acked
    ensures Wire(sent + 1) == Wire(written) <==> sent + 1 == written
    ensures Add(Wire(sent), 1) == Wire(sent + 1) && Add(Wire(written), 1) == Wire(written + 1)
    ensures Sub(Wire(sent), 1) == Wire(sent - 1)
  {
    hide Add;
    hide Sub;
    hide Cmp;
    hide Wire;
    hide Ahead;
    CmpRefines(sent + 1, written);
    SubIsAhead(Wire(sent), Wire(acked));
    AheadOfIndices(acked, sent);
    AddSubRefine(sent, 1);
    AddSubRefine(written, 1);
    SameNumber(sent + 1, written);
  }

  /** Offering a message changes no slot. */
  lemma NextNumbers(s: Sender)
    requires s.Valid() && s.HasNext()
    ensures var t := s.SendNext();
      && t.Valid() && t.cfg == s.cfg && t.acked == s.acked && t.sent == s.sent + 1 && t.sendLost == s.sendLost
      && Wire(t.written) == if Wire(s.sent + 1) == Wire(s.written) then Add(Wire(s.written), 1) else Wire(s.written)
  {
    OutputInvariants.SendValid(s);
    WindowNumbers(s.sent, s.written, s.acked);
  }

  lemma NextRepresented(s: Sender, mem: Memory, session: Session)
    requires Represents(s, mem) && s.HasNext() && session.Valid() && Stamped(s, mem, session, s.sent)
    ensures var t := s.SendNext();
      Represents(t, mem) && Stamped(t, mem, session, s.sent)
  {
    hide Slot;
    OutputInvariants.SendValid(s);
    SameContents(s, s.SendNext(), mem);
    var t := s.SendNext();
    forall i | t.acked < i <= s.sent
      ensures HasHeader(t.cfg, mem, i, session.Header(Wire(i)))
    {
      assert HasHeader(s.cfg, mem, i, session.Header(Wire(i)));
    }
  }

  /** The 16-bit test of output_reliable_stream.c:201-202 says whether the slot that follows can be
      taken back, and taking it back changes no slot. */
  lemma CancelTest(s: Sender, mem: Memory, session: Session)
    requires Represents(s, mem) && s.acked < s.sent && s.Cancel().Valid() && IsPowerOfTwo(s.cfg.history)
    requires session.Valid() && Stamped(s, mem, session, s.sent - 1)
    ensures var t, next := s.Cancel(), Add(Wire(s.sent), 1);
      && Represents(t, mem) && Stamped(t, mem, session, t.sent)
      && Sub(Wire(s.sent), 1) == Wire(t.sent)
      && Wire(t.written) == if Wire(s.written) == next && s.cfg.offset == mem.lens[Slot(next, s.cfg.history)]
                            then Wire(s.sent) else Wire(s.written)
  {
    hide Slot;
    hide *;
    WindowSlot(s, mem, s.sent + 1);
    CancelStamped(s, mem, session);
    CancelRepresented(s, mem);
    CancelNumbers(s);
    WindowNumbers(s.sent, s.written, s.acked);
    CurrentSlot(s, mem);
  }

  lemma ShapeOf(s: Sender, mem: Memory)
    requires Represents(s, mem)
    ensures s.Valid() && Shape(s.cfg, mem) && Slotted(s.cfg.history, mem)
    ensures s.acked <= s.sent < s.written <= s.acked + s.cfg.history + 1 && 0 < s.cfg.history <= 0x4000
  {
  }

  lemma WindowSlot(s: Sender, mem: Memory, i: int)
    requires Represents(s, mem) && IsPowerOfTwo(s.cfg.history)
    ensures s.Valid() && Shape(s.cfg, mem) && Slotted(s.cfg.history, mem)
    ensures s.acked <= s.sent < s.written <= s.acked + 0x4001
    ensures Slot(Wire(i), s.cfg.history) == Slot(i, s.cfg.history)
  {
    SlotOfWire(i, s.cfg.history);
  }

  lemma CancelRepresented(s: Sender, mem: Memory)
    requires Represents(s, mem) && s.acked < s.sent && s.Cancel().Valid()
    ensures Represents(s.Cancel(), mem)
  {
    hide Slot;
    SameContents(s, s.Cancel(), mem);
  }

  lemma CancelNumbers(s: Sender)
    requires s.Valid() && s.acked < s.sent
    ensures s.Cancel().sent == s.sent - 1 && s.Cancel().cfg == s.cfg
    ensures s.Cancel().written == if s.written == s.sent + 1 && |s.Current()| == 0 then s.sent else s.written
  {
  }

  lemma CancelStamped(s: Sender, mem: Memory, session: Session)
    requires s.Valid() && Shape(s.cfg, mem) && s.acked < s.sent && session.Valid() && Stamped(s, mem, session, s.sent - 1)
    requires s.Cancel().Valid()
    ensures Stamped(s.Cancel(), mem, session, s.Cancel().sent)
  {
    hide Slot;
    hide Session.Header;
    var t := s.Cancel();
    forall i | t.acked < i <= t.sent
      ensures HasHeader(t.cfg, mem, i, session.Header(Wire(i)))
    {
      assert HasHeader(s.cfg, mem, i, session.Header(Wire(i)));
    }
  }

  /** buffers_to_clean of output_reliable_stream.c:277-278. */
  lemma AckNackNumbers(s: Sender, firstUnacked: SeqNum)
    ensures Sub(Sub(firstUnacked, 1), Wire(s.acked)) == Ahead(Wire(s.acked + 1), firstUnacked)
    ensures Wire(s.acked + Ahead(Wire(s.acked + 1), firstUnacked)) == Sub(firstUnacked, 1)
  {
    BeforeAhead(s.acked, firstUnacked);
    AddSubRefine(s.acked + Ahead(Wire(s.acked + 1), firstUnacked) + 1, 1);
    IndexAhead(s.acked + 1, firstUnacked);
  }

  lemma BeforeAhead(acked: int, n: SeqNum)
    ensures Sub(Sub(n, 1), Wire(acked)) == Ahead(Wire(acked + 1), n)
  {
    hide Sub;
    hide Wire;
    hide Ahead;
    WireAt(0, n, n);
    SubIsAhead(Sub(n, 1), Wire(acked));
    AddSubRefine(n, 1);
    AheadOfIndices(acked, n - 1);
    AheadOfIndices(acked + 1, n);
  }

  /** The 16-bit tests of uxr_prepare_reliable_buffer_to_write. */
  lemma WriteTests(s: Sender, mem: Memory)
    requires Represents(s, mem) && IsPowerOfTwo(s.cfg.history)
    ensures mem.lens[Slot(Wire(s.written), s.cfg.history)] == s.cfg.offset + |s.Current()|
    ensures 0 >= Cmp(Wire(s.written), Add(Wire(s.acked), s.cfg.history)) <==> s.Open()
    ensures 0 >= Cmp(Add(Wire(s.written), 1), Add(Wire(s.acked), s.cfg.history))
            <==> s.written + 1 <= s.acked + s.cfg.history
    ensures Add(Wire(s.written), 1) == Wire(s.written + 1)
  {
    hide Slot;
    SlotOfWire(s.written, s.cfg.history);
    CurrentSlot(s, mem);
    RoomNumbers(s.acked, s.written, s.cfg.history);
    hide Represents;
    hide IsPowerOfTwo;
    hide PaddingOf;
    hide Cmp;
    hide Add;
    hide Wire;
  }

  lemma RoomNumbers(acked: int, written: int, history: nat)
    requires acked < written <= acked + history + 1 && history <= 0x4000
    ensures 0 >= Cmp(Wire(written), Add(Wire(acked), history)) <==> written <= acked + history
    ensures 0 >= Cmp(Add(Wire(written), 1), Add(Wire(acked), history)) <==> written + 1 <= acked + history
    ensures Add(Wire(written), 1) == Wire(written + 1)
  {
    hide Slot;
    AddSubRefine(acked, history);
    AddSubRefine(written, 1);
    CmpRefines(written, acked + history);
    CmpRefines(written + 1, acked + history);
  }

  /** Before its turn, the slot of a fragment is empty, or, for the first one, as it was. */
  lemma FragmentSlot(s: Sender, p: Place, f: nat, mem: Memory, mem': Memory)
    requires Represents(s, mem) && s.IsPlace(p) && f < |p.ms| && Placing(s.cfg, s.acked, p, f, 0, mem, mem')
    ensures Align4(mem'.lens[Slot(p.start + f, s.cfg.history)]) == p.At(s.cfg, f)
    ensures SameSlot(s.cfg.history, mem, mem', p.start + f)
  {
    hide Slot;
    assert SameSlot(s.cfg.history, mem, mem', p.start + f);
    assert Holds(s.cfg, mem, p.start + f, Content(s, p.start + f));
  }

  /** Writing the subheader and the length of fragment f makes its room. */
  lemma FragmentRoom(cfg: Config, acked: int, p: Place, f: nat, size: SeqNum, last: bool, mem: Memory, mem': Memory)
    requires Placing(cfg, acked, p, f, 0, mem, mem') && f < |p.ms| && p.head == SUBHEADER_SIZE
    requires p.ms[f][..SUBHEADER_SIZE] == FragmentHeader(size, last)
    ensures var k, a := Slot(p.start + f, cfg.history), p.At(cfg, f);
      a + SUBHEADER_SIZE <= |mem'.blocks[k]| &&
      Placing(cfg, acked, p, f + 1, 0, mem,
              Memory(mem'.lens[k := a + |p.ms[f]|],
                     mem'.blocks[k := Overlay(mem'.blocks[k], a, FragmentHeader(size, last))]))
  {
    hide Slot;
    PlacingFits(cfg, acked, p, f, mem, mem');
    hide Placing;
    var k, a := Slot(p.start + f, cfg.history), p.At(cfg, f);
    var now := Overlay(mem'.blocks[k], a, FragmentHeader(size, last));
    var mem'' := Memory(mem'.lens[k := a + |p.ms[f]|], mem'.blocks[k := now]);
    RoomMade(cfg, acked, p, f, mem, mem', mem'');
  }

  lemma PlacingFits(cfg: Config, acked: int, p: Place, f: nat, mem: Memory, mem': Memory)
    requires Placing(cfg, acked, p, f, 0, mem, mem') && f < |p.ms|
    ensures Shape(cfg, mem') && Shape(cfg, mem) && p.head < |p.ms[f]| && p.At(cfg, f) + |p.ms[f]| <= cfg.capacity
  {
  }

  /** The arithmetic of the fragmenting branch: how many fragments follow the first one, and how long
      the last one is. */
  lemma CutNumbers(s: Sender, data: seq<byte>)
    requires s.Valid() && data != []
    requires !s.FitsCurrent(|data|) && !s.FitsSlot(|data|) && s.FitsFragmented(|data|)
    ensures s.FirstSize() < |data|
    ensures var n, b, cut := |data| - s.FirstSize(), s.cfg.Block(), s.Cut(data);
      && |cut| - 1 == Blocks(n, b) <= s.Free() && |cut[|cut| - 1]| - SUBHEADER_SIZE == LastBlock(n, b)
      && |cut| >= 2 && |cut[0]| == SUBHEADER_SIZE + s.FirstSize()
    ensures AreFragments(s.Cut(data), s.FirstSize(), s.cfg.Block())
  {
    hide Slot;
    hide Fragments;
    hide Sender.Free;
    hide Sender.Used;
    hide Sender.TooFull;
    var n, b := |data| - s.FirstSize(), s.cfg.Block();
    CutLess(s, data);
    CutFits(s, data);
    OutputInvariants.CutShape(s, data);
    assert FragmentAt(s.Cut(data), 0, s.FirstSize(), b);
    FragmentsCount(data, s.FirstSize(), b);
    LastFragmentSize(data, s.FirstSize(), b);
    RoundUp(n, b);
  }

  lemma CutLess(s: Sender, data: seq<byte>)
    requires s.Valid() && data != [] && !s.FitsCurrent(|data|) && !s.FitsSlot(|data|)
    ensures s.FirstSize() < |data|
  {
  }

  /** Where the fragmenting branch starts. */
  lemma FragmentNumbers(s: Sender, data: seq<byte>, mem: Memory)
    requires Represents(s, mem) && Readable(data) && IsPowerOfTwo(s.cfg.history) && s.IsPlace(s.PlaceOf(data))
    requires !s.FitsCurrent(|data|) && !s.FitsSlot(|data|) && s.FitsFragmented(|data|)
    ensures var p := s.PlaceOf(data);
      && p.ms == s.Cut(data) && p.head == SUBHEADER_SIZE
      && (s.TooFull() ==> p.start == s.written + 1 && mem.lens[Slot(Wire(p.start), s.cfg.history)] == p.at == s.cfg.offset)
      && (!s.TooFull() ==> p.start == s.written && p.at == s.Used())
      && s.FirstSize() == s.cfg.capacity - (p.at + SUBHEADER_SIZE)
      && Add(Wire(s.written), 1) == Wire(s.written + 1)
  {
    hide Slot;
    hide IsPowerOfTwo;
    hide Fragments;
    AddSubRefine(s.written, 1);
    if s.TooFull() {
      SlotOfWire(s.written + 1, s.cfg.history);
      assert Holds(s.cfg, mem, s.written + 1, Content(s, s.written + 1));
    }
  }

  /** The place of data that is cut, as the code sees it. */
  lemma CutPlace(s: Sender, data: seq<byte>, mem: Memory)
    requires Represents(s, mem) && Readable(data) && IsPowerOfTwo(s.cfg.history)
    requires !s.FitsCurrent(|data|) && !s.FitsSlot(|data|) && s.FitsFragmented(|data|)
    ensures var p, first, b := s.PlaceOf(data), s.cfg.capacity - (s.PlaceOf(data).at + SUBHEADER_SIZE), s.cfg.Block();
      && s.IsPlace(p) && p.head == SUBHEADER_SIZE && 0 < first < |data| && first < SEQ_NUM_SIZE
      && AreFragments(p.ms, first, b) && |p.ms| >= 2 && |p.ms[0]| == SUBHEADER_SIZE + first
      && var n := |data| - first;
      && |p.ms| - 1 == Blocks(n, b) <= s.Free() && |p.ms[|p.ms| - 1]| - SUBHEADER_SIZE == LastBlock(n, b)
  {
    OutputInvariants.PlaceFits(s, data);
    FragmentNumbers(s, data, mem);
    CutNumbers(s, data);
    hide Slot;
    hide Sender.PlaceOf;
    hide Sender.Cut;
    hide Sender.IsPlace;
    hide Sender.Free;
    hide AreFragments;
    hide Represents;
    hide IsPowerOfTwo;
    hide Blocks;
    hide LastBlock;
  }

  lemma PlacedLength(cfg: Config, acked: int, p: Place, f: nat, done: nat, mem: Memory, mem': Memory)
    requires Placing(cfg, acked, p, |p.ms|, done, mem, mem') && f < |p.ms|
    ensures cfg.history > 0 && Slot(p.start + f, cfg.history) < |mem'.lens| == cfg.history
    ensures mem'.lens[Slot(p.start + f, cfg.history)] == p.At(cfg, f) + |p.ms[f]| <= cfg.capacity
    ensures p.head < |p.ms[f]|
  {
    hide Slot;
    assert PlacedPart(cfg, p, f, done, mem, mem');
  }

  /** Copying the user's part of message f completes it. */
  lemma MessageCopied(cfg: Config, acked: int, p: Place, f: nat, mem: Memory, mem': Memory)
    requires Placing(cfg, acked, p, |p.ms|, f, mem, mem') && f < |p.ms|
    ensures var k, a := Slot(p.start + f, cfg.history), p.At(cfg, f);
      p.head <= |p.ms[f]| && a + |p.ms[f]| <= |mem'.blocks[k]| &&
      Placing(cfg, acked, p, |p.ms|, f + 1, mem,
              Memory(mem'.lens, mem'.blocks[k := Overlay(mem'.blocks[k], a + p.head, p.ms[f][p.head..])]))
  {
    hide Slot;
    PlacedLength(cfg, acked, p, f, f, mem, mem');
    var k, a, m := Slot(p.start + f, cfg.history), p.At(cfg, f), p.ms[f];
    assert Shape(cfg, mem');
    hide Placing;
    var now := Overlay(mem'.blocks[k], a + p.head, m[p.head..]);
    MessageDone(cfg, acked, p, f, mem, mem', Memory(mem'.lens, mem'.blocks[k := now]));
  }

  /** The user's parts of the messages of a write are its data. */
  lemma PlaceJoined(s: Sender, data: seq<byte>)
    requires s.Valid() && Readable(data) && s.Accepts(|data|)
    ensures var p := s.PlaceOf(data);
      (forall m <- p.ms :: |m| > p.head) && Join(p.ms, p.head) == data && (|p.ms| == 1 || p.head == SUBHEADER_SIZE)
  {
    hide Slot;
    OutputInvariants.PlaceFits(s, data);
    if !s.FitsCurrent(|data|) && !s.FitsSlot(|data|) {
      JoinFragments(data, s.FirstSize(), s.cfg.Block());
    } else {
      assert [data][1..] == [];
      assert data[0..] + [] == data;
    }
  }

  /** A write leaves sent messages, and their headers, alone. */
  lemma PutKeepsStamps(s: Sender, p: Place, pad: seq<byte>, mem: Memory, mem': Memory, session: Session)
    requires s.Valid() && s.IsPlace(p) && s.Put(p, pad).Valid() && session.Valid()
    requires Placing(s.cfg, s.acked, p, |p.ms|, |p.ms|, mem, mem') && Stamped(s, mem, session, s.sent)
    ensures Stamped(s.Put(p, pad), mem', session, s.sent)
  {
    hide Slot;
    forall i | s.acked < i <= s.sent
      ensures HasHeader(s.cfg, mem', i, session.Header(Wire(i)))
    {
      assert SameSlot(s.cfg.history, mem, mem', i) && HasHeader(s.cfg, mem, i, session.Header(Wire(i)));
    }
  }

  lemma WriteUnavailable(s: Sender, data: seq<byte>, mem: Memory)
    requires Represents(s, mem) && Readable(data)
    ensures s.IsPadding(PaddingOf(s, mem))
    ensures !s.Accepts(|data|) ==> s.Write(data, PaddingOf(s, mem)) == s
  {
    hide Slot;
    CurrentSlot(s, mem);
  }

  /** A complete write represents what OutputWindow says it does. */
  lemma WriteRepresented(s: Sender, data: seq<byte>, mem: Memory, mem': Memory, session: Session)
    requires Represents(s, mem) && Readable(data) && s.Accepts(|data|)
    requires session.Valid() && Stamped(s, mem, session, s.sent)
    requires var p := s.PlaceOf(data); Placing(s.cfg, s.acked, p, |p.ms|, |p.ms|, mem, mem')
    ensures var t, p := s.Write(data, PaddingOf(s, mem)), s.PlaceOf(data);
      && t.Valid() && Represents(t, mem')
      && t.sent == s.sent && t.acked == s.acked && t.cfg == s.cfg && t.sendLost == s.sendLost
      && Stamped(t, mem', session, t.sent) && t.written == p.start + |p.ms| - 1
  {
    hide Slot;
    var p, pad := s.PlaceOf(data), PaddingOf(s, mem);
    OutputInvariants.PlaceFits(s, data);
    hide Sender.PlaceOf;
    CurrentSlot(s, mem);
    PutRepresented(s, p, mem, mem');
    OutputInvariants.PutValid(s, p, pad);
    PutKeepsStamps(s, p, pad, mem, mem', session);
  }
}
