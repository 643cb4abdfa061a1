/** output_reliable_stream.c and the loops of session.c that drive it.

    The class keeps the 16-bit fields and the octet buffer of the original; `view` counts the same
    window with unbounded indices, and every contract says what happens to `view`. */
module OutputReliableStream {
  import opened SeqNum
  import opened Slots
  import opened Messages
  import opened MessageHeaders
  import opened CommonReliableStream
  import opened OutputWindow
  import opened OutputInvariants
  import opened OutputSlots

  /** The transport underneath: it takes a datagram or refuses it, as it pleases. */
  class Transport {
    var accepts: seq<bool>
    ghost var offered: seq<seq<byte>>
    ghost var taken: seq<seq<byte>>

    constructor (accepts: seq<bool>)
      ensures offered == taken == [] && this.accepts == accepts
    {
      this.accepts, offered, taken := accepts, [], [];
    }

    method SendMessage(datagram: seq<byte>) returns (sent: bool)
      modifies this
      ensures offered == old(offered) + [datagram]
      ensures taken == if sent then old(taken) + [datagram] else old(taken)
    {
      sent := accepts != [] && accepts[0];
      if accepts != [] {
        accepts := accepts[1..];
      }
      offered := offered + [datagram];
      taken := if sent then taken + [datagram] else taken;
    }
  }

  /** The datagrams of the messages low..high-1. */
  function Datagrams(session: Session, msgs: seq<message>, low: int, high: int): seq<seq<byte>>
    requires session.Valid() && 0 <= low <= high <= |msgs|
    decreases high - low
  {
    if low == high then [] else Datagrams(session, msgs, low, high - 1) + [session.Datagram(high - 1, msgs[high - 1])]
  }

  /** The transport has taken nothing new but some of these. */
  ghost predicate TakenOf(now: seq<seq<byte>>, before: seq<seq<byte>>, offered: seq<seq<byte>>) {
    forall d <- now :: d in before || d in offered
  }

  lemma {:induction false} DatagramsPrefix(session: Session, a: seq<message>, b: seq<message>, low: int, high: int)
    requires session.Valid() && 0 <= low <= high <= |a| && high <= |b| && a[..high] == b[..high]
    ensures Datagrams(session, a, low, high) == Datagrams(session, b, low, high)
    decreases high - low
  {
    hide Session.Datagram;
    if low < high {
      assert a[..high][high - 1] == b[..high][high - 1];
      assert a[..high - 1] == a[..high][..high - 1] == b[..high][..high - 1] == b[..high - 1];
      DatagramsPrefix(session, a, b, low, high - 1);
    }
  }

  /** The sender after offering up to n messages. */
  ghost function Sends(s: Sender, n: nat): (t: Sender)
    requires s.Valid()
    ensures t.Valid() && KeepsSent(s, t) && t.acked == s.acked
  {
    if n == 0 then s
    else
      var u := Sends(s, n - 1);
      if u.HasNext() then SendValid(u); u.SendNext() else u
  }

  /** n messages have been taken by the transport, in order, and if one was refused, it is still the
      next and was the last one offered. */
  ghost predicate Flushed(session: Session, before: Sender, n: nat, s: Sender, refused: bool,
                          taken: seq<seq<byte>>, taken': seq<seq<byte>>, offered: seq<seq<byte>>)
    requires before.Valid() && session.Valid()
  {
    && s.Valid() && KeepsSent(before, s) && s.acked == before.acked && s.sent == before.sent + n
    && (refused ==> Sends(before, n).HasNext() && s == Refuse(Sends(before, n)) && s.HasNext())
    && (!refused ==> s == Sends(before, n))
    && taken' == taken + Datagrams(session, s.msgs, before.sent + 1, s.sent + 1)
    && (refused ==> offered != [] && offered[|offered| - 1] == session.Datagram(s.sent + 1, s.msgs[s.sent + 1]))
  }

  /** Whatever has been taken has been offered, each once and in that order, and behind that at most the one
      that was refused. */
  ghost predicate Offered(taken: seq<seq<byte>>, offered: seq<seq<byte>>, taken': seq<seq<byte>>, offered': seq<seq<byte>>,
                          refused: bool) {
    && taken <= taken' && (refused ==> offered' != [])
    && offered' == offered + taken'[|taken|..] + if refused then [offered'[|offered'| - 1]] else []
  }

  lemma OfferedNone(taken: seq<seq<byte>>, offered: seq<seq<byte>>)
    ensures Offered(taken, offered, taken, offered, false)
  {
  }

  lemma OfferedMore(taken: seq<seq<byte>>, offered: seq<seq<byte>>, a: seq<seq<byte>>, b: seq<seq<byte>>, taken': seq<seq<byte>>,
                    offered': seq<seq<byte>>, refused: bool)
    requires Offered(taken, offered, a, b, false) && Offered(a, b, taken', offered', refused)
    ensures Offered(taken, offered, taken', offered', refused)
  {
    var last := if refused then [offered'[|offered'| - 1]] else [];
    assert taken'[|taken|..] == a[|taken|..] + taken'[|a|..];
    assert offered + a[|taken|..] + [] + taken'[|a|..] + last == offered + (a[|taken|..] + taken'[|a|..]) + last;
  }

  lemma FlushedNone(session: Session, before: Sender, taken: seq<seq<byte>>, offered: seq<seq<byte>>)
    requires before.Valid() && session.Valid()
    ensures Flushed(session, before, 0, before, false, taken, taken, offered)
  {
    assert taken + [] == taken;
  }

  lemma FlushedOne(session: Session, before: Sender, n: nat, s: Sender, taken: seq<seq<byte>>, taken': seq<seq<byte>>,
                   offered: seq<seq<byte>>, offered': seq<seq<byte>>)
    requires before.Valid() && session.Valid() && s.Valid() && s.HasNext()
    requires Flushed(session, before, n, s, false, taken, taken', offered)
    ensures Flushed(session, before, n + 1, s.SendNext(), false, taken,
                    taken' + [session.Datagram(s.sent + 1, s.msgs[s.sent + 1])], offered')
  {
    SendValid(s);
    var t, low := s.SendNext(), before.sent + 1;
    assert Sends(before, n + 1) == t;
    DatagramsPrefix(session, s.msgs, t.msgs, low, s.sent + 1);
    var last := [session.Datagram(s.sent + 1, s.msgs[s.sent + 1])];
    assert Datagrams(session, t.msgs, low, t.sent + 1) == Datagrams(session, s.msgs, low, s.sent + 1) + last;
    assert taken' + last == taken + (Datagrams(session, s.msgs, low, s.sent + 1) + last);
  }

  lemma FlushRefused(session: Session, before: Sender, n: nat, s: Sender, taken: seq<seq<byte>>, taken': seq<seq<byte>>,
                     offered: seq<seq<byte>>, offered': seq<seq<byte>>)
    requires before.Valid() && session.Valid() && s.Valid() && s.HasNext()
    requires Flushed(session, before, n, s, false, taken, taken', offered)
    requires offered' == offered + [session.Datagram(s.sent + 1, s.msgs[s.sent + 1])]
    ensures Flushed(session, before, n, Refuse(s), true, taken, taken', offered')
  {
    hide Sender.Valid;
    hide Sender.HasNext;
    hide Sends;
    hide Session.Datagram;
    hide Session.Header;
    RefuseRestores(s);
    hide Refuse;
    var t, low := Refuse(s), before.sent + 1;
    SentIsWritten(before);
    SentIsWritten(s);
    SentIsWritten(t);
    KeepsSentTransitive(before, s, t);
    DatagramsPrefix(session, s.msgs, t.msgs, low, s.sent + 1);
  }

  /** The messages acked + 1 .. i have been offered again. */
  ghost predicate ResentUpTo(session: Session, s: Sender, i: int, offered: seq<seq<byte>>, taken: seq<seq<byte>>,
                             offered': seq<seq<byte>>, taken': seq<seq<byte>>)
    requires session.Valid() && -1 <= s.acked <= i < |s.msgs|
  {
    && offered' == offered + Datagrams(session, s.msgs, s.acked + 1, i + 1)
    && TakenOf(taken', taken, Datagrams(session, s.msgs, s.acked + 1, i + 1))
  }

  lemma ResentNone(session: Session, s: Sender, offered: seq<seq<byte>>, taken: seq<seq<byte>>)
    requires session.Valid() && -1 <= s.acked < |s.msgs|
    ensures ResentUpTo(session, s, s.acked, offered, taken, offered, taken)
  {
    assert offered + [] == offered;
  }

  lemma ResentOne(session: Session, s: Sender, i: int, offered: seq<seq<byte>>, taken: seq<seq<byte>>,
                  offered': seq<seq<byte>>, taken': seq<seq<byte>>, now: seq<seq<byte>>)
    requires session.Valid() && -1 <= s.acked <= i && i + 1 < |s.msgs|
    requires ResentUpTo(session, s, i, offered, taken, offered', taken')
    requires var d := session.Datagram(i + 1, s.msgs[i + 1]); now == taken' || now == taken' + [d]
    ensures ResentUpTo(session, s, i + 1, offered, taken, offered' + [session.Datagram(i + 1, s.msgs[i + 1])], now)
  {
    hide Session.Datagram;
    var d, low := session.Datagram(i + 1, s.msgs[i + 1]), s.acked + 1;
    assert Datagrams(session, s.msgs, low, i + 2) == Datagrams(session, s.msgs, low, i + 1) + [d];
    assert offered + (Datagrams(session, s.msgs, low, i + 1) + [d])
           == offered + Datagrams(session, s.msgs, low, i + 1) + [d];
  }

  lemma ResentAll(session: Session, s: Sender, i: int, offered: seq<seq<byte>>, taken: seq<seq<byte>>,
                  offered': seq<seq<byte>>, taken': seq<seq<byte>>)
    requires session.Valid() && -1 <= s.acked <= i < |s.msgs|
    requires ResentUpTo(session, s, i, offered, taken, offered', taken')
    ensures var all := Datagrams(session, s.msgs, s.acked + 1, i + 1);
      offered' == offered + all && TakenOf(taken', taken, all) && (i == s.acked ==> all == [])
  {
  }

  /** How many blocks the fragments after the first take, and how much the last of them carries. */
  method CutSizes(remainingSize: nat, availableBlock: nat) returns (lastSize: nat, necessary: nat)
    requires 0 < remainingSize && 0 < availableBlock
    ensures lastSize == LastBlock(remainingSize, availableBlock) && necessary == Blocks(remainingSize, availableBlock)
    ensures 0 < lastSize <= availableBlock && availableBlock * (necessary - 1) + lastSize == remainingSize
  {
    if remainingSize % availableBlock == 0 {
      lastSize, necessary := availableBlock, remainingSize / availableBlock;
    } else {
      lastSize, necessary := remainingSize % availableBlock, remainingSize / availableBlock + 1;
    }
    assert availableBlock * (remainingSize / availableBlock - 1)
           == availableBlock * (remainingSize / availableBlock) - availableBlock;
  }

  class OutputReliableStream {
    const base: ReliableStream
    const offset: nat
    const session: Session
    var lastWritten: SeqNum
    var lastSent: SeqNum
    var lastAcknown: SeqNum
    var sendLost: bool

    ghost var view: Sender

    ghost function Mem(): Memory
      reads base
    {
      Memory(base.lens, base.blocks)
    }

    ghost predicate Configured()
      reads this, base, base.buffer
    {
      && base.Valid() && IsPowerOfTwo(base.history)
      && session.Valid() && offset == session.Offset()
      && view.Valid() && view.cfg == Config(base.history, offset, base.Capacity())
      && lastSent == Wire(view.sent) && lastAcknown == Wire(view.acked) && sendLost == view.sendLost
    }

    /** All but the header of the message that has just been offered. */
    ghost predicate ValidUpTo(stamped: int)
      reads this, base, base.buffer
    {
      && Configured() && lastWritten == Wire(view.written)
      && Represents(view, Mem()) && Stamped(view, Mem(), session, stamped)
    }

    ghost predicate Valid()
      reads this, base, base.buffer
    {
      ValidUpTo(view.sent)
    }

    lemma MemoryShape()
      requires Configured()
      ensures Shape(view.cfg, Mem())
    {
      hide Slot;
      forall k | 0 <= k < base.history
        ensures |base.blocks[k]| == base.Capacity()
      {
        base.BlockLength(k);
      }
    }

    /** uxr_init_output_reliable_stream and uxr_reset_output_reliable_stream. */
    constructor (base: ReliableStream, session: Session)
      requires base.Valid() && session.Valid()
      requires IsPowerOfTwo(base.history) && base.history <= 0x4000
      requires session.Offset() + SUBHEADER_SIZE < base.Capacity() < SEQ_NUM_SIZE
      modifies base, base.buffer
      ensures Valid() && this.base == base && this.session == session
      ensures view == InitSender(Config(base.history, offset, base.Capacity()))
    {
      hide Slot;
      this.base, this.session, this.offset := base, session, session.Offset();
      new;
      base.ResetSizes(offset);
      lastWritten, lastSent, lastAcknown, sendLost := 0, SEQ_NUM_MAX, SEQ_NUM_MAX, false;
      view := InitSender(Config(base.history, offset, base.Capacity()));
      InitValid(view.cfg);
      MemoryShape();
      InitRepresented(view.cfg, Mem());
    }

    /** The slot length that the code reads for a number is that of its index. */
    lemma SlotOf(i: int)
      requires Configured()
      ensures base.Shape() && Slot(Wire(i), base.history) == Slot(i, base.history)
      ensures 0 <= Slot(i, base.history) < base.history
      ensures |base.lens| == |base.blocks| == base.history && |base.blocks[Slot(i, base.history)]| == base.Capacity()
    {
      hide Slot;
      SlotOfWire(i, base.history);
      base.BlockLength(Slot(i, base.history));
    }

    /** get_available_free_slots. */
    method GetAvailableFreeSlots() returns (free: nat)
      requires Valid()
      ensures free == view.Free()
    {
      hide Slot;
      free := 0;
      var i := 0;
      while i < base.history
        invariant 0 <= i <= base.history
        invariant free == CountFree(base.lens, offset, 0, i)
      {
        if base.Size(i) == offset {
          free := free + 1;
        }
        SlotOfSlot(i, base.history);
        i := i + 1;
      }
      FreeSlots(view, Mem());
    }

    /** uxr_prepare_next_reliable_buffer_to_send. */
    method PrepareNext() returns (dataToSend: bool, seqNum: SeqNum)
      requires Valid()
      modifies this`lastWritten, this`lastSent, this`view
      ensures seqNum == Wire(old(view).sent + 1)
      ensures dataToSend == old(view).HasNext()
      ensures view == if dataToSend then old(view).SendNext() else old(view)
      ensures ValidUpTo(old(view).sent)
    {
      hide Slot;
      hide Represents;
      hide Stamped;
      hide IsPowerOfTwo;
      hide ReliableStream.HoldsSlots;
      hide Add;
      hide Sub;
      hide Cmp;
      hide Wire;
      hide Sender.Valid;
      seqNum := Add(lastSent, 1);
      NextTest(view, Mem());
      var length := base.Size(seqNum);
      dataToSend := 0 >= Cmp(seqNum, lastWritten) && length > offset && Sub(lastSent, lastAcknown) != base.history;
      if dataToSend {
        NextNumbers(view);
        lastSent := seqNum;
        if lastSent == lastWritten {
          lastWritten := Add(lastWritten, 1);
        }
        NextRepresented(view, Mem(), session);
        view := view.SendNext();
      }
    }

    /** uxr_cancel_reliable_buffer_to_send, for the message that PrepareNext has just offered. */
    method Cancel(seqNum: SeqNum)
      requires ValidUpTo(view.sent - 1) && view.sent > view.acked && seqNum == Wire(view.sent)
      requires view.Cancel().Valid()
      modifies this`lastWritten, this`lastSent, this`view
      ensures Valid() && view == old(view).Cancel()
    {
      hide Slot;
      hide Represents;
      hide Stamped;
      hide IsPowerOfTwo;
      CancelTest(view, Mem(), session);
      var nextSeqNum := Add(seqNum, 1);
      lastSent := Sub(seqNum, 1);
      if lastWritten == nextSeqNum && offset == base.Size(nextSeqNum) {
        lastWritten := seqNum;
      }
      view := view.Cancel();
    }

    /** uxr_stamp_session_header on the slot of the message that has just been offered. */
    method Stamp(seqNum: SeqNum)
      requires ValidUpTo(view.sent - 1) && view.acked < view.sent && seqNum == Wire(view.sent)
      modifies base`blocks, base.buffer
      ensures Valid()
    {
      hide Slot;
      hide Represents;
      hide Stamped;
      hide IsPowerOfTwo;
      ghost var mem, k := Mem(), Slot(view.sent, base.history);
      SlotOf(view.sent);
      base.Copy(base.Buffer(seqNum), session.Header(seqNum), k, 0);
      assert mem.blocks[k][..0] == [];
      MemoryShape();
      SlotStamped(view, mem, Mem(), session, view.sent);
    }

    /** The datagram in the slot of a sent, unacknowledged message. */
    method SlotDatagram(seqNum: SeqNum, ghost i: int) returns (datagram: seq<byte>)
      requires Valid() && view.acked < i <= view.sent && seqNum == Wire(i)
      ensures datagram == session.Datagram(i, view.msgs[i])
    {
      hide Slot;
      hide Represents;
      hide Stamped;
      hide IsPowerOfTwo;
      hide Sender.Valid;
      hide ReliableStream.HoldsSlots;
      hide ReliableStream.Stride;
      SlotOf(i);
      SlotHolds(i);
      ghost var k := Slot(i, base.history);
      var length := base.Size(seqNum);
      datagram := base.Read(base.Buffer(seqNum), length, k, 0);
      assert base.blocks[k][0..length] == base.blocks[k][..offset] + base.blocks[k][offset..length];
    }

    /** What the slot of a sent, unacknowledged message holds. */
    lemma SlotHolds(i: int)
      requires Valid() && view.acked < i <= view.sent
      ensures |base.lens| == |base.blocks| == base.history && 0 <= i < |view.msgs|
      ensures var k, m := Slot(i, base.history), view.msgs[i];
        && base.lens[k] == offset + |m| <= |base.blocks[k]|
        && base.blocks[k][..offset] == session.Header(Wire(i)) && base.blocks[k][offset..offset + |m|] == m
    {
      hide Slot;
      assert Holds(view.cfg, Mem(), i, Content(view, i));
      assert HasHeader(view.cfg, Mem(), i, session.Header(Wire(i)));
    }

    lemma StampedLess()
      requires Valid()
      ensures ValidUpTo(view.sent - 1)
    {
    }

    /** One turn of the loop of uxr_flash_output_streams. */
    method FlushOne(transport: Transport) returns (more: bool, sent: bool)
      requires Valid()
      modifies this`lastWritten, this`lastSent, this`view, base`blocks, base.buffer, transport
      ensures Valid() && more == old(view).HasNext()
      ensures !more ==> !sent && view == old(view)
      ensures more ==> view == if sent then old(view).SendNext() else Refuse(old(view))
      ensures more ==> transport.offered == old(transport.offered)
                       + [session.Datagram(old(view).sent + 1, old(view).msgs[old(view).sent + 1])]
      ensures transport.taken == if sent
                then old(transport.taken) + [session.Datagram(old(view).sent + 1, old(view).msgs[old(view).sent + 1])]
                else old(transport.taken)
      ensures !more ==> transport.offered == old(transport.offered)
    {
      hide Slot;
      hide Represents;
      hide Stamped;
      hide IsPowerOfTwo;
      hide ReliableStream.Valid;
      ghost var before := view;
      var seqNum;
      more, seqNum := PrepareNext();
      sent := false;
      if more {
        SendValid(before);
        Stamp(seqNum);
        var datagram := SlotDatagram(seqNum, view.sent);
        sent := transport.SendMessage(datagram);
        if !sent {
          RefuseRestores(before);
          StampedLess();
          Cancel(seqNum);
        }
      }
    }

    /** One turn of that loop, counted. */
    method FlushTurn(transport: Transport, ghost before: Sender, ghost n: nat, ghost taken: seq<seq<byte>>)
      returns (sent: bool, refused: bool)
      requires Valid() && before.Valid()
      requires Flushed(session, before, n, view, false, taken, transport.taken, transport.offered)
      modifies this`lastWritten, this`lastSent, this`view, base`blocks, base.buffer, transport
      ensures Valid() && (sent ==> !refused) && view.acked == old(view).acked
      ensures Flushed(session, before, if sent then n + 1 else n, view, refused, taken, transport.taken, transport.offered)
      ensures view.sent == (if sent then old(view).sent + 1 else old(view).sent) && view.sent <= view.acked + base.history
      ensures !sent && !refused ==> !view.HasNext()
      ensures Offered(old(transport.taken), old(transport.offered), transport.taken, transport.offered, refused)
    {
      hide Slot;
      hide Represents;
      hide Stamped;
      hide IsPowerOfTwo;
      hide ReliableStream.Valid;
      hide Flushed;
      hide Refuse;
      hide KeepsSent;
      hide Sender.HasNext;
      hide Sender.Valid;
      hide Session.Datagram;
      ghost var at, offered, taken' := view, transport.offered, transport.taken;
      var more;
      more, sent := FlushOne(transport);
      refused := more && !sent;
      if sent {
        SendValid(at);
        FlushedOne(session, before, n, at, taken, taken', offered, transport.offered);
      } else if more {
        RefuseRestores(at);
        FlushRefused(session, before, n, at, taken, taken', offered, transport.offered);
      }
      WindowBound();
    }

    lemma WindowBound()
      requires Valid()
      ensures view.sent <= view.acked + base.history
    {
    }

    /** The loop of uxr_flash_output_streams (session.c:629-637): consecutive messages go out until
        there is none, the window is full or the transport refuses one, which stays the next. */
    method Flush(transport: Transport) returns (refused: bool, ghost n: nat)
      requires Valid()
      modifies this`lastWritten, this`lastSent, this`view, base`blocks, base.buffer, transport
      ensures Valid()
      ensures Flushed(session, old(view), n, view, refused, old(transport.taken), transport.taken, transport.offered)
      ensures Offered(old(transport.taken), old(transport.offered), transport.taken, transport.offered, refused)
      ensures !refused ==> !view.HasNext()
    {
      hide Offered;
      hide Represents;
      hide Stamped;
      hide IsPowerOfTwo;
      hide ReliableStream.Valid;
      hide Flushed;
      hide Sender.HasNext;
      hide Sender.Valid;
      refused, n := false, 0;
      ghost var before, taken, offered := view, transport.taken, transport.offered;
      OfferedNone(taken, offered);
      FlushedNone(session, before, taken, transport.offered);
      WindowBound();
      var sent := true;
      while sent
        invariant view.sent <= view.acked + base.history
        invariant Valid() && Flushed(session, before, n, view, refused, taken, transport.taken, transport.offered)
        invariant Offered(taken, offered, transport.taken, transport.offered, refused)
        invariant refused || sent || !view.HasNext()
        invariant sent ==> !refused
        decreases view.acked + base.history - view.sent, sent
      {
        ghost var count, a, b := n, transport.taken, transport.offered;
        sent, refused := FlushTurn(transport, before, n, taken);
        OfferedMore(taken, offered, a, b, transport.taken, transport.offered, refused);
        n := if sent then count + 1 else count;
      }
    }

    /** The loop of uxr_process_acknack. */
    method EmptySlots(buffersToClean: nat, ghost acked: int)
      requires base.Valid() && IsPowerOfTwo(base.history) && 0 < base.history == |base.lens| <= SEQ_NUM_SIZE
      requires lastAcknown == Wire(acked) && offset < LENGTH_LIMIT
      modifies this`lastAcknown, base`lens, base.buffer
      ensures base.Valid() && lastAcknown == Wire(acked + buffersToClean)
      ensures base.lens == Emptied(old(base.lens), base.history, acked, buffersToClean, offset)
    {
      hide Slot;
      hide Emptied;
      hide IsPowerOfTwo;
      hide Add;
      hide Wire;
      hide ReliableStream.Valid;
      ghost var lens := base.lens;
      NoneEmptied(lens, base.history, acked, offset);
      var i := 0;
      while i < buffersToClean
        invariant 0 <= i <= buffersToClean && base.Valid() && lastAcknown == Wire(acked + i)
        invariant base.lens == Emptied(lens, base.history, acked, i, offset)
      {
        AddSubRefine(acked + i, 1);
        SlotOfWire(acked + i + 1, base.history);
        OneEmptied(lens, base.history, acked, i, offset);
        lastAcknown := Add(lastAcknown, 1);
        base.SetSize(lastAcknown, offset);
        i := i + 1;
      }
    }

    /** uxr_process_acknack: it empties as many slots as its first number is ahead of last_acknown + 1,
        whatever that number is; the window survives if the ACKNACK is current. */
    method ProcessAckNack(bitmap: SeqNum, firstUnacked: SeqNum)
      requires Valid()
      modifies this`lastAcknown, this`sendLost, this`view, base`lens, base.buffer
      ensures base.Valid() && lastAcknown == Sub(firstUnacked, 1) && sendLost == (0 < bitmap)
      ensures base.lens == Emptied(old(base.lens), base.history, old(view).acked,
                                   Ahead(Wire(old(view).acked + 1), firstUnacked), offset)
      ensures old(view).IsCurrentAckNack(firstUnacked) ==>
                Valid() && view == old(view).ProcessAckNack(bitmap, firstUnacked)
    {
      hide Slot;
      hide Represents;
      hide Stamped;
      hide IsPowerOfTwo;
      hide ReliableStream.Valid;
      hide ReliableStream.HoldsSlots;
      hide Sender.Valid;
      hide Emptied;
      hide Shape;
      hide Add;
      hide Sub;
      hide Wire;
      hide Ahead;
      ghost var before, mem := view, Mem();
      RepresentedShape(before, mem);
      AckNackNumbers(view, firstUnacked);
      var lastAcked := Sub(firstUnacked, 1);
      var buffersToClean := Sub(lastAcked, lastAcknown);
      EmptySlots(buffersToClean, before.acked);
      sendLost := 0 < bitmap;
      if before.IsCurrentAckNack(firstUnacked) {
        AckNackValid(before, bitmap, firstUnacked);
        SlotsFreed(before, mem, session, buffersToClean);
        StillStamped(before.(acked := before.acked + buffersToClean), 0 < bitmap, Mem(), session);
        view := before.ProcessAckNack(bitmap, firstUnacked);
      }
    }

    /** What the nack loop sees of a sent message. */
    lemma SentSlot(i: int)
      requires Valid() && view.acked < i <= view.sent
      ensures base.lens[Slot(Wire(i), base.history)] != offset
    {
      hide Slot;
      SlotOf(i);
      assert Holds(view.cfg, Mem(), i, Content(view, i));
    }

    /** uxr_next_reliable_nack_buffer_to_send: the number behind the given one where the loop stops, unless
        that is past last_sent; then send_lost is cleared. */
    method NextNack(seqNumIt: SeqNum) returns (updated: bool, next: SeqNum)
      requires base.Valid() && 0 < base.history == |base.lens|
      modifies this`sendLost, this`view
      ensures var n := NackFrom(base.lens, base.history, offset, Add(seqNumIt, 1), lastSent);
        updated == (old(sendLost) && 0 >= Cmp(n, lastSent)) && (updated ==> next == n)
      ensures sendLost == updated && view == old(view).(sendLost := updated) && (old(Valid()) ==> Valid())
    {
      hide Slot;
      hide NackFrom;
      hide Cmp;
      hide Add;
      hide Valid;
      hide ReliableStream.Valid;
      updated, next := false, seqNumIt;
      if sendLost {
        updated, next := SearchNack(seqNumIt);
      }
      ForgetLoss(updated);
    }

    /** Its loop. */
    method SearchNack(seqNumIt: SeqNum) returns (updated: bool, next: SeqNum)
      requires base.Valid() && 0 < base.history == |base.lens|
      ensures next == NackFrom(base.lens, base.history, offset, Add(seqNumIt, 1), lastSent)
      ensures updated == (0 >= Cmp(next, lastSent))
    {
      hide Slot;
      hide NackFrom;
      hide NackTurns;
      hide Cmp;
      hide Add;
      hide ReliableStream.Valid;
      ghost var n := NackFrom(base.lens, base.history, offset, Add(seqNumIt, 1), lastSent);
      updated, next := false, seqNumIt;
      var checkNext := true;
      while checkNext && !updated
        invariant updated ==> next == n && 0 >= Cmp(n, lastSent)
        invariant checkNext && !updated ==> n == NackFrom(base.lens, base.history, offset, Add(next, 1), lastSent)
        invariant !checkNext ==> !updated && next == n && 0 < Cmp(n, lastSent)
        decreases if checkNext && !updated then 1 + NackTurns(Add(next, 1), lastSent) else 0
      {
        next := Add(next, 1);
        checkNext := 0 >= Cmp(next, lastSent);
        if checkNext {
          var length := base.Size(next);
          updated := length != offset;
        }
        if updated || !checkNext {
          NackStops(base.lens, base.history, offset, next, lastSent);
        } else {
          NackPasses(base.lens, base.history, offset, next, lastSent);
        }
      }
    }

    /** send_lost, at the end of the loop. */
    method ForgetLoss(updated: bool)
      requires updated ==> sendLost
      modifies this`sendLost, this`view
      ensures sendLost == updated && view == old(view).(sendLost := updated) && (old(Valid()) ==> Valid())
    {
      hide Slot;
      hide Represents;
      hide Stamped;
      hide IsPowerOfTwo;
      hide ReliableStream.Valid;
      ghost var valid := Valid();
      if sendLost && !updated {
        sendLost := false;
      }
      if valid {
        StillStamped(view, updated, Mem(), session);
      }
      view := view.(sendLost := updated);
    }

    lemma NackStart()
      requires Valid()
      ensures -1 <= view.acked <= view.sent < |view.msgs| && view.sent - view.acked <= 0x4000 && session.Valid()
      ensures lastAcknown == Wire(view.acked) && lastSent == Wire(view.sent) && sendLost == view.sendLost
      ensures base.Valid() && 0 < base.history == |base.lens| && Represents(view, Mem())
      ensures base.history == view.cfg.history && offset == view.cfg.offset
    {
      hide Slot;
    }

    /** In a valid window it stops at the next message sent. */
    lemma NackOfSent(i: int)
      requires Valid() && view.acked <= i <= view.sent
      ensures base.Valid() && 0 < base.history == |base.lens|
      ensures var n := NackFrom(base.lens, base.history, offset, Add(Wire(i), 1), lastSent);
        n == Wire(i + 1) && (0 >= Cmp(n, lastSent) <==> i < view.sent)
    {
      hide Slot;
      hide NackFrom;
      hide Cmp;
      hide Add;
      hide Wire;
      hide Valid;
      hide ReliableStream.Valid;
      NackStart();
      AddSubRefine(i, 1);
      CmpRefines(i + 1, view.sent);
      if i < view.sent {
        SentSlot(i + 1);
      }
      NackStops(base.lens, base.history, offset, Wire(i + 1), lastSent);
    }

    /** read_submessage_acknack: after a current ACKNACK that reports a loss, every message not yet
        acknowledged is offered again once, in order, as it was sent; after one that is not current, none. */
    method ReadAckNack(bitmap: SeqNum, firstUnacked: SeqNum, transport: Transport)
      requires Valid()
      modifies this`lastAcknown, this`sendLost, this`view, base`lens, base.buffer, transport
      ensures old(view).IsCurrentAckNack(firstUnacked) ==>
        && Valid() && view == old(view).ProcessAckNack(bitmap, firstUnacked).(sendLost := false)
        && transport.offered == old(transport.offered)
             + (if bitmap > 0 then Datagrams(session, view.msgs, view.acked + 1, view.sent + 1) else [])
        && TakenOf(transport.taken, old(transport.taken),
                   if bitmap > 0 then Datagrams(session, view.msgs, view.acked + 1, view.sent + 1) else [])
      ensures !old(view).IsCurrentAckNack(firstUnacked) ==>
        && transport.offered == old(transport.offered) && transport.taken == old(transport.taken)
        && lastAcknown == Sub(firstUnacked, 1) && !sendLost
        && base.lens == Emptied(old(base.lens), base.history, old(view).acked,
                                Ahead(Wire(old(view).acked + 1), firstUnacked), offset)
    {
      hide Slot;
      hide Valid;
      hide Represents;
      hide ReliableStream.Valid;
      hide Emptied;
      hide Ahead;
      hide Sub;
      hide Wire;
      hide Datagrams;
      hide TakenOf;
      hide NothingLeft;
      hide Sender.Valid;
      hide Sender.IsCurrentAckNack;
      ghost var before, mem := view, Mem();
      NackStart();
      ProcessAckNack(bitmap, firstUnacked);
      if !before.IsCurrentAckNack(firstUnacked) {
        NothingBehind(before, mem, firstUnacked);
      }
      Resend(transport);
    }

    lemma NothingBehind(before: Sender, mem: Memory, firstUnacked: SeqNum)
      requires Represents(before, mem) && !before.IsCurrentAckNack(firstUnacked)
      requires base.Valid() && base.history == before.cfg.history == |mem.lens| > 0 && offset == before.cfg.offset
      requires base.lens == Emptied(mem.lens, base.history, before.acked, Ahead(Wire(before.acked + 1), firstUnacked), offset)
      requires lastAcknown == Sub(firstUnacked, 1) && lastSent == Wire(before.sent)
      ensures NothingLeft()
    {
      hide Represents;
      hide Emptied;
      hide NackFrom;
      hide Cmp;
      hide Sub;
      hide Add;
      NothingToNack(before, mem, firstUnacked);
    }

    /** One message is offered again; whether the transport takes it does not matter. */
    method ResendOne(transport: Transport, seqNum: SeqNum, ghost i: int, ghost offered: seq<seq<byte>>,
                     ghost taken: seq<seq<byte>>)
      requires Valid() && view.acked <= i < view.sent < |view.msgs| && seqNum == Wire(i + 1) && -1 <= view.acked
      requires ResentUpTo(session, view, i, offered, taken, transport.offered, transport.taken)
      modifies transport
      ensures ResentUpTo(session, view, i + 1, offered, taken, transport.offered, transport.taken)
    {
      hide Slot;
      hide Represents;
      hide Stamped;
      hide IsPowerOfTwo;
      hide ReliableStream.Valid;
      hide Sender.Valid;
      hide ResentUpTo;
      ghost var offered', taken' := transport.offered, transport.taken;
      var datagram := SlotDatagram(seqNum, i + 1);
      var _ := transport.SendMessage(datagram);
      ResentOne(session, view, i, offered, taken, offered', taken', transport.taken);
    }

    /** There is nothing behind last_acknown that the nack loop would stop at. */
    ghost predicate NothingLeft()
      reads this, base, base.buffer
    {
      && base.Valid() && 0 < base.history == |base.lens|
      && 0 < Cmp(NackFrom(base.lens, base.history, offset, Add(lastAcknown, 1), lastSent), lastSent)
    }

    /** The nack loop of read_submessage_acknack. */
    method Resend(transport: Transport)
      requires Valid() || NothingLeft()
      modifies this`sendLost, this`view, transport
      ensures !sendLost
      ensures old(Valid()) ==>
        && Valid() && view == old(view).(sendLost := false)
        && transport.offered == old(transport.offered)
             + (if old(view).sendLost then Datagrams(session, view.msgs, view.acked + 1, view.sent + 1) else [])
        && TakenOf(transport.taken, old(transport.taken),
                   if old(view).sendLost then Datagrams(session, view.msgs, view.acked + 1, view.sent + 1) else [])
      ensures old(NothingLeft()) ==>
                transport.offered == old(transport.offered) && transport.taken == old(transport.taken)
    {
      hide Slot;
      hide Represents;
      hide Stamped;
      hide IsPowerOfTwo;
      hide ReliableStream.Valid;
      hide Sender.Valid;
      hide ResentUpTo;
      hide ValidUpTo;
      hide Datagrams;
      hide TakenOf;
      hide NackFrom;
      hide Cmp;
      ghost var nothing := NothingLeft();
      ghost var valid, after, i, offered, taken := Valid(), view, view.acked, transport.offered, transport.taken;
      if valid {
        NackStart();
        NackOfSent(i);
        ResentNone(session, after, offered, taken);
      }
      var updated, seqNumIt := NextNack(lastAcknown);
      while updated
        invariant updated == sendLost
        invariant nothing ==> !updated && transport.offered == offered && transport.taken == taken
        invariant !valid ==> nothing
        invariant valid ==> Valid() && after.acked <= i <= after.sent
        invariant valid ==> view == if updated then after else after.(sendLost := false)
        invariant valid && updated ==> after.sendLost && i < after.sent && seqNumIt == Wire(i + 1)
        invariant valid && !updated ==> i == if after.sendLost then after.sent else after.acked
        invariant valid ==> ResentUpTo(session, after, i, offered, taken, transport.offered, transport.taken)
        decreases after.sent - i, updated
      {
        NackOfSent(i + 1);
        ResendOne(transport, seqNumIt, i, offered, taken);
        updated, seqNumIt := NextNack(seqNumIt);
        i := i + 1;
      }
      if valid {
        ResentAll(session, after, i, offered, taken, transport.offered, transport.taken);
      }
    }

    /** write_submessage_heartbeat: what a HEARTBEAT announces. */
    method Heartbeat() returns (firstUnacked: SeqNum, lastUnacked: SeqNum)
      requires Valid()
      ensures firstUnacked == Wire(view.acked + 1) && lastUnacked == Wire(view.sent)
    {
      hide Slot;
      AddSubRefine(view.acked, 1);
      firstUnacked, lastUnacked := Add(lastAcknown, 1), lastSent;
    }

    ghost function SlotAt(p: Place, f: nat): nat
      requires 0 < base.history
    {
      Slot(p.start + f, base.history)
    }

    /** ub is at the start of the user's part of message f of the place. */
    ghost predicate AtMessage(cfg: Config, ub: Cursor, p: Place, f: nat)
      requires base.Shape() && f < |p.ms|
    {
      var k, a := SlotAt(p, f), p.At(cfg, f);
      && base.HistoryPosition(ub.init) == k
      && ub.next == base.Pointer(k, a + p.head) && ub.end == base.Pointer(k, a + |p.ms[f]|)
    }

    lemma CursorRoom(cfg: Config, ub: Cursor, p: Place, f: nat)
      requires base.Shape() && f < |p.ms| && AtMessage(cfg, ub, p, f)
      ensures base.HistoryPosition(ub.init) == SlotAt(p, f) && ub.end - ub.next == |p.ms[f]| - p.head
    {
    }

    /** What a write has done to the slots so far. */
    ghost predicate Writing(acked: int, p: Place, made: nat, done: nat, mem: Memory)
      reads base, base.buffer
    {
      && base.Valid() && IsPowerOfTwo(base.history) && base.history <= 0x4000
      && Placing(Config(base.history, offset, base.Capacity()), acked, p, made, done, mem, Mem())
    }

    lemma StartWriting(p: Place)
      requires Valid() && view.IsPlace(p)
      ensures Writing(view.acked, p, 0, 0, Mem())
    {
      hide Slot;
      MemoryShape();
      NothingPlaced(view.cfg, view.acked, p, Mem());
    }

    /** uxr_prepare_reliable_buffer_to_write for `length` octets, which will be `data`. */
    method PrepareToWrite(length: nat, ghost data: seq<byte>) returns (available: bool, ub: Cursor)
      requires Valid() && Readable(data) && |data| == length
      modifies this`lastWritten, base`lens, base`blocks, base.buffer
      ensures available == view.Accepts(length) && (available <==> HasRoom(view, data))
      ensures !available ==> Valid() && Mem() == old(Mem())
      ensures available ==>
                var p := view.PlaceOf(data);
                && Writing(view.acked, p, |p.ms|, 0, old(Mem()))
                && lastWritten == Wire(p.start + |p.ms| - 1)
                && AtMessage(view.cfg, ub, p, 0)
                && (|data| > base.Capacity() - offset ==> SubheadersAt(p, |p.ms|))
    {
      hide Slot;
      hide Represents;
      hide Stamped;
      hide Placing;
      hide SubheadersAt;
      hide AtMessage;
      hide IsPowerOfTwo;
      hide Sender.Cut;
      hide Writing;
      hide Cmp;
      hide Add;
      hide Wire;
      hide Align4;
      hide ReliableStream.HoldsSlots;
      hide ReliableStream.Stride;
      hide Sender.Free;
      hide Readable;
      hide HasRoom;
      AcceptedIfRoom(view, data);
      ub := Cursor(0, 0, 0);
      var seqNum := lastWritten;
      var capacity := base.Capacity();
      var size := base.Size(seqNum);
      var availableBlock := capacity - (offset + SUBHEADER_SIZE);
      var remaining := GetAvailableFreeSlots();
      WriteTests(view, Mem());
      size := Align4(size);
      if size + length <= capacity {
        var lastAvailable := Add(lastAcknown, base.history);
        available := 0 >= Cmp(seqNum, lastAvailable);
        if available {
          PlaceFits(view, data);
          ub := PlaceMessage(seqNum, size, length, data, view.PlaceOf(data));
        }
      } else if offset + length <= capacity {
        seqNum := Add(lastWritten, 1);
        var lastAvailable := Add(lastAcknown, base.history);
        available := 0 >= Cmp(seqNum, lastAvailable);
        if available {
          PlaceFits(view, data);
          ub := PlaceMessage(seqNum, offset, length, data, view.PlaceOf(data));
          lastWritten := seqNum;
        }
      } else {
        available := length <= availableBlock * remaining;
        if available {
          available, ub := PrepareFragments(length, size, remaining, data);
        }
      }
    }

    /** A message that fits in one slot: room for it after the first `size` octets. */
    method PlaceMessage(seqNum: SeqNum, size: nat, length: nat, ghost data: seq<byte>, ghost p: Place) returns (ub: Cursor)
      requires Valid() && Readable(data) && |data| == length && view.IsPlace(p)
      requires p == Place(p.start, size, 0, [data]) && seqNum == Wire(p.start)
      modifies base`lens, base.buffer
      ensures Writing(view.acked, p, |p.ms|, 0, old(Mem())) && AtMessage(view.cfg, ub, p, 0)
    {
      hide Slot;
      hide Stamped;
      hide Represents;
      hide Placing;
      hide IsPowerOfTwo;
      hide ReliableStream.Valid;
      hide Sender.Valid;
      SlotOf(p.start);
      var buffer := base.Buffer(seqNum);
      MemoryShape();
      StartWriting(p);
      LengthSet(view.cfg, view.acked, p, Mem());
      ghost var mem := Mem();
      base.SetSize(seqNum, size + length);
      ub := Cursor(buffer, buffer + size, buffer + size + length);
      base.PositionOfPointer(Slot(p.start, base.history), 0);
      assert Mem() == mem.(lens := mem.lens[Slot(p.start, base.history) := size + length]);
    }

    /** What the subheaders of the first `made` fragments say, octet by octet. */
    ghost predicate SubheadersAt(p: Place, made: nat)
      reads this, base, base.buffer
    {
      && Shape(view.cfg, Mem()) && made <= |p.ms|
      && forall f | 0 <= f < made :: p.At(view.cfg, f) + 4 <= view.cfg.capacity && SubheaderAt(view.cfg, p, f, Mem())
    }

    lemma AllSubheaders(p: Place, first: nat, mem: Memory)
      requires Writing(view.acked, p, |p.ms|, 0, mem) && view.cfg == Config(base.history, offset, base.Capacity())
      requires view.cfg.Valid() && p.head == SUBHEADER_SIZE
      requires 0 < first < SEQ_NUM_SIZE && AreFragments(p.ms, first, view.cfg.Block())
      ensures SubheadersAt(p, |p.ms|)
    {
      hide Slot;
      hide Placing;
      hide AreFragments;
      hide SubheaderAt;
      PlacedShape(view.cfg, view.acked, p, mem, Mem());
      forall f | 0 <= f < |p.ms|
        ensures p.At(view.cfg, f) + 4 <= view.cfg.capacity && SubheaderAt(view.cfg, p, f, Mem())
      {
        SubheaderPlaced(view.cfg, view.acked, p, f, mem, Mem(), first);
      }
    }

    /** Room for fragment f: its subheader at the aligned end of its slot, and the length of the slot. */
    method PlaceFragment(seqNum: SeqNum, fragmentSize: SeqNum, last: bool, length: nat,
                         ghost p: Place, ghost f: nat, ghost mem: Memory)
      requires Writing(view.acked, p, f, 0, mem) && Represents(view, mem) && view.IsPlace(p) && f < |p.ms|
      requires view.cfg == Config(base.history, offset, base.Capacity())
      requires seqNum == Wire(p.start + f) && p.head == SUBHEADER_SIZE
      requires p.ms[f][..SUBHEADER_SIZE] == FragmentHeader(fragmentSize, last)
      requires length == p.At(view.cfg, f) + |p.ms[f]|
      modifies base`lens, base`blocks, base.buffer
      ensures Writing(view.acked, p, f + 1, 0, mem)
      ensures var k, a := Slot(p.start + f, base.history), p.At(view.cfg, f);
        && k < |base.blocks| && a + 4 <= |base.blocks[k]|
        && ReadsAs(base.blocks[k][a..a + 4], 13, if last then {0, 1} else {0}, fragmentSize)
    {
      hide Slot;
      hide Placing;
      hide Represents;
      hide IsPowerOfTwo;
      hide Overlay;
      hide FragmentHeader;
      hide ReliableStream.Valid;
      hide Sender.Valid;
      hide Sender.IsPlace;
      hide Align4;
      ghost var i, a, was := p.start + f, p.At(view.cfg, f), Mem();
      SlotOfWire(i, base.history);
      FragmentSlot(view, p, f, mem, was);
      PlacingFits(view.cfg, view.acked, p, f, mem, was);
      ghost var k := Slot(i, base.history);
      base.BlockLength(k);
      var at := Align4(base.Size(seqNum));
      FragmentHeaderRead(fragmentSize, last);
      base.Copy(base.Buffer(seqNum) + at, FragmentHeader(fragmentSize, last), k, at);
      base.SetSize(seqNum, length);
      FragmentRoom(view.cfg, view.acked, p, f, fragmentSize, last, mem, was);
      assert Mem() == Memory(was.lens[k := length],
                             was.blocks[k := Overlay(was.blocks[k], a, FragmentHeader(fragmentSize, last))]);
      OverlaidPart(was.blocks[k], a, FragmentHeader(fragmentSize, last));
    }

    /** Room for all fragments: the whole ones, then the last one. */
    method PlaceFragments(firstSeqNum: SeqNum, firstSize: SeqNum, availableBlock: SeqNum, lastSize: SeqNum, necessary: nat,
                          capacity: nat, ghost p: Place, ghost mem: Memory) returns (seqNum: SeqNum)
      requires Writing(view.acked, p, 0, 0, mem) && Represents(view, mem) && view.IsPlace(p)
      requires view.cfg == Config(base.history, offset, base.Capacity())
      requires firstSeqNum == Wire(p.start) && p.head == SUBHEADER_SIZE && necessary == |p.ms| - 1
      requires capacity == base.Capacity() && 0 < firstSize == capacity - (p.at + SUBHEADER_SIZE)
      requires 0 < availableBlock == capacity - (offset + SUBHEADER_SIZE)
      requires AreFragments(p.ms, firstSize, availableBlock) && necessary > 0
      requires |p.ms[necessary]| == SUBHEADER_SIZE + lastSize
      modifies base`lens, base`blocks, base.buffer
      ensures Writing(view.acked, p, |p.ms|, 0, mem) && seqNum == Wire(p.start + necessary)
    {
      hide Slot;
      hide Placing;
      hide Represents;
      hide IsPowerOfTwo;
      hide ReliableStream.Valid;
      hide Sender.IsPlace;
      hide Sender.Valid;
      seqNum := firstSeqNum;
      var fragmentSize, i := firstSize, 0;
      while i < necessary
        invariant 0 <= i <= necessary && Writing(view.acked, p, i, 0, mem)
        invariant seqNum == Wire(p.start + i) && fragmentSize == if i == 0 then firstSize else availableBlock
      {
        assert FragmentAt(p.ms, i, firstSize, availableBlock);
        PlaceFragment(seqNum, fragmentSize, false, capacity, p, i, mem);
        AddSubRefine(p.start + i, 1);
        seqNum := Add(seqNum, 1);
        fragmentSize := availableBlock;
        i := i + 1;
      }
      assert FragmentAt(p.ms, i, firstSize, availableBlock);
      PlaceFragment(seqNum, lastSize, true, offset + SUBHEADER_SIZE + lastSize, p, i, mem);
    }

    /** "Prepare user buffer": what is left of the slot of the first fragment after its subheader. */
    method UserCursor(seqNum: SeqNum, size: nat, capacity: nat, ghost cfg: Config, ghost p: Place) returns (ub: Cursor)
      requires base.Valid() && IsPowerOfTwo(base.history) && base.history <= 0x4000
      requires seqNum == Wire(p.start) && p.ms != [] && p.at == size && p.head == SUBHEADER_SIZE
      requires size + SUBHEADER_SIZE < capacity == base.Capacity() && p.at + |p.ms[0]| == capacity
      ensures AtMessage(cfg, ub, p, 0)
    {
      hide Slot;
      var buffer := base.Buffer(seqNum);
      ub := Cursor(buffer + size + SUBHEADER_SIZE, buffer + size + SUBHEADER_SIZE, buffer + capacity);
      SlotOfWire(p.start, base.history);
      base.PositionOfPointer(Slot(p.start, base.history), size + SUBHEADER_SIZE);
    }

    /** The slot in which the first fragment goes, and where in it. */
    method FirstFragment(alignedSize: nat, ghost data: seq<byte>) returns (seqNum: SeqNum, size: nat)
      requires Valid() && Readable(data) && alignedSize == view.Used()
      requires !view.FitsCurrent(|data|) && !view.FitsSlot(|data|) && view.FitsFragmented(|data|)
      ensures seqNum == Wire(view.PlaceOf(data).start) && size == view.PlaceOf(data).at
    {
      hide Slot;
      hide Represents;
      hide Stamped;
      hide IsPowerOfTwo;
      hide Fragments;
      hide Add;
      hide Wire;
      hide Sender.PlaceOf;
      hide Sender.Cut;
      hide Sender.IsPlace;
      hide Sender.Used;
      PlaceFits(view, data);
      FragmentNumbers(view, data, Mem());
      seqNum, size := lastWritten, alignedSize;
      if size + SUBHEADER_SIZE >= base.Capacity() {
        seqNum := Add(seqNum, 1);
        size := base.Size(seqNum);
      }
    }

    /** The fragmenting branch of uxr_prepare_reliable_buffer_to_write.  Its own test of the number
        of blocks never fails: the length has been checked. */
    method PrepareFragments(length: nat, alignedSize: nat, remaining: nat, ghost data: seq<byte>)
      returns (available: bool, ub: Cursor)
      requires Valid() && Readable(data) && |data| == length
      requires alignedSize == view.Used() && remaining == view.Free()
      requires !view.FitsCurrent(length) && !view.FitsSlot(length) && view.FitsFragmented(length)
      modifies this`lastWritten, base`lens, base`blocks, base.buffer
      ensures available
      ensures var p := view.PlaceOf(data);
              && Writing(view.acked, p, |p.ms|, 0, old(Mem())) && SubheadersAt(p, |p.ms|)
              && lastWritten == Wire(p.start + |p.ms| - 1)
              && AtMessage(view.cfg, ub, p, 0)
    {
      hide Slot;
      hide Represents;
      hide Stamped;
      hide Placing;
      hide IsPowerOfTwo;
      hide AtMessage;
      hide Wire;
      hide AreFragments;
      hide Blocks;
      hide LastBlock;
      hide Sender.PlaceOf;
      hide Sender.Valid;
      hide Sender.IsPlace;
      MemoryShape();
      ghost var p, mem := view.PlaceOf(data), Mem();
      var capacity := base.Capacity();
      var availableBlock := capacity - (offset + SUBHEADER_SIZE);
      var seqNum, size := FirstFragment(alignedSize, data);
      CutPlace(view, data, mem);
      var firstSize := capacity - (size + SUBHEADER_SIZE);
      var lastSize, necessary := CutSizes(length - firstSize, availableBlock);
      available := necessary <= remaining;
      ub := Cursor(0, 0, 0);
      if available {
        ub := UserCursor(seqNum, size, capacity, view.cfg, p);
        StartWriting(p);
        lastWritten := PlaceFragments(seqNum, firstSize, availableBlock, lastSize, necessary, capacity, p, mem);
        AllSubheaders(p, firstSize, mem);
      }
    }

    /** on_full_output_buffer: the cursor moves on to the slot that follows the one it was in. */
    method OnFullOutputBuffer(ub: Cursor, ghost p: Place, ghost f: nat, ghost acked: int, ghost done: nat, ghost mem: Memory)
      returns (next: Cursor)
      requires Writing(acked, p, |p.ms|, done, mem) && f + 1 < |p.ms| && p.head == SUBHEADER_SIZE
      requires base.HistoryPosition(ub.init) == SlotAt(p, f)
      ensures AtMessage(Config(base.history, offset, base.Capacity()), next, p, f + 1)
    {
      hide Slot;
      hide Writing;
      hide AtMessage;
      hide ReliableStream.Valid;
      hide ReliableStream.Shape;
      hide ReliableStream.HoldsSlots;
      hide ReliableStream.Start;
      hide ReliableStream.Stride;
      hide ReliableStream.HistoryPosition;
      hide ReliableStream.Pointer;
      NextLength(p, f, acked, done, mem);
      ghost var cfg := Config(base.history, offset, base.Capacity());
      hide SlotAt;
      var historyPosition := 1 + base.HistoryPosition(ub.init);
      var buffer := base.Buffer(historyPosition);
      var bufferSize := base.Size(historyPosition);
      var init := buffer + offset + SUBHEADER_SIZE;
      next := Cursor(init, init, init + (bufferSize - offset - SUBHEADER_SIZE));
      CursorAt(cfg, p, f + 1);
    }

    /** The slot of the next message and its length. */
    lemma NextLength(p: Place, f: nat, acked: int, done: nat, mem: Memory)
      requires Writing(acked, p, |p.ms|, done, mem) && f + 1 < |p.ms|
      ensures base.Valid() && base.Shape() && 0 < base.history == |base.lens| && base.history <= 0x4000
      ensures SlotAt(p, f) < base.history && Slot(1 + SlotAt(p, f), base.history) == SlotAt(p, f + 1) < base.history
      ensures base.lens[SlotAt(p, f + 1)] == offset + |p.ms[f + 1]| <= base.Capacity() && p.head < |p.ms[f + 1]|
    {
      hide Slot;
      hide Placing;
      hide IsPowerOfTwo;
      hide ReliableStream.HoldsSlots;
      NextSlotAt(p, f);
      PlacedLength(Config(base.history, offset, base.Capacity()), acked, p, f + 1, done, mem, Mem());
    }

    /** A cursor behind the subheader of a message that is not the first, up to its end. */
    lemma CursorAt(cfg: Config, p: Place, f: nat)
      requires base.Shape() && 0 < f < |p.ms| && p.head == SUBHEADER_SIZE < |p.ms[f]| && 0 < base.history
      requires cfg.offset == offset && offset + |p.ms[f]| <= base.Capacity()
      ensures var init := base.Pointer(SlotAt(p, f), 0) + offset + SUBHEADER_SIZE;
        AtMessage(cfg, Cursor(init, init, init + (|p.ms[f]| - SUBHEADER_SIZE)), p, f)
    {
      hide ReliableStream.Pointer;
      hide ReliableStream.HistoryPosition;
      hide SlotAt;
      var k := SlotAt(p, f);
      base.PointerPlus(k, offset + SUBHEADER_SIZE);
      base.PointerPlus(k, offset + |p.ms[f]|);
      base.PositionOfPointer(k, offset + SUBHEADER_SIZE);
    }

    /** The slot after that of message f. */
    lemma NextSlotAt(p: Place, f: nat)
      requires 0 < base.history
      ensures Slot(1 + SlotAt(p, f), base.history) == SlotAt(p, f + 1) == Slot(p.start + (f + 1), base.history)
    {
      NextSlot(p.start + f, base.history);
    }

    /** The user's part of one message is copied to where the cursor is. */
    method CopyMessage(ub: Cursor, octets: seq<byte>, ghost p: Place, ghost f: nat, ghost acked: int, ghost mem: Memory)
      requires Writing(acked, p, |p.ms|, f, mem) && f < |p.ms|
      requires AtMessage(Config(base.history, offset, base.Capacity()), ub, p, f)
      requires p.head <= |p.ms[f]| && octets == p.ms[f][p.head..]
      modifies base`blocks, base.buffer
      ensures Writing(acked, p, |p.ms|, f + 1, mem)
    {
      hide Slot;
      hide Placing;
      hide IsPowerOfTwo;
      ghost var cfg, was := Config(base.history, offset, base.Capacity()), Mem();
      ghost var k, a := Slot(p.start + f, base.history), p.At(cfg, f);
      PlacedLength(cfg, acked, p, f, f, mem, was);
      base.BlockLength(k);
      base.Copy(ub.next, octets, k, a + p.head);
      MessageCopied(cfg, acked, p, f, mem, was);
      assert Mem() == Memory(was.lens, was.blocks[k := Overlay(was.blocks[k], a + p.head, octets)]);
    }

    /** The caller serialises `data` into the buffer it was given; the cursor walks from slot to slot. */
    method Fill(ub: Cursor, data: seq<byte>, ghost p: Place, ghost acked: int, ghost mem: Memory)
      requires p.ms != [] && Writing(acked, p, |p.ms|, 0, mem) && base.Shape()
      requires AtMessage(Config(base.history, offset, base.Capacity()), ub, p, 0)
      requires |p.ms| == 1 || p.head == SUBHEADER_SIZE
      requires (forall m <- p.ms :: |m| > p.head) && data == Join(p.ms, p.head)
      modifies base`blocks, base.buffer
      ensures Writing(acked, p, |p.ms|, |p.ms|, mem)
    {
      hide Slot;
      hide Placing;
      hide IsPowerOfTwo;
      hide ReliableStream.Valid;
      hide ReliableStream.Pointer;
      hide ReliableStream.HistoryPosition;
      hide Join;
      hide SlotAt;
      hide AtMessage;
      var rest, cursor := data, ub;
      ghost var done := 0;
      while rest != []
        invariant 0 <= done <= |p.ms| && rest == Join(p.ms[done..], p.head)
        invariant Writing(acked, p, |p.ms|, done, mem) && base.Shape()
        invariant done == 0 ==> AtMessage(Config(base.history, offset, base.Capacity()), cursor, p, 0)
        invariant done > 0 ==> base.HistoryPosition(cursor.init) == SlotAt(p, done - 1) && cursor.next == cursor.end
        decreases |p.ms| - done
      {
        JoinStep(p.ms, p.head, done);
        if done == 0 {
          CursorRoom(Config(base.history, offset, base.Capacity()), cursor, p, 0);
        }
        if cursor.next == cursor.end {
          cursor := OnFullOutputBuffer(cursor, p, done - 1, acked, done, mem);
        }
        ghost var f := done;
        CursorRoom(Config(base.history, offset, base.Capacity()), cursor, p, f);
        var n := if |rest| < cursor.end - cursor.next then |rest| else cursor.end - cursor.next;
        CopyMessage(cursor, rest[..n], p, f, acked, mem);
        rest, cursor, done := rest[n..], cursor.(next := cursor.next + n), done + 1;
      }
      JoinStep(p.ms, p.head, done);
    }

    /** A submessage is written to the stream: room is prepared for it and the caller fills it in.
        The caller's submessages are longer than their subheader and are not FRAGMENTs. */
    method Write(data: seq<byte>) returns (available: bool, ghost pad: seq<byte>)
      requires Valid() && Readable(data)
      modifies this`lastWritten, this`view, base`lens, base`blocks, base.buffer
      ensures Valid() && available == old(view).Accepts(|data|) && (available <==> HasRoom(old(view), data))
      ensures old(view).IsPadding(pad) && view == old(view).Write(data, pad)
    {
      hide Slot;
      hide Stamped;
      hide Represents;
      hide Placing;
      hide IsPowerOfTwo;
      hide AtMessage;
      hide Sender.PlaceOf;
      hide Sender.Put;
      hide Sender.Write;
      hide Sender.Accepts;
      hide Sender.Valid;
      hide HasRoom;
      MemoryShape();
      ghost var mem, p := Mem(), view.PlaceOf(data);
      pad := PaddingOf(view, mem);
      WriteUnavailable(view, data, mem);
      var ub;
      available, ub := PrepareToWrite(|data|, data);
      if available {
        PlaceJoined(view, data);
        Fill(ub, data, p, view.acked, mem);
        Commit(data, pad, mem);
      }
    }

    /** The write is complete: what the slots now hold is the message log after it. */
    ghost method Commit(data: seq<byte>, pad: seq<byte>, mem: Memory)
      requires Configured() && Readable(data) && view.Accepts(|data|)
      requires Represents(view, mem) && Stamped(view, mem, session, view.sent) && pad == PaddingOf(view, mem)
      requires var p := view.PlaceOf(data);
               Writing(view.acked, p, |p.ms|, |p.ms|, mem) && lastWritten == Wire(p.start + |p.ms| - 1)
      modifies this`view
      ensures Valid() && view == old(view).Write(data, pad)
    {
      hide Slot;
      hide Stamped;
      hide Represents;
      hide Placing;
      hide IsPowerOfTwo;
      hide Sender.PlaceOf;
      hide Sender.Write;
      hide Sender.Accepts;
      WriteRepresented(view, data, mem, Mem(), session);
      view := view.Write(data, pad);
      MemoryShape();
    }
  }
}
