/** The sender of a reliable stream, counted with unbounded indices: what
    output_reliable_stream.c does to its window and to the messages in it.

    msgs[i] is the stream message with index i, without its message header.  Messages up to `sent`
    have been given to the transport, those up to `acked` have been acknowledged, and `written` is
    the index that is being filled: msgs[written] is empty while its slot is. */
module OutputWindow {
  import opened SeqNum
  import opened Slots
  import opened Messages

  /** What uxr_init_output_reliable_stream is given. */
  datatype Config = Config(history: nat, offset: nat, capacity: nat) {
    ghost predicate Valid() {
      && 0 < history <= 0x4000
      && (offset == 4 || offset == MAX_HEADER_SIZE)
      && offset + SUBHEADER_SIZE < capacity < SEQ_NUM_SIZE
    }

    /** available_block_size: the most a fragment in an empty slot carries. */
    function Block(): (b: nat)
      requires Valid()
      ensures 0 < b < SEQ_NUM_SIZE
    {
      capacity - (offset + SUBHEADER_SIZE)
    }
  }

  /** The alignment required for inserting a subheader. */
  function Align4(n: nat): (r: nat)
    ensures n <= r < n + 4 && r % 4 == 0
  {
    (n + 3) / 4 * 4
  }

  /** Where a write puts its messages: from index `start` on, the first at position `at` of its slot,
      the others right after the message header.  The first `head` octets of each (the subheader of
      a fragment) are not the user's. */
  datatype Place = Place(start: int, at: nat, head: nat, ms: seq<message>) {
    function At(cfg: Config, f: nat): nat {
      if f == 0 then at else cfg.offset
    }
  }

  datatype Sender = Sender(cfg: Config, acked: int, sent: int, written: int, msgs: seq<message>, sendLost: bool) {

    ghost predicate Valid() {
      && cfg.Valid()
      && -1 <= acked <= sent < written <= acked + cfg.history + 1
      && |msgs| == written + 1
      && (forall i | 0 <= i < written :: Readable(msgs[i]))
      && (forall i | 0 <= i <= written :: cfg.offset + |msgs[i]| <= cfg.capacity)
      && (msgs[written] != [] ==> Readable(msgs[written]))
      && (!Open() ==> msgs[written] == [])
    }

    /** The slot of `written` is the stream's own: it is not that of the oldest unacknowledged one. */
    predicate Open() {
      written <= acked + cfg.history
    }

    /** The message in the slot of `written`. */
    function Current(): message
      requires Valid()
    {
      if Open() then msgs[written] else msgs[written - cfg.history]
    }

    /** get_available_free_slots. */
    function Free(): nat
      requires Valid()
    {
      if !Open() then 0 else acked + cfg.history - written + (if msgs[written] == [] then 1 else 0)
    }

    /** buffer_size after alignment. */
    function Used(): nat
      requires Valid()
    {
      Align4(cfg.offset + |Current()|)
    }

    /** The octets between the old end of the slot and the aligned one; they keep what was there. */
    ghost predicate IsPadding(pad: seq<byte>)
      requires Valid()
    {
      |pad| == Used() - (cfg.offset + |Current()|)
    }

    predicate FitsCurrent(n: nat) requires Valid() { Used() + n <= cfg.capacity }
    predicate FitsSlot(n: nat) requires Valid() { cfg.offset + n <= cfg.capacity }
    predicate FitsFragmented(n: nat) requires Valid() { n <= cfg.Block() * Free() }
    predicate TooFull() requires Valid() { Used() + SUBHEADER_SIZE >= cfg.capacity }

    /** Whether uxr_prepare_reliable_buffer_to_write finds room for n octets. */
    predicate Accepts(n: nat)
      requires Valid()
    {
      if FitsCurrent(n) then Open()
      else if FitsSlot(n) then written + 1 <= acked + cfg.history
      else FitsFragmented(n)
    }

    /** first_fragment_size. */
    function FirstSize(): (n: nat)
      requires Valid()
      ensures 0 < n <= cfg.Block()
    {
      if TooFull() then cfg.Block() else cfg.capacity - (Used() + SUBHEADER_SIZE)
    }

    /** The fragments that `data` is cut into when it fits in no slot. */
    function Cut(data: seq<byte>): seq<message>
      requires Valid() && data != []
    {
      Fragments(data, FirstSize(), cfg.Block())
    }

    /** Where n octets go that are accepted. */
    function PlaceOf(data: seq<byte>): Place
      requires Valid() && data != []
    {
      if FitsCurrent(|data|) then Place(written, Used(), 0, [data])
      else if FitsSlot(|data|) then Place(written + 1, cfg.offset, 0, [data])
      else if TooFull() then Place(written + 1, cfg.offset, SUBHEADER_SIZE, Cut(data))
      else Place(written, Used(), SUBHEADER_SIZE, Cut(data))
    }

    /** The messages of a place are added, the first one to the message in its slot if there is one. */
    function Put(p: Place, pad: seq<byte>): Sender
      requires Valid() && p.ms != []
    {
      if p.start == written
      then this.(written := written + |p.ms| - 1,
                 msgs := msgs[written := msgs[written] + pad + p.ms[0]] + p.ms[1..])
      else this.(written := written + |p.ms|, msgs := msgs + p.ms)
    }

    /** uxr_prepare_reliable_buffer_to_write, followed by the caller filling the buffer with data. */
    function Write(data: seq<byte>, pad: seq<byte>): (s: Sender)
      requires Valid() && data != []
    {
      if Accepts(|data|) then Put(PlaceOf(data), pad) else this
    }

    /** A place inside the window, whose messages fit in their slots. */
    ghost predicate IsPlace(p: Place)
      requires Valid()
    {
      && 0 < |p.ms| <= cfg.history
      && (forall f | 0 <= f < |p.ms| :: p.head < |p.ms[f]| && Readable(p.ms[f]) && p.At(cfg, f) + |p.ms[f]| <= cfg.capacity)
      && (if p.start == written then p.at == Used() else p.start == written + 1 && p.at == cfg.offset && msgs[written] != [])
      && p.start + |p.ms| - 1 <= acked + cfg.history
    }

    /** Whether uxr_prepare_next_reliable_buffer_to_send has a message to offer. */
    predicate HasNext()
      requires Valid()
    {
      msgs[sent + 1] != [] && sent - acked != cfg.history
    }

    function SendNext(): Sender
      requires Valid() && HasNext()
    {
      if sent + 1 == written then this.(sent := sent + 1, written := written + 1, msgs := msgs + [[]])
      else this.(sent := sent + 1)
    }

    /** uxr_cancel_reliable_buffer_to_send of the message just offered. */
    function Cancel(): Sender
      requires Valid() && sent > acked
    {
      if written == sent + 1 && Open() && msgs[written] == []
      then this.(sent := sent - 1, written := sent, msgs := msgs[..written])
      else this.(sent := sent - 1)
    }

    /** uxr_process_acknack: buffers_to_clean numbers are acknowledged. */
    function ProcessAckNack(bitmap: SeqNum, firstUnacked: SeqNum): Sender
    {
      this.(acked := acked + Ahead(Wire(acked + 1), firstUnacked), sendLost := bitmap > 0)
    }

    /** An ACKNACK that neither acknowledges what was never sent nor is out of date. */
    ghost predicate IsCurrentAckNack(firstUnacked: SeqNum) {
      Ahead(Wire(acked + 1), firstUnacked) <= sent - acked
    }
  }

  function InitSender(cfg: Config): Sender {
    Sender(cfg, -1, -1, 0, [[]], false)
  }

  lemma InitValid(cfg: Config)
    requires cfg.Valid()
    ensures InitSender(cfg).Valid()
  {
  }

  /** Submessages are appended at aligned positions, so a slot that can still take a subheader
      leaves a first fragment of at least one octet, and `Cut` is what the arithmetic computes. */
  lemma CutFits(s: Sender, data: seq<byte>)
    requires s.Valid() && data != []
    requires !s.FitsCurrent(|data|) && !s.FitsSlot(|data|) && s.FitsFragmented(|data|)
    ensures s.Open() && |s.Cut(data)| >= 2
    ensures (s.TooFull() || s.msgs[s.written] == []) ==> |s.Cut(data)| <= s.Free()
    ensures s.TooFull() ==> s.msgs[s.written] != []
    ensures !s.TooFull() ==> |s.Cut(data)| - 1 <= s.Free()
  {
    FragmentsCount(data, s.FirstSize(), s.cfg.Block());
    CountBound(|data|, s.FirstSize(), s.cfg.Block(), s.Free());
  }

  /** The arithmetic of output_reliable_stream.c:101-126: the whole fragments needed are no more
      than the free slots, and if the first fragment fills a slot it is counted as well. */
  lemma CountBound(n: nat, first: nat, b: nat, free: nat)
    requires 0 < b && first < n <= b * free
    ensures free > 0 && 1 + (n - first - 1) / b <= free
    ensures first == b ==> 2 + (n - first - 1) / b <= free
  {
    assert free == 0 ==> b * free == 0;
    CeilBound(n - first - 1, b, free);
    if first == b {
      assert b * (free - 1) == b * free - b;
      CeilBound(n - first - 1, b, free - 1);
    }
  }

  lemma CeilBound(n: nat, b: nat, free: int)
    requires 0 < b && n < b * free
    ensures n / b < free
  {
    var q := n / b;
    assert b * (q - free) == b * q - b * free;
    Slots.MultipleIsFar(b, q - free);
  }
}

/** What every operation of the sender keeps. */
module OutputInvariants {
  import opened SeqNum
  import opened Messages
  import opened OutputWindow

  /** Sent messages stay as they are. */
  ghost predicate KeepsSent(s: Sender, t: Sender)
    requires s.Valid() && t.Valid()
  {
    s.cfg == t.cfg && s.sent <= t.sent && s.acked <= t.acked && s.msgs[..s.sent + 1] == t.msgs[..s.sent + 1]
  }

  lemma SentIsWritten(s: Sender)
    requires s.Valid()
    ensures -1 <= s.acked <= s.sent && s.sent + 1 <= s.written + 1 == |s.msgs|
  {
  }

  lemma KeepsSentTransitive(s: Sender, t: Sender, u: Sender)
    requires s.Valid() && t.Valid() && u.Valid() && KeepsSent(s, t) && KeepsSent(t, u)
    ensures KeepsSent(s, u)
  {
    assert t.msgs[..t.sent + 1][..s.sent + 1] == u.msgs[..t.sent + 1][..s.sent + 1];
  }

  lemma CutShape(s: Sender, data: seq<byte>)
    requires s.Valid() && data != []
    ensures IsUnit(s.Cut(data)) && AreFragments(s.Cut(data), s.FirstSize(), s.cfg.Block())
    ensures forall f | 0 <= f < |s.Cut(data)| ::
              SUBHEADER_SIZE < |s.Cut(data)[f]| <= SUBHEADER_SIZE + if f == 0 then s.FirstSize() else s.cfg.Block()
  {
    FragmentsAreUnit(data, s.FirstSize(), s.cfg.Block());
    FragmentsShape(data, s.FirstSize(), s.cfg.Block());
    forall f | 0 <= f < |s.Cut(data)|
      ensures SUBHEADER_SIZE < |s.Cut(data)[f]| <= SUBHEADER_SIZE + if f == 0 then s.FirstSize() else s.cfg.Block()
    {
      assert FragmentAt(s.Cut(data), f, s.FirstSize(), s.cfg.Block());
    }
  }

  /** Accepted data has a place: it fits in its slots, which are free, the first one perhaps partly
      filled, and inside the window. */
  lemma PlaceFits(s: Sender, data: seq<byte>)
    requires s.Valid() && Readable(data) && s.Accepts(|data|)
    ensures s.IsPlace(s.PlaceOf(data))
    ensures Kind(data) == NoFragmented ==> IsUnit(s.PlaceOf(data).ms)
    ensures |s.PlaceOf(data).ms| <= s.cfg.history
  {
    if !s.FitsCurrent(|data|) && !s.FitsSlot(|data|) {
      CutFits(s, data);
      CutShape(s, data);
    }
  }

  ghost function Range(low: int, high: int): (r: set<int>)
    ensures forall i :: i in r <==> low <= i < high
    ensures |r| == if low < high then high - low else 0
    decreases high - low
  {
    if low < high then Range(low, high - 1) + {high - 1} else {}
  }

  /** The indices of the window whose slots are empty. */
  ghost function EmptyIndices(s: Sender): set<int>
    requires s.Valid()
  {
    set i | i in Range(s.acked + 1, s.acked + s.cfg.history + 1) && (i > s.written || (i == s.written && s.msgs[i] == []))
  }

  /** Whether there is room for data: a place for it as one message, or, for data longer than a slot, as many
      empty slots as it has fragments when each of them fills a slot. */
  ghost predicate HasRoom(s: Sender, data: seq<byte>)
    requires s.Valid() && data != []
  {
    if |data| <= s.cfg.capacity - s.cfg.offset then exists p :: s.IsPlace(p) && p.head == 0 && p.ms == [data]
    else |Fragments(data, s.cfg.capacity - s.cfg.offset - SUBHEADER_SIZE, s.cfg.capacity - s.cfg.offset - SUBHEADER_SIZE)|
         <= |EmptyIndices(s)|
  }

  /** Data is accepted exactly if there is room for it. */
  lemma AcceptedIfRoom(s: Sender, data: seq<byte>)
    requires s.Valid() && Readable(data)
    ensures s.Accepts(|data|) <==> HasRoom(s, data)
  {
    if |data| <= s.cfg.capacity - s.cfg.offset {
      hide Sender.IsPlace;
      hide Sender.Accepts;
      if s.Accepts(|data|) {
        PlaceFits(s, data);
        OneMessage(s, data);
      }
      forall p | s.IsPlace(p) && p.head == 0 && p.ms == [data]
        ensures s.Accepts(|data|)
      {
        PlaceAccepted(s, data, p);
      }
    } else {
      var b := s.cfg.Block();
      CountEmpty(s);
      FragmentsCount(data, b, b);
      BlocksFit(|data|, b, s.Free());
    }
  }

  lemma OneMessage(s: Sender, data: seq<byte>)
    requires s.Valid() && Readable(data) && |data| <= s.cfg.capacity - s.cfg.offset
    ensures s.PlaceOf(data).head == 0 && s.PlaceOf(data).ms == [data]
  {
  }

  lemma PlaceAccepted(s: Sender, data: seq<byte>, p: Place)
    requires s.Valid() && s.IsPlace(p) && p.head == 0 && p.ms == [data]
    ensures s.Accepts(|data|)
  {
    hide Align4;
    assert p.At(s.cfg, 0) + |p.ms[0]| <= s.cfg.capacity;
  }

  lemma CountEmpty(s: Sender)
    requires s.Valid()
    ensures |EmptyIndices(s)| == s.Free()
  {
    var low := if s.Open() && s.msgs[s.written] != [] then s.written + 1 else s.written;
    var r := Range(low, s.acked + s.cfg.history + 1);
    assert EmptyIndices(s) == r;
  }

  lemma BlocksFit(n: nat, b: nat, free: nat)
    requires 0 < b < n
    ensures n <= b * free <==> 2 + (n - b - 1) / b <= free
  {
    Messages.DivStep(n - 1, b);
    var q, r := (n - 1) / b, (n - 1) % b;
    assert b * (q - free) == b * q - b * free;
    Slots.MultipleIsFar(b, q - free);
  }

  /** An empty window takes everything that fits in a slot, or in fragments in all its slots, and no more. */
  lemma EmptyWindowAccepts(s: Sender, n: nat)
    requires s.Valid() && s.written == s.acked + 1 && s.msgs[s.written] == []
    ensures s.Accepts(n)
            <==> n <= s.cfg.capacity - s.cfg.offset
                 || n <= (s.cfg.capacity - s.cfg.offset - SUBHEADER_SIZE) * s.cfg.history
  {
  }

  /** All fragments but the last one fill their slots, and the first one begins in what is left of the slot that
      is being filled exactly if that is enough for a subheader and one octet. */
  lemma CutFills(s: Sender, data: seq<byte>, f: nat)
    requires s.Valid() && data != []
    requires |data| > s.cfg.capacity - s.cfg.offset && s.Accepts(|data|)
    ensures var p := s.PlaceOf(data);
      && (f < |p.ms| - 1 ==> p.At(s.cfg, f) + |p.ms[f]| == s.cfg.capacity)
      && |p.ms| >= 2 && p.head == SUBHEADER_SIZE
      && (p.start == s.written <==> s.Used() + SUBHEADER_SIZE + 1 <= s.cfg.capacity)
  {
    CutFits(s, data);
    CutShape(s, data);
    if f < |s.Cut(data)| - 1 {
      assert FragmentAt(s.Cut(data), f, s.FirstSize(), s.cfg.Block());
    }
  }

  lemma PutValid(s: Sender, p: Place, pad: seq<byte>)
    requires s.Valid() && s.IsPlace(p) && s.IsPadding(pad)
    ensures var t := s.Put(p, pad);
      t.Valid() && KeepsSent(s, t) && t.acked == s.acked && t.sent == s.sent && t.written == p.start + |p.ms| - 1
  {
    hide Sender.Put;
    hide Sender.Used;
    var t := s.Put(p, pad);
    PutMessages(s, p, pad);
    assert t.msgs[..s.sent + 1] == s.msgs[..s.sent + 1];
  }

  /** Which messages a write leaves, which it extends and which it adds. */
  lemma PutMessages(s: Sender, p: Place, pad: seq<byte>)
    requires s.Valid() && s.IsPlace(p) && s.IsPadding(pad)
    ensures var t, w := s.Put(p, pad), s.written;
      && t.cfg == s.cfg && t.acked == s.acked && t.sent == s.sent && t.written == p.start + |p.ms| - 1
      && |t.msgs| == t.written + 1 && s.cfg.offset <= p.at
      && (forall i | 0 <= i < w :: t.msgs[i] == s.msgs[i])
      && (p.start != w ==> t.msgs[w] == s.msgs[w])
      && (p.start == w ==> |t.msgs[w]| + s.cfg.offset == p.at + |p.ms[0]|)
      && (forall i | p.start <= i <= t.written && i > w :: t.msgs[i] == p.ms[i - p.start])
  {
    hide Readable;
  }

  lemma WriteValid(s: Sender, data: seq<byte>, pad: seq<byte>)
    requires s.Valid() && Readable(data) && s.IsPadding(pad)
    ensures var t := s.Write(data, pad);
      t.Valid() && KeepsSent(s, t) && t.acked == s.acked && t.sent == s.sent
    ensures s.Accepts(|data|) ==> s.Write(data, pad).written <= s.acked + s.cfg.history
  {
    if s.Accepts(|data|) {
      PlaceFits(s, data);
      PutValid(s, s.PlaceOf(data), pad);
    }
  }

  /** The loop offers consecutive indices and never lets more than history be unacknowledged. */
  lemma SendValid(s: Sender)
    requires s.Valid() && s.HasNext()
    ensures var t := s.SendNext();
      t.Valid() && KeepsSent(s, t) && t.acked == s.acked && t.sent == s.sent + 1 <= t.acked + t.cfg.history
  {
  }

  /** A message is offered, and the transport refuses it. */
  function Refuse(s: Sender): Sender
    requires s.Valid() && s.HasNext()
  {
    SendValid(s);
    s.SendNext().Cancel()
  }

  /** What is left of the window after a refusal: nothing has changed, or the slot after the refused
      message has been opened, or closed again. */
  lemma RefuseCases(s: Sender)
    requires s.Valid() && s.HasNext()
    ensures var t := Refuse(s);
      || t == s
      || (s.sent + 1 == s.written == s.acked + s.cfg.history
          && t == s.(written := s.written + 1, msgs := s.msgs + [[]]))
      || (s.sent + 2 == s.written && s.msgs[s.written] == []
          && t == s.(written := s.written - 1, msgs := s.msgs[..s.written]))
  {
    if s.sent + 1 == s.written {
      assert (s.msgs + [[]])[..s.written + 1] == s.msgs;
    }
  }

  lemma SlotOpened(s: Sender)
    requires s.Valid() && s.msgs[s.written] != [] && s.written == s.acked + s.cfg.history
    ensures var t := s.(written := s.written + 1, msgs := s.msgs + [[]]);
      t.Valid() && KeepsSent(s, t) && forall i | 0 <= i <= s.written :: t.msgs[i] == s.msgs[i]
  {
  }

  lemma SlotClosed(s: Sender)
    requires s.Valid() && s.sent + 2 == s.written && s.msgs[s.written] == []
    ensures var t := s.(written := s.written - 1, msgs := s.msgs[..s.written]);
      t.Valid() && KeepsSent(s, t) && forall i | 0 <= i < s.written :: t.msgs[i] == s.msgs[i]
  {
  }

  /** A refused message is the next one offered, whether or not the window was full. */
  lemma RefuseRestores(s: Sender)
    requires s.Valid() && s.HasNext()
    ensures var t := Refuse(s);
      t.Valid() && KeepsSent(s, t) && t.acked == s.acked && t.sent == s.sent
      && t.HasNext() && t.msgs[t.sent + 1] == s.msgs[s.sent + 1]
  {
    RefuseCases(s);
    hide Refuse;
    SentIsWritten(s);
    if Refuse(s).written == s.written + 1 {
      SlotOpened(s);
    } else if Refuse(s).written == s.written - 1 {
      SlotClosed(s);
    }
    hide Sender.Valid;
  }

  lemma MoreAcked(s: Sender, acked: int, lost: bool)
    requires s.Valid() && s.acked <= acked <= s.sent
    ensures var t := s.(acked := acked, sendLost := lost); t.Valid() && KeepsSent(s, t)
  {
  }

  lemma AckNackValid(s: Sender, bitmap: SeqNum, firstUnacked: SeqNum)
    requires s.Valid() && s.IsCurrentAckNack(firstUnacked)
    ensures var t := s.ProcessAckNack(bitmap, firstUnacked);
      t.Valid() && KeepsSent(s, t) && t.sent == s.sent && Wire(t.acked + 1) == firstUnacked
      && t.msgs == s.msgs && t.written == s.written
  {
    IndexAhead(s.acked + 1, firstUnacked);
    hide Ahead;
    hide Wire;
    MoreAcked(s, s.acked + Ahead(Wire(s.acked + 1), firstUnacked), bitmap > 0);
    hide Sender.Valid;
    hide KeepsSent;
  }

  /** The window survives an ACKNACK exactly if it is current. */
  lemma AckNackKeepsWindow(s: Sender, bitmap: SeqNum, firstUnacked: SeqNum)
    requires s.Valid()
    ensures s.ProcessAckNack(bitmap, firstUnacked).Valid() <==> s.IsCurrentAckNack(firstUnacked)
  {
    hide Ahead;
    hide Wire;
    if s.IsCurrentAckNack(firstUnacked) {
      AckNackValid(s, bitmap, firstUnacked);
    }
  }

  /** An ACKNACK that an earlier one has overtaken: its first number is one up to last_acknown, and it is
      not current. */
  lemma StaleAckNack(s: Sender, age: nat)
    requires s.Valid() && 0 < age < SEQ_NUM_SIZE - (s.sent - s.acked)
    ensures !s.IsCurrentAckNack(Wire(s.acked + 1 - age))
  {
    hide Sender.Valid;
    AheadOfIndices(s.acked + 1, s.acked + 1 - age);
  }

  /** The messages written so far, without the slot that is still empty. */
  function Log(s: Sender): seq<message>
    requires s.Valid()
  {
    if s.msgs[s.written] == [] then s.msgs[..s.written] else s.msgs
  }

  /** Fragments follow each other up to a last one, in runs that fit in a window. */
  ghost predicate WellFormed(log: seq<message>, history: nat) {
    && FragmentsFollow(log, history)
    && (log != [] ==> Kind(log[|log| - 1]) != IntermediateFragment)
  }

  ghost predicate FragmentsFollow(log: seq<message>, history: nat) {
    && (forall m <- log :: Readable(m))
    && (forall i | 0 <= i < |log| - 1 && Kind(log[i]) == IntermediateFragment :: Kind(log[i + 1]) != NoFragmented)
    && (forall i, j | 0 <= i && j == i + history && j <= |log| :: RunEnds(log, i, j))
  }

  ghost predicate RunEnds(log: seq<message>, low: nat, high: nat)
    requires high <= |log|
  {
    exists k :: low <= k < high && Kind(log[k]) != IntermediateFragment
  }

  lemma FollowInPrefix(log: seq<message>, history: nat, n: nat)
    requires FragmentsFollow(log, history) && n <= |log|
    ensures FragmentsFollow(log[..n], history)
  {
    var part := log[..n];
    forall i, j | 0 <= i && j == i + history && j <= n
      ensures RunEnds(part, i, j)
    {
      assert RunEnds(log, i, j);
      var k :| i <= k < j && Kind(log[k]) != IntermediateFragment;
      assert Kind(part[k]) != IntermediateFragment;
    }
  }

  /** Offering a message, accepted or refused, writes nothing. */
  lemma SendKeepsLog(s: Sender)
    requires s.Valid() && s.HasNext()
    ensures s.SendNext().Valid() && Log(s.SendNext()) == Log(s)
  {
    SendValid(s);
  }

  lemma RefuseKeepsLog(s: Sender)
    requires s.Valid() && s.HasNext()
    ensures Refuse(s).Valid() && Log(Refuse(s)) == Log(s)
  {
    RefuseRestores(s);
  }

  lemma AckNackKeepsLog(s: Sender, bitmap: SeqNum, firstUnacked: SeqNum)
    requires s.Valid() && s.IsCurrentAckNack(firstUnacked)
    ensures s.ProcessAckNack(bitmap, firstUnacked).Valid() && Log(s.ProcessAckNack(bitmap, firstUnacked)) == Log(s)
  {
    AckNackValid(s, bitmap, firstUnacked);
  }

  lemma AppendUnit(log: seq<message>, unit: seq<message>, history: nat)
    requires WellFormed(log, history) && IsUnit(unit) && |unit| <= history
    requires forall m <- unit :: Readable(m)
    ensures WellFormed(log + unit, history)
  {
    var all := log + unit;
    forall i, j | 0 <= i && j == i + history && j <= |all|
      ensures RunEnds(all, i, j)
    {
      if i + history <= |log| {
        assert RunEnds(log, i, i + history);
        var k :| i <= k < i + history && Kind(log[k]) != IntermediateFragment;
        assert Kind(all[k]) != IntermediateFragment;
      } else {
        var k := if i < |log| then |log| - 1 else |all| - 1;
        assert Kind(all[k]) != IntermediateFragment;
      }
    }
    forall i | 0 <= i < |all| - 1 && Kind(all[i]) == IntermediateFragment
      ensures Kind(all[i + 1]) != NoFragmented
    {
      if i + 1 < |log| {
        assert all[i] == log[i] && all[i + 1] == log[i + 1];
      } else {
        assert i >= |log|;
        assert all[i] == unit[i - |log|] && all[i + 1] == unit[i + 1 - |log|];
      }
    }
  }

  lemma SameKinds(log: seq<message>, other: seq<message>, history: nat)
    requires WellFormed(log, history) && |other| == |log|
    requires forall i | 0 <= i < |log| :: Readable(other[i]) && Kind(other[i]) == Kind(log[i])
    ensures WellFormed(other, history)
  {
    forall i, j | 0 <= i && j == i + history && j <= |log|
      ensures RunEnds(other, i, j)
    {
      assert RunEnds(log, i, i + history);
      var k :| i <= k < i + history && Kind(log[k]) != IntermediateFragment;
      assert Kind(other[k]) != IntermediateFragment;
    }
  }

  /** A run of fragments is never longer than the window, so the receiver's search for its last
      one ends (see InputWindow). */
  lemma WriteWellFormed(s: Sender, data: seq<byte>, pad: seq<byte>)
    requires s.Valid() && Readable(data) && Kind(data) == NoFragmented && s.IsPadding(pad)
    requires WellFormed(Log(s), s.cfg.history)
    ensures s.Write(data, pad).Valid() && WellFormed(Log(s.Write(data, pad)), s.cfg.history)
  {
    WriteValid(s, data, pad);
    if s.Accepts(|data|) {
      PlaceFits(s, data);
      PutWellFormed(s, s.PlaceOf(data), pad);
    }
  }

  lemma PutWellFormed(s: Sender, p: Place, pad: seq<byte>)
    requires s.Valid() && s.IsPlace(p) && s.IsPadding(pad) && IsUnit(p.ms)
    requires s.Put(p, pad).Valid() && WellFormed(Log(s), s.cfg.history)
    ensures WellFormed(Log(s.Put(p, pad)), s.cfg.history)
  {
    hide Sender.Put;
    hide WellFormed;
    hide IsUnit;
    PutLog(s, p, pad);
    LogEnds(s);
    hide Sender.Valid;
    hide Log;
    if p.start == s.written && s.msgs[s.written] != [] {
      GrowAndAppend(Log(s), pad + p.ms[0], p.ms, s.cfg.history);
    } else {
      AppendUnit(Log(s), p.ms, s.cfg.history);
    }
  }

  lemma LogEnds(s: Sender)
    requires s.Valid()
    ensures s.msgs[s.written] == [] ==> |Log(s)| == s.written
    ensures s.msgs[s.written] != [] ==> |Log(s)| == s.written + 1 && Log(s)[s.written] == s.msgs[s.written]
  {
  }

  lemma PutLog(s: Sender, p: Place, pad: seq<byte>)
    requires s.Valid() && s.IsPlace(p) && s.IsPadding(pad) && s.Put(p, pad).Valid()
    ensures Log(s.Put(p, pad))
         == if p.start == s.written && s.msgs[s.written] != []
            then Log(s)[s.written := s.msgs[s.written] + (pad + p.ms[0])] + p.ms[1..]
            else Log(s) + p.ms
  {
    PutFills(s, p, pad);
    hide Sender.Valid;
    hide Sender.IsPlace;
    hide Readable;
    var w := s.written;
    if p.start == w {
      PutCurrent(s.msgs, w, pad, p.ms);
      if s.msgs[w] == [] {
        assert pad == [] by { NoPadding(s, pad); }
        assert [] + p.ms[0] == p.ms[0];
      }
    }
  }

  /** A write leaves the last slot that it used filled. */
  lemma PutFills(s: Sender, p: Place, pad: seq<byte>)
    requires s.Valid() && s.IsPlace(p) && s.Put(p, pad).Valid()
    ensures 0 < |p.ms| && 0 <= s.written == |s.msgs| - 1
    ensures var t := s.Put(p, pad); |t.msgs| == t.written + 1 && t.msgs[t.written] != []
    ensures p.start != s.written ==> s.msgs[s.written] != [] && s.Put(p, pad).msgs == s.msgs + p.ms
    ensures p.start == s.written ==> s.Open()
  {
  }

  /** In an empty slot there is nothing to pad. */
  lemma NoPadding(s: Sender, pad: seq<byte>)
    requires s.Valid() && s.IsPadding(pad) && s.Open() && s.msgs[s.written] == []
    ensures pad == []
  {
  }

  lemma PutCurrent(msgs: seq<message>, w: nat, pad: seq<byte>, ms: seq<message>)
    requires w == |msgs| - 1 && ms != []
    ensures msgs[w := msgs[w] + pad + ms[0]] == msgs[..w] + [msgs[w] + (pad + ms[0])]
    ensures msgs[..w] + ([ms[0]] + ms[1..]) == msgs[..w] + [ms[0]] + ms[1..] == msgs[..w] + ms
    ensures msgs[w := msgs[w] + (pad + ms[0])] == msgs[..w] + [msgs[w] + (pad + ms[0])]
  {
    assert msgs[w] + pad + ms[0] == msgs[w] + (pad + ms[0]);
    assert [ms[0]] + ms[1..] == ms;
  }

  /** The last message takes more, and the rest of a unit follows. */
  lemma GrowAndAppend(log: seq<message>, more: seq<byte>, unit: seq<message>, history: nat)
    requires WellFormed(log, history) && log != [] && IsUnit(unit) && |unit| <= history
    ensures WellFormed(log[|log| - 1 := log[|log| - 1] + more] + unit[1..], history)
  {
    var last := log[|log| - 1];
    var grown := log[|log| - 1 := last + more];
    assert Readable(last);
    KindOfAppended(last, more);
    SameKinds(log, grown, history);
    if |unit| == 1 {
      assert grown + unit[1..] == grown;
    } else {
      assert IsUnit(unit[1..]);
      AppendUnit(grown, unit[1..], history);
    }
  }
}
