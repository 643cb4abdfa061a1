/** Submessage headers, message headers and fragments: what the slots of a reliable stream carry.

    A stream message is what follows the message header in a datagram; it starts with a submessage
    header, and `on_get_fragmentation_info` classifies it by that header alone. */
module Messages {
  import opened SeqNum
  import Slots
  import Octets

  type message = seq<byte>

  const SUBHEADER_SIZE := 4
  const MAX_HEADER_SIZE := 8
  const SUBMESSAGE_ID_FRAGMENT: byte := 13
  const FLAG_ENDIANNESS := 0x01
  const FLAG_LAST_FRAGMENT := 0x02

  datatype FragmentationInfo = NoFragmented | IntermediateFragment | LastFragment

  /** uxr_buffer_submessage_header on a little-endian machine; `last` is the only flag used here. */
  function FragmentHeader(length: SeqNum, last: bool): (h: seq<byte>)
    ensures |h| == SUBHEADER_SIZE
  {
    [SUBMESSAGE_ID_FRAGMENT, (if last then FLAG_LAST_FRAGMENT else 0) + FLAG_ENDIANNESS, length % 0x100, length / 0x100]
  }

  /** session.c:1240-1259. */
  function OnGetFragmentationInfo(header: seq<byte>): FragmentationInfo
    requires |header| >= SUBHEADER_SIZE
  {
    if header[0] != SUBMESSAGE_ID_FRAGMENT then NoFragmented
    else if header[1] / FLAG_LAST_FRAGMENT % 2 == 1 then LastFragment
    else IntermediateFragment
  }

  /** A message long enough to be read back: uxr_read_session_header wants more than
      MAX_HEADER_SIZE octets in a datagram, whose header has at least four. */
  ghost predicate Readable(m: message) {
    |m| > SUBHEADER_SIZE
  }

  /** How a stream message counts in a run; one too short for a subheader is in none. */
  function Kind(m: message): FragmentationInfo {
    if |m| < SUBHEADER_SIZE then NoFragmented else OnGetFragmentationInfo(m[..SUBHEADER_SIZE])
  }

  /** `data` cut into fragments: `first` octets in the first, `block` in the following ones, the
      rest, at least one octet, in the last. */
  function Fragments(data: seq<byte>, first: nat, block: nat): (fs: seq<message>)
    requires 0 < |data| && 0 < first < SEQ_NUM_SIZE && 0 < block < SEQ_NUM_SIZE
    ensures |fs| >= 1
    decreases |data|
  {
    if |data| <= first then [FragmentHeader(|data|, true) + data]
    else [FragmentHeader(first, false) + data[..first]] + Fragments(data[first..], block, block)
  }

  /** What follows the first `skip` octets of each message, as a cursor walks from slot to slot. */
  function Join(unit: seq<message>, skip: nat): seq<byte>
    requires forall m <- unit :: |m| >= skip
  {
    if unit == [] then [] else unit[0][skip..] + Join(unit[1..], skip)
  }

  /** Joining from message `done` on, one message at a time. */
  lemma JoinStep(unit: seq<message>, skip: nat, done: nat)
    requires done <= |unit| && forall m <- unit :: |m| > skip
    ensures Join(unit[done..], skip) == if done == |unit| then [] else unit[done][skip..] + Join(unit[done + 1..], skip)
    ensures Join(unit[done..], skip) == [] <==> done == |unit|
  {
    if done < |unit| {
      assert unit[done..][0] == unit[done] && unit[done..][1..] == unit[done + 1..];
    }
  }

  /** What read_submessage_list is given at once: a plain message, or a whole run of fragments. */
  ghost predicate IsUnit(unit: seq<message>) {
    && |unit| > 0
    && (forall m <- unit :: Readable(m))
    && (forall k | 0 <= k < |unit| - 1 :: Kind(unit[k]) == IntermediateFragment)
    && Kind(unit[|unit| - 1]) != IntermediateFragment
    && (|unit| > 1 ==> Kind(unit[|unit| - 1]) == LastFragment)
  }

  lemma KindOfFragment(length: SeqNum, last: bool, data: seq<byte>)
    ensures (FragmentHeader(length, last) + data)[..SUBHEADER_SIZE] == FragmentHeader(length, last)
    ensures Kind(FragmentHeader(length, last) + data) == if last then LastFragment else IntermediateFragment
  {
    assert (FragmentHeader(length, last) + data)[..SUBHEADER_SIZE] == FragmentHeader(length, last);
  }

  /** Appending to a message does not change its kind. */
  lemma KindOfAppended(m: message, more: seq<byte>)
    requires |m| >= SUBHEADER_SIZE
    ensures Kind(m + more) == Kind(m)
  {
    assert (m + more)[..SUBHEADER_SIZE] == m[..SUBHEADER_SIZE];
  }

  /** What a reader finds in a submessage header (section 8.3.2 of OMG DDS-XRCE 1.0): the id, the flags, of which
      the lowest one says that the length is little-endian, and the length. */
  ghost predicate ReadsAs(h: seq<byte>, id: byte, flags: set<nat>, length: int) {
    && |h| == 4 && h[0] == id && h[2] + 0x100 * h[3] as int == length
    && forall bit: nat | bit < 8 :: bit in flags <==> Octets.HasBit(h[1], bit)
  }

  /** The header of a FRAGMENT reads as that: id 13, bit 1 for the last one, and how much follows. */
  lemma FragmentHeaderRead(length: SeqNum, last: bool)
    ensures ReadsAs(FragmentHeader(length, last), 13, if last then {0, 1} else {0}, length)
  {
  }

  /** Whatever its other flags and its length are, a submessage is a fragment exactly if its id is 13, and a last
      one exactly if bit 1 is set. */
  lemma KindOfSubmessage(id: byte, flags: byte, length: SeqNum, payload: seq<byte>)
    ensures var kind := Kind([id, flags, length % 0x100, length / 0x100] + payload);
      && (kind == NoFragmented <==> id != 13) && (kind == LastFragment <==> id == 13 && Octets.HasBit(flags, 1))
  {
    var m := [id, flags, length % 0x100, length / 0x100] + payload;
    assert m[..SUBHEADER_SIZE] == [id, flags, length % 0x100, length / 0x100];
  }

  /** fs[k] is a fragment that fills its room, which only the last one may leave unused. */
  ghost predicate FragmentAt(fs: seq<message>, k: nat, first: nat, block: nat)
    requires k < |fs| && 0 < first < SEQ_NUM_SIZE && 0 < block < SEQ_NUM_SIZE
  {
    var room, last := if k == 0 then first else block, k == |fs| - 1;
    && SUBHEADER_SIZE < |fs[k]| <= SUBHEADER_SIZE + room
    && (!last ==> |fs[k]| == SUBHEADER_SIZE + room)
    && fs[k][..SUBHEADER_SIZE] == FragmentHeader(|fs[k]| - SUBHEADER_SIZE, last)
    && ReadsAs(fs[k][..SUBHEADER_SIZE], 13, if last then {0, 1} else {0}, |fs[k]| - SUBHEADER_SIZE)
    && Kind(fs[k]) == if last then LastFragment else IntermediateFragment
  }

  ghost predicate AreFragments(fs: seq<message>, first: nat, block: nat)
    requires 0 < first < SEQ_NUM_SIZE && 0 < block < SEQ_NUM_SIZE
  {
    forall k | 0 <= k < |fs| :: FragmentAt(fs, k, first, block)
  }

  /** What each fragment carries and how each is flagged. */
  lemma {:induction false} FragmentsShape(data: seq<byte>, first: nat, block: nat)
    requires 0 < |data| && 0 < first < SEQ_NUM_SIZE && 0 < block < SEQ_NUM_SIZE
    ensures AreFragments(Fragments(data, first, block), first, block)
    decreases |data|
  {
    hide FragmentHeader;
    hide ReadsAs;
    hide Kind;
    var fs := Fragments(data, first, block);
    if |data| <= first {
      KindOfFragment(|data|, true, data);
      FragmentHeaderRead(|data|, true);
    } else {
      KindOfFragment(first, false, data[..first]);
      FragmentHeaderRead(first, false);
      FragmentsShape(data[first..], block, block);
      var rest := Fragments(data[first..], block, block);
      forall k | 0 <= k < |fs|
        ensures FragmentAt(fs, k, first, block)
      {
        if k > 0 {
          assert FragmentAt(rest, k - 1, block, block);
        }
      }
    }
  }

  /** Fragments are one unit for the receiver. */
  lemma FragmentsAreUnit(data: seq<byte>, first: nat, block: nat)
    requires 0 < |data| && 0 < first < SEQ_NUM_SIZE && 0 < block < SEQ_NUM_SIZE
    ensures IsUnit(Fragments(data, first, block))
  {
    FragmentsShape(data, first, block);
    var fs := Fragments(data, first, block);
    assert forall k | 0 <= k < |fs| :: FragmentAt(fs, k, first, block);
  }

  /** How many fragments there are: the closed form of the arithmetic of
      output_reliable_stream.c:111-124. */
  lemma {:induction false} FragmentsCount(data: seq<byte>, first: nat, block: nat)
    requires 0 < |data| && 0 < first < SEQ_NUM_SIZE && 0 < block < SEQ_NUM_SIZE
    ensures |Fragments(data, first, block)| == if |data| <= first then 1 else 2 + (|data| - first - 1) / block
    decreases |data|
  {
    if |data| > first {
      var rest := Fragments(data[first..], block, block);
      assert |Fragments(data, first, block)| == 1 + |rest|;
      FragmentsCount(data[first..], block, block);
      CountStep(|data| - first, block, |rest|);
    }
  }

  /** How much the last fragment carries. */
  lemma {:induction false} LastFragmentSize(data: seq<byte>, first: nat, block: nat)
    requires 0 < first < |data| && first < SEQ_NUM_SIZE && 0 < block < SEQ_NUM_SIZE
    ensures var fs := Fragments(data, first, block);
      |fs[|fs| - 1]| == SUBHEADER_SIZE + 1 + (|data| - first - 1) % block
    decreases |data|
  {
    var n, rest := |data| - first, data[first..];
    if n <= block {
      Slots.ModOfMultiple(n - 1, block, 0);
      assert Fragments(rest, block, block) == [FragmentHeader(|rest|, true) + rest];
    } else {
      LastFragmentSize(rest, block, block);
      Slots.SlotsRepeat(n - 1 - block, block);
    }
  }

  /** How many blocks of d octets n octets take, and how much of the last one. */
  function Blocks(n: nat, d: nat): nat
    requires 0 < d
  {
    if n % d == 0 then n / d else n / d + 1
  }

  function LastBlock(n: nat, d: nat): nat
    requires 0 < d
  {
    if n % d == 0 then d else n % d
  }

  /** The rounding of output_reliable_stream.c:115-124. */
  lemma RoundUp(n: nat, d: nat)
    requires 0 < n && 0 < d
    ensures Blocks(n, d) == 1 + (n - 1) / d
    ensures LastBlock(n, d) == 1 + (n - 1) % d
  {
    var q, r := (n - 1) / d, (n - 1) % d;
    if r + 1 < d {
      assert n == d * q + (r + 1);
      Slots.DivOfMultiple(r + 1, d, q);
      Slots.ModOfMultiple(r + 1, d, q);
    } else {
      assert n == d * (q + 1) + 0;
      Slots.DivOfMultiple(0, d, q + 1);
      Slots.ModOfMultiple(0, d, q + 1);
    }
  }

  lemma CountStep(n: nat, d: nat, rest: nat)
    requires 0 < n && 0 < d
    requires rest == if n <= d then 1 else 2 + (n - d - 1) / d
    ensures 1 + rest == 2 + (n - 1) / d
  {
    if n <= d {
      Slots.DivOfMultiple(n - 1, d, 0);
    } else {
      DivStep(n - 1, d);
    }
  }

  lemma DivStep(n: int, d: nat)
    requires 0 < d
    ensures n / d == 1 + (n - d) / d
  {
    var q, r := n / d, n % d;
    assert n - d == d * (q - 1) + r;
    Slots.DivOfMultiple(r, d, q - 1);
  }

  /** Reassembling the fragments gives the data back. */
  lemma {:induction false} JoinFragments(data: seq<byte>, first: nat, block: nat)
    requires 0 < |data| && 0 < first < SEQ_NUM_SIZE && 0 < block < SEQ_NUM_SIZE
    ensures forall m <- Fragments(data, first, block) :: |m| >= SUBHEADER_SIZE
    ensures Join(Fragments(data, first, block), SUBHEADER_SIZE) == data
    decreases |data|
  {
    hide IsUnit;
    hide FragmentHeader;
    hide Join;
    if |data| <= first {
      JoinFirst(FragmentHeader(|data|, true), data, []);
      JoinNone();
      assert [FragmentHeader(|data|, true) + data] + [] == [FragmentHeader(|data|, true) + data];
      assert data + [] == data;
    } else {
      var rest := Fragments(data[first..], block, block);
      JoinFragments(data[first..], block, block);
      JoinFirst(FragmentHeader(first, false), data[..first], rest);
      assert data[..first] + data[first..] == data;
    }
  }

  lemma JoinNone()
    ensures Join([], SUBHEADER_SIZE) == []
  {
  }

  lemma JoinFirst(header: seq<byte>, part: seq<byte>, rest: seq<message>)
    requires |header| == SUBHEADER_SIZE && forall m <- rest :: |m| >= SUBHEADER_SIZE
    ensures forall m <- [header + part] + rest :: |m| >= SUBHEADER_SIZE
    ensures Join([header + part] + rest, SUBHEADER_SIZE) == part + Join(rest, SUBHEADER_SIZE)
  {
    var all := [header + part] + rest;
    assert all[0][SUBHEADER_SIZE..] == part && all[1..] == rest;
  }
}

/** Message headers (xrce_header.c, session_info.c:148-189). */
module MessageHeaders {
  import opened SeqNum
  import opened Messages

  const CLIENT_KEY_SIZE := 4
  const SESSION_ID_WITHOUT_CLIENT_KEY := 0x80

  /** The session, and one of its streams, that a datagram belongs to. */
  datatype Session = Session(id: byte, key: seq<byte>, streamId: byte) {
    ghost predicate Valid() {
      |key| == CLIENT_KEY_SIZE
    }

    /** uxr_session_header_offset. */
    function Offset(): nat {
      if id < SESSION_ID_WITHOUT_CLIENT_KEY then MAX_HEADER_SIZE else 4
    }

    /** uxr_stamp_session_header. */
    function Header(seqNum: SeqNum): (h: seq<byte>)
      requires Valid()
      ensures |h| == Offset()
    {
      [id, streamId, seqNum % 0x100, seqNum / 0x100] + if id < SESSION_ID_WITHOUT_CLIENT_KEY then key else []
    }

    /** The datagram that carries message i. */
    function Datagram(i: int, m: message): seq<byte>
      requires Valid()
    {
      Header(Wire(i)) + m
    }

    /** uxr_read_session_header, for datagrams of this stream. */
    function ReadHeader(datagram: seq<byte>): (r: Parsed)
      requires Valid()
    {
      if |datagram| <= MAX_HEADER_SIZE || datagram[0] != id || datagram[1] != streamId then Rejected
      else if id < SESSION_ID_WITHOUT_CLIENT_KEY && datagram[4..8] != key then Rejected
      else Accepted(datagram[2] + 0x100 * (datagram[3] as int), datagram[Offset()..])
    }
  }

  datatype Parsed = Rejected | Accepted(seqNum: SeqNum, m: message)

  /** What the octets of a message header are (section 8.3.1 of OMG DDS-XRCE 1.0): the session, the stream, the
      number, least significant octet first, and the key of a client below 0x80. */
  lemma HeaderOctets(s: Session, seqNum: SeqNum)
    requires s.Valid()
    ensures var h := s.Header(seqNum);
      && |h| == (if s.id < 0x80 then 8 else 4)
      && h[0] == s.id && h[1] == s.streamId && h[2] + 0x100 * h[3] as int == seqNum
      && (s.id < 0x80 ==> h[4..] == s.key)
  {
  }

  /** A datagram is accepted with a number and a message exactly if it is longer than eight octets and consists
      of the header that the session stamps on that number, and the message. */
  lemma AcceptedExactly(s: Session, datagram: seq<byte>, seqNum: SeqNum, m: message)
    requires s.Valid()
    ensures s.ReadHeader(datagram) == Accepted(seqNum, m) <==> |datagram| > 8 && datagram == s.Header(seqNum) + m
  {
    HeaderOctets(s, seqNum);
    var n := s.Offset();
    if s.ReadHeader(datagram) == Accepted(seqNum, m) {
      assert datagram == datagram[..n] + datagram[n..];
      assert s.id < 0x80 ==> datagram[..n][4..] == datagram[4..8];
      assert datagram[..n] == s.Header(seqNum);
    }
    if datagram == s.Header(seqNum) + m {
      assert datagram[..n] == s.Header(seqNum) && datagram[n..] == m;
      assert s.id < 0x80 ==> datagram[4..8] == s.Header(seqNum)[4..];
    }
  }

  /** The datagrams of another session, stream or client are rejected. */
  lemma ForeignRejected(s: Session, t: Session, i: int, m: message)
    requires s.Valid() && t.Valid()
    requires s.id != t.id || s.streamId != t.streamId || (s.id < 0x80 && s.key != t.key)
    ensures t.ReadHeader(s.Datagram(i, m)) == Rejected
  {
    HeaderOctets(s, Wire(i));
    var d := s.Datagram(i, m);
    if s.id < 0x80 {
      assert d[4..8] == s.key;
    }
  }

  /** A stamped message is read back with its number, provided the datagram is longer than eight
      octets; a message as short as its subheader is not, when the session has no key. */
  lemma HeaderRoundTrip(s: Session, i: int, m: message)
    requires s.Valid() && |m| >= SUBHEADER_SIZE
    ensures s.ReadHeader(s.Datagram(i, m)) == Accepted(Wire(i), m)
            <==> Readable(m) || s.id < SESSION_ID_WITHOUT_CLIENT_KEY
  {
    var d := s.Datagram(i, m);
    assert d[s.Offset()..] == m;
    if s.id < SESSION_ID_WITHOUT_CLIENT_KEY {
      assert d[4..8] == s.key;
    }
  }
}
