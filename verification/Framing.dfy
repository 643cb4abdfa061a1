/** The stream framing protocol (stream_framing_protocol.c), octet by octet: frames as the writer
    makes them, and the reader's state machine as a fold over the octets it takes from its ring. */
module Framing {
  import opened SeqNum
  import Crc16
  import Octets

  const BEGIN_FLAG: byte := 0x7E
  const ESC_FLAG: byte := 0x7D
  const XOR_FLAG := 0x20

  /** b ^ UXR_FRAMING_XOR_FLAG: bit 5 changes. */
  function Toggle(b: byte): (t: byte)
    ensures t != b
  {
    if b / XOR_FLAG % 2 == 1 then b - XOR_FLAG else b + XOR_FLAG
  }

  lemma ToggleTwice(b: byte)
    ensures Toggle(Toggle(b)) == b
    ensures b == BEGIN_FLAG || b == ESC_FLAG ==> Toggle(b) != BEGIN_FLAG && Toggle(b) != ESC_FLAG
  {
  }

  /** Bit 5 changes, and no other. */
  lemma ToggleBits(b: byte, k: nat)
    requires k < 8
    ensures Octets.HasBit(Toggle(b), k) <==> if k == 5 then !Octets.HasBit(b, k) else Octets.HasBit(b, k)
  {
    TogglesMiddle(b);
    if k < 5 {
      LowBits(b, k);
      LowBits(Toggle(b), k);
    } else if k > 5 {
      HighBits(b, k);
      HighBits(Toggle(b), k);
    }
  }

  lemma TogglesMiddle(b: byte)
    ensures Toggle(b) % 32 == b % 32 && Toggle(b) / 64 == b / 64 && Toggle(b) / 32 % 2 != b / 32 % 2
  {
  }

  lemma LowBits(b: byte, k: nat)
    requires k < 5
    ensures Octets.HasBit(b, k) <==> Octets.HasBit(b % 32, k)
  {
    LowPart(b / 32, b % 32, 5, k);
  }

  /** Multiples of 2^e do not matter to the bits below. */
  lemma {:induction false} LowPart(q: nat, r: nat, e: nat, k: nat)
    requires k < e <= 5
    ensures Octets.HasBit([1, 2, 4, 8, 16, 32][e] * q + r, k) <==> Octets.HasBit(r, k)
  {
    hide Octets.HasBit;
    var n := [1, 2, 4, 8, 16, 32][e] * q + r;
    Octets.LowestBit(n);
    Octets.LowestBit(r);
    HalfOfPart(q, r, e);
    if k > 0 {
      Octets.BitOfHalf(n, k);
      Octets.BitOfHalf(r, k);
      LowPart(q, r / 2, e - 1, k - 1);
    }
  }

  lemma HalfOfPart(q: nat, r: nat, e: nat)
    requires 0 < e <= 5
    ensures ([1, 2, 4, 8, 16, 32][e] * q + r) / 2 == [1, 2, 4, 8, 16, 32][e - 1] * q + r / 2
    ensures ([1, 2, 4, 8, 16, 32][e] * q + r) % 2 == r % 2
  {
    var m := [1, 2, 4, 8, 16, 32][e - 1];
    assert [1, 2, 4, 8, 16, 32][e] * q == 2 * (m * q);
  }

  lemma HighBits(b: byte, k: nat)
    requires 5 < k < 8
    ensures Octets.HasBit(b, k) <==> Octets.HasBit(b / 64, k - 6)
  {
  }

  function StuffOctet(b: byte): (s: seq<byte>)
    ensures 1 <= |s| <= 2 && BEGIN_FLAG !in s
  {
    if b == BEGIN_FLAG || b == ESC_FLAG then [ESC_FLAG, Toggle(b)] else [b]
  }

  /** The two octets that are escaped; the others are as they were. */
  lemma StuffedExactly(b: byte)
    ensures b == 0x7E ==> StuffOctet(b) == [0x7D, 0x5E]
    ensures b == 0x7D ==> StuffOctet(b) == [0x7D, 0x5D]
    ensures b != 0x7E && b != 0x7D ==> StuffOctet(b) == [b]
  {
  }

  function Stuff(data: seq<byte>): (s: seq<byte>)
    ensures BEGIN_FLAG !in s
  {
    if data == [] then [] else Stuff(data[..|data| - 1]) + StuffOctet(data[|data| - 1])
  }

  /** A 16-bit word, least significant octet first. */
  function Word16(n: SeqNum): seq<byte> {
    [n % 0x100, n / 0x100]
  }

  /** The CRC as a number. */
  function CrcNumber(crc: bv16): SeqNum {
    Octets.NumberBound(crc, 16);
    Octets.Number(crc, 16)
  }

  /** It has the bits of the CRC. */
  lemma CrcNumberBits(crc: bv16, k: nat)
    requires k < 16
    ensures Octets.HasBit(CrcNumber(crc), k) <==> Octets.WordBit(crc, k)
  {
    Octets.NumberBits(crc, 16, k);
  }

  function CrcWord(payload: seq<byte>): SeqNum {
    CrcNumber(Crc16.Crc(payload))
  }

  /** The CRC word of a frame has the bits of what long division of the bits of its payload leaves. */
  lemma CrcWordBits(payload: seq<byte>, k: nat)
    requires k < 16
    ensures Octets.HasBit(CrcWord(payload), k) <==> Octets.WordBit(Crc16.Remainder(0, Crc16.MessageBits(payload)), k)
  {
    CrcNumberBits(Crc16.Crc(payload), k);
    Crc16.CrcIsRemainder(payload);
  }

  /** What a frame carries, with any CRC word. */
  function Body(src: byte, dst: byte, payload: seq<byte>, crc: SeqNum): seq<byte>
    requires |payload| < SEQ_NUM_SIZE
  {
    [src, dst] + Word16(|payload|) + payload + Word16(crc)
  }

  function Frame(src: byte, dst: byte, payload: seq<byte>): (f: seq<byte>)
    requires |payload| < SEQ_NUM_SIZE
  {
    [BEGIN_FLAG] + Stuff(Body(src, dst, payload, CrcWord(payload)))
  }

  /** The octets of a frame: the begin flag; then, before stuffing, the addresses, the length and the CRC of the
      payload, each least significant octet first, around the payload. */
  lemma FrameOctets(src: byte, dst: byte, payload: seq<byte>, crc: SeqNum)
    requires |payload| < SEQ_NUM_SIZE
    ensures var body, n := Body(src, dst, payload, crc), |payload|;
      && |body| == n + 6 && body[0] == src && body[1] == dst && body[2] + 0x100 * body[3] as int == n
      && body[4..4 + n] == payload && body[n + 4] + 0x100 * body[n + 5] as int == crc
    ensures Frame(src, dst, payload)[0] == 0x7E
    ensures Frame(src, dst, payload)[1..] == Stuff(Body(src, dst, payload, CrcWord(payload)))
  {
  }

  /** The frame up to its m-th octet before stuffing. */
  function Part(body: seq<byte>, m: nat): seq<byte>
    requires m <= |body|
  {
    [BEGIN_FLAG] + Stuff(body[..m])
  }

  lemma {:induction false} StuffAppend(a: seq<byte>, b: seq<byte>)
    ensures Stuff(a + b) == Stuff(a) + Stuff(b)
    decreases |b|
  {
    hide StuffOctet;
    hide Stuff;
    if b == [] {
      StuffNone();
      assert a + b == a && Stuff(a) + [] == Stuff(a);
    } else {
      var n := |b| - 1;
      StuffAppend(a, b[..n]);
      StuffMore(b[..n], b[n]);
      StuffMore(a + b[..n], b[n]);
      assert b[..n] + [b[n]] == b && a + b[..n] + [b[n]] == a + b;
      assert Stuff(a) + Stuff(b[..n]) + StuffOctet(b[n]) == Stuff(a) + (Stuff(b[..n]) + StuffOctet(b[n]));
    }
  }

  lemma StuffNone()
    ensures Stuff([]) == []
  {
  }

  lemma StuffMore(data: seq<byte>, b: byte)
    ensures Stuff(data + [b]) == Stuff(data) + StuffOctet(b)
  {
    hide StuffOctet;
    assert (data + [b])[..|data|] == data;
  }

  datatype State =
    | Uninitialized | ReadingSrcAddr | ReadingDstAddr | ReadingLenLsb | ReadingLenMsb
    | ReadingPayload | ReadingCrcLsb | ReadingCrcMsb

  /** A message handed to the caller: who sent it, and its octets. */
  datatype Returned = Returned(src: byte, payload: seq<byte>)

  /** The reader after some octets.  `escaped`: the last one was an escape flag, whose successor has not come
      yet. */
  datatype Reader = Reader(state: State, src: byte, msgLen: nat, msg: seq<byte>, msgCrc: nat, escaped: bool,
                           returned: seq<Returned>)
  {
    /** Between frames. */
    ghost predicate Idle() {
      state == Uninitialized && !escaped
    }

    /** Where the next begin flag is certain to begin a frame. */
    ghost predicate Restarts() {
      Idle() || state == ReadingSrcAddr || state == ReadingPayload
    }

    /** An escape flag only counts inside a frame. */
    ghost predicate Sound() {
      state == Uninitialized ==> !escaped
    }

    /** Waiting neither for an address nor for a length. */
    ghost predicate PastHeader() {
      Idle() || state == ReadingPayload || state == ReadingCrcLsb || state == ReadingCrcMsb
    }
  }

  const INITIAL := Reader(Uninitialized, 0, 0, [], 0, false, [])

  /** A begin flag inside a frame.  Between the source address and the payload, and in the CRC, the code may
      forget it; `seen` says that it does not. */
  function Flagged(r: Reader, seen: bool): Reader {
    if r.state == ReadingSrcAddr || r.state == ReadingPayload || seen then r.(state := ReadingSrcAddr) else r
  }

  /** An octet of a frame, after unstuffing; `limit` is the size of the caller's buffer. */
  function Accept(r: Reader, local: byte, limit: nat, b: byte): Reader {
    match r.state
    case Uninitialized => r
    case ReadingSrcAddr => r.(src := b, state := ReadingDstAddr)
    case ReadingDstAddr => r.(state := if b == local then ReadingLenLsb else Uninitialized)
    case ReadingLenLsb => r.(msgLen := b, state := ReadingLenMsb)
    case ReadingLenMsb =>
      var n := r.msgLen + 0x100 * b as int;
      r.(msgLen := n, msg := [],
         state := if limit < n then Uninitialized else if n == 0 then ReadingCrcLsb else ReadingPayload)
    case ReadingPayload =>
      r.(msg := r.msg + [b], state := if |r.msg| + 1 == r.msgLen then ReadingCrcLsb else ReadingPayload)
    case ReadingCrcLsb => r.(msgCrc := b, state := ReadingCrcMsb)
    case ReadingCrcMsb =>
      var crc := r.msgCrc + 0x100 * b as int;
      r.(msgCrc := crc, state := Uninitialized,
         returned := if crc == CrcWord(r.msg) && r.msg != [] then r.returned + [Returned(r.src, r.msg)] else r.returned)
  }

  /** An octet as it comes. */
  function Take(r: Reader, local: byte, limit: nat, seen: bool, b: byte): Reader {
    if r.state == Uninitialized then if b == BEGIN_FLAG then r.(state := ReadingSrcAddr) else r
    else if b == BEGIN_FLAG then Flagged(r.(escaped := false), seen)
    else if r.escaped then Accept(r.(escaped := false), local, limit, Toggle(b))
    else if b == ESC_FLAG then r.(escaped := true)
    else Accept(r, local, limit, b)
  }

  /** The octets from place `at` of the line on; `seen` has the places of begin flags that are not forgotten. */
  function Decode(r: Reader, local: byte, limit: nat, seen: set<nat>, at: nat, octets: seq<byte>): Reader {
    if octets == [] then r
    else
      var n := |octets| - 1;
      Take(Decode(r, local, limit, seen, at, octets[..n]), local, limit, at + n in seen, octets[n])
  }

  lemma {:induction false} DecodeAppend(r: Reader, local: byte, limit: nat, seen: set<nat>, at: nat, a: seq<byte>, b: seq<byte>)
    ensures Decode(r, local, limit, seen, at, a + b)
         == Decode(Decode(r, local, limit, seen, at, a), local, limit, seen, at + |a|, b)
    decreases |b|
  {
    hide Take;
    if b == [] {
      assert a + b == a;
    } else {
      var n := |b| - 1;
      DecodeAppend(r, local, limit, seen, at, a, b[..n]);
      assert (a + b)[..|a + b| - 1] == a + b[..n];
    }
  }

  lemma DecodeOne(r: Reader, local: byte, limit: nat, seen: set<nat>, at: nat, b: byte)
    ensures Decode(r, local, limit, seen, at, [b]) == Take(r, local, limit, at in seen, b)
  {
    hide Take;
    assert [b][..0] == [];
  }

  lemma DecodeTwo(r: Reader, local: byte, limit: nat, seen: set<nat>, at: nat, b: byte, c: byte)
    ensures Decode(r, local, limit, seen, at, [b, c])
         == Take(Take(r, local, limit, at in seen, b), local, limit, at + 1 in seen, c)
  {
    hide Take;
    assert [b, c] == [b] + [c];
    DecodeAppend(r, local, limit, seen, at, [b], [c]);
    DecodeOne(r, local, limit, seen, at, b);
    DecodeOne(Take(r, local, limit, at in seen, b), local, limit, seen, at + 1, c);
  }

  /** Octets of a frame; the rest of one that is not wanted is passed over. */
  function AcceptAll(r: Reader, local: byte, limit: nat, data: seq<byte>): Reader {
    if data == [] then r
    else Accept(AcceptAll(r, local, limit, data[..|data| - 1]), local, limit, data[|data| - 1])
  }

  lemma {:induction false} AcceptAppend(r: Reader, local: byte, limit: nat, a: seq<byte>, b: seq<byte>)
    ensures AcceptAll(r, local, limit, a + b) == AcceptAll(AcceptAll(r, local, limit, a), local, limit, b)
    decreases |b|
  {
    if b == [] {
      assert a + b == a;
    } else {
      var n := |b| - 1;
      AcceptAppend(r, local, limit, a, b[..n]);
      assert (a + b)[..|a + b| - 1] == a + b[..n];
    }
  }

  lemma AcceptKeeps(r: Reader, local: byte, limit: nat, b: byte)
    ensures Accept(r, local, limit, b).escaped == r.escaped
  {
  }

  /** Unstuffing undoes stuffing. */
  lemma StuffOctetTaken(r: Reader, local: byte, limit: nat, seen: set<nat>, at: nat, b: byte)
    requires !r.escaped
    ensures Decode(r, local, limit, seen, at, StuffOctet(b)) == Accept(r, local, limit, b)
  {
    ToggleTwice(b);
    if b == BEGIN_FLAG || b == ESC_FLAG {
      DecodeTwo(r, local, limit, seen, at, ESC_FLAG, Toggle(b));
    } else {
      DecodeOne(r, local, limit, seen, at, b);
    }
  }

  lemma {:induction false} StuffTaken(r: Reader, local: byte, limit: nat, seen: set<nat>, at: nat, data: seq<byte>)
    requires !r.escaped
    ensures Decode(r, local, limit, seen, at, Stuff(data)) == AcceptAll(r, local, limit, data)
    ensures !AcceptAll(r, local, limit, data).escaped
  {
    hide Accept;
    if data != [] {
      var n := |data| - 1;
      StuffTaken(r, local, limit, seen, at, data[..n]);
      var mid := AcceptAll(r, local, limit, data[..n]);
      DecodeAppend(r, local, limit, seen, at, Stuff(data[..n]), StuffOctet(data[n]));
      StuffOctetTaken(mid, local, limit, seen, at + |Stuff(data[..n])|, data[n]);
      AcceptKeeps(mid, local, limit, data[n]);
    }
  }

  /** The header of a frame leads to its payload, or to nothing if the frame is not for this reader or
      is too long for its caller. */
  lemma HeaderAccepted(r: Reader, local: byte, limit: nat, src: byte, dst: byte, length: SeqNum)
    requires r.state == ReadingSrcAddr
    ensures var h := AcceptAll(r, local, limit, [src, dst] + Word16(length));
      && h.escaped == r.escaped && h.returned == r.returned
      && (if dst != local || limit < length then h.state == Uninitialized
          else && h.src == src && h.msgLen == length && h.msg == []
               && h.state == if length == 0 then ReadingCrcLsb else ReadingPayload)
  {
    var a := Accept(r, local, limit, src);
    var b := Accept(a, local, limit, dst);
    var c := Accept(b, local, limit, length % 0x100);
    AcceptTwo(r, local, limit, src, dst);
    AcceptTwo(b, local, limit, length % 0x100, length / 0x100);
    AcceptAppend(r, local, limit, [src, dst], Word16(length));
  }

  lemma AcceptTwo(r: Reader, local: byte, limit: nat, x: byte, y: byte)
    ensures AcceptAll(r, local, limit, [x, y]) == Accept(Accept(r, local, limit, x), local, limit, y)
  {
    assert [x, y] == [x] + [y];
    AcceptAppend(r, local, limit, [x], [y]);
    AcceptOne(r, local, limit, x);
    AcceptOne(Accept(r, local, limit, x), local, limit, y);
  }

  lemma AcceptOne(r: Reader, local: byte, limit: nat, x: byte)
    ensures AcceptAll(r, local, limit, [x]) == Accept(r, local, limit, x)
  {
    assert [x][..0] == [];
  }

  lemma {:induction false} NothingAccepted(r: Reader, local: byte, limit: nat, data: seq<byte>)
    requires r.state == Uninitialized
    ensures AcceptAll(r, local, limit, data) == r
  {
    if data != [] {
      NothingAccepted(r, local, limit, data[..|data| - 1]);
    }
  }

  /** Payload octets are collected until the announced length is reached. */
  lemma {:induction false} PayloadAccepted(r: Reader, local: byte, limit: nat, payload: seq<byte>)
    requires r.state == ReadingPayload && r.msg == [] && 0 < |payload| <= r.msgLen
    ensures AcceptAll(r, local, limit, payload)
         == r.(msg := payload, state := if |payload| == r.msgLen then ReadingCrcLsb else ReadingPayload)
  {
    var n := |payload| - 1;
    if n > 0 {
      PayloadAccepted(r, local, limit, payload[..n]);
    }
    assert payload == payload[..n] + [payload[n]];
  }

  /** The CRC decides. */
  lemma CrcAccepted(r: Reader, local: byte, limit: nat, crc: SeqNum)
    requires r.state == ReadingCrcLsb
    ensures var c := AcceptAll(r, local, limit, Word16(crc));
      && c.escaped == r.escaped && c.state == Uninitialized
      && c.returned == if crc == CrcWord(r.msg) && r.msg != [] then r.returned + [Returned(r.src, r.msg)] else r.returned
  {
    AcceptTwo(r, local, limit, crc % 0x100, crc / 0x100);
  }

  /** What a frame makes the reader return. */
  function Yield(local: byte, limit: nat, src: byte, dst: byte, payload: seq<byte>, crc: SeqNum): seq<Returned> {
    if dst == local && 0 < |payload| <= limit && crc == CrcWord(payload) then [Returned(src, payload)] else []
  }

  lemma BodyAccepted(r: Reader, local: byte, limit: nat, src: byte, dst: byte, payload: seq<byte>, crc: SeqNum)
    requires !r.escaped && r.state == ReadingSrcAddr && |payload| < SEQ_NUM_SIZE
    ensures var c := AcceptAll(r, local, limit, Body(src, dst, payload, crc));
      c.Idle() && c.returned == r.returned + Yield(local, limit, src, dst, payload, crc)
  {
    hide Accept;
    hide CrcWord;
    var header := [src, dst] + Word16(|payload|);
    var check := Word16(crc);
    HeaderAccepted(r, local, limit, src, dst, |payload|);
    AcceptAppend(r, local, limit, header + payload, check);
    AcceptAppend(r, local, limit, header, payload);
    var h := AcceptAll(r, local, limit, header);
    if dst != local || limit < |payload| {
      NothingAccepted(h, local, limit, payload);
      NothingAccepted(h, local, limit, check);
    } else {
      if payload == [] {
        assert AcceptAll(h, local, limit, payload) == h;
      } else {
        PayloadAccepted(h, local, limit, payload);
      }
      CrcAccepted(AcceptAll(h, local, limit, payload), local, limit, crc);
    }
  }

  /** Between frames, octets without a begin flag are passed over. */
  lemma {:induction false} NoiseTaken(r: Reader, local: byte, limit: nat, seen: set<nat>, at: nat, noise: seq<byte>)
    requires r.Idle() && BEGIN_FLAG !in noise
    ensures Decode(r, local, limit, seen, at, noise) == r
  {
    if noise != [] {
      NoiseTaken(r, local, limit, seen, at, noise[..|noise| - 1]);
    }
  }

  /** What may come over the line: noise, frames of the writer, frames that were damaged in such a way that
      their CRC word is not that of their payload, and frames that the writer did not finish: n octets of
      what the frame carries went out, and perhaps the escape flag of the next one. */
  datatype Segment =
    | Noise(octets: seq<byte>)
    | Framed(src: byte, dst: byte, payload: seq<byte>)
    | Damaged(src: byte, dst: byte, payload: seq<byte>, crc: SeqNum)
    | Unfinished(src: byte, dst: byte, payload: seq<byte>, n: nat, escape: bool)
  {
    ghost predicate Valid() {
      match this
      case Noise(octets) => BEGIN_FLAG !in octets
      case Framed(src, dst, payload) => |payload| < SEQ_NUM_SIZE
      case Damaged(src, dst, payload, crc) => |payload| < SEQ_NUM_SIZE && crc != CrcWord(payload)
      case Unfinished(src, dst, payload, n, escape) =>
        && |payload| < SEQ_NUM_SIZE && n < |payload| + 6
        && (escape ==> |StuffOctet(Body(src, dst, payload, CrcWord(payload))[n])| == 2)
    }

    function Octets(): seq<byte>
      requires Valid()
    {
      match this
      case Noise(octets) => octets
      case Framed(src, dst, payload) => Frame(src, dst, payload)
      case Damaged(src, dst, payload, crc) => [BEGIN_FLAG] + Stuff(Body(src, dst, payload, crc))
      case Unfinished(src, dst, payload, n, escape) =>
        Part(Body(src, dst, payload, CrcWord(payload)), n) + if escape then [ESC_FLAG] else []
    }

    /** A whole frame, damaged or not. */
    predicate IsFrame() {
      Framed? || Damaged?
    }

    /** The messages meant for the reader: the addressed, non-empty ones that fit. */
    function Expected(local: byte, limit: nat): seq<Returned> {
      match this
      case Noise(_) => []
      case Framed(src, dst, payload) => if dst == local && 0 < |payload| <= limit then [Returned(src, payload)] else []
      case Damaged(_, _, _, _) => []
      case Unfinished(_, _, _, _, _) => []
    }

    /** The reader is certain to see the begin flag of the next frame: an unfinished one has left it before
        the source address, in the payload, or not interested. */
    predicate Recovers(local: byte, limit: nat) {
      match this
      case Unfinished(src, dst, payload, n, _) =>
        n == 0 || (n >= 2 && dst != local) || (n >= 4 && (limit < |payload| || n < 4 + |payload|))
      case _ => true
    }
  }

  function Line(segments: seq<Segment>): seq<byte>
    requires forall s <- segments :: s.Valid()
  {
    if segments == [] then [] else segments[0].Octets() + Line(segments[1..])
  }

  /** A line on which the reader misses no begin flag: after an unfinished frame the next one comes. */
  ghost predicate IsLine(segments: seq<Segment>, local: byte, limit: nat) {
    && (forall s <- segments :: s.Valid() && s.Recovers(local, limit))
    && (forall i, j | 0 <= i && j == i + 1 && j < |segments| && segments[i].Unfinished? :: !segments[j].Noise?)
  }

  function ExpectedAll(segments: seq<Segment>, local: byte, limit: nat): seq<Returned> {
    if segments == [] then [] else segments[0].Expected(local, limit) + ExpectedAll(segments[1..], local, limit)
  }

  lemma Begun(r: Reader, local: byte, limit: nat, seen: bool)
    requires r.Sound()
    ensures Take(r, local, limit, seen, BEGIN_FLAG)
         == r.(state := if r.Restarts() || seen then ReadingSrcAddr else r.state, escaped := false)
  {
  }

  lemma FrameTaken(r: Reader, local: byte, limit: nat, seen: set<nat>, at: nat, src: byte, dst: byte,
                   payload: seq<byte>, crc: SeqNum)
    requires r.Sound() && (r.Restarts() || at in seen) && |payload| < SEQ_NUM_SIZE
    ensures var d := Decode(r, local, limit, seen, at, [BEGIN_FLAG] + Stuff(Body(src, dst, payload, crc)));
      d.Idle() && d.returned == r.returned + Yield(local, limit, src, dst, payload, crc)
  {
    var begun := r.(state := ReadingSrcAddr, escaped := false);
    var body := Body(src, dst, payload, crc);
    BodyTaken(r, local, limit, seen, at, body);
    BodyAccepted(begun, local, limit, src, dst, payload, crc);
  }

  /** A begin flag, and the octets behind it. */
  lemma BodyTaken(r: Reader, local: byte, limit: nat, seen: set<nat>, at: nat, body: seq<byte>)
    requires r.Sound()
    ensures var begun := r.(state := if r.Restarts() || at in seen then ReadingSrcAddr else r.state, escaped := false);
      var d := AcceptAll(begun, local, limit, body);
      Decode(r, local, limit, seen, at, [BEGIN_FLAG] + Stuff(body)) == d && !d.escaped
  {
    hide Decode;
    hide Take;
    hide Stuff;
    hide AcceptAll;
    hide Reader.Restarts;
    hide Reader.Sound;
    var begun := r.(state := if r.Restarts() || at in seen then ReadingSrcAddr else r.state, escaped := false);
    Begun(r, local, limit, at in seen);
    DecodeOne(r, local, limit, seen, at, BEGIN_FLAG);
    DecodeAppend(r, local, limit, seen, at, [BEGIN_FLAG], Stuff(body));
    StuffTaken(begun, local, limit, seen, at + 1, body);
  }

  /** The state of the reader after n octets of a frame. */
  function StateAfter(local: byte, limit: nat, dst: byte, length: nat, n: nat): State {
    if n == 0 then ReadingSrcAddr
    else if n == 1 then ReadingDstAddr
    else if dst != local then Uninitialized
    else if n == 2 then ReadingLenLsb
    else if n == 3 then ReadingLenMsb
    else if limit < length then Uninitialized
    else if n < 4 + length then ReadingPayload
    else if n == 4 + length then ReadingCrcLsb
    else if n == 5 + length then ReadingCrcMsb
    else Uninitialized
  }

  lemma HeaderPart(r: Reader, local: byte, limit: nat, src: byte, dst: byte, length: SeqNum, n: nat)
    requires r.state == ReadingSrcAddr && n <= 3
    ensures var h := AcceptAll(r, local, limit, ([src, dst] + Word16(length))[..n]);
      h.escaped == r.escaped && h.returned == r.returned && h.state == StateAfter(local, limit, dst, length, n)
  {
    hide AcceptAll;
    hide Word16;
    hide CrcWord;
    var lsb := length % 0x100;
    HeaderSlices(src, dst, length);
    AcceptNone(r, local, limit);
    AcceptOne(r, local, limit, src);
    AcceptTwo(r, local, limit, src, dst);
    AcceptAppend(r, local, limit, [src, dst], [lsb]);
    AcceptOne(AcceptAll(r, local, limit, [src, dst]), local, limit, lsb);
  }

  lemma HeaderSlices(src: byte, dst: byte, length: SeqNum)
    ensures var header := [src, dst] + Word16(length);
      && header[..0] == [] && header[..1] == [src] && header[..2] == [src, dst]
      && header[..3] == [src, dst] + [length % 0x100]
  {
  }

  lemma AcceptNone(r: Reader, local: byte, limit: nat)
    ensures AcceptAll(r, local, limit, []) == r
  {
  }

  lemma PayloadPart(r: Reader, local: byte, limit: nat, src: byte, dst: byte, payload: seq<byte>, k: nat)
    requires r.state == ReadingSrcAddr && k <= |payload| < SEQ_NUM_SIZE
    ensures var h := AcceptAll(r, local, limit, [src, dst] + Word16(|payload|) + payload[..k]);
      && h.escaped == r.escaped && h.returned == r.returned
      && h.state == StateAfter(local, limit, dst, |payload|, 4 + k)
  {
    hide Accept;
    var header := [src, dst] + Word16(|payload|);
    HeaderAccepted(r, local, limit, src, dst, |payload|);
    AcceptAppend(r, local, limit, header, payload[..k]);
    var h := AcceptAll(r, local, limit, header);
    if h.state == Uninitialized {
      NothingAccepted(h, local, limit, payload[..k]);
    } else if k > 0 {
      PayloadAccepted(h, local, limit, payload[..k]);
    } else {
      assert AcceptAll(h, local, limit, payload[..0]) == h;
    }
  }

  lemma CrcPart(r: Reader, local: byte, limit: nat, crc: byte)
    requires r.state == ReadingCrcLsb || r.state == Uninitialized
    ensures var c := AcceptAll(r, local, limit, [crc]);
      && c.escaped == r.escaped && c.returned == r.returned
      && c.state == if r.state == ReadingCrcLsb then ReadingCrcMsb else Uninitialized
  {
    AcceptOne(r, local, limit, crc);
  }

  lemma BodyPart(src: byte, dst: byte, payload: seq<byte>, crc: SeqNum, n: nat)
    requires n < |payload| + 6 && |payload| < SEQ_NUM_SIZE
    ensures var header := [src, dst] + Word16(|payload|);
      Body(src, dst, payload, crc)[..n]
      == if n <= 3 then header[..n]
         else if n <= 4 + |payload| then header + payload[..n - 4]
         else header + payload[..|payload|] + [crc % 0x100]
  {
  }

  lemma PartAccepted(r: Reader, local: byte, limit: nat, src: byte, dst: byte, payload: seq<byte>, crc: SeqNum, n: nat)
    requires r.state == ReadingSrcAddr && n < |payload| + 6 && |payload| < SEQ_NUM_SIZE
    ensures var h := AcceptAll(r, local, limit, Body(src, dst, payload, crc)[..n]);
      && h.escaped == r.escaped && h.returned == r.returned
      && h.state == StateAfter(local, limit, dst, |payload|, n)
  {
    hide AcceptAll;
    BodyPart(src, dst, payload, crc, n);
    if n <= 3 {
      HeaderPart(r, local, limit, src, dst, |payload|, n);
    } else {
      var k := if n <= 4 + |payload| then n - 4 else |payload|;
      PayloadPart(r, local, limit, src, dst, payload, k);
      if n == 5 + |payload| {
        var most := [src, dst] + Word16(|payload|) + payload[..k];
        AcceptAppend(r, local, limit, most, [crc % 0x100]);
        CrcPart(AcceptAll(r, local, limit, most), local, limit, crc % 0x100);
      }
    }
  }

  /** A frame that its writer did not finish makes the reader return nothing, and the begin flag of the next
      frame is certain to be seen exactly if the segment says so. */
  lemma UnfinishedTaken(r: Reader, local: byte, limit: nat, seen: set<nat>, at: nat, s: Segment)
    requires r.Restarts() && r.Sound() && s.Unfinished? && s.Valid()
    ensures var d := Decode(r, local, limit, seen, at, s.Octets());
      && d.Sound() && d.returned == r.returned && d.state == StateAfter(local, limit, s.dst, |s.payload|, s.n)
      && (d.Restarts() <==> s.Recovers(local, limit))
      && forall b :: Take(d, local, limit, b, BEGIN_FLAG).state == ReadingSrcAddr <==> b || s.Recovers(local, limit)
  {
    hide Decode;
    hide CrcWord;
    hide Take;
    hide Stuff;
    hide StateAfter;
    var begun := r.(state := ReadingSrcAddr, escaped := false);
    var body := Body(s.src, s.dst, s.payload, CrcWord(s.payload));
    BodyTaken(r, local, limit, seen, at, body[..s.n]);
    PartAccepted(begun, local, limit, s.src, s.dst, s.payload, CrcWord(s.payload), s.n);
    var h := AcceptAll(begun, local, limit, body[..s.n]);
    hide AcceptAll;
    if s.escape {
      var next := at + |Part(body, s.n)|;
      DecodeAppend(r, local, limit, seen, at, Part(body, s.n), [ESC_FLAG]);
      DecodeOne(h, local, limit, seen, next, ESC_FLAG);
      EscapeTaken(h, local, limit, next in seen);
    } else {
      assert Part(body, s.n) + [] == Part(body, s.n);
    }
    var d := Decode(r, local, limit, seen, at, s.Octets());
    RecoversIn(s, local, limit);
    Begun(d, local, limit, true);
    Begun(d, local, limit, false);
  }

  lemma EscapeTaken(r: Reader, local: byte, limit: nat, seen: bool)
    requires !r.escaped
    ensures Take(r, local, limit, seen, ESC_FLAG) == if r.state == Uninitialized then r else r.(escaped := true)
  {
  }

  lemma RecoversIn(s: Segment, local: byte, limit: nat)
    requires s.Unfinished? && s.Valid()
    ensures var state := StateAfter(local, limit, s.dst, |s.payload|, s.n);
      s.Recovers(local, limit) <==> state == Uninitialized || state == ReadingSrcAddr || state == ReadingPayload
  {
  }

  lemma SegmentTaken(r: Reader, local: byte, limit: nat, seen: set<nat>, at: nat, s: Segment)
    requires r.Restarts() && r.Sound() && (s.Noise? ==> r.Idle()) && s.Valid() && s.Recovers(local, limit)
    ensures var d := Decode(r, local, limit, seen, at, s.Octets());
      && d.Restarts() && d.Sound() && (!s.Unfinished? ==> d.Idle())
      && d.returned == r.returned + s.Expected(local, limit)
  {
    match s
    case Noise(octets) => NoiseTaken(r, local, limit, seen, at, octets);
    case Framed(src, dst, payload) => FrameTaken(r, local, limit, seen, at, src, dst, payload, CrcWord(payload));
    case Damaged(src, dst, payload, crc) => FrameTaken(r, local, limit, seen, at, src, dst, payload, crc);
    case Unfinished(_, _, _, _, _) => UnfinishedTaken(r, local, limit, seen, at, s);
  }

  /** Where a part of the stuffed octets ends. */
  lemma {:induction false} PartOfStuff(data: seq<byte>, k: nat) returns (n: nat, escape: bool)
    requires k < |Stuff(data)|
    ensures n < |data| && (escape ==> |StuffOctet(data[n])| == 2)
    ensures Stuff(data)[..k] == Stuff(data[..n]) + if escape then [ESC_FLAG] else []
  {
    hide Stuff;
    if data == [] {
      StuffNone();
      assert false;
    } else {
      var m := |data| - 1;
      var front := Stuff(data[..m]);
      StuffMore(data[..m], data[m]);
      assert data[..m] + [data[m]] == data;
      if k < |front| {
        n, escape := PartOfStuff(data[..m], k);
        assert data[..m][..n] == data[..n];
      } else {
        n, escape := m, k > |front|;
        PartOfOctet(front, data[m], k);
      }
    }
  }

  lemma PartOfOctet(front: seq<byte>, b: byte, k: nat)
    requires |front| <= k < |front + StuffOctet(b)|
    ensures (front + StuffOctet(b))[..k] == front + if k > |front| then [ESC_FLAG] else []
    ensures k > |front| ==> |StuffOctet(b)| == 2
  {
    if k > |front| {
      assert StuffOctet(b)[..k - |front|] == [ESC_FLAG];
    }
  }

  /** Any proper part of a frame is an unfinished one. */
  lemma PartOfFrame(src: byte, dst: byte, payload: seq<byte>, k: nat) returns (n: nat, escape: bool)
    requires |payload| < SEQ_NUM_SIZE && 0 < k < |Frame(src, dst, payload)|
    ensures Unfinished(src, dst, payload, n, escape).Valid()
    ensures Unfinished(src, dst, payload, n, escape).Octets() == Frame(src, dst, payload)[..k]
  {
    hide Stuff;
    hide StuffOctet;
    hide CrcWord;
    var body := Body(src, dst, payload, CrcWord(payload));
    n, escape := PartOfStuff(body, k - 1);
    assert ([BEGIN_FLAG] + Stuff(body))[..k] == [BEGIN_FLAG] + Stuff(body)[..k - 1];
  }

  /** A frame is damaged in this sense when one octet of its payload has been changed on the way, or
      its CRC word in any way. */
  lemma DamageShows(src: byte, dst: byte, sent: seq<byte>, payload: seq<byte>, k: nat, crc: SeqNum)
    requires |sent| < SEQ_NUM_SIZE
    ensures Crc16.DifferOnce(payload, sent, k) ==> Damaged(src, dst, payload, CrcWord(sent)).Valid()
    ensures crc != CrcWord(sent) ==> Damaged(src, dst, sent, crc).Valid()
  {
    if Crc16.DifferOnce(payload, sent, k) {
      Crc16.OneErrorDetected(payload, sent, k);
      CrcWordsDiffer(payload, sent);
    }
  }

  lemma CrcWordsDiffer(a: seq<byte>, b: seq<byte>)
    requires Crc16.Crc(a) != Crc16.Crc(b)
    ensures CrcWord(a) != CrcWord(b)
  {
    if CrcWord(a) == CrcWord(b) {
      Octets.WordBack(Crc16.Crc(a), Crc16.Crc(b));
    }
  }

  lemma LineTail(segments: seq<Segment>, local: byte, limit: nat)
    requires IsLine(segments, local, limit) && segments != []
    ensures IsLine(segments[1..], local, limit) && segments[0].Valid() && segments[0].Recovers(local, limit)
    ensures segments[0].Unfinished? && segments[1..] != [] ==> !segments[1..][0].Noise?
    ensures Line(segments) == segments[0].Octets() + Line(segments[1..])
  {
    hide Segment.Valid;
    hide Segment.Octets;
    hide Segment.Recovers;
    var rest := segments[1..];
    forall i, j | 0 <= i && j == i + 1 && j < |rest| && rest[i].Unfinished?
      ensures !rest[j].Noise?
    {
      assert rest[i] == segments[i + 1] && rest[j] == segments[j + 1];
    }
  }

  lemma LineValid(segments: seq<Segment>, local: byte, limit: nat)
    requires IsLine(segments, local, limit)
    ensures forall s <- segments :: s.Valid()
  {
  }

  /** Whatever is sent over the line, with noise, other readers' frames and unfinished ones in between, and
      whichever begin flags the code may forget, the reader returns exactly the messages that are meant for it,
      unchanged and in order. */
  lemma {:induction false} RoundTrip(r: Reader, local: byte, limit: nat, seen: set<nat>, at: nat, segments: seq<Segment>)
    requires IsLine(segments, local, limit)
    requires r.Sound() && (r.Idle() || (r.Restarts() && (segments != [] ==> !segments[0].Noise?)))
    ensures var d := Decode(r, local, limit, seen, at, Line(segments));
      && d.Restarts() && d.Sound() && d.returned == r.returned + ExpectedAll(segments, local, limit)
      && (segments != [] && !segments[|segments| - 1].Unfinished? ==> d.Idle())
    decreases |segments|
  {
    hide Segment.Valid;
    hide Segment.Recovers;
    hide Segment.Octets;
    hide Segment.Expected;
    hide Decode;
    hide IsLine;
    hide Line;
    LineValid(segments, local, limit);
    if segments == [] {
      EmptyLine();
      NoneTaken(r, local, limit, seen, at);
    } else {
      var s, rest := segments[0], segments[1..];
      LineTail(segments, local, limit);
      SegmentTaken(r, local, limit, seen, at, s);
      var next := at + |s.Octets()|;
      RoundTrip(Decode(r, local, limit, seen, at, s.Octets()), local, limit, seen, next, rest);
      DecodeAppend(r, local, limit, seen, at, s.Octets(), Line(rest));
      InOrder(r.returned, s.Expected(local, limit), ExpectedAll(rest, local, limit));
      if rest == [] {
        EmptyLine();
        NoneTaken(Decode(r, local, limit, seen, at, s.Octets()), local, limit, seen, next);
      }
    }
  }

  /** How many octets the header still needs. */
  function HeaderLeft(state: State): nat {
    match state
    case ReadingSrcAddr => 4
    case ReadingDstAddr => 3
    case ReadingLenLsb => 2
    case ReadingLenMsb => 1
    case _ => 0
  }

  lemma {:induction false} HeaderPassed(r: Reader, local: byte, limit: nat, data: seq<byte>)
    ensures |data| >= HeaderLeft(r.state) ==> HeaderLeft(AcceptAll(r, local, limit, data).state) == 0
    ensures HeaderLeft(AcceptAll(r, local, limit, data).state) + |data| <= HeaderLeft(r.state)
            || HeaderLeft(AcceptAll(r, local, limit, data).state) == 0
  {
    hide CrcWord;
    if data != [] {
      HeaderPassed(r, local, limit, data[..|data| - 1]);
    }
  }

  /** In the CRC two octets are enough, whatever they are. */
  lemma CrcPassed(r: Reader, local: byte, limit: nat, data: seq<byte>)
    requires r.state == ReadingCrcLsb || r.state == ReadingCrcMsb || r.state == Uninitialized
    requires |data| >= 2
    ensures AcceptAll(r, local, limit, data).state == Uninitialized
  {
    hide CrcWord;
    var a := Accept(r, local, limit, data[0]);
    var b := Accept(a, local, limit, data[1]);
    assert data == data[..2] + data[2..] && data[..2] == [data[0], data[1]];
    AcceptAppend(r, local, limit, data[..2], data[2..]);
    AcceptTwo(r, local, limit, data[0], data[1]);
    NothingAccepted(b, local, limit, data[2..]);
  }

  /** A whole frame brings the reader past any header that it is waiting for, and from there between frames. */
  lemma FramePassed(r: Reader, local: byte, limit: nat, seen: set<nat>, at: nat, s: Segment)
    requires r.Sound() && s.IsFrame() && s.Valid()
    ensures var d := Decode(r, local, limit, seen, at, s.Octets());
      d.Sound() && d.PastHeader() && (r.PastHeader() ==> d.Idle())
  {
    hide Decode;
    hide AcceptAll;
    hide CrcWord;
    var crc := if s.Framed? then CrcWord(s.payload) else s.crc;
    var body := Body(s.src, s.dst, s.payload, crc);
    if r.Restarts() || at in seen {
      FrameTaken(r, local, limit, seen, at, s.src, s.dst, s.payload, crc);
    } else {
      BodyTaken(r, local, limit, seen, at, body);
      var begun := r.(escaped := false);
      if r.PastHeader() {
        CrcPassed(begun, local, limit, body);
      } else {
        HeaderPassed(begun, local, limit, body);
      }
    }
  }

  /** Octets without a begin flag never lead back into a header. */
  lemma {:induction false} HeaderStaysPast(r: Reader, local: byte, limit: nat, seen: set<nat>, at: nat, octets: seq<byte>)
    requires r.PastHeader() && BEGIN_FLAG !in octets
    ensures Decode(r, local, limit, seen, at, octets).PastHeader()
  {
    hide Take;
    hide Reader.PastHeader;
    if octets != [] {
      var n := |octets| - 1;
      HeaderStaysPast(r, local, limit, seen, at, octets[..n]);
      TakePastHeader(Decode(r, local, limit, seen, at, octets[..n]), local, limit, at + n in seen, octets[n]);
    }
  }

  lemma {:induction false} StaysSound(r: Reader, local: byte, limit: nat, seen: set<nat>, at: nat, octets: seq<byte>)
    requires r.Sound()
    ensures Decode(r, local, limit, seen, at, octets).Sound()
  {
    hide Take;
    hide Reader.Sound;
    if octets != [] {
      var n := |octets| - 1;
      StaysSound(r, local, limit, seen, at, octets[..n]);
      TakeSound(Decode(r, local, limit, seen, at, octets[..n]), local, limit, at + n in seen, octets[n]);
    }
  }

  lemma TakeSound(r: Reader, local: byte, limit: nat, seen: bool, b: byte)
    requires r.Sound()
    ensures Take(r, local, limit, seen, b).Sound()
  {
    hide CrcWord;
    hide Toggle;
  }

  lemma TakePastHeader(r: Reader, local: byte, limit: nat, seen: bool, b: byte)
    requires r.PastHeader() && b != BEGIN_FLAG
    ensures Take(r, local, limit, seen, b).PastHeader()
  {
    hide CrcWord;
    hide Toggle;
  }

  /** Any octets, two frames with or without noise between them, and a line. */
  function Disturbed(octets: seq<byte>, first: Segment, noise: seq<byte>, second: Segment): seq<byte>
    requires first.Valid() && second.Valid()
  {
    octets + first.Octets() + noise + second.Octets()
  }

  /** Whatever has come over the line, and whichever begin flags have been forgotten: after two more frames
      the reader is in step again, and returns exactly what the rest of the line carries for it. */
  lemma InStepAgain(local: byte, limit: nat, seen: set<nat>, octets: seq<byte>, first: Segment, noise: seq<byte>,
                    second: Segment, rest: seq<Segment>)
    requires first.IsFrame() && first.Valid() && second.IsFrame() && second.Valid() && BEGIN_FLAG !in noise
    requires IsLine(rest, local, limit)
    ensures var front := Disturbed(octets, first, noise, second);
      && Decode(INITIAL, local, limit, seen, 0, front).Idle()
      && Decode(INITIAL, local, limit, seen, 0, front + Line(rest)).returned
         == Decode(INITIAL, local, limit, seen, 0, front).returned + ExpectedAll(rest, local, limit)
  {
    hide Decode;
    hide Segment.Octets;
    hide Segment.Valid;
    hide Segment.IsFrame;
    hide Line;
    hide IsLine;
    hide ExpectedAll;
    hide Reader.PastHeader;
    LineValid(rest, local, limit);
    var a := octets + first.Octets();
    var b := a + noise;
    var front := b + second.Octets();
    var r := Decode(INITIAL, local, limit, seen, 0, octets);
    StaysSound(INITIAL, local, limit, seen, 0, octets);
    DecodeAppend(INITIAL, local, limit, seen, 0, octets, first.Octets());
    FramePassed(r, local, limit, seen, |octets|, first);
    var p := Decode(INITIAL, local, limit, seen, 0, a);
    DecodeAppend(INITIAL, local, limit, seen, 0, a, noise);
    HeaderStaysPast(p, local, limit, seen, |a|, noise);
    StaysSound(p, local, limit, seen, |a|, noise);
    DecodeAppend(INITIAL, local, limit, seen, 0, b, second.Octets());
    FramePassed(Decode(INITIAL, local, limit, seen, 0, b), local, limit, seen, |b|, second);
    DecodeAppend(INITIAL, local, limit, seen, 0, front, Line(rest));
    RoundTrip(Decode(INITIAL, local, limit, seen, 0, front), local, limit, seen, |front|, rest);
  }

  /** A frame that comes behind one of which only the source address was sent is lost if its begin flag is
      forgotten: its own source address is taken for that of the reader. */
  lemma FrameLost(r: Reader, local: byte, limit: nat, seen: set<nat>, at: nat, cut: Segment, lost: Segment)
    requires r.Sound() && r.Restarts() && cut.Unfinished? && cut.n == 1 && cut.Valid()
    requires lost.Framed? && lost.Valid() && lost.src != local && at + |cut.Octets()| !in seen
    ensures var d := Decode(r, local, limit, seen, at, cut.Octets() + lost.Octets());
      d.Idle() && d.returned == r.returned
  {
    hide Decode;
    hide CrcWord;
    hide Segment.Octets;
    hide AcceptAll;
    UnfinishedTaken(r, local, limit, seen, at, cut);
    DecodeAppend(r, local, limit, seen, at, cut.Octets(), lost.Octets());
    var d := Decode(r, local, limit, seen, at, cut.Octets());
    ForeignTaken(d, local, limit, seen, at + |cut.Octets()|, lost);
  }

  lemma ForeignTaken(r: Reader, local: byte, limit: nat, seen: set<nat>, at: nat, lost: Segment)
    requires r.state == ReadingDstAddr && lost.Framed? && lost.Valid() && lost.src != local && at !in seen
    ensures var d := Decode(r, local, limit, seen, at, lost.Octets()); d.Idle() && d.returned == r.returned
  {
    hide Decode;
    hide CrcWord;
    hide AcceptAll;
    var begun := r.(escaped := false);
    var body := Body(lost.src, lost.dst, lost.payload, CrcWord(lost.payload));
    BodyTaken(r, local, limit, seen, at, body);
    assert body == [lost.src] + body[1..];
    AcceptAppend(begun, local, limit, [lost.src], body[1..]);
    AcceptOne(begun, local, limit, lost.src);
    NothingAccepted(Accept(begun, local, limit, lost.src), local, limit, body[1..]);
  }

  /** Two frames are not too many: a frame that stops inside its length may take the octets of the next one
      for a payload that ends with it, and then those of the one after it for the CRC. */
  lemma TwoLost(local: byte, limit: nat, cut: Segment, first: Segment, second: Segment)
    requires cut.Unfinished? && cut.Valid() && cut.n == 3 && cut.dst == local
    requires first.Framed? && first.Valid() && second.Framed? && second.Valid()
    requires first.src == 0 && |cut.payload| == |first.payload| + 5 < 0x100 && |cut.payload| <= limit
    requires second.src + 0x100 * second.dst
             != CrcWord(Body(first.src, first.dst, first.payload, CrcWord(first.payload))[1..])
    ensures var d := Decode(INITIAL, local, limit, {}, 0, cut.Octets() + first.Octets() + second.Octets());
      d.Idle() && d.returned == []
  {
    hide Decode;
    hide CrcWord;
    hide Segment.Octets;
    hide AcceptAll;
    var a, b := cut.Octets(), cut.Octets() + first.Octets();
    LengthHalf(INITIAL, local, limit, {}, 0, cut);
    var r := Decode(INITIAL, local, limit, {}, 0, a);
    DecodeAppend(INITIAL, local, limit, {}, 0, a, first.Octets());
    TakenForPayload(r, local, limit, {}, |a|, first);
    DecodeAppend(INITIAL, local, limit, {}, 0, b, second.Octets());
    TakenForCrc(Decode(INITIAL, local, limit, {}, 0, b), local, limit, {}, |b|, second);
  }

  /** A frame that stops inside its length. */
  lemma LengthHalf(r: Reader, local: byte, limit: nat, seen: set<nat>, at: nat, s: Segment)
    requires r.Idle() && s.Unfinished? && s.Valid() && s.n == 3 && s.dst == local
    ensures var d := Decode(r, local, limit, seen, at, s.Octets());
      d.state == ReadingLenMsb && d.msgLen == |s.payload| % 0x100 && d.returned == r.returned
  {
    hide Decode;
    hide CrcWord;
    hide Take;
    hide Stuff;
    hide AcceptAll;
    var begun := r.(state := ReadingSrcAddr, escaped := false);
    var body, lsb := Body(s.src, s.dst, s.payload, CrcWord(s.payload)), |s.payload| % 0x100;
    BodyTaken(r, local, limit, seen, at, body[..3]);
    assert body[..3] == [s.src, s.dst] + [lsb];
    AcceptAppend(begun, local, limit, [s.src, s.dst], [lsb]);
    AcceptTwo(begun, local, limit, s.src, s.dst);
    AcceptOne(Accept(Accept(begun, local, limit, s.src), local, limit, s.dst), local, limit, lsb);
    var h := AcceptAll(begun, local, limit, body[..3]);
    if s.escape {
      var next := at + |Part(body, 3)|;
      DecodeAppend(r, local, limit, seen, at, Part(body, 3), [ESC_FLAG]);
      DecodeOne(h, local, limit, seen, next, ESC_FLAG);
      EscapeTaken(h, local, limit, next in seen);
    } else {
      assert Part(body, 3) + [] == Part(body, 3);
    }
  }

  lemma TakenForPayload(r: Reader, local: byte, limit: nat, seen: set<nat>, at: nat, s: Segment)
    requires r.state == ReadingLenMsb && s.Framed? && s.Valid() && s.src == 0 && at !in seen
    requires r.msgLen == |s.payload| + 5 <= limit
    ensures var d := Decode(r, local, limit, seen, at, s.Octets());
      && d.state == ReadingCrcLsb && d.returned == r.returned
      && d.msg == Body(s.src, s.dst, s.payload, CrcWord(s.payload))[1..]
  {
    hide Decode;
    hide CrcWord;
    hide AcceptAll;
    var begun := r.(escaped := false);
    var body := Body(s.src, s.dst, s.payload, CrcWord(s.payload));
    BodyTaken(r, local, limit, seen, at, body);
    assert body == [s.src] + body[1..];
    AcceptAppend(begun, local, limit, [s.src], body[1..]);
    AcceptOne(begun, local, limit, s.src);
    PayloadAccepted(Accept(begun, local, limit, s.src), local, limit, body[1..]);
  }

  lemma TakenForCrc(r: Reader, local: byte, limit: nat, seen: set<nat>, at: nat, s: Segment)
    requires r.state == ReadingCrcLsb && s.Framed? && s.Valid() && at !in seen
    requires s.src + 0x100 * s.dst != CrcWord(r.msg)
    ensures var d := Decode(r, local, limit, seen, at, s.Octets()); d.Idle() && d.returned == r.returned
  {
    hide Decode;
    hide CrcWord;
    hide AcceptAll;
    var begun := r.(escaped := false);
    var body := Body(s.src, s.dst, s.payload, CrcWord(s.payload));
    BodyTaken(r, local, limit, seen, at, body);
    assert body == [s.src, s.dst] + body[2..] && Word16(s.src + 0x100 * s.dst) == [s.src, s.dst];
    AcceptAppend(begun, local, limit, [s.src, s.dst], body[2..]);
    CrcAccepted(begun, local, limit, s.src + 0x100 * s.dst);
    NothingAccepted(AcceptAll(begun, local, limit, [s.src, s.dst]), local, limit, body[2..]);
  }

  lemma EmptyLine()
    ensures Line([]) == []
  {
  }

  lemma NoneTaken(r: Reader, local: byte, limit: nat, seen: set<nat>, at: nat)
    ensures Decode(r, local, limit, seen, at, []) == r && r.returned + [] == r.returned
  {
  }

  lemma InOrder(a: seq<Returned>, b: seq<Returned>, c: seq<Returned>)
    ensures a + b + c == a + (b + c)
  {
  }
}
