/** The reader of the stream framing protocol: a ring of 42 octets, and a state machine that stops
    and resumes wherever the transport has nothing more to give. */
module FramingReader {
  import opened SeqNum
  import opened Framing
  import Crc16

  const RING_SIZE := 42

  /** The transport underneath: it gives some of the octets that wait, at most as many as asked for.
      A steady one gives at least one while there are any. */
  class ByteSource {
    const steady: bool
    var pending: seq<byte>
    var script: seq<nat>

    /** How often it was asked and gave nothing, and how often less than it was asked for. */
    ghost var dry: nat
    ghost var short: nat

    constructor (pending: seq<byte>, script: seq<nat>, steady: bool)
      ensures this.pending == pending && this.steady == steady && dry == short == 0
    {
      this.pending, this.script, this.steady, dry, short := pending, script, steady, 0, 0;
    }

    method Read(n: nat) returns (data: seq<byte>)
      modifies this
      ensures |data| <= n && old(pending) == data + pending
      ensures dry == if data == [] then old(dry) + 1 else old(dry)
      ensures short == if |data| < n then old(short) + 1 else old(short)
      ensures steady && 0 < n && old(pending) != [] ==> data != []
    {
      var k := if script == [] then 0 else script[0];
      k := if steady && k == 0 then 1 else k;
      k := if k < n then k else n;
      k := if k < |pending| then k else |pending|;
      data := pending[..k];
      pending := pending[k..];
      if script != [] {
        script := script[1..];
      }
      if data == [] {
        dry := dry + 1;
      }
      if |data| < n {
        short := short + 1;
      }
    }
  }

  /** What uxr_get_next_octet finds at the front of the ring, and how many octets that takes. */
  datatype Token = Nothing | Flag(n: nat) | Value(b: byte, n: nat)

  function NextToken(u: seq<byte>): (t: Token)
    ensures t.Flag? ==> 0 < t.n <= |u|
    ensures t.Value? ==> 0 < t.n <= |u|
    ensures t.Nothing? ==> |u| <= 1
  {
    if u == [] then Nothing
    else if u[0] != ESC_FLAG then if u[0] == BEGIN_FLAG then Flag(1) else Value(u[0], 1)
    else if |u| == 1 then Nothing
    else if u[1] == BEGIN_FLAG then Flag(2) else Value(Toggle(u[1]), 2)
  }

  /** The octets, at most n, that come before a flag or the end of what is in the ring. */
  function Unstuffed(u: seq<byte>, n: nat): seq<byte>
    decreases n
  {
    var t := NextToken(u);
    if n == 0 || !t.Value? then [] else [t.b] + Unstuffed(u[t.n..], n - 1)
  }

  function Width(t: Token): nat {
    match t
    case Nothing => 0
    case Flag(n) => n
    case Value(_, n) => n
  }

  function OctetOf(t: Token): byte {
    match t
    case Nothing => 0
    case Flag(_) => BEGIN_FLAG
    case Value(b, _) => b
  }

  /** The reader after an octet, a begin flag, or nothing. */
  function AfterOctet(v: Reader, local: byte, limit: nat, rv: bool, octet: byte, seen: bool): Reader {
    if rv then Accept(v, local, limit, octet)
    else if octet == BEGIN_FLAG then Flagged(v, seen)
    else v
  }

  lemma NotAFlag(v: Reader, local: byte, limit: nat, rv: bool, octet: byte)
    requires rv || octet != BEGIN_FLAG
    ensures AfterOctet(v, local, limit, rv, octet, true) == AfterOctet(v, local, limit, rv, octet, false)
  {
  }

  lemma TokenTaken(r: Reader, local: byte, limit: nat, seen: set<nat>, at: nat, u: seq<byte>)
    requires !r.escaped && r.state != Uninitialized
    ensures var t := NextToken(u);
      Decode(r, local, limit, seen, at, u[..Width(t)])
      == AfterOctet(r, local, limit, t.Value?, OctetOf(t), at + Width(t) - 1 in seen)
  {
    var t := NextToken(u);
    if Width(t) == 1 {
      assert u[..1] == [u[0]];
      DecodeOne(r, local, limit, seen, at, u[0]);
    } else if Width(t) == 2 {
      assert u[..2] == [u[0], u[1]];
      DecodeTwo(r, local, limit, seen, at, u[0], u[1]);
    }
  }

  /** Only the places of the octets matter. */
  lemma {:induction false} SamePlaces(r: Reader, local: byte, limit: nat, seen: set<nat>, more: set<nat>, octets: seq<byte>)
    requires forall k | 0 <= k < |octets| :: k in seen <==> k in more
    ensures Decode(r, local, limit, seen, 0, octets) == Decode(r, local, limit, more, 0, octets)
  {
    hide Take;
    if octets != [] {
      SamePlaces(r, local, limit, seen, more, octets[..|octets| - 1]);
    }
  }

  /** A begin flag that turns out to have been seen. */
  lemma FlagSeen(local: byte, limit: nat, seen: set<nat>, taken: seq<byte>, u: seq<byte>)
    requires (forall k <- seen :: k < |taken|) && NextToken(u).Flag?
    requires var r := Decode(INITIAL, local, limit, seen, 0, taken); !r.escaped && r.state != Uninitialized
    ensures var now := taken + u[..Width(NextToken(u))];
      Decode(INITIAL, local, limit, seen + {|now| - 1}, 0, now)
      == AfterOctet(Decode(INITIAL, local, limit, seen, 0, taken), local, limit, false, BEGIN_FLAG, true)
  {
    hide Decode;
    hide AfterOctet;
    var part := u[..Width(NextToken(u))];
    var more := seen + {|taken + part| - 1};
    SamePlaces(INITIAL, local, limit, seen, more, taken);
    DecodeAppend(INITIAL, local, limit, more, 0, taken, part);
    TokenTaken(Decode(INITIAL, local, limit, seen, 0, taken), local, limit, more, |taken|, u);
  }

  /** On a transport that gives something whenever it has something, the begin flags that have newly been seen
      are so near the end of the line that all octets behind them were in the ring. */
  ghost predicate SeenLate(before: set<nat>, now: set<nat>, steady: bool, total: nat) {
    steady ==> forall k <- now :: k in before || total < k + RING_SIZE
  }

  lemma SeenLater(a: set<nat>, b: set<nat>, c: set<nat>, steady: bool, total: nat)
    requires SeenLate(a, b, steady, total) && SeenLate(b, c, steady, total)
    ensures SeenLate(a, c, steady, total)
  {
  }

  /** What has been returned stays so. */
  lemma {:induction false} DecodeGrows(r: Reader, local: byte, limit: nat, seen: set<nat>, at: nat, octets: seq<byte>)
    ensures r.returned <= Decode(r, local, limit, seen, at, octets).returned
  {
    hide Take;
    if octets != [] {
      var n := |octets| - 1;
      var d := Decode(r, local, limit, seen, at, octets[..n]);
      DecodeGrows(r, local, limit, seen, at, octets[..n]);
      TakeGrows(d, local, limit, at + n in seen, octets[n]);
      PrefixTwice(r.returned, d.returned, Decode(r, local, limit, seen, at, octets).returned);
    }
  }

  lemma TakeGrows(r: Reader, local: byte, limit: nat, seen: bool, b: byte)
    ensures r.returned <= Take(r, local, limit, seen, b).returned
  {
  }

  lemma PrefixTwice(a: seq<Returned>, b: seq<Returned>, c: seq<Returned>)
    requires a <= b <= c
    ensures a <= c
  {
  }

  /** The fields of the reader, with the octets in the caller's buffer and the messages returned. */
  datatype Fields = Fields(state: State, src: byte, len: nat, pos: nat, crc: nat, cmpCrc: bv16, buf: seq<byte>,
                           returned: seq<Returned>)

  predicate InMessage(state: State) {
    state == ReadingPayload || state == ReadingCrcLsb || state == ReadingCrcMsb
  }

  /** The fields say what the octets taken so far mean. */
  ghost predicate Means(f: Fields, v: Reader) {
    && (InMessage(f.state) ==> f.pos <= f.len <= |f.buf| && f.cmpCrc == Crc16.Crc(f.buf[..f.pos]))
    && (f.state == ReadingCrcLsb || f.state == ReadingCrcMsb ==> f.pos == f.len)
    && (f.state == ReadingLenMsb ==> f.len < 0x100)
    && (f.state == ReadingCrcMsb ==> f.crc < 0x100)
    && !v.escaped && v.returned == f.returned
    && v.state == (if f.state == ReadingPayload && f.pos == f.len then ReadingCrcLsb else f.state)
    && (f.state != Uninitialized && f.state != ReadingSrcAddr ==> v.src == f.src)
    && (f.state == ReadingLenMsb ==> v.msgLen == f.len)
    && (InMessage(f.state) ==> v.msgLen == f.len && v.msg == f.buf[..f.pos])
    && (f.state == ReadingCrcMsb ==> v.msgCrc == f.crc)
  }

  /** What the code does with an octet that is a part of the header, or of the CRC. */
  function AfterField(f: Fields, local: byte, octet: byte): Fields {
    match f.state
    case ReadingSrcAddr => f.(src := octet, state := ReadingDstAddr)
    case ReadingDstAddr => f.(state := if octet == local then ReadingLenLsb else Uninitialized)
    case ReadingLenLsb => f.(len := octet, state := ReadingLenMsb)
    case ReadingLenMsb =>
      var n := f.len + 0x100 * octet as int;
      f.(len := n, pos := 0, cmpCrc := 0, state := if |f.buf| < n then Uninitialized else ReadingPayload)
    case ReadingCrcLsb => f.(crc := octet, state := ReadingCrcMsb)
    case ReadingCrcMsb =>
      var crc := f.crc + 0x100 * octet as int;
      f.(crc := crc, state := Uninitialized,
         returned := if CrcNumber(f.cmpCrc) == crc && 0 < f.len <= |f.buf|
                     then f.returned + [Returned(f.src, f.buf[..f.len])] else f.returned)
    case _ => f
  }

  lemma FieldMeans(f: Fields, v: Reader, local: byte, octet: byte, seen: bool)
    requires Means(f, v) && f.state != Uninitialized && f.state != ReadingPayload
    ensures Means(AfterField(f, local, octet), AfterOctet(v, local, |f.buf|, true, octet, seen))
  {
    hide Crc16.Update;
    hide CrcNumber;
    assert Crc16.Crc([]) == 0;
    assert f.buf[..0] == [];
  }

  /** Between frames only a begin flag matters. */
  lemma SkipMeans(f: Fields, v: Reader, local: byte, seen: bool, octet: byte)
    requires Means(f, v) && f.state == Uninitialized
    ensures Means(if octet == BEGIN_FLAG then f.(state := ReadingSrcAddr) else f, Take(v, local, |f.buf|, seen, octet))
  {
    hide Crc16.Crc;
  }

  /** A begin flag inside a frame, if it is not forgotten, starts a new one. */
  lemma FlagMeans(f: Fields, v: Reader, local: byte, seen: bool)
    requires Means(f, v) && f.state != Uninitialized && (f.state == ReadingPayload ==> f.pos < f.len)
    requires f.state == ReadingSrcAddr || f.state == ReadingPayload || seen
    ensures Means(f.(state := ReadingSrcAddr), AfterOctet(v, local, |f.buf|, false, BEGIN_FLAG, seen))
  {
    hide Crc16.Crc;
  }

  /** Without an octet nothing changes; a begin flag that is forgotten leaves the fields alone. */
  lemma WaitMeans(f: Fields, v: Reader, local: byte, octet: byte, seen: bool)
    requires Means(f, v) && f.state != Uninitialized && (octet == BEGIN_FLAG ==> f.state != ReadingPayload && !seen)
    ensures Means(f, AfterOctet(v, local, |f.buf|, false, octet, seen))
  {
    hide Crc16.Crc;
  }

  /** What the cases that wait for one octet find. */
  lemma OctetMeans(f: Fields, v: Reader, local: byte, rv: bool, octet: byte, more: bool)
    requires Means(f, v) && f.state != Uninitialized && f.state != ReadingPayload
    ensures var w := AfterOctet(v, local, |f.buf|, rv, octet, !more);
      if rv then Means(AfterField(f, local, octet), w)
      else if octet == BEGIN_FLAG && !more then Means(f.(state := ReadingSrcAddr), w)
      else Means(f, w)
  {
    hide Means;
    hide AfterField;
    hide AfterOctet;
    if rv {
      FieldMeans(f, v, local, octet, !more);
    } else if octet == BEGIN_FLAG && !more {
      FlagMeans(f, v, local, true);
    } else {
      WaitMeans(f, v, local, octet, !more);
    }
  }

  /** Until there is an octet the source address does not matter. */
  lemma SrcMeans(f: Fields, v: Reader, octet: byte)
    requires f.state == ReadingSrcAddr && Means(f, v)
    ensures Means(f.(src := octet), v)
  {
    hide Crc16.Crc;
  }

  lemma PayloadDone(f: Fields, v: Reader)
    requires Means(f, v) && f.state == ReadingPayload && f.pos == f.len
    ensures Means(f.(state := ReadingCrcLsb), v)
  {
    hide Crc16.Crc;
  }

  lemma PayloadMeans(f: Fields, v: Reader, local: byte, octet: byte)
    requires Means(f, v) && f.state == ReadingPayload && f.pos < f.len
    ensures f.pos < |f.buf|
    ensures Means(f.(buf := f.buf[f.pos := octet], pos := f.pos + 1, cmpCrc := Crc16.Update(f.cmpCrc, octet)),
                  AfterOctet(v, local, |f.buf|, true, octet, false))
  {
    hide Crc16.Update;
    hide Crc16.Crc;
    assert f.buf[f.pos := octet][..f.pos + 1] == f.buf[..f.pos] + [octet];
    CrcAppended(f.buf[..f.pos], octet);
  }

  /** What the fields are known to be, whatever the octets mean. */
  lemma FieldBounds(f: Fields, v: Reader)
    requires Means(f, v)
    ensures InMessage(f.state) ==> f.pos <= f.len <= |f.buf| && f.cmpCrc == Crc16.Crc(f.buf[..f.pos])
    ensures f.state == ReadingCrcLsb || f.state == ReadingCrcMsb ==> f.pos == f.len
    ensures f.state == ReadingLenMsb ==> f.len < 0x100
    ensures f.state == ReadingCrcMsb ==> f.crc < 0x100
    ensures !v.escaped && v.returned == f.returned && (f.state != Uninitialized ==> v.state != Uninitialized)
  {
  }

  class FramingReader {
    const rb: array<byte>
    const buf: array<byte>
    const localAddr: byte
    var rbHead: nat
    var rbTail: nat
    var state: State
    var srcAddr: byte
    var msgLen: nat
    var msgPos: nat
    var msgCrc: nat
    var cmpCrc: bv16

    /** The octets taken from the ring, the places of begin flags that were not forgotten, what all that
        means, and the messages returned. */
    ghost var taken: seq<byte>
    ghost var seen: set<nat>
    ghost var view: Reader
    ghost var returned: seq<Returned>

    ghost predicate Ring()
      reads this`rbHead, this`rbTail
    {
      rb.Length == RING_SIZE && rb != buf && rbHead < RING_SIZE && rbTail < RING_SIZE
    }

    /** The octets of the ring that have not been taken. */
    ghost function Unread(): (u: seq<byte>)
      requires Ring()
      reads this`rbHead, this`rbTail, rb
      ensures |u| < RING_SIZE
    {
      Contents(rb[..], rbTail, rbHead)
    }

    ghost function Now(): Fields
      reads this`state, this`srcAddr, this`msgLen, this`msgPos, this`msgCrc, this`cmpCrc, this`returned, buf
    {
      Fields(state, srcAddr, msgLen, msgPos, msgCrc, cmpCrc, buf[..], returned)
    }

    /** The view is what has been taken. */
    ghost predicate Heard()
      reads this`taken, this`seen, this`view
    {
      (forall k <- seen :: k < |taken|) && view == Decode(INITIAL, localAddr, buf.Length, seen, 0, taken)
    }

    ghost predicate Valid()
      reads this, rb, buf
    {
      Ring() && Means(Now(), view) && Heard()
    }

    /** uxr_init_framing_io. */
    constructor (localAddr: byte, buf: array<byte>)
      ensures Valid() && Unread() == [] && taken == [] && seen == {} && returned == []
      ensures this.localAddr == localAddr && this.buf == buf && fresh(rb)
    {
      rb := new byte[RING_SIZE];
      this.buf, this.localAddr := buf, localAddr;
      state, rbHead, rbTail := Uninitialized, 0, 0;
      srcAddr, msgLen, msgPos, msgCrc, cmpCrc := 0, 0, 0, 0, 0;
      taken, seen, view, returned := [], {}, INITIAL, [];
    }

    /** Taking n octets from the front of the ring. */
    method Drop(n: nat)
      requires Ring() && n <= |Unread()| && Heard()
      modifies this`rbTail, this`taken, this`view
      ensures Ring() && Unread() == old(Unread())[n..] && taken == old(taken) + old(Unread())[..n] && Heard()
      ensures view == Decode(old(view), localAddr, buf.Length, seen, |old(taken)|, old(Unread())[..n])
    {
      hide Decode;
      hide Contents;
      ghost var u := Unread();
      UnreadFrom(n);
      DecodeAppend(INITIAL, localAddr, buf.Length, seen, 0, taken, u[..n]);
      rbTail := (rbTail + n) % RING_SIZE;
      view := Decode(view, localAddr, buf.Length, seen, |taken|, u[..n]);
      taken := taken + u[..n];
    }

    lemma UnreadFrom(n: nat)
      requires Ring() && n <= |Unread()|
      ensures Unread()[n..] == Contents(rb[..], (rbTail + n) % RING_SIZE, rbHead)
    {
      hide Contents;
      ContentsFrom(rb[..], rbTail, rbHead, n);
    }

    lemma UnreadLength()
      requires Ring()
      ensures |Unread()| == 0 <==> rbHead == rbTail
      ensures |Unread()| == 1 <==> (rbTail + 1) % RING_SIZE == rbHead
      ensures |Unread()| > 0 ==> Unread()[0] == rb[rbTail]
      ensures |Unread()| > 1 ==> Unread()[1] == rb[(rbTail + 1) % RING_SIZE]
    {
    }

    /** What taking the next token means for the reader. */
    lemma TokenMeaning(before: Reader, u: seq<byte>)
      requires !before.escaped && before.state != Uninitialized && (forall k <- seen :: k < |taken|)
      ensures var t := NextToken(u);
        Decode(before, localAddr, buf.Length, seen, |taken|, u[..Width(t)])
        == AfterOctet(before, localAddr, buf.Length, t.Value?, OctetOf(t), false)
    {
      hide Decode;
      TokenTaken(before, localAddr, buf.Length, seen, |taken|, u);
    }

    /** uxr_get_next_octet. */
    method GetNextOctet() returns (rv: bool, octet: byte)
      requires Ring() && Heard()
      modifies this`rbTail, this`taken, this`view
      ensures Ring() && Heard()
      ensures var t := NextToken(old(Unread()));
        && Unread() == old(Unread())[Width(t)..] && taken == old(taken) + old(Unread())[..Width(t)]
        && rv == t.Value? && octet == OctetOf(t)
        && (!old(view).escaped && old(view).state != Uninitialized ==>
              view == AfterOctet(old(view), localAddr, buf.Length, rv, octet, false))
    {
      hide Decode;
      hide Unread;
      hide Toggle;
      rv, octet := false, 0;
      UnreadLength();
      hide AfterOctet;
      if !view.escaped && view.state != Uninitialized {
        TokenMeaning(view, Unread());
      }
      NoneTaken(view, localAddr, buf.Length, seen, |taken|);
      assert Unread()[0..] == Unread() && Unread()[..0] == [] && taken + [] == taken;
      if rbHead != rbTail {
        if ESC_FLAG != rb[rbTail] {
          octet := rb[rbTail];
          Drop(1);
          rv := BEGIN_FLAG != octet;
        } else {
          var tempTail := (rbTail + 1) % RING_SIZE;
          if tempTail != rbHead {
            octet := rb[tempTail];
            Drop(2);
            if BEGIN_FLAG != octet {
              octet := Toggle(octet);
              rv := true;
            }
          }
        }
      }
    }

    /** Octets are read into the ring at its head. */
    method Fill(source: ByteSource, n: nat) returns (got: seq<byte>)
      requires Ring() && 0 < n && rbHead + n <= RING_SIZE
      requires if rbTail <= rbHead then rbTail == 0 ==> rbHead + n < RING_SIZE else rbHead + n < rbTail
      modifies this`rbHead, rb, source
      ensures Ring() && |got| <= n && old(source.pending) == got + source.pending
      ensures Unread() == old(Unread()) + got
      ensures rbHead == (old(rbHead) + |got|) % RING_SIZE
      ensures source.dry == (if got == [] then old(source.dry) + 1 else old(source.dry))
      ensures source.short == (if |got| < n then old(source.short) + 1 else old(source.short))
      ensures source.steady && old(source.pending) != [] ==> got != []
    {
      hide Contents;
      got := source.Read(n);
      ghost var was := rb[..];
      forall i | 0 <= i < |got| {
        rb[rbHead + i] := got[i];
      }
      assert forall i | 0 <= i < RING_SIZE && !(rbHead <= i < rbHead + |got|) :: rb[i] == was[i];
      assert rb[rbHead..rbHead + |got|] == got;
      FillAt(was, rb[..], rbTail, rbHead, got);
      rbHead := (rbHead + |got|) % RING_SIZE;
    }

    /** uxr_framing_read_transport: what the transport gives is appended to the ring. */
    method ReadTransport(source: ByteSource, maxSize: nat) returns (n: nat)
      requires Ring() && 0 < maxSize
      modifies this`rbHead, this`rbTail, rb, source
      ensures Ring() && n <= maxSize && n <= |old(source.pending)|
      ensures source.pending == old(source.pending)[n..] && Unread() == old(Unread()) + old(source.pending)[..n]
      ensures source.dry >= old(source.dry) && source.short >= old(source.short)
      ensures source.short == old(source.short) ==>
        n == if maxSize < RING_SIZE - 1 - |old(Unread())| then maxSize else RING_SIZE - 1 - |old(Unread())|
      ensures n == 0 && |old(Unread())| < RING_SIZE - 1 ==>
        source.dry > old(source.dry) && (source.steady ==> source.pending == [])
    {
      hide Unread;
      RoomLeft();
      var avLen0, avLen1 := 0, 0;
      if rbHead == rbTail {
        EmptyRing();
        rbHead, rbTail := 0, 0;
        EmptyRing();
        avLen0 := RING_SIZE - 1;
      } else if rbHead > rbTail {
        if 0 < rbTail {
          avLen0, avLen1 := RING_SIZE - rbHead, rbTail - 1;
        } else {
          avLen0 := RING_SIZE - rbHead - 1;
        }
      } else {
        avLen0 := rbTail - rbHead - 1;
      }
      if maxSize < avLen0 {
        avLen0, avLen1 := maxSize, 0;
      } else if maxSize < avLen0 + avLen1 {
        avLen1 := maxSize - avLen0;
      }
      ghost var pending, unread := source.pending, Unread();
      n := 0;
      if 0 < avLen0 {
        var got := Fill(source, avLen0);
        n := |got|;
        assert got == pending[..n] && source.pending == pending[n..];
        if 0 < |got| {
          if |got| == avLen0 && 0 < avLen1 {
            var more := Fill(source, avLen1);
            n := |got| + |more|;
            assert got + more == pending[..n] && source.pending == pending[n..];
            assert unread + got + more == unread + (got + more);
          }
        }
      }
      assert n == 0 ==> pending[..0] == [] && unread + [] == unread && pending[0..] == pending;
    }

    lemma RoomLeft()
      requires Ring()
      ensures |Unread()| < RING_SIZE - 1 && rbHead > rbTail == 0 ==> 1 < RING_SIZE - rbHead
      ensures |Unread()| < RING_SIZE - 1 && rbHead < rbTail ==> 1 < rbTail - rbHead
      ensures |Unread()| == if rbTail <= rbHead then rbHead - rbTail else RING_SIZE - rbTail + rbHead
    {
    }

    lemma EmptyRing()
      requires Ring() && rbHead == rbTail
      ensures Unread() == []
    {
    }

    /** Everything that has come or is still to come over the line. */
    ghost function Stream(source: ByteSource): seq<byte>
      requires Ring()
      reads this`rbHead, this`rbTail, this`taken, rb, source
    {
      taken + Unread() + source.pending
    }

    lemma StreamKept(source: ByteSource, t: seq<byte>, u: seq<byte>, p: seq<byte>, w: nat, n: nat)
      requires Ring() && w <= |u| && n <= |p|
      requires taken == t + u[..w] && Unread() == u[w..] + p[..n] && source.pending == p[n..]
      ensures Stream(source) == t + u + p
    {
      assert u == u[..w] + u[w..] && p == p[..n] + p[n..];
    }

    ghost predicate Consistent()
      reads this, rb, buf
    {
      Ring() && Heard()
    }

    /** The case UXR_FRAMING_UNINITIALIZED: octets up to a begin flag are passed over. */
    method SkipToFlag() returns (exitCond: bool)
      requires Valid() && state == Uninitialized
      modifies this`rbTail, this`taken, this`view, this`state
      ensures Valid() && |Unread()| <= |old(Unread())| && taken + Unread() == old(taken + Unread())
      ensures if exitCond then Unread() == [] && state == Uninitialized
              else |Unread()| < |old(Unread())| && state == ReadingSrcAddr
    {
      hide Decode;
      hide Unread;
      hide Means;
      hide Take;
      var octet: byte := 0;
      ghost var f := Now();
      UnreadLength();
      while BEGIN_FLAG != octet && rbHead != rbTail
        invariant Now() == f && Consistent()
        invariant Means(if octet == BEGIN_FLAG then f.(state := ReadingSrcAddr) else f, view)
        invariant |Unread()| <= |old(Unread())| && taken + Unread() == old(taken + Unread())
        invariant octet == BEGIN_FLAG ==> |Unread()| < |old(Unread())|
        invariant rbHead == rbTail <==> Unread() == []
        decreases |Unread()|
      {
        octet := SkipOctet();
      }
      exitCond := BEGIN_FLAG != octet;
      if !exitCond {
        state := ReadingSrcAddr;
        assert Now() == f.(state := ReadingSrcAddr);
      }
    }

    /** One octet between frames. */
    method SkipOctet() returns (octet: byte)
      requires Consistent() && Means(Now(), view) && state == Uninitialized && rbHead != rbTail
      modifies this`rbTail, this`taken, this`view
      ensures Consistent() && Means(if octet == BEGIN_FLAG then Now().(state := ReadingSrcAddr) else Now(), view)
      ensures |Unread()| < |old(Unread())| && taken + Unread() == old(taken + Unread())
      ensures rbHead == rbTail <==> Unread() == []
    {
      hide Decode;
      hide Unread;
      hide Means;
      hide Take;
      UnreadLength();
      octet := rb[rbTail];
      ghost var u, before, t := Unread(), view, taken;
      assert u[..1] == [octet];
      DecodeOne(before, localAddr, buf.Length, seen, |taken|, octet);
      SkipMeans(Now(), before, localAddr, |taken| in seen, octet);
      Drop(1);
      UnreadLength();
      assert t + u[..1] + u[1..] == t + u by { assert u[..1] + u[1..] == u; }
    }

    /** How far a turn has come: with the transport, or with the ring, or with the state alone. */
    ghost predicate Less(source: ByteSource, p: nat, u: nat, s: State, exitCond: bool)
      requires Ring()
      reads this`rbHead, this`rbTail, this`state, rb, source
    {
      || |source.pending| < p
      || (|source.pending| == p && |Unread()| < u)
      || (|source.pending| == p && |Unread()| == u && (Rank(state) < Rank(s) || (state == s && exitCond)))
    }

    /** A call has got on: octets were taken from the ring or from the transport.  Otherwise the
        transport had nothing to give, and what is left in the ring is not an octet yet. */
    ghost predicate GotOn(source: ByteSource, t: nat, p: nat, d: nat)
      requires Ring()
      reads this`rbHead, this`rbTail, this`taken, rb, source
    {
      || t < |taken| || |source.pending| < p
      || (d < source.dry && NextToken(Unread()) == Nothing && (source.steady ==> source.pending == []))
    }

    /** The cases that wait for one octet, up to the choice of the next state.  A begin flag is seen if the
        transport gives nothing at that moment. */
    method OneOctet(source: ByteSource, maxSize: nat) returns (rv: bool, octet: byte, more: bool)
      requires Valid() && 0 < maxSize && state != Uninitialized
      modifies this`rbHead, this`rbTail, this`taken, this`seen, this`view, rb, source
      ensures Consistent() && Stream(source) == old(Stream(source))
      ensures SeenLate(old(seen), seen, source.steady, |Stream(source)|)
      ensures view == AfterOctet(old(view), localAddr, buf.Length, rv, octet, !more)
      ensures rv ==> !more
      ensures !rv ==> octet == 0 || octet == BEGIN_FLAG
      ensures |source.pending| < |old(source.pending)|
              || (|source.pending| == |old(source.pending)| && |Unread()| <= |old(Unread())|)
      ensures more == (|source.pending| < |old(source.pending)|)
      ensures rv || (octet == BEGIN_FLAG && !more) ==>
        |source.pending| == |old(source.pending)| && |Unread()| < |old(Unread())|
      ensures rv == NextToken(old(Unread())).Value? && octet == OctetOf(NextToken(old(Unread())))
      ensures |taken| >= |old(taken)| && source.dry >= old(source.dry)
      ensures !more ==> GotOn(source, |old(taken)|, |old(source.pending)|, old(source.dry))
      ensures !rv && !more ==> source.dry > old(source.dry)
    {
      hide Decode;
      hide Unread;
      hide Crc16.Crc;
      hide Accept;
      hide AfterOctet;
      hide NextToken;
      hide Means;
      ghost var t, u, p, v := taken, Unread(), source.pending, view;
      ghost var token := NextToken(u);
      FieldBounds(Now(), view);
      rv, octet := GetNextOctet();
      more := false;
      var n := 0;
      if !rv {
        n := ReadTransport(source, maxSize);
        more := 0 < n;
        assert u[0..] + p[..0] == u;
      } else {
        assert u[Width(token)..] + p[..0] == u[Width(token)..] && p[0..] == p;
      }
      StreamKept(source, t, u, p, Width(token), n);
      StreamLength(source);
      if rv || octet != BEGIN_FLAG {
        NotAFlag(v, localAddr, buf.Length, rv, octet);
      } else if !more {
        FlagSeen(localAddr, buf.Length, seen, t, u);
        seen, view := seen + {|taken| - 1}, AfterOctet(v, localAddr, buf.Length, rv, octet, true);
      }
    }

    /** The case UXR_FRAMING_READING_SRC_ADDR.  A begin flag is one more beginning. */
    method SrcAddrTurn(source: ByteSource) returns (exitCond: bool)
      requires Valid() && state == ReadingSrcAddr
      modifies this`rbHead, this`rbTail, this`taken, this`seen, this`view, this`state, this`srcAddr, rb, source
      ensures Valid() && Stream(source) == old(Stream(source))
      ensures SeenLate(old(seen), seen, source.steady, |Stream(source)|)
      ensures Less(source, |old(source.pending)|, |old(Unread())|, old(state), exitCond)
      ensures |taken| >= |old(taken)| && source.dry >= old(source.dry)
      ensures exitCond ==> GotOn(source, |old(taken)|, |old(source.pending)|, old(source.dry))
      ensures exitCond ==> source.dry > old(source.dry)
    {
      hide Decode;
      hide Unread;
      hide Contents;
      hide Stream;
      hide GotOn;
      hide NextToken;
      hide Means;
      hide AfterOctet;
      hide SeenLate;
      hide Heard;
      hide Crc16.Crc;
      hide CrcNumber;
      exitCond := false;
      ghost var before, f := view, Now();
      var rv, octet, more := OneOctet(source, 4);
      OctetMeans(f, before, localAddr, rv, octet, more);
      srcAddr := octet;
      if rv {
        state := ReadingDstAddr;
        assert Now() == AfterField(f, localAddr, octet);
      } else {
        SrcMeans(f, view, octet);
        assert Now() == f.(src := octet);
        if !more {
          exitCond := BEGIN_FLAG != srcAddr;
        }
      }
    }

    /** The case UXR_FRAMING_READING_DST_ADDR.  In this case, and in those of the length and the CRC, a begin
        flag is forgotten if the transport gives something at that moment. */
    method DstAddrTurn(source: ByteSource) returns (exitCond: bool)
      requires Valid() && state == ReadingDstAddr
      modifies this`rbHead, this`rbTail, this`taken, this`seen, this`view, this`state, rb, source
      ensures Valid() && Stream(source) == old(Stream(source))
      ensures SeenLate(old(seen), seen, source.steady, |Stream(source)|)
      ensures Less(source, |old(source.pending)|, |old(Unread())|, old(state), exitCond)
      ensures |taken| >= |old(taken)| && source.dry >= old(source.dry)
      ensures exitCond ==> GotOn(source, |old(taken)|, |old(source.pending)|, old(source.dry))
      ensures exitCond ==> source.dry > old(source.dry)
      ensures NextToken(old(Unread())).Flag? ==>
                !exitCond && state == if |source.pending| < |old(source.pending)| then ReadingDstAddr else ReadingSrcAddr
    {
      hide Decode;
      hide Unread;
      hide Contents;
      hide Stream;
      hide GotOn;
      hide NextToken;
      hide Means;
      hide AfterOctet;
      hide SeenLate;
      hide Heard;
      hide Crc16.Crc;
      hide CrcNumber;
      exitCond := false;
      ghost var before, f := view, Now();
      var rv, octet, more := OneOctet(source, 3);
      OctetMeans(f, before, localAddr, rv, octet, more);
      if rv {
        state := if octet == localAddr then ReadingLenLsb else Uninitialized;
        assert Now() == AfterField(f, localAddr, octet);
      } else if !more {
        if BEGIN_FLAG == octet {
          state := ReadingSrcAddr;
          assert Now() == f.(state := ReadingSrcAddr);
        } else {
          exitCond := true;
        }
      }
    }

    /** The case UXR_FRAMING_READING_LEN_LSB. */
    method LenLsbTurn(source: ByteSource) returns (exitCond: bool)
      requires Valid() && state == ReadingLenLsb
      modifies this`rbHead, this`rbTail, this`taken, this`seen, this`view, this`state, this`msgLen, rb, source
      ensures Valid() && Stream(source) == old(Stream(source))
      ensures SeenLate(old(seen), seen, source.steady, |Stream(source)|)
      ensures Less(source, |old(source.pending)|, |old(Unread())|, old(state), exitCond)
      ensures |taken| >= |old(taken)| && source.dry >= old(source.dry)
      ensures exitCond ==> GotOn(source, |old(taken)|, |old(source.pending)|, old(source.dry))
      ensures exitCond ==> source.dry > old(source.dry)
      ensures NextToken(old(Unread())).Flag? ==>
                !exitCond && state == if |source.pending| < |old(source.pending)| then ReadingLenLsb else ReadingSrcAddr
    {
      hide Decode;
      hide Unread;
      hide Contents;
      hide Stream;
      hide GotOn;
      hide NextToken;
      hide Means;
      hide AfterOctet;
      hide SeenLate;
      hide Heard;
      hide Crc16.Crc;
      hide CrcNumber;
      exitCond := false;
      ghost var before, f := view, Now();
      var rv, octet, more := OneOctet(source, 2);
      OctetMeans(f, before, localAddr, rv, octet, more);
      if rv {
        msgLen := octet;
        state := ReadingLenMsb;
        assert Now() == AfterField(f, localAddr, octet);
      } else if !more {
        if BEGIN_FLAG == octet {
          state := ReadingSrcAddr;
          assert Now() == f.(state := ReadingSrcAddr);
        } else {
          exitCond := true;
        }
      }
    }

    /** The length is complete. */
    method LengthRead(octet: byte, ghost before: Reader) returns (exitCond: bool)
      requires Consistent() && Means(Now(), before) && state == ReadingLenMsb
      requires view == AfterOctet(before, localAddr, buf.Length, true, octet, true)
      modifies this`state, this`msgLen, this`msgPos, this`cmpCrc
      ensures Valid() && exitCond == (buf.Length < msgLen)
      ensures msgLen == old(msgLen) + 0x100 * octet as int && msgPos == 0
      ensures state == if exitCond then Uninitialized else ReadingPayload
    {
      hide Decode;
      hide Unread;
      hide Contents;
      hide Means;
      hide AfterOctet;
      hide Crc16.Crc;
      hide CrcNumber;
      ghost var f := Now();
      FieldBounds(f, before);
      FieldMeans(f, before, localAddr, octet, true);
      msgLen := (msgLen + 0x100 * octet as int) % SEQ_NUM_SIZE;
      msgPos := 0;
      cmpCrc := 0;
      exitCond := buf.Length < msgLen;
      state := if exitCond then Uninitialized else ReadingPayload;
      assert Now() == AfterField(f, localAddr, octet);
    }

    /** The case UXR_FRAMING_READING_LEN_MSB: a message too long for the buffer of the caller is given up. */
    method LenMsbTurn(source: ByteSource) returns (exitCond: bool)
      requires Valid() && state == ReadingLenMsb
      modifies this`rbHead, this`rbTail, this`taken, this`seen, this`view, this`state, this`msgLen, this`msgPos, this`cmpCrc, rb, source
      ensures Valid() && Stream(source) == old(Stream(source))
      ensures SeenLate(old(seen), seen, source.steady, |Stream(source)|)
      ensures Less(source, |old(source.pending)|, |old(Unread())|, old(state), exitCond)
      ensures |taken| >= |old(taken)| && source.dry >= old(source.dry)
      ensures exitCond ==> GotOn(source, |old(taken)|, |old(source.pending)|, old(source.dry))
      ensures exitCond ==> state == Uninitialized || source.dry > old(source.dry)
      ensures NextToken(old(Unread())).Value? ==>
        var n := old(msgLen) + 0x100 * NextToken(old(Unread())).b as int;
        && msgLen == n && msgPos == 0 && exitCond == (buf.Length < n)
        && state == if buf.Length < n then Uninitialized else ReadingPayload
      ensures NextToken(old(Unread())).Flag? ==>
                !exitCond && state == if |source.pending| < |old(source.pending)| then ReadingLenMsb else ReadingSrcAddr
    {
      hide Decode;
      hide Unread;
      hide Contents;
      hide Stream;
      hide GotOn;
      hide NextToken;
      hide Means;
      hide AfterOctet;
      hide SeenLate;
      hide Heard;
      hide Crc16.Crc;
      hide CrcNumber;
      exitCond := false;
      ghost var before, f := view, Now();
      var rv, octet, more := OneOctet(source, 1);
      OctetMeans(f, before, localAddr, rv, octet, more);
      if rv {
        exitCond := LengthRead(octet, before);
      } else if !more {
        if BEGIN_FLAG == octet {
          state := ReadingSrcAddr;
          assert Now() == f.(state := ReadingSrcAddr);
        } else {
          exitCond := true;
        }
      }
    }

    /** The case UXR_FRAMING_READING_CRC_LSB. */
    method CrcLsbTurn(source: ByteSource) returns (exitCond: bool)
      requires Valid() && state == ReadingCrcLsb
      modifies this`rbHead, this`rbTail, this`taken, this`seen, this`view, this`state, this`msgCrc, rb, source
      ensures Valid() && Stream(source) == old(Stream(source))
      ensures SeenLate(old(seen), seen, source.steady, |Stream(source)|)
      ensures Less(source, |old(source.pending)|, |old(Unread())|, old(state), exitCond)
      ensures |taken| >= |old(taken)| && source.dry >= old(source.dry)
      ensures exitCond ==> GotOn(source, |old(taken)|, |old(source.pending)|, old(source.dry))
      ensures exitCond ==> source.dry > old(source.dry)
      ensures NextToken(old(Unread())).Flag? ==>
                !exitCond && state == if |source.pending| < |old(source.pending)| then ReadingCrcLsb else ReadingSrcAddr
    {
      hide Decode;
      hide Unread;
      hide Contents;
      hide Stream;
      hide GotOn;
      hide NextToken;
      hide Means;
      hide AfterOctet;
      hide SeenLate;
      hide Heard;
      hide Crc16.Crc;
      hide CrcNumber;
      exitCond := false;
      ghost var before, f := view, Now();
      var rv, octet, more := OneOctet(source, 2);
      OctetMeans(f, before, localAddr, rv, octet, more);
      if rv {
        msgCrc := octet;
        state := ReadingCrcMsb;
        assert Now() == AfterField(f, localAddr, octet);
      } else if !more {
        if BEGIN_FLAG == octet {
          state := ReadingSrcAddr;
          assert Now() == f.(state := ReadingSrcAddr);
        } else {
          exitCond := true;
        }
      }
    }

    /** The frame is complete. */
    method FrameRead(octet: byte, ghost before: Reader) returns (n: nat, remoteAddr: byte)
      requires Consistent() && Means(Now(), before) && state == ReadingCrcMsb
      requires view == AfterOctet(before, localAddr, buf.Length, true, octet, true)
      modifies this`state, this`msgCrc, this`returned
      ensures Valid() && state == Uninitialized && n <= buf.Length
      ensures msgLen <= buf.Length && (n > 0 ==> remoteAddr == srcAddr)
      ensures n == if old(msgCrc) + 0x100 * octet as int == CrcWord(buf[..msgLen]) then msgLen else 0
      ensures returned == if n > 0 then old(returned) + [Returned(remoteAddr, buf[..n])] else old(returned)
    {
      hide Decode;
      hide Unread;
      hide Contents;
      hide Means;
      hide AfterOctet;
      hide Crc16.Crc;
      hide CrcNumber;
      ghost var f := Now();
      FieldBounds(f, before);
      FieldMeans(f, before, localAddr, octet, true);
      assert buf[..][..msgLen] == buf[..msgLen];
      n, remoteAddr := 0, 0;
      msgCrc := (msgCrc + 0x100 * octet as int) % SEQ_NUM_SIZE;
      state := Uninitialized;
      if CrcNumber(cmpCrc) == msgCrc {
        remoteAddr := srcAddr;
        n := msgLen;
        if n > 0 {
          returned := returned + [Returned(remoteAddr, buf[..n])];
        }
      }
      assert Now() == AfterField(f, localAddr, octet);
    }

    /** The case UXR_FRAMING_READING_CRC_MSB: the frame is complete, and its message is returned if the CRC is right. */
    method CrcMsbTurn(source: ByteSource) returns (exitCond: bool, n: nat, remoteAddr: byte)
      requires Valid() && state == ReadingCrcMsb
      modifies this`rbHead, this`rbTail, this`taken, this`seen, this`view, this`state, this`msgCrc, this`returned, rb, source
      ensures Valid() && Stream(source) == old(Stream(source))
      ensures SeenLate(old(seen), seen, source.steady, |Stream(source)|)
      ensures Less(source, |old(source.pending)|, |old(Unread())|, old(state), exitCond)
      ensures |taken| >= |old(taken)| && source.dry >= old(source.dry)
      ensures exitCond ==> GotOn(source, |old(taken)|, |old(source.pending)|, old(source.dry))
      ensures exitCond ==> state == Uninitialized || source.dry > old(source.dry)
      ensures n <= buf.Length && (n > 0 ==> exitCond)
      ensures returned == if n > 0 then old(returned) + [Returned(remoteAddr, buf[..n])] else old(returned)
      ensures NextToken(old(Unread())).Value? ==>
        var crc := old(msgCrc) + 0x100 * NextToken(old(Unread())).b as int;
        && exitCond && state == Uninitialized
        && n == (if crc == CrcWord(buf[..msgLen]) then msgLen else 0) && (n > 0 ==> remoteAddr == srcAddr)
      ensures NextToken(old(Unread())).Flag? ==>
                !exitCond && state == if |source.pending| < |old(source.pending)| then ReadingCrcMsb else ReadingSrcAddr
    {
      hide Decode;
      hide Unread;
      hide Contents;
      hide Stream;
      hide GotOn;
      hide NextToken;
      hide Means;
      hide AfterOctet;
      hide SeenLate;
      hide Heard;
      hide Crc16.Crc;
      hide CrcNumber;
      exitCond, n, remoteAddr := false, 0, 0;
      ghost var before, f := view, Now();
      var rv, octet, more := OneOctet(source, 1);
      OctetMeans(f, before, localAddr, rv, octet, more);
      if rv {
        n, remoteAddr := FrameRead(octet, before);
        exitCond := true;
      } else if !more {
        if BEGIN_FLAG == octet {
          state := ReadingSrcAddr;
          assert Now() == f.(state := ReadingSrcAddr);
        } else {
          exitCond := true;
        }
      }
    }

    /** An octet of the payload is stored. */
    method PayloadRead(octet: byte, ghost before: Reader)
      requires Consistent() && Means(Now(), before) && state == ReadingPayload && msgPos < msgLen
      requires view == AfterOctet(before, localAddr, buf.Length, true, octet, false)
      modifies this`msgPos, this`cmpCrc, buf
      ensures Valid() && msgPos == old(msgPos) + 1 <= buf.Length && buf[..msgPos] == old(buf[..msgPos]) + [octet]
    {
      hide Decode;
      hide Unread;
      hide Contents;
      hide Means;
      hide AfterOctet;
      hide Crc16.Crc;
      hide Crc16.Update;
      ghost var f := Now();
      PayloadMeans(f, before, localAddr, octet);
      buf[msgPos] := octet;
      msgPos := msgPos + 1;
      cmpCrc := Crc16.Update(cmpCrc, octet);
      assert Now() == f.(buf := f.buf[f.pos := octet], pos := f.pos + 1, cmpCrc := Crc16.Update(f.cmpCrc, octet));
      assert buf[..msgPos] == f.buf[..f.pos] + [octet];
    }

    /** One payload octet, if there is one. */
    method PayloadOctet() returns (rv: bool, octet: byte)
      requires Valid() && state == ReadingPayload && msgPos < msgLen
      modifies this`rbTail, this`taken, this`view, this`msgPos, this`cmpCrc, buf
      ensures Consistent() && taken + Unread() == old(taken + Unread())
      ensures rv ==> Valid() && msgPos == old(msgPos) + 1 && |Unread()| < |old(Unread())|
      ensures !rv ==> msgPos == old(msgPos) && (octet == 0 || octet == BEGIN_FLAG)
      ensures !rv && octet == 0 ==> Valid() && Unread() == old(Unread()) && NextToken(Unread()) == Nothing
      ensures var t := NextToken(old(Unread()));
        && rv == t.Value? && (rv ==> Unread() == old(Unread())[t.n..])
        && buf[..msgPos] == old(buf[..msgPos]) + if rv then [t.b] else []
      ensures !rv && octet == BEGIN_FLAG ==> Means(Now().(state := ReadingSrcAddr), view) && |Unread()| < |old(Unread())|
    {
      hide Decode;
      hide Unread;
      hide Contents;
      hide Means;
      hide NextToken;
      hide AfterOctet;
      hide Crc16.Crc;
      hide Crc16.Update;
      ghost var u, t, f, before := Unread(), taken, Now(), view;
      FieldBounds(f, before);
      rv, octet := GetNextOctet();
      TokenKept(t, u, Width(NextToken(u)));
      WidthOf(u);
      if rv {
        PayloadRead(octet, before);
      } else {
        if octet == BEGIN_FLAG {
          FlagMeans(f, before, localAddr, false);
        } else {
          WaitMeans(f, before, localAddr, octet, false);
        }
      }
    }

    /** There is no payload octet in the ring: the transport is asked for what is still to come. */
    method PayloadWaits(source: ByteSource) returns (exitCond: bool)
      requires Valid() && msgPos < msgLen && NextToken(Unread()) == Nothing
      modifies this`rbHead, this`rbTail, rb, source
      ensures Valid() && Stream(source) == old(Stream(source)) && source.dry >= old(source.dry)
      ensures if exitCond then |source.pending| == |old(source.pending)| && Unread() == old(Unread())
                               && GotOn(source, |taken|, |source.pending|, old(source.dry)) && source.dry > old(source.dry)
              else |source.pending| < |old(source.pending)|
    {
      hide Decode;
      hide Unread;
      hide Means;
      ghost var t, u, p := taken, Unread(), source.pending;
      var n := ReadTransport(source, (msgLen - msgPos) + 2);
      StreamKept(source, t, u, p, 0, n);
      exitCond := !(0 < n);
      assert u + p[..0] == u;
    }

    /** The payload octets that are in the ring. */
    method PayloadOctets() returns (octet: byte)
      requires Valid() && state == ReadingPayload
      modifies this`rbTail, this`taken, this`view, this`msgPos, this`cmpCrc, buf
      ensures Consistent() && taken + Unread() == old(taken + Unread()) && |Unread()| <= |old(Unread())|
      ensures msgPos <= msgLen <= buf.Length
      ensures buf[..msgPos] == old(buf[..msgPos]) + Unstuffed(old(Unread()), old(msgLen) - old(msgPos))
      ensures msgPos == msgLen || octet == 0 ==> Valid()
      ensures msgPos < msgLen ==> octet == 0 || octet == BEGIN_FLAG
      ensures msgPos < msgLen && octet == 0 ==> NextToken(Unread()) == Nothing
      ensures msgPos < msgLen && octet == BEGIN_FLAG ==>
        Means(Now().(state := ReadingSrcAddr), view) && |Unread()| < |old(Unread())|
    {
      hide Decode;
      hide Unread;
      hide Contents;
      hide Means;
      hide NextToken;
      hide Gathered;
      hide Unstuffed;
      hide Heard;
      PayloadBounds();
      ghost var all := buf[..msgPos] + Unstuffed(Unread(), msgLen - msgPos);
      GatheredNone(buf[..msgPos], Unread(), msgLen - msgPos);
      octet := 0;
      var rv := true;
      while msgPos < msgLen && rv
        invariant Consistent() && taken + Unread() == old(taken + Unread()) && |Unread()| <= |old(Unread())|
        invariant state == ReadingPayload && msgPos <= msgLen <= buf.Length
        invariant rv || octet == 0 ==> Valid()
        invariant !rv ==> msgPos < msgLen && (octet == 0 || octet == BEGIN_FLAG)
        invariant !rv && octet == 0 ==> NextToken(Unread()) == Nothing
        invariant !rv && octet == BEGIN_FLAG ==>
          Means(Now().(state := ReadingSrcAddr), view) && |Unread()| < |old(Unread())|
        invariant Gathered(all, buf[..msgPos], Unread(), msgLen - msgPos, rv)
        decreases msgLen - msgPos, rv
      {
        GatheredOne(all, buf[..msgPos], Unread(), msgLen - msgPos);
        rv, octet := PayloadOctet();
      }
      GatheredAll(all, buf[..msgPos], Unread(), msgLen - msgPos, rv);
    }

    lemma PayloadBounds()
      requires Valid() && state == ReadingPayload
      ensures msgPos <= msgLen <= buf.Length
    {
    }

    /** The case UXR_FRAMING_READING_PAYLOAD. */
    method PayloadTurn(source: ByteSource) returns (exitCond: bool)
      requires Valid() && state == ReadingPayload
      modifies this`rbHead, this`rbTail, this`taken, this`view, this`state, this`msgPos, this`cmpCrc, rb, buf, source
      ensures Valid() && Stream(source) == old(Stream(source))
      ensures SeenLate(seen, seen, source.steady, |Stream(source)|)
      ensures Less(source, |old(source.pending)|, |old(Unread())|, old(state), exitCond)
      ensures |taken| >= |old(taken)| && source.dry >= old(source.dry)
      ensures exitCond ==> GotOn(source, |old(taken)|, |old(source.pending)|, old(source.dry))
      ensures exitCond ==> source.dry > old(source.dry)
      ensures msgPos <= msgLen <= buf.Length && (state == ReadingCrcLsb <==> msgPos == msgLen)
      ensures buf[..msgPos] == old(buf[..msgPos]) + Unstuffed(old(Unread()), old(msgLen) - old(msgPos))
    {
      hide Decode;
      hide Unread;
      hide Contents;
      hide Means;
      hide NextToken;
      hide Unstuffed;
      exitCond := false;
      var octet := PayloadOctets();
      if msgPos == msgLen {
        PayloadDone(Now(), view);
        state := ReadingCrcLsb;
      } else {
        if BEGIN_FLAG == octet {
          ghost var f := Now();
          state := ReadingSrcAddr;
          assert Now() == f.(state := ReadingSrcAddr);
        } else {
          exitCond := PayloadWaits(source);
        }
      }
    }

    /** The turn between frames. */
    method SkipTurn(source: ByteSource) returns (exitCond: bool)
      requires Valid() && state == Uninitialized
      modifies this`rbTail, this`taken, this`view, this`state
      ensures Valid() && Stream(source) == old(Stream(source)) && |taken| >= |old(taken)|
      ensures SeenLate(seen, seen, source.steady, |Stream(source)|)
      ensures Less(source, |source.pending|, |old(Unread())|, old(state), exitCond)
      ensures exitCond ==> Unread() == [] && state == Uninitialized
    {
      hide Unread;
      hide Means;
      hide Heard;
      ghost var before := taken + Unread();
      exitCond := SkipToFlag();
      assert |taken + Unread()| == |before|;
    }

    /** One turn of the state machine. */
    method Turn(source: ByteSource) returns (exitCond: bool, n: nat, remoteAddr: byte)
      requires Valid()
      modifies this, rb, buf, source
      ensures Valid() && Stream(source) == old(Stream(source)) && n <= buf.Length && (n > 0 ==> exitCond)
      ensures SeenLate(old(seen), seen, source.steady, |Stream(source)|)
      ensures Less(source, |old(source.pending)|, |old(Unread())|, old(state), exitCond)
      ensures returned == if n > 0 then old(returned) + [Returned(remoteAddr, buf[..n])] else old(returned)
      ensures |taken| >= |old(taken)| && source.dry >= old(source.dry)
      ensures exitCond ==>
        GotOn(source, |old(taken)|, |old(source.pending)|, old(source.dry)) || Unread() == []
      ensures exitCond ==> state == Uninitialized || source.dry > old(source.dry)
    {
      hide *;
      n, remoteAddr := 0, 0;
      match state
      case Uninitialized => exitCond := SkipTurn(source);
      case ReadingSrcAddr => exitCond := SrcAddrTurn(source);
      case ReadingDstAddr => exitCond := DstAddrTurn(source);
      case ReadingLenLsb => exitCond := LenLsbTurn(source);
      case ReadingLenMsb => exitCond := LenMsbTurn(source);
      case ReadingPayload => exitCond := PayloadTurn(source);
      case ReadingCrcLsb => exitCond := CrcLsbTurn(source);
      case ReadingCrcMsb => exitCond, n, remoteAddr := CrcMsbTurn(source);
    }

    /** An empty ring is filled before anything else. */
    method FirstRead(source: ByteSource)
      requires Valid() && Unread() == []
      modifies this`rbHead, this`rbTail, rb, source
      ensures Valid() && Stream(source) == old(Stream(source))
      ensures |source.pending| <= |old(source.pending)| && source.dry >= old(source.dry)
      ensures GotOn(source, |taken|, |old(source.pending)|, old(source.dry))
      ensures if Unread() == [] then source.dry > old(source.dry) else |source.pending| < |old(source.pending)|
    {
      hide Decode;
      hide Unread;
      hide Means;
      ghost var t, u, p := taken, Unread(), source.pending;
      var got := ReadTransport(source, 5);
      StreamKept(source, t, u, p, 0, got);
      assert [] + p[..0] == [];
    }

    lemma StreamLength(source: ByteSource)
      requires Ring()
      ensures |Stream(source)| == |taken| + |Unread()| + |source.pending|
    {
    }

    /** uxr_read_framed_msg.  It stops when there is nothing more to take, or at the end of a frame; the
        next call goes on where this one stopped. */
    method ReadFramedMsg(source: ByteSource) returns (n: nat, remoteAddr: byte)
      requires Valid()
      modifies this, rb, buf, source
      ensures Valid() && Stream(source) == old(Stream(source))
      ensures SeenLate(old(seen), seen, source.steady, |Stream(source)|)
      ensures n <= buf.Length
      ensures returned == if n > 0 then old(returned) + [Returned(remoteAddr, buf[..n])] else old(returned)
      ensures |taken| >= |old(taken)| && |source.pending| <= |old(source.pending)|
      ensures GotOn(source, |old(taken)|, |old(source.pending)|, old(source.dry))
      ensures state == Uninitialized || source.dry > old(source.dry)
    {
      hide Decode;
      hide Unread;
      hide Crc16.Crc;
      hide Means;
      hide Stream;
      hide NextToken;
      n, remoteAddr := 0, 0;
      StreamLength(source);
      UnreadLength();
      if rbHead == rbTail {
        FirstRead(source);
      }
      UnreadLength();
      if rbTail != rbHead {
        var exitCond := false;
        while !exitCond
          invariant Valid() && Stream(source) == old(Stream(source)) && n <= buf.Length
          invariant SeenLate(old(seen), seen, source.steady, |Stream(source)|)
          invariant n > 0 ==> exitCond
          invariant returned == if n > 0 then old(returned) + [Returned(remoteAddr, buf[..n])] else old(returned)
          invariant |taken| >= |old(taken)| && |source.pending| <= |old(source.pending)| && source.dry >= old(source.dry)
          invariant old(Unread()) == [] ==> |source.pending| < |old(source.pending)|
          invariant exitCond ==>
            GotOn(source, |old(taken)|, |old(source.pending)|, old(source.dry)) || Unread() == []
          invariant exitCond ==> state == Uninitialized || source.dry > old(source.dry)
          decreases |source.pending|, |Unread()|, Rank(state), !exitCond
        {
          ghost var before := seen;
          exitCond, n, remoteAddr := Turn(source);
          SeenLater(old(seen), before, seen, source.steady, |Stream(source)|);
        }
        StreamLength(source);
      }
    }

    /** Nothing is left that the reader could take. */
    ghost predicate Exhausted(source: ByteSource)
      requires Ring()
      reads this`rbHead, this`rbTail, rb, source
    {
      source.pending == [] && NextToken(Unread()) == Nothing
    }

    /** Callers call again and again (serial_transport.c:73-84).  As long as the transport gives
        something whenever it has something, two calls for each octet still to come, and one for each in
        the ring, are enough to take everything. */
    method ReadFramedMsgs(source: ByteSource, calls: nat) returns (msgs: seq<Returned>)
      requires Valid()
      modifies this, rb, buf, source
      ensures Valid() && Stream(source) == old(Stream(source)) && returned == old(returned) + msgs
      ensures SeenLate(old(seen), seen, source.steady, |Stream(source)|)
      ensures source.steady && calls >= 2 * |old(source.pending)| + |old(Unread())| ==> Exhausted(source)
    {
      hide Decode;
      hide Unread;
      hide Means;
      hide Stream;
      ghost var left := 2 * |source.pending| + |Unread()|;
      msgs := [];
      var i := 0;
      while i < calls
        invariant 0 <= i <= calls && Valid() && Stream(source) == old(Stream(source)) && returned == old(returned) + msgs
        invariant SeenLate(old(seen), seen, source.steady, |Stream(source)|)
        invariant source.steady && !Exhausted(source) ==> 2 * |source.pending| + |Unread()| <= left - i
      {
        StreamLength(source);
        ghost var before := seen;
        var n, remoteAddr := ReadFramedMsg(source);
        SeenLater(old(seen), before, seen, source.steady, |Stream(source)|);
        StreamLength(source);
        if n > 0 {
          msgs := msgs + [Returned(remoteAddr, buf[..n])];
        }
        i := i + 1;
      }
    }

    /** What has been returned so far is the beginning of what the line carries for this reader, and
        all of it once everything has been taken, however the octets came and the calls were made. */
    lemma ReturnsExpected(source: ByteSource, segments: seq<Segment>)
      requires Valid() && IsLine(segments, localAddr, buf.Length) && Stream(source) == Line(segments)
      ensures returned <= ExpectedAll(segments, localAddr, buf.Length)
      ensures Exhausted(source) ==> returned == ExpectedAll(segments, localAddr, buf.Length)
    {
      hide Decode;
      hide Unread;
      hide Line;
      hide ExpectedAll;
      hide NextToken;
      NoToken(Unread());
      var rest := Unread() + source.pending;
      assert taken + rest == Stream(source);
      PrefixReturned(seen, taken, rest, segments, localAddr, buf.Length);
    }

    /** Whatever the line carried before, and whichever begin flags were forgotten: two frames later the reader
        is in step again, and what it returns ends with what the rest of the line carries for it. */
    lemma ReturnsAgain(source: ByteSource, octets: seq<byte>, first: Segment, noise: seq<byte>, second: Segment,
                       rest: seq<Segment>)
      requires Valid() && IsLine(rest, localAddr, buf.Length)
      requires first.IsFrame() && first.Valid() && second.IsFrame() && second.Valid() && BEGIN_FLAG !in noise
      requires Stream(source) == Disturbed(octets, first, noise, second) + Line(rest) && Exhausted(source)
      ensures var expected := ExpectedAll(rest, localAddr, buf.Length);
        |expected| <= |returned| && returned[|returned| - |expected|..] == expected
    {
      hide Decode;
      hide Unread;
      hide Line;
      hide IsLine;
      hide ExpectedAll;
      hide NextToken;
      hide Disturbed;
      hide Segment.Valid;
      NoToken(Unread());
      var left := Unread() + source.pending;
      assert taken + left == Stream(source);
      InStepAgain(localAddr, buf.Length, seen, octets, first, noise, second, rest);
      assert left == Unread();
      PrefixDecoded(seen, taken, left, localAddr, buf.Length);
      ghost var front := Disturbed(octets, first, noise, second);
      EndsWith(Decode(INITIAL, localAddr, buf.Length, seen, 0, front).returned, ExpectedAll(rest, localAddr, buf.Length));
    }

    /** On a transport that gives something whenever it has something, a frame that comes behind one of which
        only the source address was sent is lost, however the octets come and the calls are made, unless so
        little follows its begin flag that the ring takes it all. */
    method ReadPastUnfinished(source: ByteSource, calls: nat, ghost cut: Segment, ghost lost: Segment,
                              ghost rest: seq<Segment>)
      returns (msgs: seq<Returned>)
      requires Valid() && taken == [] && seen == {} && returned == [] && Unread() == []
      requires source.steady && cut.Unfinished? && cut.Valid() && cut.n == 1
      requires lost.Framed? && lost.Valid() && lost.src != localAddr && IsLine(rest, localAddr, buf.Length)
      requires source.pending == cut.Octets() + lost.Octets() + Line(rest)
      requires |lost.Octets() + Line(rest)| >= RING_SIZE
      modifies this, rb, buf, source
      ensures Valid() && (calls >= 2 * |old(source.pending)| ==> msgs == ExpectedAll(rest, localAddr, buf.Length))
    {
      hide Decode;
      hide Unread;
      hide Means;
      hide Line;
      hide IsLine;
      hide ExpectedAll;
      hide NextToken;
      hide Segment.Valid;
      hide Segment.Octets;
      LineValid(rest, localAddr, buf.Length);
      ghost var all := source.pending;
      assert Stream(source) == all && |all| == |cut.Octets()| + |lost.Octets() + Line(rest)|;
      msgs := ReadFramedMsgs(source, calls);
      if calls >= 2 * |all| {
        NoToken(Unread());
        FieldBounds(Now(), view);
        assert taken + (Unread() + source.pending) == all && Unread() + source.pending == Unread();
        PrefixDecoded(seen, taken, Unread() + source.pending, localAddr, buf.Length);
        LostBehind(localAddr, buf.Length, seen, cut, lost, rest);
      }
    }

    /** So enough calls on a transport that keeps giving return exactly what the line carries. */
    method ReadLine(source: ByteSource, calls: nat, ghost segments: seq<Segment>) returns (msgs: seq<Returned>)
      requires Valid() && taken == [] && returned == [] && Unread() == []
      requires IsLine(segments, localAddr, buf.Length) && source.pending == Line(segments)
      modifies this, rb, buf, source
      ensures Valid() && msgs <= ExpectedAll(segments, localAddr, buf.Length)
      ensures source.steady && calls >= 2 * |Line(segments)| ==> msgs == ExpectedAll(segments, localAddr, buf.Length)
    {
      hide Decode;
      hide Unread;
      hide Means;
      hide Line;
      hide ExpectedAll;
      assert Stream(source) == Line(segments);
      msgs := ReadFramedMsgs(source, calls);
      ReturnsExpected(source, segments);
    }
  }

  lemma NoToken(u: seq<byte>)
    ensures NextToken(u) == Nothing ==> u == [] || u == [ESC_FLAG]
  {
  }

  lemma PrefixReturned(seen: set<nat>, taken: seq<byte>, rest: seq<byte>, segments: seq<Segment>, local: byte, limit: nat)
    requires IsLine(segments, local, limit) && taken + rest == Line(segments)
    ensures var d := Decode(INITIAL, local, limit, seen, 0, taken);
      && d.returned <= ExpectedAll(segments, local, limit)
      && (rest == [] || (rest == [ESC_FLAG] && !d.escaped) ==> d.returned == ExpectedAll(segments, local, limit))
  {
    hide Decode;
    hide Line;
    hide ExpectedAll;
    hide Segment.Valid;
    RoundTrip(INITIAL, local, limit, seen, 0, segments);
    PrefixDecoded(seen, taken, rest, local, limit);
    assert [] + ExpectedAll(segments, local, limit) == ExpectedAll(segments, local, limit);
  }

  /** What is returned before the rest has come, which is nothing more if that is no octet. */
  lemma PrefixDecoded(seen: set<nat>, taken: seq<byte>, rest: seq<byte>, local: byte, limit: nat)
    ensures var d, all := Decode(INITIAL, local, limit, seen, 0, taken), Decode(INITIAL, local, limit, seen, 0, taken + rest);
      d.returned <= all.returned && (rest == [] || (rest == [ESC_FLAG] && !d.escaped) ==> d.returned == all.returned)
  {
    hide Decode;
    var d := Decode(INITIAL, local, limit, seen, 0, taken);
    DecodeAppend(INITIAL, local, limit, seen, 0, taken, rest);
    DecodeGrows(d, local, limit, seen, |taken|, rest);
    NoneTaken(d, local, limit, seen, |taken|);
    DecodeOne(d, local, limit, seen, |taken|, ESC_FLAG);
  }

  lemma EndsWith(a: seq<Returned>, b: seq<Returned>)
    ensures (a + b)[|a + b| - |b|..] == b
  {
  }

  lemma LostBehind(local: byte, limit: nat, seen: set<nat>, cut: Segment, lost: Segment, rest: seq<Segment>)
    requires cut.Unfinished? && cut.Valid() && cut.n == 1 && |cut.Octets()| !in seen
    requires lost.Framed? && lost.Valid() && lost.src != local && IsLine(rest, local, limit)
    ensures Decode(INITIAL, local, limit, seen, 0, cut.Octets() + lost.Octets() + Line(rest)).returned
         == ExpectedAll(rest, local, limit)
  {
    hide Decode;
    hide Line;
    hide IsLine;
    hide ExpectedAll;
    hide Segment.Valid;
    hide Segment.Octets;
    LineValid(rest, local, limit);
    var front := cut.Octets() + lost.Octets();
    FrameLost(INITIAL, local, limit, seen, 0, cut, lost);
    DecodeAppend(INITIAL, local, limit, seen, 0, front, Line(rest));
    RoundTrip(Decode(INITIAL, local, limit, seen, 0, front), local, limit, seen, |front|, rest);
    assert [] + ExpectedAll(rest, local, limit) == ExpectedAll(rest, local, limit);
  }

  /** What has been gathered of the octets in the ring, and what may still be: at most n. */
  ghost predicate Gathered(all: seq<byte>, now: seq<byte>, u: seq<byte>, n: nat, more: bool) {
    all == now + if more then Unstuffed(u, n) else []
  }

  lemma GatheredNone(now: seq<byte>, u: seq<byte>, n: nat)
    ensures Gathered(now + Unstuffed(u, n), now, u, n, true)
  {
  }

  lemma GatheredOne(all: seq<byte>, now: seq<byte>, u: seq<byte>, n: nat)
    requires n > 0 && Gathered(all, now, u, n, true)
    ensures var t := NextToken(u);
      if t.Value? then Gathered(all, now + [t.b], u[t.n..], n - 1, true)
      else forall v :: Gathered(all, now + [], v, n, false)
  {
    var t := NextToken(u);
    if t.Value? {
      assert now + ([t.b] + Unstuffed(u[t.n..], n - 1)) == now + [t.b] + Unstuffed(u[t.n..], n - 1);
    } else {
      assert now + [] + [] == now + [];
    }
  }

  lemma GatheredAll(all: seq<byte>, now: seq<byte>, u: seq<byte>, n: nat, more: bool)
    requires Gathered(all, now, u, n, more) && (n == 0 || !more)
    ensures now == all
  {
  }

  lemma WidthOf(u: seq<byte>)
    ensures var t := NextToken(u);
      && Width(t) <= |u| && (t != Nothing ==> 0 < Width(t)) && (t == Nothing ==> Width(t) == 0 && u[0..] == u)
      && (t.Value? ==> 0 < t.n <= |u| && Width(t) == t.n)
  {
  }

  lemma TokenKept(t: seq<byte>, u: seq<byte>, w: nat)
    requires w <= |u|
    ensures t + u[..w] + u[w..] == t + u
  {
    assert u == u[..w] + u[w..];
  }

  lemma CrcAppended(msg: seq<byte>, octet: byte)
    ensures Crc16.Crc(msg + [octet]) == Crc16.Update(Crc16.Crc(msg), octet)
  {
    assert (msg + [octet])[..|msg|] == msg;
  }

  /** The octets between tail and head, round the ring. */
  function Contents(s: seq<byte>, tail: nat, head: nat): seq<byte>
    requires |s| == RING_SIZE && tail < RING_SIZE && head < RING_SIZE
  {
    if tail <= head then s[tail..head] else s[tail..] + s[..head]
  }

  lemma ContentsFrom(s: seq<byte>, tail: nat, head: nat, n: nat)
    requires |s| == RING_SIZE && tail < RING_SIZE && head < RING_SIZE && n <= |Contents(s, tail, head)|
    ensures Contents(s, tail, head)[n..] == Contents(s, (tail + n) % RING_SIZE, head)
  {
    Wrapped(tail + n);
    if tail <= head {
      DropFrom(s, tail, head, n);
    } else if tail + n < RING_SIZE {
      FewDropped(s, tail, head, n);
    } else {
      MoreDropped(s, tail, head, n);
    }
  }

  lemma Wrapped(k: nat)
    requires k < 2 * RING_SIZE
    ensures k % RING_SIZE == if k < RING_SIZE then k else k - RING_SIZE
  {
  }

  lemma FewDropped(s: seq<byte>, tail: nat, head: nat, n: nat)
    requires |s| == RING_SIZE && head < tail && tail + n < RING_SIZE
    ensures (s[tail..] + s[..head])[n..] == s[tail + n..] + s[..head]
  {
    DropFirst(s[tail..], s[..head], n);
    DropFrom(s, tail, RING_SIZE, n);
    assert s[tail..] == s[tail..RING_SIZE] && s[tail + n..] == s[tail + n..RING_SIZE];
  }

  lemma MoreDropped(s: seq<byte>, tail: nat, head: nat, n: nat)
    requires |s| == RING_SIZE && head < tail <= RING_SIZE <= tail + n <= RING_SIZE + head
    ensures (s[tail..] + s[..head])[n..] == s[tail + n - RING_SIZE..head]
  {
    DropFirst(s[tail..], s[..head], n);
    DropFrom(s, 0, head, tail + n - RING_SIZE);
    assert s[..head] == s[0..head];
  }

  lemma DropFrom(s: seq<byte>, low: nat, high: nat, n: nat)
    requires low + n <= high <= |s|
    ensures s[low..high][n..] == s[low + n..high]
  {
  }

  lemma DropFirst(a: seq<byte>, b: seq<byte>, n: nat)
    requires n <= |a| + |b|
    ensures (a + b)[n..] == if n < |a| then a[n..] + b else b[n - |a|..]
  {
  }

  lemma FillAt(was: seq<byte>, now: seq<byte>, tail: nat, head: nat, got: seq<byte>)
    requires |was| == |now| == RING_SIZE && tail < RING_SIZE && head + |got| <= RING_SIZE && head < RING_SIZE
    requires if tail <= head then tail == 0 ==> head + |got| < RING_SIZE else head + |got| < tail
    requires forall i | 0 <= i < RING_SIZE && !(head <= i < head + |got|) :: now[i] == was[i]
    requires now[head..head + |got|] == got
    ensures Contents(now, tail, (head + |got|) % RING_SIZE) == Contents(was, tail, head) + got
  {
    if tail <= head {
      FillStraight(was, now, tail, head, got);
    } else {
      FillWrapped(was, now, tail, head, got);
    }
  }

  lemma FillStraight(was: seq<byte>, now: seq<byte>, tail: nat, head: nat, got: seq<byte>)
    requires |was| == |now| == RING_SIZE && tail <= head < RING_SIZE && head + |got| <= RING_SIZE
    requires tail == 0 ==> head + |got| < RING_SIZE
    requires forall i | 0 <= i < head :: now[i] == was[i]
    requires now[head..head + |got|] == got
    ensures Contents(now, tail, (head + |got|) % RING_SIZE) == was[tail..head] + got
  {
    var end := head + |got|;
    SameSlice(was, now, tail, head);
    Joined(now, tail, head, end);
    if end == RING_SIZE {
      assert now[tail..] + now[..0] == now[tail..end];
    }
  }

  lemma FillWrapped(was: seq<byte>, now: seq<byte>, tail: nat, head: nat, got: seq<byte>)
    requires |was| == |now| == RING_SIZE && head + |got| < tail < RING_SIZE
    requires forall i | 0 <= i < RING_SIZE && !(head <= i < head + |got|) :: now[i] == was[i]
    requires now[head..head + |got|] == got
    ensures Contents(now, tail, head + |got|) == was[tail..] + was[..head] + got
  {
    assert now[tail..] == was[tail..] by {
      SameTail(was, now, tail);
    }
    assert now[..head + |got|] == was[..head] + got by {
      SameFront(was, now, head, got);
    }
    Associated(was[tail..], was[..head], got);
  }

  lemma SameTail(was: seq<byte>, now: seq<byte>, low: nat)
    requires low <= |was| == |now| && forall i | low <= i < |was| :: now[i] == was[i]
    ensures now[low..] == was[low..]
  {
  }

  lemma SameFront(was: seq<byte>, now: seq<byte>, head: nat, got: seq<byte>)
    requires head + |got| <= |was| == |now| && forall i | 0 <= i < head :: now[i] == was[i]
    requires now[head..head + |got|] == got
    ensures now[..head + |got|] == was[..head] + got
  {
    SameSlice(was, now, 0, head);
    Joined(now, 0, head, head + |got|);
  }

  lemma Associated(a: seq<byte>, b: seq<byte>, c: seq<byte>)
    ensures a + (b + c) == a + b + c
  {
  }

  lemma SameSlice(was: seq<byte>, now: seq<byte>, low: nat, high: nat)
    requires low <= high <= |was| == |now| && forall i | low <= i < high :: now[i] == was[i]
    ensures now[low..high] == was[low..high]
  {
  }

  lemma Joined(s: seq<byte>, low: nat, mid: nat, high: nat)
    requires low <= mid <= high <= |s|
    ensures s[low..high] == s[low..mid] + s[mid..high]
  {
  }

  /** The payload case may pass to the next one without taking anything. */
  function Rank(s: State): nat {
    if s == ReadingPayload then 1 else 0
  }
}
