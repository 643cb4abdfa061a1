/** The receiving side of the TCP transport (tcp_transport.c:115-306): messages prefixed with their
    length, read from a stream that may come in any pieces. */
module TcpTransport {
  import opened SeqNum

  /** What a stream of octets contains: its whole messages, and the octets of one that is not whole. */
  datatype Parsed = Parsed(messages: seq<seq<byte>>, rest: seq<byte>)

  function Length(octets: seq<byte>): SeqNum
    requires |octets| >= 2
  {
    octets[0] + 0x100 * octets[1] as int
  }

  function Prefix(n: SeqNum): seq<byte> {
    [n % 0x100, n / 0x100]
  }

  /** Empty messages are skipped. */
  function Some(message: seq<byte>): seq<seq<byte>> {
    if message == [] then [] else [message]
  }

  function Parse(octets: seq<byte>): (p: Parsed)
    decreases |octets|
  {
    if |octets| < 2 || |octets| < 2 + Length(octets) then Parsed([], octets)
    else
      var n := 2 + Length(octets);
      var p := Parse(octets[n..]);
      Parsed(Some(octets[2..n]) + p.messages, p.rest)
  }

  /** Every message of the stream, also one that is not whole yet, fits in the buffer. */
  ghost predicate Fits(octets: seq<byte>, mtu: nat)
    decreases |octets|
  {
    |octets| < 2 || (Length(octets) <= mtu && (|octets| < 2 + Length(octets) || Fits(octets[2 + Length(octets)..], mtu)))
  }

  /** A whole message at the front stays there when more octets come. */
  lemma FrontKept(a: seq<byte>, b: seq<byte>, n: nat)
    requires 2 <= n <= |a|
    ensures Length(a + b) == Length(a) && (a + b)[n..] == a[n..] + b && (a + b)[2..n] == a[2..n]
  {
  }

  /** Parsing can stop anywhere and go on with what was left. */
  lemma {:induction false} ParseAppend(a: seq<byte>, b: seq<byte>)
    ensures Parse(a + b)
         == Parsed(Parse(a).messages + Parse(Parse(a).rest + b).messages, Parse(Parse(a).rest + b).rest)
    decreases |a|
  {
    hide Length;
    hide Some;
    if |a| >= 2 && |a| >= 2 + Length(a) {
      var n := 2 + Length(a);
      ParseAppend(a[n..], b);
      FrontKept(a, b, n);
      Associates(Some(a[2..n]), Parse(a[n..]).messages, Parse(Parse(a[n..]).rest + b).messages);
    } else {
      NothingBefore(Parse(a + b).messages);
    }
  }

  lemma NothingBefore(a: seq<seq<byte>>)
    ensures [] + a == a
  {
  }

  lemma Associates(a: seq<seq<byte>>, b: seq<seq<byte>>, c: seq<seq<byte>>)
    ensures a + b + c == a + (b + c)
  {
  }

  lemma {:induction false} FitsRest(a: seq<byte>, b: seq<byte>, mtu: nat)
    requires Fits(a + b, mtu)
    ensures Fits(Parse(a).rest + b, mtu)
    decreases |a|
  {
    if |a| >= 2 && |a| >= 2 + Length(a) {
      var n := 2 + Length(a);
      FrontKept(a, b, n);
      FitsRest(a[n..], b, mtu);
    }
  }

  lemma FitsFirst(octets: seq<byte>, more: seq<byte>, mtu: nat)
    requires Fits(octets + more, mtu) && |octets| >= 2
    ensures Length(octets) <= mtu
  {
  }

  /** What the sender writes for some messages. */
  function Stream(messages: seq<seq<byte>>): seq<byte>
    requires forall m <- messages :: |m| < SEQ_NUM_SIZE
  {
    if messages == [] then [] else Prefix(|messages[0]|) + messages[0] + Stream(messages[1..])
  }

  /** On the line a message follows its length, least significant octet first. */
  lemma StreamOctets(message: seq<byte>, rest: seq<seq<byte>>)
    requires |message| < SEQ_NUM_SIZE && forall m <- rest :: |m| < SEQ_NUM_SIZE
    ensures forall m <- [message] + rest :: |m| < SEQ_NUM_SIZE
    ensures var s, n := Stream([message] + rest), 2 + |message|;
      && |s| >= n && s[0] + 0x100 * s[1] as int == |message| && s[2..n] == message && s[n..] == Stream(rest)
  {
    assert ([message] + rest)[1..] == rest;
  }

  function NonEmpty(messages: seq<seq<byte>>): seq<seq<byte>> {
    if messages == [] then [] else Some(messages[0]) + NonEmpty(messages[1..])
  }

  /** Each message that is not empty counts once, in its place. */
  lemma {:induction false} NonEmptyExactly(before: seq<seq<byte>>, message: seq<byte>)
    ensures NonEmpty(before + [message]) == NonEmpty(before) + if message == [] then [] else [message]
  {
    hide NonEmpty;
    NonEmptyNone();
    if before == [] {
      NonEmptyFirst(message, []);
      assert [message] + [] == [] + [message];
      assert Some(message) + [] == [] + Some(message);
    } else {
      var m, rest := before[0], before[1..];
      NonEmptyExactly(rest, message);
      NonEmptyFirst(m, rest + [message]);
      NonEmptyFirst(m, rest);
      assert [m] + rest == before && [m] + (rest + [message]) == before + [message];
      Associates(Some(m), NonEmpty(rest), if message == [] then [] else [message]);
    }
  }

  lemma NonEmptyNone()
    ensures NonEmpty([]) == []
  {
  }

  lemma NonEmptyFirst(message: seq<byte>, rest: seq<seq<byte>>)
    ensures NonEmpty([message] + rest) == Some(message) + NonEmpty(rest)
  {
    assert ([message] + rest)[1..] == rest;
  }

  /** Parsing undoes writing. */
  lemma {:induction false} StreamParsed(messages: seq<seq<byte>>)
    requires forall m <- messages :: |m| < SEQ_NUM_SIZE
    ensures Parse(Stream(messages)) == Parsed(NonEmpty(messages), [])
  {
    if messages != [] {
      var m, s := messages[0], Stream(messages);
      var n := 2 + |m|;
      StreamParsed(messages[1..]);
      assert Length(s) == |m| && s[n..] == Stream(messages[1..]) && s[2..n] == m;
    }
  }

  /** Octets that are not a whole message, and octets that are just one. */
  lemma ParseOne(octets: seq<byte>)
    ensures |octets| < 2 || |octets| < 2 + Length(octets) ==> Parse(octets) == Parsed([], octets)
    ensures |octets| >= 2 && |octets| == 2 + Length(octets) ==> Parse(octets) == Parsed(Some(octets[2..]), [])
  {
    if |octets| >= 2 && |octets| == 2 + Length(octets) {
      assert octets[2..|octets|] == octets[2..] && octets[|octets|..] == [];
    }
  }

  lemma PrefixOf(octets: seq<byte>)
    requires |octets| == 2
    ensures octets == Prefix(Length(octets)) && octets[2..] == []
  {
  }

  lemma LengthOf(n: SeqNum, octets: seq<byte>)
    ensures Length(Prefix(n) + octets) == n && (Prefix(n) + octets)[2..] == octets
  {
  }

  datatype Event = Bytes(n: nat) | Error(code: nat)

  /** The connection: it gives some of the octets that wait, none, or an error.  A steady one gives at least
      one while there are any. */
  class TcpPlatform {
    const steady: bool
    var pending: seq<byte>
    var script: seq<Event>
    var connected: bool

    /** How many reads gave nothing, and how many gave less than they were asked for. */
    ghost var dry: nat
    ghost var short: nat

    /** The error code of the last one. */
    ghost var error: nat

    constructor (pending: seq<byte>, script: seq<Event>, steady: bool)
      ensures this.pending == pending && connected && this.steady == steady && dry == short == 0
    {
      this.pending, this.script, this.connected, this.steady := pending, script, true, steady;
      dry, short, error := 0, 0, 0;
    }

    method Read(n: nat) returns (data: seq<byte>, errcode: nat)
      modifies this`pending, this`script, this`dry, this`short, this`error
      ensures error == errcode
      ensures |data| <= n && old(pending) == data + pending
      ensures !connected ==> data == []
      ensures dry == old(dry) + if data == [] then 1 else 0
      ensures short == old(short) + if |data| < n then 1 else 0
      ensures steady && connected && 0 < n && old(pending) != [] ==> data != []
    {
      data, errcode := [], 0;
      if connected {
        var event := if script == [] then Bytes(0) else script[0];
        if event.Error? && !(steady && pending != []) {
          errcode := event.code;
        } else {
          var size := if event.Error? then 0 else event.n;
          size := if steady && size == 0 then 1 else size;
          size := if size < n then size else n;
          size := if size < |pending| then size else |pending|;
          data := pending[..size];
          pending := pending[size..];
        }
      }
      if script != [] {
        script := script[1..];
      }
      dry := dry + if data == [] then 1 else 0;
      short := short + if |data| < n then 1 else 0;
      error := errcode;
    }

    method Disconnect()
      modifies this`connected
      ensures !connected
    {
      connected := false;
    }

    /** A steady connection is lost at most after everything has been read. */
    ghost predicate Gives()
      reads this
    {
      steady && (connected || pending == [])
    }
  }

  function Spent(elapsed: seq<nat>, n: nat): nat
    requires n <= |elapsed|
  {
    if n == 0 then 0 else Spent(elapsed, n - 1) + elapsed[n - 1]
  }

  /** After n reads no time is left. */
  predicate TimeOut(timeout: int, elapsed: seq<nat>, n: nat) {
    n > |elapsed| || Spent(elapsed, n) >= timeout
  }

  datatype BufferState = BufferEmpty | SizeIncomplete | SizeRead | MessageIncomplete | MessageAvailable

  class TcpTransport {
    const platform: TcpPlatform
    const buffer: array<byte>
    var state: BufferState
    var position: nat
    var msgSize: nat
    var errorCode: nat

    /** The octets read so far, and the messages returned. */
    ghost var consumed: seq<byte>
    ghost var returned: seq<seq<byte>>

    /** The fields say what is left of the octets read so far. */
    ghost predicate Fields(p: Parsed)
      reads this, buffer
    {
      match state
      case BufferEmpty => p == Parsed(returned, [])
      case SizeIncomplete => msgSize < 0x100 && p == Parsed(returned, [msgSize])
      case SizeRead => 0 < msgSize <= buffer.Length && msgSize < SEQ_NUM_SIZE && p == Parsed(returned, Prefix(msgSize))
      case MessageIncomplete =>
        0 < position < msgSize <= buffer.Length && msgSize < SEQ_NUM_SIZE
        && p == Parsed(returned, Prefix(msgSize) + buffer[..position])
      case MessageAvailable => 0 < msgSize <= buffer.Length && p == Parsed(returned + [buffer[..msgSize]], [])
    }

    ghost predicate Valid()
      reads this, buffer, platform
    {
      Fields(Parse(consumed)) && Fits(consumed + platform.pending, buffer.Length)
    }

    constructor (platform: TcpPlatform, mtu: nat)
      requires Fits(platform.pending, mtu)
      ensures Valid() && fresh(buffer) && consumed == [] && returned == [] && this.platform == platform
    {
      this.platform := platform;
      buffer := new byte[mtu];
      state, position, msgSize, errorCode := BufferEmpty, 0, 0, 0;
      consumed, returned := [], [];
      new;
      assert [] + platform.pending == platform.pending;
    }

    ghost function Line(): seq<byte>
      reads this, platform
    {
      consumed + platform.pending
    }

    /** After a read that gave nothing: its error is kept, and disconnects. */
    ghost predicate Reported(connected: bool)
      reads this`errorCode, platform
    {
      errorCode == platform.error && platform.connected == (connected && errorCode == 0)
    }

    /** Octets are read; there may be none. */
    method ReadPlatform(n: nat) returns (data: seq<byte>)
      requires Fits(consumed + platform.pending, buffer.Length) && 0 < n
      modifies platform, this`consumed, this`errorCode
      ensures |data| <= n && consumed == old(consumed) + data && Line() == old(Line())
      ensures Fits(consumed + platform.pending, buffer.Length)
      ensures old(platform.pending) == data + platform.pending
      ensures Parse(consumed) == Parsed(Parse(old(consumed)).messages + Parse(Parse(old(consumed)).rest + data).messages,
                                        Parse(Parse(old(consumed)).rest + data).rest)
      ensures Fits(Parse(old(consumed)).rest + data + platform.pending, buffer.Length)
      ensures platform.dry == old(platform.dry) + (if data == [] then 1 else 0)
      ensures platform.short == old(platform.short) + (if |data| < n then 1 else 0)
      ensures if data == [] then Reported(old(platform.connected)) else platform.connected == old(platform.connected)
      ensures old(platform.Gives()) ==> platform.Gives() && (data == [] ==> platform.pending == [])
    {
      hide Parse;
      hide Fits;
      var errcode;
      ghost var before, line := consumed, consumed + platform.pending;
      data, errcode := platform.Read(n);
      ParseAppend(consumed, data);
      FitsRest(consumed, data + platform.pending, buffer.Length);
      assert Parse(before).rest + (data + platform.pending) == Parse(before).rest + data + platform.pending;
      consumed := consumed + data;
      assert consumed + platform.pending == line;
      if data == [] {
        if 0 < errcode {
          platform.Disconnect();
        }
        errorCode := errcode;
      }
    }

    /** What the next octets make of the rest that was not a whole message. */
    lemma Continued(p: Parsed, data: seq<byte>)
      requires p.messages == returned
      ensures var q, r := Parse(p.rest + data), p.rest + data;
        && (|r| < 2 || |r| < 2 + Length(r) ==> Parsed(p.messages + q.messages, q.rest) == Parsed(returned, r))
        && (|r| >= 2 && |r| == 2 + Length(r) ==>
              Parsed(p.messages + q.messages, q.rest) == Parsed(returned + Some(r[2..]), []))
    {
      ParseOne(p.rest + data);
    }

    /** The case UXR_TCP_BUFFER_EMPTY. */
    method EmptyTurn() returns (exitFlag: bool)
      requires Valid() && state == BufferEmpty
      modifies platform, this`consumed, this`errorCode, this`state, this`position, this`msgSize
      ensures Valid() && Line() == old(Line())
      ensures if exitFlag then platform.pending == old(platform.pending) else |platform.pending| < |old(platform.pending)|
      ensures platform.dry == old(platform.dry) + (if exitFlag then 1 else 0)
      ensures platform.short >= old(platform.short) + (if exitFlag then 1 else 0)
      ensures if exitFlag then Reported(old(platform.connected)) else platform.connected == old(platform.connected)
      ensures old(platform.Gives()) ==> platform.Gives() && (exitFlag ==> platform.pending == [])
      ensures state != MessageAvailable
    {
      hide Parse;
      hide Prefix;
      hide Fits;
      position := 0;
      exitFlag := false;
      ghost var p := Parse(consumed);
      var sizeBuf := ReadPlatform(2);
      Continued(p, sizeBuf);
      assert p.rest + sizeBuf == sizeBuf;
      if 0 < |sizeBuf| {
        msgSize := 0;
        if 2 == |sizeBuf| {
          msgSize := 0x100 * sizeBuf[1] as int + sizeBuf[0];
          PrefixOf(sizeBuf);
          FitsFirst(sizeBuf, platform.pending, buffer.Length);
          if msgSize != 0 {
            state := SizeRead;
          } else {
            assert returned + [] == returned;
          }
        } else {
          msgSize := sizeBuf[0];
          state := SizeIncomplete;
        }
      } else {
        exitFlag := true;
      }
    }

    /** The case UXR_TCP_SIZE_INCOMPLETE. */
    method SizeTurn() returns (exitFlag: bool)
      requires Valid() && state == SizeIncomplete
      modifies platform, this`consumed, this`errorCode, this`state, this`msgSize
      ensures Valid() && Line() == old(Line())
      ensures if exitFlag then platform.pending == old(platform.pending) else |platform.pending| < |old(platform.pending)|
      ensures platform.dry == old(platform.dry) + (if exitFlag then 1 else 0)
      ensures platform.short >= old(platform.short) + (if exitFlag then 1 else 0)
      ensures if exitFlag then Reported(old(platform.connected)) else platform.connected == old(platform.connected)
      ensures old(platform.Gives()) ==> platform.Gives() && (exitFlag ==> platform.pending == [])
      ensures state != MessageAvailable
    {
      hide Parse;
      hide Prefix;
      hide Fits;
      exitFlag := false;
      ghost var p := Parse(consumed);
      var sizeMsb := ReadPlatform(1);
      Continued(p, sizeMsb);
      assert p.rest + sizeMsb == [msgSize] + sizeMsb;
      if 0 < |sizeMsb| {
        msgSize := 0x100 * sizeMsb[0] as int + msgSize;
        PrefixOf(p.rest + sizeMsb);
        FitsFirst(p.rest + sizeMsb, platform.pending, buffer.Length);
        if msgSize != 0 {
          state := SizeRead;
        } else {
          assert returned + [] == returned;
          state := BufferEmpty;
        }
      } else {
        exitFlag := true;
      }
    }

    /** memcpy of what was read. */
    method Store(at: nat, data: seq<byte>)
      requires at + |data| <= buffer.Length
      modifies buffer
      ensures buffer[..at + |data|] == old(buffer[..at]) + data
    {
      forall i | 0 <= i < |data| {
        buffer[at + i] := data[i];
      }
    }

    /** The octets that have come follow those already in the buffer. */
    method Extend(from: nat, data: seq<byte>) returns (exitFlag: bool)
      requires (state == SizeRead && from == 0) || (state == MessageIncomplete && from == position)
      requires data != [] && from + |data| <= msgSize <= buffer.Length && msgSize < SEQ_NUM_SIZE
      requires Parse(consumed) == if from + |data| < msgSize then Parsed(returned, Prefix(msgSize) + (buffer[..from] + data))
                                  else Parsed(returned + [buffer[..from] + data], [])
      modifies this`state, this`position, buffer
      ensures Fields(Parse(consumed)) && exitFlag == (state != MessageAvailable)
    {
      hide Parse;
      hide Prefix;
      Store(from, data);
      if state == MessageIncomplete || |data| < msgSize {
        position := from + |data|;
      }
      exitFlag := from + |data| != msgSize;
      state := if exitFlag then MessageIncomplete else MessageAvailable;
    }

    /** The cases UXR_TCP_SIZE_READ and UXR_TCP_MESSAGE_INCOMPLETE: more of the message. */
    method MessageTurn() returns (exitFlag: bool)
      requires Valid() && (state == SizeRead || state == MessageIncomplete)
      modifies platform, this`consumed, this`errorCode, this`state, this`position, buffer
      ensures Valid() && Line() == old(Line())
      ensures |platform.pending| < |old(platform.pending)| || (exitFlag && platform.pending == old(platform.pending))
      ensures exitFlag <==> state != MessageAvailable
      ensures platform.dry == old(platform.dry) + (if |platform.pending| < |old(platform.pending)| then 0 else 1)
      ensures platform.short >= old(platform.short) + (if exitFlag then 1 else 0)
      ensures if platform.dry > old(platform.dry) then Reported(old(platform.connected))
              else platform.connected == old(platform.connected)
      ensures old(platform.Gives()) ==> platform.Gives() && (platform.pending == old(platform.pending) ==> platform.pending == [])
    {
      hide Parse;
      hide Prefix;
      hide Fits;
      ghost var p := Parse(consumed);
      var from := if state == SizeRead then 0 else position;
      ghost var part := buffer[..from];
      var data := ReadPlatform(msgSize - from);
      Continued(p, data);
      RestExtended(p.rest, msgSize, part, data);
      if 0 < |data| {
        exitFlag := Extend(from, data);
      } else {
        assert part + data == part;
        exitFlag := true;
      }
    }

    /** What has been read of a message, and more of it. */
    lemma RestExtended(rest: seq<byte>, n: SeqNum, part: seq<byte>, data: seq<byte>)
      requires rest == Prefix(n) + part || (rest == Prefix(n) && part == [])
      ensures rest + data == Prefix(n) + (part + data)
      ensures |rest + data| == 2 + |part| + |data| && Length(rest + data) == n && (rest + data)[2..] == part + data
    {
      LengthOf(n, part + data);
    }

    /** read_tcp_data: at most one message, as soon as it is whole. */
    method ReadTcpData() returns (rv: nat)
      requires Valid()
      modifies this, platform, buffer
      ensures Valid() && Line() == old(Line()) && rv <= buffer.Length
      ensures returned == if rv > 0 then old(returned) + [buffer[..rv]] else old(returned)
      ensures state != MessageAvailable
      ensures |platform.pending| < |old(platform.pending)| || rv > 0 || platform.dry > old(platform.dry)
      ensures rv == 0 ==> platform.short > old(platform.short)
      ensures if platform.dry > old(platform.dry) then Reported(old(platform.connected))
              else platform.connected == old(platform.connected)
      ensures |platform.pending| <= |old(platform.pending)| && platform.dry >= old(platform.dry)
      ensures old(state) != MessageAvailable && rv > 0 ==> |platform.pending| < |old(platform.pending)|
      ensures old(platform.Gives()) ==>
        platform.Gives() && (platform.pending == [] || |platform.pending| < |old(platform.pending)| || rv > 0)
    {
      hide Parse;
      hide Fits;
      hide Fields;
      rv := 0;
      var exitFlag := false;
      while !exitFlag
        invariant Valid() && Line() == old(Line()) && rv <= buffer.Length && (rv > 0 ==> exitFlag)
        invariant returned == if rv > 0 then old(returned) + [buffer[..rv]] else old(returned)
        invariant exitFlag ==> state != MessageAvailable
        invariant |platform.pending| <= |old(platform.pending)|
        invariant platform.dry >= old(platform.dry) && platform.short >= old(platform.short)
        invariant !exitFlag && old(state) != MessageAvailable && state == MessageAvailable ==>
          |platform.pending| < |old(platform.pending)|
        invariant rv > 0 && old(state) != MessageAvailable ==> |platform.pending| < |old(platform.pending)|
        invariant exitFlag ==> |platform.pending| < |old(platform.pending)| || rv > 0 || platform.dry > old(platform.dry)
        invariant exitFlag && rv == 0 ==> platform.short > old(platform.short)
        invariant if platform.dry > old(platform.dry) then exitFlag && Reported(old(platform.connected))
                  else platform.connected == old(platform.connected)
        invariant old(platform.Gives()) ==> platform.Gives()
        invariant exitFlag && old(platform.Gives()) ==>
          platform.pending == [] || |platform.pending| < |old(platform.pending)| || rv > 0
        decreases |platform.pending|, !exitFlag
      {
        match state
        case BufferEmpty => exitFlag := EmptyTurn();
        case SizeIncomplete => exitFlag := SizeTurn();
        case SizeRead => exitFlag := MessageTurn();
        case MessageIncomplete => exitFlag := MessageTurn();
        case MessageAvailable =>
          rv := ReturnMessage();
          exitFlag := true;
      }
    }

    /** The case UXR_TCP_MESSAGE_AVAILABLE. */
    method ReturnMessage() returns (rv: nat)
      requires Valid() && state == MessageAvailable
      modifies this`state, this`returned
      ensures Valid() && state == BufferEmpty && 0 < rv <= buffer.Length
      ensures returned == old(returned) + [buffer[..rv]]
    {
      rv := msgSize;
      returned := returned + [buffer[..rv]];
      state := BufferEmpty;
    }

    /** recv_tcp_msg: reads are repeated until there is a message or the time has run out.  `elapsed` is what
        the clock says that each of them took; there is no time left after the last of these. */
    method RecvTcpMsg(timeout: int, elapsed: seq<nat>) returns (rv: bool, len: nat, ghost tries: nat)
      requires Valid() && state != MessageAvailable
      modifies this, platform, buffer
      ensures Valid() && Line() == old(Line()) && state != MessageAvailable
      ensures rv == (len > 0) && len <= buffer.Length
      ensures returned == if rv then old(returned) + [buffer[..len]] else old(returned)
      ensures 0 < tries && (!rv ==> TimeOut(timeout, elapsed, tries))
      ensures forall k | 0 < k < tries :: !TimeOut(timeout, elapsed, k)
      ensures |old(platform.pending)| - |platform.pending| + platform.dry - old(platform.dry) >= tries
    {
      hide Parse;
      hide Fits;
      hide Fields;
      rv := false;
      len := 0;
      tries := 0;
      var remaining, clock, bytesRead := timeout, elapsed, 0;
      var again := true;
      while again
        invariant Valid() && Line() == old(Line()) && state != MessageAvailable
        invariant rv == (len > 0) && len <= buffer.Length && (again ==> !rv)
        invariant returned == if rv then old(returned) + [buffer[..len]] else old(returned)
        invariant clock == elapsed[if tries < |elapsed| then tries else |elapsed|..]
        invariant tries <= |elapsed| ==> remaining == timeout - Spent(elapsed, tries)
        invariant again && tries > 0 ==> !TimeOut(timeout, elapsed, tries)
        invariant !again && !rv ==> TimeOut(timeout, elapsed, tries)
        invariant !again ==> tries > 0
        invariant forall k | 0 < k < tries :: !TimeOut(timeout, elapsed, k)
        invariant |old(platform.pending)| - |platform.pending| + platform.dry - old(platform.dry) >= tries
        decreases |clock|, again
      {
        bytesRead := ReadTcpData();
        if 0 < bytesRead {
          len := bytesRead;
          rv := true;
        }
        remaining := if clock == [] then 0 else remaining - clock[0];
        again := 0 == bytesRead && 0 < remaining;
        tries := tries + 1;
        if clock != [] {
          clock := clock[1..];
        }
      }
    }

    /** The caller reads again and again.  On a steady connection one read for each octet still to come is
        enough to read them all. */
    method ReadMessages(calls: nat) returns (msgs: seq<seq<byte>>)
      requires Valid() && state != MessageAvailable
      modifies this, platform, buffer
      ensures Valid() && Line() == old(Line()) && state != MessageAvailable && returned == old(returned) + msgs
      ensures old(platform.Gives()) && calls >= |old(platform.pending)| ==> platform.pending == []
    {
      hide Parse;
      hide Fits;
      hide Fields;
      msgs := [];
      var i := 0;
      while i < calls
        invariant 0 <= i <= calls && Valid() && Line() == old(Line()) && state != MessageAvailable
        invariant returned == old(returned) + msgs
        invariant old(platform.Gives()) ==>
          platform.Gives() && (platform.pending == [] || |platform.pending| <= |old(platform.pending)| - i)
      {
        var n := ReadTcpData();
        if n > 0 {
          msgs := msgs + [buffer[..n]];
        }
        i := i + 1;
      }
    }

    /** So enough reads on a steady connection return exactly the messages sent, the empty ones excepted. */
    method ReadSent(calls: nat, ghost messages: seq<seq<byte>>) returns (msgs: seq<seq<byte>>)
      requires Valid() && state != MessageAvailable && returned == []
      requires (forall m <- messages :: |m| < SEQ_NUM_SIZE) && consumed + platform.pending == Stream(messages)
      modifies this, platform, buffer
      ensures Valid() && state != MessageAvailable && msgs <= NonEmpty(messages)
      ensures old(platform.Gives()) && calls >= |old(platform.pending)| ==> msgs == NonEmpty(messages)
    {
      hide Parse;
      hide Fits;
      hide Fields;
      msgs := ReadMessages(calls);
      ReturnsSent(messages);
    }

    /** In whatever pieces the octets came, and however the calls were made: what has been returned is
        what a parser finds in the octets read so far. */
    lemma ReturnsParsed()
      requires Valid() && state != MessageAvailable
      ensures returned == Parse(consumed).messages
    {
    }

    /** Messages that are sent arrive, the empty ones excepted: a prefix of them at any time, and all
        once everything has been read. */
    lemma ReturnsSent(messages: seq<seq<byte>>)
      requires Valid() && state != MessageAvailable && forall m <- messages :: |m| < SEQ_NUM_SIZE
      requires consumed + platform.pending == Stream(messages)
      ensures returned <= NonEmpty(messages)
      ensures platform.pending == [] ==> returned == NonEmpty(messages)
    {
      hide Fits;
      StreamParsed(messages);
      ParseAppend(consumed, platform.pending);
      if platform.pending == [] {
        assert consumed + [] == consumed;
      }
    }
  }
}
