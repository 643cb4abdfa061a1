/** The writer of the stream framing protocol: a frame goes out through a buffer of 42 octets. */
module FramingWriter {
  import opened SeqNum
  import opened Framing
  import Crc16

  const BUFFER_SIZE := 42

  /** The transport underneath: it takes as many octets as it pleases of those it is offered. */
  class ByteSink {
    var script: seq<nat>
    ghost var accepted: seq<byte>

    /** How often it took nothing. */
    ghost var refused: nat

    constructor (script: seq<nat>)
      ensures accepted == [] && refused == 0
    {
      this.script, accepted, refused := script, [], 0;
    }

    method Write(data: seq<byte>) returns (n: nat)
      modifies this
      ensures n <= |data| && accepted == old(accepted) + data[..n]
      ensures refused == old(refused) + if n == 0 then 1 else 0
    {
      n := if script == [] then 0 else if script[0] < |data| then script[0] else |data|;
      if script != [] {
        script := script[1..];
      }
      accepted := accepted + data[..n];
      refused := refused + if n == 0 then 1 else 0;
    }
  }

  lemma {:induction false} StuffPrefix(data: seq<byte>, n: nat)
    requires n <= |data|
    ensures Stuff(data[..n]) <= Stuff(data)
  {
    StuffAppend(data[..n], data[n..]);
    assert data[..n] + data[n..] == data;
  }

  /** The transport has accepted `before` and then a part, but not all, of the frame. */
  ghost predicate Broken(before: seq<byte>, frame: seq<byte>, accepted: seq<byte>) {
    exists k: nat :: k < |frame| && accepted == before + frame[..k]
  }

  /** A writer that failed has left nothing on the line, or an unfinished frame. */
  lemma BrokenIsUnfinished(before: seq<byte>, src: byte, dst: byte, payload: seq<byte>, accepted: seq<byte>)
    returns (left: seq<Segment>)
    requires |payload| < SEQ_NUM_SIZE && Broken(before, Frame(src, dst, payload), accepted)
    ensures |left| <= 1 && (forall s <- left :: s.Unfinished? && s.Valid()) && accepted == before + Line(left)
  {
    hide Frame;
    hide Segment.Octets;
    hide Segment.Valid;
    var k: nat :| k < |Frame(src, dst, payload)| && accepted == before + Frame(src, dst, payload)[..k];
    if k == 0 {
      left := [];
    } else {
      var n, escape := PartOfFrame(src, dst, payload, k);
      var s := Unfinished(src, dst, payload, n, escape);
      left := [s];
      assert left[1..] == [] && s.Octets() + [] == s.Octets();
    }
  }

  lemma CrcNone(data: seq<byte>)
    ensures Crc16.Crc(data[..0]) == 0
  {
  }

  lemma CrcNext(data: seq<byte>, n: nat)
    requires n < |data|
    ensures Crc16.Crc(data[..n + 1]) == Crc16.Update(Crc16.Crc(data[..n]), data[n])
  {
    assert data[..n + 1][..n] == data[..n];
  }

  lemma PartGrows(body: seq<byte>, m: nat)
    requires m < |body|
    ensures Part(body, m + 1) == Part(body, m) + StuffOctet(body[m])
  {
    assert body[..m + 1][..m] == body[..m];
  }

  /** An octet has been added to the buffer. */
  lemma OctetAdded(before: seq<byte>, body: seq<byte>, m: nat, accepted: seq<byte>, buffered: seq<byte>)
    requires m < |body| && accepted + buffered == before + Part(body, m)
    ensures accepted + (buffered + StuffOctet(body[m])) == before + Part(body, m + 1)
  {
    hide Part;
    hide StuffOctet;
    PartGrows(body, m);
    assert accepted + (buffered + StuffOctet(body[m])) == accepted + buffered + StuffOctet(body[m]);
    assert before + (Part(body, m) + StuffOctet(body[m])) == before + Part(body, m) + StuffOctet(body[m]);
  }

  /** The buffer has been flushed. */
  lemma AllFlushed(accepted: seq<byte>, buffered: seq<byte>, n: nat)
    requires n == |buffered|
    ensures accepted + buffered[..n] + [] == accepted + buffered
  {
  }

  lemma WholePart(body: seq<byte>)
    ensures Part(body, |body|) == [BEGIN_FLAG] + Stuff(body)
  {
    assert body[..|body|] == body;
  }

  /** A flush that was cut short leaves a part of the frame on the line. */
  lemma CutShort(before: seq<byte>, body: seq<byte>, m: nat, accepted: seq<byte>, buffered: seq<byte>, n: nat)
    requires m <= |body| && before <= accepted && accepted + buffered == before + Part(body, m) && n < |buffered|
    ensures Broken(before, [BEGIN_FLAG] + Stuff(body), accepted + buffered[..n])
  {
    StuffPrefix(body, m);
    hide Stuff;
    CutInFrame(before, [BEGIN_FLAG] + Stuff(body), Part(body, m), accepted, buffered, n);
  }

  lemma CutInFrame(before: seq<byte>, frame: seq<byte>, part: seq<byte>, accepted: seq<byte>, buffered: seq<byte>, n: nat)
    requires part <= frame && before <= accepted && accepted + buffered == before + part && n < |buffered|
    ensures Broken(before, frame, accepted + buffered[..n])
  {
    var k := |accepted| + n - |before|;
    var now := accepted + buffered[..n];
    assert now == (accepted + buffered)[..|accepted| + n];
    assert now == before + part[..k] == before + frame[..k];
  }

  class FramingWriter {
    const wb: array<byte>
    const localAddr: byte
    var wbPos: nat

    ghost predicate Valid()
      reads this
    {
      wb.Length == BUFFER_SIZE && wbPos <= BUFFER_SIZE
    }

    ghost function Buffered(): seq<byte>
      requires Valid()
      reads this, wb
    {
      wb[..wbPos]
    }

    constructor (localAddr: byte)
      ensures Valid() && Buffered() == [] && this.localAddr == localAddr && fresh(wb)
    {
      wb := new byte[BUFFER_SIZE];
      wbPos := 0;
      this.localAddr := localAddr;
    }

    /** uxr_add_next_octet. */
    method AddNextOctet(octet: byte) returns (added: bool)
      requires Valid()
      modifies this`wbPos, wb
      ensures Valid() && added == (old(wbPos) + |StuffOctet(octet)| <= BUFFER_SIZE)
      ensures Buffered() == if added then old(Buffered()) + StuffOctet(octet) else old(Buffered())
    {
      added := false;
      if BEGIN_FLAG == octet || ESC_FLAG == octet {
        if (wbPos + 1) % 0x100 < BUFFER_SIZE {
          wb[wbPos] := ESC_FLAG;
          wb[wbPos + 1] := Toggle(octet);
          wbPos := wbPos + 2;
          added := true;
        }
      } else {
        if wbPos < BUFFER_SIZE {
          wb[wbPos] := octet;
          wbPos := wbPos + 1;
          added := true;
        }
      }
    }

    /** uxr_framing_write_transport. */
    method WriteTransport(sink: ByteSink) returns (done: bool, ghost n: nat)
      requires Valid() && 0 < wbPos
      modifies this`wbPos, sink
      ensures Valid() && n <= old(wbPos) && sink.accepted == old(sink.accepted) + old(Buffered())[..n]
      ensures done == (n == old(wbPos))
      ensures wbPos == if done then 0 else old(wbPos)
      ensures sink.refused == old(sink.refused) + if done then 0 else 1
    {
      var bytesWritten, lastWritten := 0, 1;
      ghost var before := sink.accepted;
      while bytesWritten < wbPos && 0 < lastWritten
        invariant bytesWritten <= wbPos && wbPos == old(wbPos)
        invariant sink.accepted == before + wb[..bytesWritten]
        invariant sink.refused == old(sink.refused) + if lastWritten == 0 then 1 else 0
        invariant lastWritten == 0 ==> bytesWritten < wbPos
        decreases wbPos - bytesWritten, lastWritten
      {
        lastWritten := sink.Write(wb[bytesWritten..wbPos]);
        bytesWritten := bytesWritten + lastWritten;
      }
      n := bytesWritten;
      assert Buffered()[..n] == wb[..n];
      done := bytesWritten == wbPos;
      if done {
        wbPos := 0;
      }
    }

    /** m octets of the body are on the line or in the buffer. */
    ghost predicate Writing(before: seq<byte>, body: seq<byte>, m: nat, accepted: seq<byte>)
      reads this, wb
    {
      Valid() && m <= |body| && before <= accepted && accepted + Buffered() == before + Part(body, m)
    }

    /** One turn of the loops of uxr_write_framed_msg: the next octet is buffered, or the buffer is
        flushed to make room for it. */
    method PutOrFlush(sink: ByteSink, octet: byte, ghost before: seq<byte>, ghost body: seq<byte>, ghost m: nat)
      returns (added: bool, cond: bool)
      requires Writing(before, body, m, sink.accepted) && m < |body| && octet == body[m]
      modifies this`wbPos, wb, sink
      ensures Valid() && (cond ==> Writing(before, body, if added then m + 1 else m, sink.accepted))
      ensures !cond ==> !added && Valid() && Broken(before, [BEGIN_FLAG] + Stuff(body), sink.accepted)
      ensures cond && !added ==> wbPos < old(wbPos)
      ensures sink.refused == old(sink.refused) + if cond then 0 else 1
    {
      hide StuffOctet;
      hide Stuff;
      hide Part;
      hide Broken;
      ghost var accepted, buffered := sink.accepted, Buffered();
      cond := true;
      added := AddNextOctet(octet);
      if added {
        OctetAdded(before, body, m, accepted, buffered);
      } else {
        ShortStuff(octet);
        ghost var n;
        cond, n := WriteTransport(sink);
        if cond {
          AllFlushed(accepted, buffered, n);
        } else {
          CutShort(before, body, m, accepted, buffered, n);
        }
      }
    }

    lemma ShortStuff(octet: byte)
      ensures |StuffOctet(octet)| <= 2
    {
    }

    /** An octet that certainly fits in the buffer. */
    method PutSurely(octet: byte, ghost before: seq<byte>, ghost body: seq<byte>, ghost m: nat)
      requires Writing(before, body, m, before) && m < |body| && octet == body[m] && wbPos + 2 <= BUFFER_SIZE
      modifies this`wbPos, wb
      ensures Writing(before, body, m + 1, before) && wbPos <= old(wbPos) + 2
    {
      hide StuffOctet;
      hide Part;
      ShortStuff(octet);
      PartGrows(body, m);
      ghost var buffered := Buffered();
      var added := AddNextOctet(octet);
      assert before + (buffered + StuffOctet(octet)) == before + buffered + StuffOctet(octet);
      assert before + Part(body, m) + StuffOctet(octet) == before + (Part(body, m) + StuffOctet(octet));
    }

    /** The begin flag and the header, which fit in the empty buffer. */
    method PutHeader(remoteAddr: byte, length: SeqNum, ghost before: seq<byte>, ghost body: seq<byte>)
      requires Valid() && 4 <= |body| && body[..4] == [localAddr, remoteAddr] + Word16(length)
      modifies this`wbPos, wb
      ensures Valid() && Writing(before, body, 4, before)
    {
      hide Stuff;
      wb[0] := BEGIN_FLAG;
      wbPos := 1;
      assert Buffered() == Part(body, 0) by { NoPart(body); }
      PutSurely(localAddr, before, body, 0);
      PutSurely(remoteAddr, before, body, 1);
      PutSurely(length % 0x100, before, body, 2);
      PutSurely(length / 0x100 % 0x100, before, body, 3);
    }

    lemma NoPart(body: seq<byte>)
      ensures Part(body, 0) == [BEGIN_FLAG]
    {
      assert body[..0] == [];
    }

    /** The CRC, least significant octet first, and the last flush. */
    method PutCrc(sink: ByteSink, crc: SeqNum, going: bool, ghost m: nat, ghost before: seq<byte>, ghost body: seq<byte>)
      returns (cond: bool)
      requires going ==> Writing(before, body, m, sink.accepted) && |body| == m + 2 && body[m..] == Word16(crc)
      requires !going ==> Valid() && Broken(before, [BEGIN_FLAG] + Stuff(body), sink.accepted)
      modifies this`wbPos, wb, sink
      ensures Valid()
      ensures if cond then sink.accepted == before + ([BEGIN_FLAG] + Stuff(body))
              else Broken(before, [BEGIN_FLAG] + Stuff(body), sink.accepted)
      ensures sink.refused == old(sink.refused) + (if going && !cond then 1 else 0) && (!going ==> !cond)
    {
      hide Broken;
      hide Stuff;
      hide StuffOctet;
      cond := going;
      var tmpCrc := [crc % 0x100, crc / 0x100];
      var writtenLen := 0;
      while writtenLen < |tmpCrc| && cond
        invariant writtenLen <= |tmpCrc| && Valid()
        invariant cond ==> going && Writing(before, body, m + writtenLen, sink.accepted)
        invariant !cond ==> Broken(before, [BEGIN_FLAG] + Stuff(body), sink.accepted)
        invariant sink.refused == old(sink.refused) + if going && !cond then 1 else 0
        invariant !going ==> !cond
        decreases |tmpCrc| - writtenLen, cond, wbPos
      {
        assert body[m + writtenLen] == body[m..][writtenLen] == tmpCrc[writtenLen];
        var added;
        added, cond := PutOrFlush(sink, tmpCrc[writtenLen], before, body, m + writtenLen);
        if added {
          writtenLen := writtenLen + 1;
        }
      }
      WholePart(body);
      if cond {
        ghost var accepted, buffered, k := sink.accepted, Buffered(), 0;
        if 0 < wbPos {
          cond, k := WriteTransport(sink);
        }
        if cond {
          assert buffered[..k] == buffered && accepted + buffered == before + Part(body, |body|);
        } else {
          CutShort(before, body, |body|, accepted, buffered, k);
        }
      }
    }

    /** uxr_write_framed_msg: on success the transport has accepted exactly the frame, whatever it
        took at a time, and otherwise a proper part of it. */
    method WriteFramedMsg(sink: ByteSink, buf: seq<byte>, remoteAddr: byte) returns (n: nat, ghost ok: bool)
      requires Valid() && |buf| < SEQ_NUM_SIZE
      modifies this`wbPos, wb, sink
      ensures Valid() && n == if ok then |buf| else 0
      ensures ok ==> sink.accepted == old(sink.accepted) + Frame(localAddr, remoteAddr, buf)
      ensures !ok ==> Broken(old(sink.accepted), Frame(localAddr, remoteAddr, buf), sink.accepted)
      ensures sink.refused == old(sink.refused) + if ok then 0 else 1
    {
      hide Broken;
      hide Stuff;
      hide Writing;
      hide Crc16.Crc;
      hide Crc16.Update;
      hide CrcNumber;
      ghost var before, body := sink.accepted, Body(localAddr, remoteAddr, buf, CrcWord(buf));
      PutHeader(remoteAddr, |buf|, before, body);
      var writtenLen := 0;
      var crc: bv16 := 0;
      var cond := true;
      CrcNone(buf);
      while writtenLen < |buf| && cond
        invariant writtenLen <= |buf| && Valid() && crc == Crc16.Crc(buf[..writtenLen])
        invariant cond ==> Writing(before, body, 4 + writtenLen, sink.accepted)
        invariant !cond ==> Broken(before, [BEGIN_FLAG] + Stuff(body), sink.accepted)
        invariant sink.refused == old(sink.refused) + if cond then 0 else 1
        decreases |buf| - writtenLen, cond, wbPos
      {
        var octet := buf[writtenLen];
        var added;
        added, cond := PutOrFlush(sink, octet, before, body, 4 + writtenLen);
        if added {
          CrcNext(buf, writtenLen);
          crc := Crc16.Update(crc, octet);
          writtenLen := writtenLen + 1;
        }
      }
      assert cond ==> buf[..writtenLen] == buf;
      cond := PutCrc(sink, CrcNumber(crc), cond, 4 + |buf|, before, body);
      ok := cond;
      n := if cond then |buf| else 0;
    }
  }
}
