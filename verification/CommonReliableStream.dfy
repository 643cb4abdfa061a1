/** The memory of a reliable stream (common_reliable_stream_internal.h): one octet buffer cut into
    `history` slots of equal stride, each a four octet length word followed by a block. */
module CommonReliableStream {
  import opened SeqNum
  import opened Slots

  const INTERNAL_RELIABLE_BUFFER_OFFSET := 4
  const LENGTH_LIMIT := 0x1_0000_0000

  /** The length word in memory order of a little-endian machine. */
  function Word(n: nat): (w: seq<byte>)
    requires n < LENGTH_LIMIT
    ensures |w| == 4
  {
    [n % 0x100, n / 0x100 % 0x100, n / 0x100 / 0x100 % 0x100, n / 0x100 / 0x100 / 0x100]
  }

  function WordValue(w: seq<byte>): (n: nat)
    requires |w| == 4
    ensures n < LENGTH_LIMIT
  {
    w[0] as int + 0x100 * (w[1] as int) + 0x1_0000 * (w[2] as int) + 0x100_0000 * (w[3] as int)
  }

  lemma WordRoundTrip(n: nat)
    requires n < LENGTH_LIMIT
    ensures WordValue(Word(n)) == n
  {
  }

  /** `block` with `data` written over it from position `at`. */
  function Overlay(block: seq<byte>, at: nat, data: seq<byte>): (r: seq<byte>)
    requires at + |data| <= |block|
    ensures |r| == |block|
    ensures r[..at] == block[..at]
    ensures r[at..at + |data|] == data
    ensures r[at + |data|..] == block[at + |data|..]
  {
    block[..at] + data + block[at + |data|..]
  }

  lemma MulMonotone(a: int, b: int, stride: nat)
    requires a <= b
    ensures a * stride <= b * stride
  {
  }

  /** The lengths and the blocks of the slots. */
  datatype Memory = Memory(lens: seq<nat>, blocks: seq<seq<byte>>)

  ghost predicate Slotted(history: nat, mem: Memory) {
    |mem.lens| == |mem.blocks| == history > 0
  }

  /** mem' agrees with mem on the slot of index i. */
  ghost predicate SameSlot(history: nat, mem: Memory, mem': Memory, i: int)
    requires Slotted(history, mem) && Slotted(history, mem')
  {
    var k := Slot(i, history);
    mem'.lens[k] == mem.lens[k] && mem'.blocks[k] == mem.blocks[k]
  }

  /** A change in the slot of index j leaves the slots of the rest of the window alone. */
  lemma OtherSlots(history: nat, mem: Memory, mem': Memory, before: int, j: int)
    requires Slotted(history, mem) && Slotted(history, mem') && before < j <= before + history
    requires forall k | 0 <= k < history && k != Slot(j, history) ::
               mem'.lens[k] == mem.lens[k] && mem'.blocks[k] == mem.blocks[k]
    ensures forall i | before < i <= before + history && i != j :: SameSlot(history, mem, mem', i)
  {
    hide Slot;
    forall i | before < i <= before + history && i != j
      ensures SameSlot(history, mem, mem', i)
    {
      SlotsDiffer(i, j, history);
    }
  }

  /** The part of a ucdrBuffer that matters here: addresses in the buffer of the stream. */
  datatype Cursor = Cursor(init: nat, next: nat, end: nat)

  /** In `memory`, the slot that starts at `base` holds this length and this block. */
  ghost predicate SlotIs(memory: seq<byte>, base: nat, stride: nat, len: nat, block: seq<byte>) {
    && INTERNAL_RELIABLE_BUFFER_OFFSET < stride && base + stride <= |memory|
    && WordValue(memory[base..base + INTERNAL_RELIABLE_BUFFER_OFFSET]) == len
    && memory[base + INTERNAL_RELIABLE_BUFFER_OFFSET..base + stride] == block
  }

  /** Octets written outside a slot leave it alone. */
  lemma SlotUntouched(memory: seq<byte>, at: nat, data: seq<byte>, base: nat, stride: nat, len: nat, block: seq<byte>)
    requires at + |data| <= |memory| && SlotIs(memory, base, stride, len, block)
    requires at + |data| <= base || base + stride <= at
    ensures SlotIs(Overlay(memory, at, data), base, stride, len, block)
  {
    var now := Overlay(memory, at, data);
    forall i | base <= i < base + stride
      ensures now[i] == memory[i]
    {
    }
    var mid := base + INTERNAL_RELIABLE_BUFFER_OFFSET;
    assert now[base..mid] == memory[base..mid];
    assert now[mid..base + stride] == memory[mid..base + stride];
  }

  lemma SlotResized(memory: seq<byte>, base: nat, stride: nat, len: nat, block: seq<byte>, newLen: nat)
    requires SlotIs(memory, base, stride, len, block) && newLen < LENGTH_LIMIT
    ensures SlotIs(Overlay(memory, base, Word(newLen)), base, stride, newLen, block)
  {
    var now := Overlay(memory, base, Word(newLen));
    var mid := base + INTERNAL_RELIABLE_BUFFER_OFFSET;
    assert now[base..mid] == Word(newLen);
    WordRoundTrip(newLen);
    assert now[mid..base + stride] == now[mid..][..stride - 4] == memory[mid..][..stride - 4] == block;
  }

  lemma SlotPart(memory: seq<byte>, base: nat, stride: nat, len: nat, block: seq<byte>, at: nat, n: nat)
    requires SlotIs(memory, base, stride, len, block) && at + n <= |block|
    ensures memory[base + INTERNAL_RELIABLE_BUFFER_OFFSET + at..base + INTERNAL_RELIABLE_BUFFER_OFFSET + at + n]
         == block[at..at + n]
  {
    var mid := base + INTERNAL_RELIABLE_BUFFER_OFFSET;
    assert forall i | 0 <= i < |block| :: block[i] == memory[mid..base + stride][i] == memory[mid + i];
  }

  lemma OverlayAt(memory: seq<byte>, at: nat, data: seq<byte>, i: nat)
    requires at + |data| <= |memory| && i < |memory|
    ensures Overlay(memory, at, data)[i] == if at <= i < at + |data| then data[i - at] else memory[i]
  {
  }

  lemma OverlaidPart(memory: seq<byte>, at: nat, data: seq<byte>)
    requires at + |data| <= |memory|
    ensures |Overlay(memory, at, data)| == |memory| && Overlay(memory, at, data)[at..at + |data|] == data
  {
  }

  lemma SlotRewritten(memory: seq<byte>, base: nat, stride: nat, len: nat, block: seq<byte>, at: nat, data: seq<byte>)
    requires SlotIs(memory, base, stride, len, block) && at + |data| <= |block|
    ensures SlotIs(Overlay(memory, base + INTERNAL_RELIABLE_BUFFER_OFFSET + at, data), base, stride, len,
                   Overlay(block, at, data))
  {
    hide Overlay;
    hide WordValue;
    var mid := base + INTERNAL_RELIABLE_BUFFER_OFFSET;
    var now, block' := Overlay(memory, mid + at, data), Overlay(block, at, data);
    assert now[base..mid] == memory[base..mid] by {
      forall i | base <= i < mid
        ensures now[i] == memory[i]
      {
        OverlayAt(memory, mid + at, data, i);
      }
    }
    assert now[mid..base + stride] == block' by {
      forall i | 0 <= i < |block|
        ensures now[mid + i] == block'[i]
      {
        OverlayAt(memory, mid + at, data, mid + i);
        OverlayAt(block, at, data, i);
        assert block[i] == memory[mid + i];
      }
    }
  }

  class ReliableStream {
    const buffer: array<byte>
    const size: nat
    const history: nat

    /** What the buffer holds, slot by slot. */
    ghost var lens: seq<nat>
    ghost var blocks: seq<seq<byte>>

    ghost predicate Shape() {
      0 < history && size <= buffer.Length && INTERNAL_RELIABLE_BUFFER_OFFSET < size / history < LENGTH_LIMIT
    }

    function Stride(): (s: nat)
      requires Shape()
      ensures INTERNAL_RELIABLE_BUFFER_OFFSET < s < LENGTH_LIMIT
    {
      size / history
    }

    function Capacity(): nat
      requires Shape()
    {
      Stride() - INTERNAL_RELIABLE_BUFFER_OFFSET
    }

    /** Where slot k starts. */
    function Start(k: nat): (p: nat)
      requires Shape()
    {
      MulMonotone(0, k, Stride());
      k * Stride()
    }

    /** The address, inside the buffer, of position `at` of the block of slot k. */
    ghost function Pointer(k: nat, at: nat): nat
      requires Shape()
    {
      Start(k) + INTERNAL_RELIABLE_BUFFER_OFFSET + at
    }

    lemma PointerPlus(k: nat, at: nat)
      requires Shape()
      ensures Pointer(k, 0) + at == Pointer(k, at)
    {
    }

    /** Slots lie inside the buffer and do not overlap. */
    lemma SlotBounds(k: nat)
      requires Shape() && k < history
      ensures Start(k) + Stride() <= buffer.Length
      ensures forall j: nat | j < k :: Start(j) + Stride() <= Start(k)
    {
      assert (k + 1) * Stride() == Start(k) + Stride();
      MulMonotone(k + 1, history, Stride());
      forall j: nat | j < k
        ensures Start(j) + Stride() <= Start(k)
      {
        assert (j + 1) * Stride() == Start(j) + Stride();
        MulMonotone(j + 1, k, Stride());
      }
    }

    ghost predicate HoldsSlot(memory: seq<byte>, k: nat, len: nat, block: seq<byte>)
      requires Shape()
    {
      SlotIs(memory, Start(k), Stride(), len, block)
    }

    /** `memory` holds these lengths and these blocks. */
    ghost predicate HoldsSlots(memory: seq<byte>, lens: seq<nat>, blocks: seq<seq<byte>>)
      requires Shape()
    {
      && |lens| == |blocks| == history
      && forall k: nat | k < history :: HoldsSlot(memory, k, lens[k], blocks[k])
    }

    ghost predicate Valid()
      reads this, buffer
    {
      Shape() && HoldsSlots(buffer[..], lens, blocks)
    }

    constructor (buffer: array<byte>, size: nat, history: nat)
      requires 0 < history && size <= buffer.Length
      requires INTERNAL_RELIABLE_BUFFER_OFFSET < size / history < LENGTH_LIMIT
      ensures Valid()
      ensures this.buffer == buffer && this.size == size && this.history == history
    {
      this.buffer, this.size, this.history := buffer, size, history;
      new;
      lens, blocks := CutIntoSlots(buffer[..]);
    }

    /** Any memory is a list of slots. */
    lemma CutIntoSlots(memory: seq<byte>) returns (lens: seq<nat>, blocks: seq<seq<byte>>)
      requires Shape() && |memory| == buffer.Length
      ensures HoldsSlots(memory, lens, blocks)
    {
      lens, blocks := [], [];
      var k := 0;
      while k < history
        invariant k <= history && |lens| == |blocks| == k
        invariant forall j: nat | j < k :: HoldsSlot(memory, j, lens[j], blocks[j])
      {
        hide Shape;
        hide WordValue;
        SlotBounds(k);
        var base := Start(k);
        var len := WordValue(memory[base..base + INTERNAL_RELIABLE_BUFFER_OFFSET]);
        var block := memory[base + INTERNAL_RELIABLE_BUFFER_OFFSET..base + Stride()];
        assert HoldsSlot(memory, k, len, block);
        lens, blocks, k := lens + [len], blocks + [block], k + 1;
      }
    }

    /** uxr_get_reliable_buffer: the start of the block of the slot of a number. */
    function Buffer(seqNum: SeqNum): (p: nat)
      requires Shape()
      ensures p == Pointer(Slot(seqNum, history), 0)
    {
      Start(Slot(seqNum, history)) + INTERNAL_RELIABLE_BUFFER_OFFSET
    }

    /** uxr_get_reliable_buffer_history_position: the slot of an address inside a block. */
    function HistoryPosition(pointer: nat): nat
      requires Shape()
    {
      Quotient(pointer, Stride())
    }

    lemma PositionOfPointer(k: nat, at: nat)
      requires Shape() && at < Capacity()
      ensures HistoryPosition(Pointer(k, at)) == k
    {
      var s, r := Stride(), INTERNAL_RELIABLE_BUFFER_OFFSET + at;
      var q := (k * s + r) / s;
      assert s * (k - q) == (k * s + r) % s - r;
      MultipleIsFar(s, k - q);
    }

    /** uxr_get_reliable_buffer_size. */
    function Size(seqNum: SeqNum): (len: nat)
      requires Valid()
      reads this, buffer
      ensures len == lens[Slot(seqNum, history)]
    {
      var k := Slot(seqNum, history);
      assert HoldsSlot(buffer[..], k, lens[k], blocks[k]);
      var base := Start(k);
      WordValue(buffer[base..base + INTERNAL_RELIABLE_BUFFER_OFFSET])
    }

    /** The n octets at an address inside the block of slot k. */
    function Read(pointer: nat, n: nat, ghost k: nat, ghost at: nat): (data: seq<byte>)
      requires Valid() && k < history && at + n <= Capacity() && pointer == Pointer(k, at)
      reads this, buffer
      ensures |blocks[k]| == Capacity() && data == blocks[k][at..at + n]
    {
      assert HoldsSlot(buffer[..], k, lens[k], blocks[k]);
      SlotPart(buffer[..], Start(k), Stride(), lens[k], blocks[k], at, n);
      assert buffer[pointer..pointer + n] == buffer[..][pointer..pointer + n];
      buffer[pointer..pointer + n]
    }

    lemma BlockLength(k: nat)
      requires Valid() && k < history
      ensures Shape() && |lens| == |blocks| == history && |blocks[k]| == Capacity()
    {
      assert HoldsSlot(buffer[..], k, lens[k], blocks[k]);
    }

    /** memcpy of `data` into the buffer. */
    method Store(at: nat, data: seq<byte>)
      requires at + |data| <= buffer.Length
      modifies buffer
      ensures buffer[..] == Overlay(old(buffer[..]), at, data)
    {
      forall i | 0 <= i < |data| {
        buffer[at + i] := data[i];
      }
    }

    lemma OtherUntouched(memory: seq<byte>, k: nat, at: nat, data: seq<byte>, j: nat, len: nat, block: seq<byte>)
      requires Shape() && k < history && j < history && j != k && |memory| == buffer.Length
      requires Start(k) <= at && at + |data| <= Start(k) + Stride() <= |memory|
      requires HoldsSlot(memory, j, len, block)
      ensures HoldsSlot(Overlay(memory, at, data), j, len, block)
    {
      hide Start;
      hide Stride;
      hide Shape;
      hide Overlay;
      hide SlotIs;
      SlotBounds(if j < k then k else j);
      SlotUntouched(memory, at, data, Start(j), Stride(), len, block);
    }

    /** Writing inside slot k keeps every other slot. */
    lemma SlotWritten(memory: seq<byte>, lens: seq<nat>, blocks: seq<seq<byte>>, k: nat, at: nat, data: seq<byte>,
                      len: nat, block: seq<byte>)
      requires Shape() && k < history && |memory| == buffer.Length && HoldsSlots(memory, lens, blocks)
      requires Start(k) <= at && at + |data| <= Start(k) + Stride() <= |memory|
      requires HoldsSlot(Overlay(memory, at, data), k, len, block)
      ensures HoldsSlots(Overlay(memory, at, data), lens[k := len], blocks[k := block])
    {
      hide Overlay;
      hide Shape;
      hide Start;
      hide Stride;
      hide HoldsSlot;
      forall j: nat | j < history && j != k
        ensures HoldsSlot(Overlay(memory, at, data), j, lens[j], blocks[j])
      {
        OtherUntouched(memory, k, at, data, j, lens[j], blocks[j]);
      }
    }

    lemma LengthWritten(memory: seq<byte>, lens: seq<nat>, blocks: seq<seq<byte>>, k: nat, len: nat)
      requires Shape() && k < history && |memory| == buffer.Length && HoldsSlots(memory, lens, blocks)
      requires len < LENGTH_LIMIT
      ensures |lens| == |blocks| == history && Start(k) + 4 <= |memory|
      ensures HoldsSlots(Overlay(memory, Start(k), Word(len)), lens[k := len], blocks)
    {
      hide Start;
      hide Shape;
      hide Overlay;
      SlotBounds(k);
      assert HoldsSlot(memory, k, lens[k], blocks[k]);
      SlotResized(memory, Start(k), Stride(), lens[k], blocks[k], len);
      SlotWritten(memory, lens, blocks, k, Start(k), Word(len), len, blocks[k]);
      assert blocks[k := blocks[k]] == blocks;
    }

    lemma BlockWritten(memory: seq<byte>, lens: seq<nat>, blocks: seq<seq<byte>>, k: nat, at: nat, data: seq<byte>)
      requires Shape() && k < history && |memory| == buffer.Length && HoldsSlots(memory, lens, blocks)
      requires at + |data| <= Capacity()
      ensures |lens| == |blocks| == history && |blocks[k]| == Capacity() && Pointer(k, at) + |data| <= |memory|
      ensures HoldsSlots(Overlay(memory, Pointer(k, at), data), lens, blocks[k := Overlay(blocks[k], at, data)])
    {
      hide Start;
      hide Shape;
      hide Overlay;
      SlotBounds(k);
      assert HoldsSlot(memory, k, lens[k], blocks[k]);
      SlotRewritten(memory, Start(k), Stride(), lens[k], blocks[k], at, data);
      SlotWritten(memory, lens, blocks, k, Pointer(k, at), data, lens[k], Overlay(blocks[k], at, data));
      assert lens[k := lens[k]] == lens;
    }

    /** uxr_set_reliable_buffer_size: only the length of that slot changes. */
    method SetSize(seqNum: SeqNum, len: nat)
      requires Valid() && len < LENGTH_LIMIT
      modifies this`lens, buffer
      ensures Valid()
      ensures lens == old(lens)[Slot(seqNum, history) := len]
    {
      hide Slot;
      hide Overlay;
      hide HoldsSlots;
      hide Start;
      hide Word;
      LengthWritten(buffer[..], lens, blocks, Slot(seqNum, history), len);
      Store(Buffer(seqNum) - INTERNAL_RELIABLE_BUFFER_OFFSET, Word(len));
      lens := lens[Slot(seqNum, history) := len];
    }

    /** The loop over the slots of uxr_reset_*_reliable_stream. */
    method ResetSizes(len: nat)
      requires Valid() && history <= SEQ_NUM_SIZE && len < LENGTH_LIMIT
      modifies this`lens, buffer
      ensures Valid()
      ensures forall k | 0 <= k < history :: lens[k] == len
    {
      hide Slot;
      var i := 0;
      while i < history
        invariant 0 <= i <= history && Valid()
        invariant forall k | 0 <= k < i :: lens[k] == len
      {
        ghost var was := lens;
        SetSize(i, len);
        SlotOfSlot(i, history);
        assert lens == was[i := len];
        i := i + 1;
      }
    }

    /** Octets written into the block of slot k: only that block changes. */
    method Copy(pointer: nat, data: seq<byte>, ghost k: nat, ghost at: nat)
      requires Valid() && k < history && at + |data| <= Capacity() && pointer == Pointer(k, at)
      modifies this`blocks, buffer
      ensures Valid()
      ensures |old(blocks)[k]| == Capacity()
      ensures blocks == old(blocks)[k := Overlay(old(blocks)[k], at, data)]
    {
      hide Overlay;
      hide HoldsSlots;
      hide Start;
      hide Stride;
      BlockWritten(buffer[..], lens, blocks, k, at, data);
      Store(pointer, data);
      blocks := blocks[k := Overlay(blocks[k], at, data)];
    }
  }
}
