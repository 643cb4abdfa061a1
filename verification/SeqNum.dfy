/** Octets, and the 16-bit serial numbers of the reliable streams.

    The functions are those of seq_num.c; the lemmas relate them to the unbounded message indices
    that the rest of the model counts with.  Index i travels as the number i % SEQ_NUM_SIZE. */
module SeqNum {
  type byte = x: int | 0 <= x < 256
  type SeqNum = x: int | 0 <= x < SEQ_NUM_SIZE

  const SEQ_NUM_SIZE := 0x1_0000
  const SEQ_NUM_MIDSIZE := 0x8000
  const SEQ_NUM_MAX: SeqNum := 0xFFFF

  function Add(seqNum: SeqNum, increment: SeqNum): SeqNum {
    (seqNum + increment) % SEQ_NUM_SIZE
  }

  function Sub(seqNum: SeqNum, decrement: SeqNum): SeqNum {
    if decrement > seqNum then seqNum + (SEQ_NUM_SIZE - decrement) else seqNum - decrement
  }

  function Cmp(a: SeqNum, b: SeqNum): int {
    if a == b then 0
    else if (a < b && b - a < SEQ_NUM_MIDSIZE) || (a > b && a - b > SEQ_NUM_MIDSIZE) then -1
    else 1
  }

  /** The number under which message index i travels. */
  function Wire(i: int): SeqNum {
    i % SEQ_NUM_SIZE
  }

  /** How far b lies ahead of a on the circle of numbers. */
  function Ahead(a: SeqNum, b: SeqNum): SeqNum {
    (b - a) % SEQ_NUM_SIZE
  }

  function Sign(x: int): int {
    if x < 0 then -1 else if x == 0 then 0 else 1
  }

  lemma AheadOfIndices(i: int, j: int)
    ensures Ahead(Wire(i), Wire(j)) == (j - i) % SEQ_NUM_SIZE
  {
  }

  lemma IndexAhead(i: int, b: SeqNum)
    ensures Wire(i + Ahead(Wire(i), b)) == b
  {
  }

  lemma SubIsAhead(a: SeqNum, b: SeqNum)
    ensures Sub(a, b) == Ahead(b, a)
  {
  }

  lemma SameNumber(i: int, j: int)
    requires -SEQ_NUM_SIZE < i - j < SEQ_NUM_SIZE
    ensures Wire(i) == Wire(j) <==> i == j
  {
  }

  /** Adding and subtracting numbers is adding and subtracting indices, also across the wrap. */
  lemma AddSubRefine(i: int, n: SeqNum)
    ensures Add(Wire(i), n) == Wire(i + n)
    ensures Sub(Wire(i), n) == Wire(i - n)
  {
    var laps, w := Laps(i);
    hide Wire;
    WireAt(laps, w, i);
    if w + n < SEQ_NUM_SIZE {
      WireAt(laps, w + n, i + n);
    } else {
      WireAt(laps + 1, w + n - SEQ_NUM_SIZE, i + n);
    }
    if n <= w {
      WireAt(laps, w - n, i - n);
    } else {
      WireAt(laps - 1, w + (SEQ_NUM_SIZE - n), i - n);
    }
  }

  /** Whole laps round the circle, and what is left. */
  lemma Laps(i: int) returns (laps: int, w: SeqNum)
    ensures i == SEQ_NUM_SIZE * laps + w
  {
    laps, w := i / SEQ_NUM_SIZE, i % SEQ_NUM_SIZE;
  }

  lemma WireAt(laps: int, w: SeqNum, i: int)
    requires i == SEQ_NUM_SIZE * laps + w
    ensures Wire(i) == w
  {
  }

  /** Comparing two numbers is comparing their indices when these are less than half the circle
      apart; among indices less than a whole circle apart, exactly then or when the first is the
      greater one by exactly half. */
  lemma CmpRefines(i: int, j: int)
    requires -SEQ_NUM_SIZE < i - j < SEQ_NUM_SIZE
    ensures Cmp(Wire(i), Wire(j)) == Sign(i - j) <==> -SEQ_NUM_MIDSIZE < i - j <= SEQ_NUM_MIDSIZE
  {
    AheadOfIndices(i, j);
  }

  /** The comparison is antisymmetric exactly for numbers that are not half the circle apart. */
  lemma CmpAntisymmetric(a: SeqNum, b: SeqNum)
    ensures Cmp(a, b) == -Cmp(b, a) <==> Ahead(a, b) != SEQ_NUM_MIDSIZE
  {
  }

  /** The receive window test of input_reliable_stream.c:64-65 accepts exactly the numbers
      1 to history ahead of the last handled one. */
  lemma WindowTest(lastHandled: SeqNum, history: SeqNum, seqNum: SeqNum)
    requires 0 < history <= 0x4000
    ensures Cmp(lastHandled, seqNum) < 0 && 0 <= Cmp(Add(lastHandled, history), seqNum)
            <==> 1 <= Ahead(lastHandled, seqNum) <= history
  {
  }

  /** Old data is kept out exactly while it is younger than the circle less the window: of the
      messages up to one circle behind, those that look new are the last `history` ones. */
  lemma AgeBound(handled: int, i: int, history: SeqNum)
    requires 0 < history <= 0x4000
    requires handled - SEQ_NUM_SIZE < i <= handled
    ensures 1 <= Ahead(Wire(handled), Wire(i)) <= history <==> handled - i >= SEQ_NUM_SIZE - history
  {
    AheadOfIndices(handled, i);
  }

  /** Inside the age bound a number identifies its index. */
  lemma WindowDecodes(handled: int, i: int, history: SeqNum)
    requires 0 < history <= 0x4000
    requires handled - (SEQ_NUM_SIZE - history) < i <= handled + 0x8000
    ensures 1 <= Ahead(Wire(handled), Wire(i)) <= history <==> handled < i <= handled + history
    ensures handled < i <= handled + history ==> handled + Ahead(Wire(handled), Wire(i)) == i
  {
    AheadOfIndices(handled, i);
  }
}

/** Slot numbers: the remainder of an index by the (power of two) history. */
module Slots {
  import opened SeqNum

  predicate IsPowerOfTwo(n: nat) {
    n == 1 || (n > 1 && n % 2 == 0 && IsPowerOfTwo(n / 2))
  }

  /** The slot of an index, or of a number. */
  function Slot(i: int, history: nat): (k: nat)
    requires 0 < history
    ensures k < history
  {
    i % history
  }

  /** A smaller power of two divides a greater one. */
  lemma {:induction false} PowerOfTwoDivides(h: nat, n: nat) returns (laps: nat)
    requires IsPowerOfTwo(h) && IsPowerOfTwo(n) && h <= n
    ensures h * laps == n
  {
    if h == 1 {
      laps := n;
    } else {
      laps := PowerOfTwoDivides(h / 2, n / 2);
      assert h * laps == h / 2 * laps * 2;
    }
  }

  function Quotient(n: nat, d: nat): nat
    requires d > 0
  {
    n / d
  }

  lemma DivOfMultiple(r: int, h: int, m: int)
    requires 0 <= r < h
    ensures (h * m + r) / h == m
  {
    var q, s := (h * m + r) / h, (h * m + r) % h;
    assert h * (m - q) == s - r;
    MultipleIsFar(h, m - q);
  }

  lemma ModOfMultiple(r: int, h: int, m: int)
    requires 0 <= r < h
    ensures (h * m + r) % h == r
  {
    DivOfMultiple(r, h, m);
  }

  lemma SlotOfSlot(k: nat, history: nat)
    requires k < history
    ensures Slot(k, history) == k
  {
    ModOfMultiple(k, history, 0);
  }

  lemma MultipleIsFar(h: int, d: int)
    requires 0 < h
    ensures d >= 1 ==> h * d >= h
    ensures d <= -1 ==> h * d <= -h
  {
  }

  /** The slot of a number is the slot of its index (common_reliable_stream_internal.h:33-39). */
  lemma SlotOfWire(i: int, history: nat)
    requires IsPowerOfTwo(history) && history <= SEQ_NUM_SIZE
    ensures 0 < history && Slot(Wire(i), history) == Slot(i, history) && 0 <= Slot(i, history) < history
  {
    CircleIsPowerOfTwo();
    var laps := PowerOfTwoDivides(history, SEQ_NUM_SIZE);
    MultipleOfHistory(i, history, laps);
  }

  lemma CircleIsPowerOfTwo()
    ensures IsPowerOfTwo(SEQ_NUM_SIZE)
  {
    hide IsPowerOfTwo;
    OneIsPowerOfTwo();
    FourTimesDoubled(1);
    FourTimesDoubled(0x10);
    FourTimesDoubled(0x100);
    FourTimesDoubled(0x1000);
  }

  lemma OneIsPowerOfTwo()
    ensures IsPowerOfTwo(1)
  {
  }

  lemma Doubled(n: nat)
    requires n > 0 && IsPowerOfTwo(n)
    ensures IsPowerOfTwo(2 * n)
  {
    assert 2 * n / 2 == n;
  }

  lemma FourTimesDoubled(n: nat)
    requires n > 0 && IsPowerOfTwo(n)
    ensures IsPowerOfTwo(16 * n)
  {
    hide IsPowerOfTwo;
    Doubled(n);
    Doubled(2 * n);
    Doubled(4 * n);
    Doubled(8 * n);
  }

  lemma MultipleOfHistory(i: int, history: nat, laps: nat)
    requires 0 < history && history * laps == SEQ_NUM_SIZE
    ensures Slot(Wire(i), history) == Slot(i, history)
  {
    var q := i / SEQ_NUM_SIZE;
    var w := Wire(i);
    var m := w / history;
    var r := w % history;
    assert i == history * laps * q + history * m + r;
    assert history * laps * q + history * m == history * (laps * q + m) by {
      assert history * laps * q == history * (laps * q);
    }
    ModOfMultiple(r, history, laps * q + m);
  }

  /** Two different indices less than history apart have different slots. */
  lemma SlotsDiffer(i: int, j: int, history: int)
    requires 0 < history && i != j && -history < i - j < history
    ensures Slot(i, history) != Slot(j, history)
  {
    var d := i / history - j / history;
    assert i - j == history * d + (i % history - j % history);
    MultipleIsFar(history, d);
  }

  /** Indices a whole history apart share a slot. */
  lemma SlotsRepeat(i: int, history: nat)
    requires 0 < history
    ensures Slot(i + history, history) == Slot(i, history)
  {
    var r, m := i % history, i / history;
    assert i + history == history * (m + 1) + r;
    ModOfMultiple(r, history, m + 1);
  }

  /** Following slots: what on_full_*_buffer computes from the position of a pointer. */
  lemma NextSlot(i: int, history: nat)
    requires 0 < history
    ensures Slot(1 + Slot(i, history), history) == Slot(i + 1, history)
  {
    var r, m := i % history, i / history;
    if r + 1 < history {
      assert i + 1 == history * m + (r + 1);
      ModOfMultiple(r + 1, history, m);
      ModOfMultiple(r + 1, history, 0);
    } else {
      assert i + 1 == history * (m + 1) + 0;
      ModOfMultiple(0, history, m + 1);
      ModOfMultiple(0, history, 1);
    }
  }
}
