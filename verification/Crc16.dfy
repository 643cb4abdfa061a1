/** Octets and words as bits. */
module Octets {
  import opened SeqNum

  /** Bit number k of a number of at most 16 bits. */
  predicate HasBit(n: nat, k: nat)
    requires k < 16
  {
    n / [1, 2, 4, 8, 0x10, 0x20, 0x40, 0x80, 0x100, 0x200, 0x400, 0x800, 0x1000, 0x2000, 0x4000, 0x8000][k] % 2 == 1
  }

  lemma BitOfHalf(n: nat, k: nat)
    requires 0 < k < 16
    ensures HasBit(n, k) <==> HasBit(n / 2, k - 1)
  {
  }

  predicate Odd(w: bv16) {
    w & 1 == 1
  }

  function Half(w: bv16): bv16 {
    w >> 1
  }

  /** Bit number k of a word. */
  predicate WordBit(w: bv16, k: nat)
    requires k < 16
  {
    if k == 0 then Odd(w) else WordBit(Half(w), k - 1)
  }

  /** A word of at most n bits. */
  predicate Fits(w: bv16, n: nat) {
    if n == 0 then w == 0 else Fits(Half(w), n - 1)
  }

  lemma {:induction false} FitsMore(w: bv16, n: nat, m: nat)
    requires Fits(w, n) && n <= m
    ensures Fits(w, m)
  {
    if n > 0 {
      FitsMore(Half(w), n - 1, m - 1);
    } else if m > 0 {
      assert Half(w) == 0;
      FitsMore(0, 0, m - 1);
    }
  }

  lemma FitsAbove(w: bv16, n: nat)
    ensures Fits(w, n + 4) <==> Fits(w >> 4, n)
  {
    hide Half;
    FourHalves(w);
    assert Fits(w, n + 4) == Fits(Half(w), n + 3);
    assert Fits(Half(w), n + 3) == Fits(Half(Half(w)), n + 2);
    assert Fits(Half(Half(w)), n + 2) == Fits(Half(Half(Half(w))), n + 1);
    assert Fits(Half(Half(Half(w))), n + 1) == Fits(Half(Half(Half(Half(w)))), n);
  }

  lemma FourHalves(w: bv16)
    ensures Half(Half(Half(Half(w)))) == w >> 4
  {
  }

  lemma FitsOctet(w: bv16)
    ensures Fits(w, 8) <==> w < 0x100
  {
    FitsAbove(w, 4);
    FitsAbove(w >> 4, 0);
  }

  lemma FitsWord(w: bv16)
    ensures Fits(w, 16)
  {
    FitsAbove(w, 12);
    FitsAbove(w >> 4, 8);
    FitsAbove(w >> 4 >> 4, 4);
    FitsAbove(w >> 4 >> 4 >> 4, 0);
  }

  /** One more bit at the low end. */
  function Twice(high: bv16, odd: bool): bv16 {
    (high << 1) | (if odd then 1 else 0)
  }

  lemma TwiceBits(high: bv16, odd: bool)
    requires high < 0x8000
    ensures Odd(Twice(high, odd)) <==> odd
    ensures Half(Twice(high, odd)) == high
  {
  }

  /** The low n bits of a number, as bits of a word. */
  function Bits(data: nat, n: nat): bv16 {
    if n == 0 then 0 else Twice(Bits(data / 2, n - 1), data % 2 == 1)
  }

  lemma {:induction false} BitsFit(data: nat, n: nat)
    requires n <= 8
    ensures Fits(Bits(data, n), n)
  {
    hide Twice;
    if n > 0 {
      BitsFit(data / 2, n - 1);
      BitsSmall(data / 2, n - 1);
      TwiceBits(Bits(data / 2, n - 1), data % 2 == 1);
    }
  }

  lemma BitsSmall(data: nat, n: nat)
    requires n <= 8 && Fits(Bits(data, n), n)
    ensures Bits(data, n) < 0x100
  {
    hide Bits;
    FitsMore(Bits(data, n), n, 8);
    FitsOctet(Bits(data, n));
  }

  /** An octet in the low half of a word. */
  function Octet(data: byte): (x: bv16)
    ensures x < 0x100
  {
    BitsFit(data, 8);
    BitsSmall(data, 8);
    Bits(data, 8)
  }

  lemma {:induction false} BitsKept(data: nat, n: nat, k: nat)
    requires k < n <= 8
    ensures WordBit(Bits(data, n), k) <==> HasBit(data, k)
  {
    hide Twice;
    hide HasBit;
    LowestBit(data);
    BitsFit(data / 2, n - 1);
    BitsSmall(data / 2, n - 1);
    TwiceBits(Bits(data / 2, n - 1), data % 2 == 1);
    if k > 0 {
      BitsKept(data / 2, n - 1, k - 1);
      BitOfHalf(data, k);
    }
  }

  lemma LowestBit(n: nat)
    ensures HasBit(n, 0) <==> n % 2 == 1
  {
  }

  /** The bits of an octet are where they were; above them there is nothing. */
  lemma OctetBits(data: byte, k: nat)
    requires k < 8
    ensures WordBit(Octet(data), k) <==> HasBit(data, k)
  {
    BitsKept(data, 8, k);
  }

  /** The number that the low n bits of a word make. */
  function Number(w: bv16, n: nat): nat {
    if n == 0 then 0 else (if Odd(w) then 1 else 0) + 2 * Number(Half(w), n - 1)
  }

  lemma {:induction false} NumberBound(w: bv16, n: nat)
    requires n <= 16
    ensures Number(w, n) < [1, 2, 4, 8, 0x10, 0x20, 0x40, 0x80, 0x100, 0x200, 0x400, 0x800, 0x1000, 0x2000, 0x4000, 0x8000, 0x1_0000][n]
    decreases n
  {
    hide Odd;
    hide Half;
    if n > 0 {
      NumberBound(Half(w), n - 1);
    }
  }

  /** Its bits are those of the word. */
  lemma {:induction false} NumberBits(w: bv16, n: nat, k: nat)
    requires k < n <= 16
    ensures HasBit(Number(w, n), k) <==> WordBit(w, k)
    decreases n
  {
    hide Odd;
    hide Half;
    hide HasBit;
    LowestBit(Number(w, n));
    var x := Number(Half(w), n - 1);
    assert Number(w, n) / 2 == x;
    if k > 0 {
      NumberBits(Half(w), n - 1, k - 1);
      BitOfHalf(Number(w, n), k);
    }
  }

  lemma TwiceInjective(a: bv16, b: bv16, p: bool, q: bool)
    requires a < 0x100 && b < 0x100 && Twice(a, p) == Twice(b, q)
    ensures a == b && p == q
  {
  }

  lemma {:induction false} BitsInjective(x: nat, y: nat, n: nat)
    requires n <= 8 && Bits(x, n) == Bits(y, n)
    requires x < [1, 2, 4, 8, 0x10, 0x20, 0x40, 0x80, 0x100][n] && y < [1, 2, 4, 8, 0x10, 0x20, 0x40, 0x80, 0x100][n]
    ensures x == y
  {
    hide Twice;
    if n > 0 {
      BitsFit(x / 2, n - 1);
      BitsSmall(x / 2, n - 1);
      BitsFit(y / 2, n - 1);
      BitsSmall(y / 2, n - 1);
      TwiceInjective(Bits(x / 2, n - 1), Bits(y / 2, n - 1), x % 2 == 1, y % 2 == 1);
      BitsInjective(x / 2, y / 2, n - 1);
    }
  }

  lemma OctetInjective(x: byte, y: byte)
    requires Octet(x) == Octet(y)
    ensures x == y
  {
    BitsInjective(x, y, 8);
  }

  lemma SameHalves(a: bv16, b: bv16)
    requires Half(a) == Half(b) && (Odd(a) <==> Odd(b))
    ensures a == b
  {
  }

  lemma {:induction false} NumberInjective(a: bv16, b: bv16, n: nat)
    requires n <= 16 && Fits(a, n) && Fits(b, n) && Number(a, n) == Number(b, n)
    ensures a == b
    decreases n
  {
    hide Odd;
    hide Half;
    if n > 0 {
      assert Odd(a) <==> Odd(b);
      NumberInjective(Half(a), Half(b), n - 1);
      SameHalves(a, b);
    }
  }

  /** Different words are different numbers. */
  lemma WordBack(a: bv16, b: bv16)
    requires Number(a, 16) == Number(b, 16)
    ensures a == b
  {
    FitsWord(a);
    FitsWord(b);
    NumberInjective(a, b, 16);
  }
}

/** The CRC of the stream framing protocol (stream_framing_protocol.c:9-52): 16 bits, polynomial
    x^16 + x^15 + x^2 + 1, least significant bit first. */
module Crc16 {
  import opened SeqNum
  import opened Octets

  /** One of the eight entries of a row. */
  function Pick(column: bv16, e0: bv16, e1: bv16, e2: bv16, e3: bv16, e4: bv16, e5: bv16, e6: bv16, e7: bv16): bv16 {
    match column
    case 0 => e0 case 1 => e1 case 2 => e2 case 3 => e3
    case 4 => e4 case 5 => e5 case 6 => e6 case _ => e7
  }

  /** The table, eight entries a row. */
  function TableEntry(x: bv16): bv16
    requires x < 0x100
  {
    var column := x & 7;
    match x >> 3
    case 0 => Pick(column, 0x0000, 0xC0C1, 0xC181, 0x0140, 0xC301, 0x03C0, 0x0280, 0xC241)
    case 1 => Pick(column, 0xC601, 0x06C0, 0x0780, 0xC741, 0x0500, 0xC5C1, 0xC481, 0x0440)
    case 2 => Pick(column, 0xCC01, 0x0CC0, 0x0D80, 0xCD41, 0x0F00, 0xCFC1, 0xCE81, 0x0E40)
    case 3 => Pick(column, 0x0A00, 0xCAC1, 0xCB81, 0x0B40, 0xC901, 0x09C0, 0x0880, 0xC841)
    case 4 => Pick(column, 0xD801, 0x18C0, 0x1980, 0xD941, 0x1B00, 0xDBC1, 0xDA81, 0x1A40)
    case 5 => Pick(column, 0x1E00, 0xDEC1, 0xDF81, 0x1F40, 0xDD01, 0x1DC0, 0x1C80, 0xDC41)
    case 6 => Pick(column, 0x1400, 0xD4C1, 0xD581, 0x1540, 0xD701, 0x17C0, 0x1680, 0xD641)
    case 7 => Pick(column, 0xD201, 0x12C0, 0x1380, 0xD341, 0x1100, 0xD1C1, 0xD081, 0x1040)
    case 8 => Pick(column, 0xF001, 0x30C0, 0x3180, 0xF141, 0x3300, 0xF3C1, 0xF281, 0x3240)
    case 9 => Pick(column, 0x3600, 0xF6C1, 0xF781, 0x3740, 0xF501, 0x35C0, 0x3480, 0xF441)
    case 10 => Pick(column, 0x3C00, 0xFCC1, 0xFD81, 0x3D40, 0xFF01, 0x3FC0, 0x3E80, 0xFE41)
    case 11 => Pick(column, 0xFA01, 0x3AC0, 0x3B80, 0xFB41, 0x3900, 0xF9C1, 0xF881, 0x3840)
    case 12 => Pick(column, 0x2800, 0xE8C1, 0xE981, 0x2940, 0xEB01, 0x2BC0, 0x2A80, 0xEA41)
    case 13 => Pick(column, 0xEE01, 0x2EC0, 0x2F80, 0xEF41, 0x2D00, 0xEDC1, 0xEC81, 0x2C40)
    case 14 => Pick(column, 0xE401, 0x24C0, 0x2580, 0xE541, 0x2700, 0xE7C1, 0xE681, 0x2640)
    case 15 => Pick(column, 0x2200, 0xE2C1, 0xE381, 0x2340, 0xE101, 0x21C0, 0x2080, 0xE041)
    case 16 => Pick(column, 0xA001, 0x60C0, 0x6180, 0xA141, 0x6300, 0xA3C1, 0xA281, 0x6240)
    case 17 => Pick(column, 0x6600, 0xA6C1, 0xA781, 0x6740, 0xA501, 0x65C0, 0x6480, 0xA441)
    case 18 => Pick(column, 0x6C00, 0xACC1, 0xAD81, 0x6D40, 0xAF01, 0x6FC0, 0x6E80, 0xAE41)
    case 19 => Pick(column, 0xAA01, 0x6AC0, 0x6B80, 0xAB41, 0x6900, 0xA9C1, 0xA881, 0x6840)
    case 20 => Pick(column, 0x7800, 0xB8C1, 0xB981, 0x7940, 0xBB01, 0x7BC0, 0x7A80, 0xBA41)
    case 21 => Pick(column, 0xBE01, 0x7EC0, 0x7F80, 0xBF41, 0x7D00, 0xBDC1, 0xBC81, 0x7C40)
    case 22 => Pick(column, 0xB401, 0x74C0, 0x7580, 0xB541, 0x7700, 0xB7C1, 0xB681, 0x7640)
    case 23 => Pick(column, 0x7200, 0xB2C1, 0xB381, 0x7340, 0xB101, 0x71C0, 0x7080, 0xB041)
    case 24 => Pick(column, 0x5000, 0x90C1, 0x9181, 0x5140, 0x9301, 0x53C0, 0x5280, 0x9241)
    case 25 => Pick(column, 0x9601, 0x56C0, 0x5780, 0x9741, 0x5500, 0x95C1, 0x9481, 0x5440)
    case 26 => Pick(column, 0x9C01, 0x5CC0, 0x5D80, 0x9D41, 0x5F00, 0x9FC1, 0x9E81, 0x5E40)
    case 27 => Pick(column, 0x5A00, 0x9AC1, 0x9B81, 0x5B40, 0x9901, 0x59C0, 0x5880, 0x9841)
    case 28 => Pick(column, 0x8801, 0x48C0, 0x4980, 0x8941, 0x4B00, 0x8BC1, 0x8A81, 0x4A40)
    case 29 => Pick(column, 0x4E00, 0x8EC1, 0x8F81, 0x4F40, 0x8D01, 0x4DC0, 0x4C80, 0x8C41)
    case 30 => Pick(column, 0x4400, 0x84C1, 0x8581, 0x4540, 0x8701, 0x47C0, 0x4680, 0x8641)
    case _ => Pick(column, 0x8201, 0x42C0, 0x4380, 0x8341, 0x4100, 0x81C1, 0x8081, 0x4040)
  }

  /** The polynomial 0x8005 with its bits reversed. */
  const REVERSED_POLYNOMIAL: bv16 := 0xA001

  /** Shifting one bit out: what long division by the polynomial does, bit by bit. */
  function DivideBit(c: bv16): bv16 {
    if c & 1 == 1 then (c >> 1) ^ REVERSED_POLYNOMIAL else c >> 1
  }

  function Division(c: bv16): bv16 {
    DivideBit(DivideBit(DivideBit(DivideBit(DivideBit(DivideBit(DivideBit(DivideBit(c))))))))
  }

  lemma Entries0(x: bv16)
    requires x < 32
    ensures TableEntry(x) == Division(x)
  {
  }

  lemma Entries32(x: bv16)
    requires 32 <= x < 64
    ensures TableEntry(x) == Division(x)
  {
  }

  lemma Entries64(x: bv16)
    requires 64 <= x < 96
    ensures TableEntry(x) == Division(x)
  {
  }

  lemma Entries96(x: bv16)
    requires 96 <= x < 128
    ensures TableEntry(x) == Division(x)
  {
  }

  lemma Entries128(x: bv16)
    requires 128 <= x < 160
    ensures TableEntry(x) == Division(x)
  {
  }

  lemma Entries160(x: bv16)
    requires 160 <= x < 192
    ensures TableEntry(x) == Division(x)
  {
  }

  lemma Entries192(x: bv16)
    requires 192 <= x < 224
    ensures TableEntry(x) == Division(x)
  {
  }

  lemma Entries224(x: bv16)
    requires 224 <= x < 256
    ensures TableEntry(x) == Division(x)
  {
  }

  /** The table holds the remainder of every octet. */
  lemma TableIsDivision(x: bv16)
    requires x < 0x100
    ensures TableEntry(x) == Division(x)
  {
    hide Division;
    hide TableEntry;
    if x < 32 { Entries0(x); } else if x < 64 { Entries32(x); } else if x < 96 { Entries64(x); }
    else if x < 128 { Entries96(x); } else if x < 160 { Entries128(x); } else if x < 192 { Entries160(x); }
    else if x < 224 { Entries192(x); } else { Entries224(x); }
  }

  function Xor(a: bv16, b: bv16): bv16 {
    a ^ b
  }

  function High(c: bv16): bv16 {
    c >> 8
  }

  function Low(c: bv16): (x: bv16)
    ensures x < 0x100
  {
    c & 0xFF
  }

  /** uxr_update_crc. */
  function Update(crc: bv16, data: byte): bv16 {
    Xor(High(crc), TableEntry(Low(Xor(crc, Octet(data)))))
  }

  lemma ShiftLinear(a: bv16, b: bv16)
    ensures (a ^ b) >> 1 == (a >> 1) ^ (b >> 1)
  {
  }

  lemma LowBitLinear(a: bv16, b: bv16)
    ensures (a ^ b) & 1 == (a & 1) ^ (b & 1)
  {
  }

  lemma LowBit(a: bv16)
    ensures a & 1 == 0 || a & 1 == 1
  {
  }

  lemma XorBoth(x: bv16, y: bv16, p: bv16)
    ensures (x ^ p) ^ (y ^ p) == x ^ y
  {
  }

  lemma XorOne(x: bv16, y: bv16, p: bv16)
    ensures (x ^ p) ^ y == (x ^ y) ^ p
  {
  }

  lemma XorOther(x: bv16, y: bv16, p: bv16)
    ensures x ^ (y ^ p) == (x ^ y) ^ p
  {
  }

  lemma ShiftOutLinear(a: bv16, b: bv16)
    ensures DivideBit(a ^ b) == DivideBit(a) ^ DivideBit(b)
  {
    ShiftLinear(a, b);
    LowBitLinear(a, b);
    LowBit(a);
    LowBit(b);
    XorBoth(a >> 1, b >> 1, REVERSED_POLYNOMIAL);
    XorOne(a >> 1, b >> 1, REVERSED_POLYNOMIAL);
    XorOther(a >> 1, b >> 1, REVERSED_POLYNOMIAL);
  }

  /** Shifting a bit out is linear. */
  lemma DivideBitLinear(a: bv16, b: bv16)
    ensures DivideBit(Xor(a, b)) == Xor(DivideBit(a), DivideBit(b))
  {
    hide DivideBit;
    ShiftOutLinear(a, b);
  }

  /** What is left of a division after n of its eight steps. */
  function Rest(c: bv16, n: nat): bv16
    requires n <= 8
    decreases 8 - n
  {
    if n == 8 then c else Rest(DivideBit(c), n + 1)
  }

  lemma {:induction false} RestLinear(a: bv16, b: bv16, n: nat)
    requires n <= 8
    ensures Rest(Xor(a, b), n) == Xor(Rest(a, n), Rest(b, n))
    decreases 8 - n
  {
    hide DivideBit;
    hide Xor;
    if n < 8 {
      DivideBitLinear(a, b);
      RestLinear(DivideBit(a), DivideBit(b), n + 1);
    }
  }

  lemma RestIsDivision(c: bv16)
    ensures Rest(c, 0) == Division(c)
  {
    hide DivideBit;
    assert Rest(c, 0) == Rest(DivideBit(DivideBit(DivideBit(DivideBit(c)))), 4);
  }

  lemma DivisionLinear(a: bv16, b: bv16)
    ensures Division(Xor(a, b)) == Xor(Division(a), Division(b))
  {
    hide Division;
    hide Xor;
    RestIsDivision(a);
    RestIsDivision(b);
    RestIsDivision(Xor(a, b));
    RestLinear(a, b, 0);
  }

  lemma DivideBitInjective(a: bv16, b: bv16)
    requires DivideBit(a) == DivideBit(b)
    ensures a == b
  {
  }

  lemma {:induction false} RestInjective(a: bv16, b: bv16, n: nat)
    requires n <= 8 && Rest(a, n) == Rest(b, n)
    ensures a == b
    decreases 8 - n
  {
    hide DivideBit;
    if n < 8 {
      RestInjective(DivideBit(a), DivideBit(b), n + 1);
      DivideBitInjective(a, b);
    }
  }

  lemma DivisionInjective(a: bv16, b: bv16)
    requires Division(a) == Division(b)
    ensures a == b
  {
    hide Division;
    RestIsDivision(a);
    RestIsDivision(b);
    RestInjective(a, b, 0);
  }

  /** Bits above the low octet are only shifted. */
  lemma HighOctetShifts(c: bv16)
    ensures Division(c & 0xFF00) == High(c)
  {
    var h := c & 0xFF00;
    assert DivideBit(h) == h >> 1 && DivideBit(h >> 1) == h >> 2;
    assert DivideBit(h >> 2) == h >> 3 && DivideBit(h >> 3) == h >> 4;
    assert DivideBit(h >> 4) == h >> 5 && DivideBit(h >> 5) == h >> 6;
    assert DivideBit(h >> 6) == h >> 7 && DivideBit(h >> 7) == h >> 8;
  }

  lemma Halves(c: bv16)
    ensures Xor(c & 0xFF00, Low(c)) == c
  {
  }

  lemma HighUntouched(crc: bv16, d: bv16)
    requires d < 0x100
    ensures High(Xor(crc, d)) == High(crc)
  {
  }

  /** The table-driven update is eight steps of long division. */
  lemma UpdateIsDivision(crc: bv16, data: byte)
    ensures Update(crc, data) == Division(Xor(crc, Octet(data)))
  {
    hide Octet;
    hide TableEntry;
    hide Division;
    hide Xor;
    hide High;
    hide Low;
    var c := Xor(crc, Octet(data));
    HighOctetShifts(c);
    Halves(c);
    HighUntouched(crc, Octet(data));
    DivisionLinear(c & 0xFF00, Low(c));
    TableIsDivision(Low(c));
  }

  /** The CRC of a message, as the writer and the reader compute it octet by octet. */
  function Crc(data: seq<byte>): bv16 {
    if data == [] then 0 else Update(Crc(data[..|data| - 1]), data[|data| - 1])
  }

  /** The bits of a message, as they come over a line: octet by octet, the lowest bit first. */
  function MessageBits(data: seq<byte>): seq<bool> {
    if data == [] then [] else MessageBits(data[..|data| - 1]) + OctetInBits(data[|data| - 1])
  }

  function OctetInBits(b: byte): seq<bool> {
    [HasBit(b, 0), HasBit(b, 1), HasBit(b, 2), HasBit(b, 3), HasBit(b, 4), HasBit(b, 5), HasBit(b, 6), HasBit(b, 7)]
  }

  /** One step of long division by the polynomial, for the next bit of a message. */
  function Feed(c: bv16, bit: bool): bv16 {
    DivideBit(if bit then c ^ 1 else c)
  }

  /** Long division of a whole message, bit by bit. */
  function Remainder(c: bv16, bits: seq<bool>): bv16 {
    if bits == [] then c else Feed(Remainder(c, bits[..|bits| - 1]), bits[|bits| - 1])
  }

  lemma {:induction false} RemainderAppend(c: bv16, a: seq<bool>, b: seq<bool>)
    ensures Remainder(c, a + b) == Remainder(Remainder(c, a), b)
    decreases |b|
  {
    hide Feed;
    if b == [] {
      assert a + b == a;
    } else {
      var n := |b| - 1;
      RemainderAppend(c, a, b[..n]);
      assert (a + b)[..|a + b| - 1] == a + b[..n];
    }
  }

  lemma RemainderFirst(c: bv16, bit: bool, rest: seq<bool>)
    ensures Remainder(c, [bit] + rest) == Remainder(Feed(c, bit), rest)
  {
    hide Feed;
    RemainderAppend(c, [bit], rest);
    assert [bit][..0] == [];
  }

  /** A step of the division takes the lowest bit of what is added, and leaves the others for the next steps. */
  lemma FeedLow(c: bv16, high: bv16, odd: bool)
    requires high < 0x8000
    ensures DivideBit(Xor(c, Twice(high, odd))) == Xor(Feed(c, odd), high)
  {
    hide DivideBit;
    hide Twice;
    hide Xor;
    XorTwice(c, high, odd);
    DivideBitLinear(if odd then c ^ 1 else c, high << 1);
    EvenShifts(high);
  }

  lemma XorTwice(c: bv16, high: bv16, odd: bool)
    ensures Xor(c, Twice(high, odd)) == Xor(if odd then c ^ 1 else c, high << 1)
  {
    if odd {
      EvenShift(high);
      OrOne(c, high << 1);
    } else {
      OrNothing(high << 1);
    }
  }

  lemma EvenShift(high: bv16)
    ensures (high << 1) & 1 == 0
  {
  }

  lemma OrOne(c: bv16, even: bv16)
    requires even & 1 == 0
    ensures c ^ (even | 1) == (c ^ 1) ^ even
  {
  }

  lemma OrNothing(even: bv16)
    ensures even | 0 == even
  {
  }

  lemma EvenShifts(high: bv16)
    requires high < 0x8000
    ensures DivideBit(high << 1) == high
  {
  }

  /** The bits of a number from bit k up to bit 7. */
  function BitsFrom(b: nat, n: nat): seq<bool>
    requires n <= 8
  {
    if n == 0 then [] else [b % 2 == 1] + BitsFrom(b / 2, n - 1)
  }

  lemma {:induction false} RestIsRemainder(c: bv16, b: nat, n: nat)
    requires n <= 8
    ensures Rest(Xor(c, Bits(b, n)), 8 - n) == Remainder(c, BitsFrom(b, n))
    decreases n
  {
    hide DivideBit;
    hide Twice;
    hide Feed;
    hide Xor;
    hide Remainder;
    if n == 0 {
      XorNothing(c);
      NoRemainder(c);
    } else {
      BitsFit(b / 2, n - 1);
      BitsSmall(b / 2, n - 1);
      FeedLow(c, Bits(b / 2, n - 1), b % 2 == 1);
      RestIsRemainder(Feed(c, b % 2 == 1), b / 2, n - 1);
      RemainderFirst(c, b % 2 == 1, BitsFrom(b / 2, n - 1));
    }
  }

  lemma NoRemainder(c: bv16)
    ensures Remainder(c, []) == c
  {
  }

  lemma XorNothing(c: bv16)
    ensures Xor(c, 0) == c
  {
  }

  lemma {:induction false} BitsFromAt(b: nat, n: nat, k: nat)
    requires k < n <= 8
    ensures |BitsFrom(b, n)| == n && (BitsFrom(b, n)[k] <==> HasBit(b, k))
  {
    hide HasBit;
    LowestBit(b);
    if k > 0 {
      BitsFromAt(b / 2, n - 1, k - 1);
      BitOfHalf(b, k);
    } else if n > 1 {
      BitsFromAt(b / 2, n - 1, 0);
    }
  }

  lemma OctetFrom(b: byte)
    ensures BitsFrom(b, 8) == OctetInBits(b)
  {
    hide HasBit;
    hide BitsFrom;
    forall k: nat | k < 8
      ensures |BitsFrom(b, 8)| == 8 && (BitsFrom(b, 8)[k] <==> OctetInBits(b)[k])
    {
      BitsFromAt(b, 8, k);
    }
    BitsFromAt(b, 8, 0);
  }

  /** The table-driven update is long division of the eight bits of the octet, the lowest one first. */
  lemma UpdateDivides(crc: bv16, b: byte)
    ensures Update(crc, b) == Remainder(crc, OctetInBits(b))
  {
    hide Update;
    hide Division;
    hide Xor;
    hide Rest;
    hide OctetInBits;
    UpdateIsDivision(crc, b);
    RestIsDivision(Xor(crc, Octet(b)));
    RestIsRemainder(crc, b, 8);
    OctetFrom(b);
  }

  /** The table-driven CRC is long division of the bits of the message. */
  lemma {:induction false} CrcIsRemainder(data: seq<byte>)
    ensures Crc(data) == Remainder(0, MessageBits(data))
  {
    hide Update;
    hide OctetInBits;
    if data != [] {
      var n := |data| - 1;
      CrcIsRemainder(data[..n]);
      UpdateDivides(Crc(data[..n]), data[n]);
      RemainderAppend(0, MessageBits(data[..n]), OctetInBits(data[n]));
    }
  }

  lemma XorCancels(a: bv16, x: bv16)
    ensures Xor(Xor(a, x), x) == a && Xor(a, Xor(a, x)) == x
  {
  }

  /** Different octets lead to different CRCs. */
  lemma OctetCounts(crc: bv16, x: byte, y: byte)
    requires Update(crc, x) == Update(crc, y)
    ensures x == y
  {
    hide Update;
    hide Division;
    hide Octet;
    hide Xor;
    UpdateIsDivision(crc, x);
    UpdateIsDivision(crc, y);
    DivisionInjective(Xor(crc, Octet(x)), Xor(crc, Octet(y)));
    XorCancels(crc, Octet(x));
    XorCancels(crc, Octet(y));
    OctetInjective(x, y);
  }

  /** Different CRCs stay different. */
  lemma CrcCounts(a: bv16, b: bv16, x: byte)
    requires Update(a, x) == Update(b, x)
    ensures a == b
  {
    hide Update;
    hide Division;
    hide Octet;
    hide Xor;
    UpdateIsDivision(a, x);
    UpdateIsDivision(b, x);
    DivisionInjective(Xor(a, Octet(x)), Xor(b, Octet(x)));
    XorCancels(a, Octet(x));
    XorCancels(b, Octet(x));
  }

  /** Two messages that differ in one octet only. */
  ghost predicate DifferOnce(a: seq<byte>, b: seq<byte>, k: nat) {
    k < |a| == |b| && a[k] != b[k] && forall i | 0 <= i < |a| && i != k :: a[i] == b[i]
  }

  /** One corrupted octet is always detected. */
  lemma {:induction false} OneErrorDetected(a: seq<byte>, b: seq<byte>, k: nat)
    requires DifferOnce(a, b, k)
    ensures Crc(a) != Crc(b)
  {
    hide Update;
    var n := |a| - 1;
    if k < n {
      OneErrorDetected(a[..n], b[..n], k);
      if Crc(a) == Crc(b) {
        CrcCounts(Crc(a[..n]), Crc(b[..n]), a[n]);
      }
    } else {
      assert a[..n] == b[..n];
      if Crc(a) == Crc(b) {
        OctetCounts(Crc(a[..n]), a[n], b[n]);
      }
    }
  }
}
