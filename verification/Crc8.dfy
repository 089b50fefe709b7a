/** The table-driven 8-bit CRC of the 1-Wire code: its table is the bit-serial
    CRC for x^8 + x^5 + x^4 + 1, and what that guarantees about messages. */
module Crc8 {

  /** Entry `lo` of one 16-entry row of the table. */
  function Row(lo: bv8, e0: bv8, e1: bv8, e2: bv8, e3: bv8, e4: bv8, e5: bv8, e6: bv8, e7: bv8,
               e8: bv8, e9: bv8, e10: bv8, e11: bv8, e12: bv8, e13: bv8, e14: bv8, e15: bv8): bv8
  {
    match lo
    case 0 => e0 case 1 => e1 case 2 => e2 case 3 => e3 case 4 => e4 case 5 => e5 case 6 => e6 case 7 => e7
    case 8 => e8 case 9 => e9 case 10 => e10 case 11 => e11 case 12 => e12 case 13 => e13 case 14 => e14
    case _ => e15
  }

  /** The lookup table, one row for each high nibble of the index. */
  function DscrcTable(i: bv8): bv8 {
    var lo := i & 0x0F;
    match i >> 4
    case 0 => Row(lo, 0, 94, 188, 226, 97, 63, 221, 131, 194, 156, 126, 32, 163, 253, 31, 65)
    case 1 => Row(lo, 157, 195, 33, 127, 252, 162, 64, 30, 95, 1, 227, 189, 62, 96, 130, 220)
    case 2 => Row(lo, 35, 125, 159, 193, 66, 28, 254, 160, 225, 191, 93, 3, 128, 222, 60, 98)
    case 3 => Row(lo, 190, 224, 2, 92, 223, 129, 99, 61, 124, 34, 192, 158, 29, 67, 161, 255)
    case 4 => Row(lo, 70, 24, 250, 164, 39, 121, 155, 197, 132, 218, 56, 102, 229, 187, 89, 7)
    case 5 => Row(lo, 219, 133, 103, 57, 186, 228, 6, 88, 25, 71, 165, 251, 120, 38, 196, 154)
    case 6 => Row(lo, 101, 59, 217, 135, 4, 90, 184, 230, 167, 249, 27, 69, 198, 152, 122, 36)
    case 7 => Row(lo, 248, 166, 68, 26, 153, 199, 37, 123, 58, 100, 134, 216, 91, 5, 231, 185)
    case 8 => Row(lo, 140, 210, 48, 110, 237, 179, 81, 15, 78, 16, 242, 172, 47, 113, 147, 205)
    case 9 => Row(lo, 17, 79, 173, 243, 112, 46, 204, 146, 211, 141, 111, 49, 178, 236, 14, 80)
    case 10 => Row(lo, 175, 241, 19, 77, 206, 144, 114, 44, 109, 51, 209, 143, 12, 82, 176, 238)
    case 11 => Row(lo, 50, 108, 142, 208, 83, 13, 239, 177, 240, 174, 76, 18, 145, 207, 45, 115)
    case 12 => Row(lo, 202, 148, 118, 40, 171, 245, 23, 73, 8, 86, 180, 234, 105, 55, 213, 139)
    case 13 => Row(lo, 87, 9, 235, 181, 54, 104, 138, 212, 149, 203, 41, 119, 244, 170, 72, 22)
    case 14 => Row(lo, 233, 183, 85, 11, 136, 214, 52, 106, 43, 117, 151, 201, 74, 20, 246, 168)
    case _ => Row(lo, 116, 42, 200, 150, 21, 75, 169, 247, 182, 232, 10, 84, 215, 137, 107, 53)
  }

  /** One shift of the CRC register, least significant bit first. */
  function Shift(crc: bv8): bv8 {
    (crc >> 1) ^ (if crc & 1 == 1 then 0x8C else 0)
  }

  function ShiftByte(crc: bv8): bv8 {
    Shift(Shift(Shift(Shift(Shift(Shift(Shift(Shift(crc))))))))
  }

  lemma Row0(i: bv8)
    requires i >> 4 == 0
    ensures DscrcTable(i) == ShiftByte(i)
  {
  }

  lemma Row1(i: bv8)
    requires i >> 4 == 1
    ensures DscrcTable(i) == ShiftByte(i)
  {
  }

  lemma Row2(i: bv8)
    requires i >> 4 == 2
    ensures DscrcTable(i) == ShiftByte(i)
  {
  }

  lemma Row3(i: bv8)
    requires i >> 4 == 3
    ensures DscrcTable(i) == ShiftByte(i)
  {
  }

  lemma Row4(i: bv8)
    requires i >> 4 == 4
    ensures DscrcTable(i) == ShiftByte(i)
  {
  }

  lemma Row5(i: bv8)
    requires i >> 4 == 5
    ensures DscrcTable(i) == ShiftByte(i)
  {
  }

  lemma Row6(i: bv8)
    requires i >> 4 == 6
    ensures DscrcTable(i) == ShiftByte(i)
  {
  }

  lemma Row7(i: bv8)
    requires i >> 4 == 7
    ensures DscrcTable(i) == ShiftByte(i)
  {
  }

  lemma Row8(i: bv8)
    requires i >> 4 == 8
    ensures DscrcTable(i) == ShiftByte(i)
  {
  }

  lemma Row9(i: bv8)
    requires i >> 4 == 9
    ensures DscrcTable(i) == ShiftByte(i)
  {
  }

  lemma Row10(i: bv8)
    requires i >> 4 == 10
    ensures DscrcTable(i) == ShiftByte(i)
  {
  }

  lemma Row11(i: bv8)
    requires i >> 4 == 11
    ensures DscrcTable(i) == ShiftByte(i)
  {
  }

  lemma Row12(i: bv8)
    requires i >> 4 == 12
    ensures DscrcTable(i) == ShiftByte(i)
  {
  }

  lemma Row13(i: bv8)
    requires i >> 4 == 13
    ensures DscrcTable(i) == ShiftByte(i)
  {
  }

  lemma Row14(i: bv8)
    requires i >> 4 == 14
    ensures DscrcTable(i) == ShiftByte(i)
  {
  }

  lemma Row15(i: bv8)
    requires i >> 4 == 15
    ensures DscrcTable(i) == ShiftByte(i)
  {
  }

  /** Every table entry is the eight-fold shift of its index. */
  lemma TableIsShift(i: bv8)
    ensures DscrcTable(i) == ShiftByte(i)
  {
    match i >> 4
    case 0 => Row0(i);
    case 1 => Row1(i);
    case 2 => Row2(i);
    case 3 => Row3(i);
    case 4 => Row4(i);
    case 5 => Row5(i);
    case 6 => Row6(i);
    case 7 => Row7(i);
    case 8 => Row8(i);
    case 9 => Row9(i);
    case 10 => Row10(i);
    case 11 => Row11(i);
    case 12 => Row12(i);
    case 13 => Row13(i);
    case 14 => Row14(i);
    case _ => Row15(i);
  }

  // ----- the bit-serial CRC -----

  /** The serial circuit: one message bit is fed into the register. */
  function FeedBit(crc: bv8, bit: bool): bv8 {
    var feedback := (crc & 1 == 1) != bit;
    (crc >> 1) ^ (if feedback then 0x8C else 0)
  }

  /** The lowest `n` bits of `b` are fed in, least significant first. */
  function FeedBits(crc: bv8, b: bv8, n: nat): bv8
    decreases n
  {
    if n == 0 then crc else FeedBits(FeedBit(crc, b & 1 == 1), b >> 1, n - 1)
  }

  function Serial(crc: bv8, message: seq<bv8>): bv8
    decreases |message|
  {
    if message == [] then crc else Serial(FeedBits(crc, message[0], 8), message[1..])
  }

  /** The CRC of a message. */
  function Crc(message: seq<bv8>): bv8 {
    Serial(0, message)
  }

  function ShiftTimes(crc: bv8, n: nat): bv8
    decreases n
  {
    if n == 0 then crc else ShiftTimes(Shift(crc), n - 1)
  }

  lemma FeedOneBit(crc: bv8, b: bv8)
    ensures Shift(crc ^ b) == FeedBit(crc, b & 1 == 1) ^ (b >> 1)
  {
  }

  /** Feeding the bits of a byte one by one is shifting the register with the
      byte added to it. */
  lemma {:induction false} FeedIsShift(crc: bv8, b: bv8, n: nat)
    ensures ShiftTimes(crc ^ b, n) == FeedBits(crc, b, n) ^ ShiftRight(b, n)
    decreases n
  {
    if n == 0 {
    } else {
      FeedOneBit(crc, b);
      FeedIsShift(FeedBit(crc, b & 1 == 1), b >> 1, n - 1);
    }
  }

  function ShiftRight(b: bv8, n: nat): bv8
    decreases n
  {
    if n == 0 then b else ShiftRight(b >> 1, n - 1)
  }

  lemma FeedByte(crc: bv8, b: bv8)
    ensures FeedBits(crc, b, 8) == ShiftByte(crc ^ b)
  {
    FeedIsShift(crc, b, 8);
    EightShifts(crc ^ b);
    EightShiftsOut(b);
  }

  lemma EightShifts(x: bv8)
    ensures ShiftTimes(x, 8) == ShiftByte(x)
  {
    var x4 := Shift(Shift(Shift(Shift(x))));
    assert ShiftTimes(x, 8) == ShiftTimes(Shift(Shift(x)), 6) == ShiftTimes(x4, 4);
    assert ShiftTimes(x4, 4) == ShiftTimes(Shift(Shift(x4)), 2) == Shift(Shift(Shift(Shift(x4))));
  }

  lemma EightShiftsOut(b: bv8)
    ensures ShiftRight(b, 8) == 0
  {
    var b4 := b >> 1 >> 1 >> 1 >> 1;
    assert ShiftRight(b, 8) == ShiftRight(b >> 1 >> 1, 6) == ShiftRight(b4, 4);
    assert ShiftRight(b4, 4) == ShiftRight(b4 >> 1 >> 1, 2) == b4 >> 1 >> 1 >> 1 >> 1;
  }

  /** The table look-up per byte computes the serial CRC. */
  lemma TableStep(crc: bv8, b: bv8)
    ensures DscrcTable(crc ^ b) == FeedBits(crc, b, 8)
  {
    TableIsShift(crc ^ b);
    FeedByte(crc, b);
  }

  lemma {:induction false} SerialSnoc(crc: bv8, message: seq<bv8>, b: bv8)
    ensures Serial(crc, message + [b]) == FeedBits(Serial(crc, message), b, 8)
    decreases |message|
  {
    if message == [] {
      assert (message + [b])[1..] == [];
    } else {
      assert (message + [b])[1..] == message[1..] + [b];
      SerialSnoc(FeedBits(crc, message[0], 8), message[1..], b);
    }
  }

  method OwCrc8(addr: array<bv8>, len: nat) returns (crc: bv8)
    requires len <= addr.Length && len < 256
    ensures crc == Crc(addr[..len])
  {
    crc := 0;
    var i := 0;
    while i < len
      invariant i <= len
      invariant crc == Crc(addr[..i])
    {
      TableStep(crc, addr[i]);
      SerialSnoc(0, addr[..i], addr[i]);
      assert addr[..i + 1] == addr[..i] + [addr[i]];
      crc := DscrcTable(crc ^ addr[i]);
      i := i + 1;
    }
  }

  // ----- what the CRC detects -----

  lemma ShiftInjective(a: bv8, b: bv8)
    requires Shift(a) == Shift(b)
    ensures a == b
  {
  }

  lemma XorCancels(a1: bv8, b1: bv8, a2: bv8, b2: bv8)
    requires a1 ^ b1 == a2 ^ b2
    ensures a1 == a2 <==> b1 == b2
  {
  }

  /** A byte step forgets nothing: from equal results, equal registers and equal
      bytes imply each other. */
  lemma FeedByteInjective(crc1: bv8, b1: bv8, crc2: bv8, b2: bv8)
    requires FeedBits(crc1, b1, 8) == FeedBits(crc2, b2, 8)
    ensures crc1 == crc2 <==> b1 == b2
  {
    FeedByte(crc1, b1);
    FeedByte(crc2, b2);
    ShiftByteInjective(crc1 ^ b1, crc2 ^ b2);
    XorCancels(crc1, b1, crc2, b2);
  }

  lemma ShiftByteInjective(a: bv8, b: bv8)
    requires ShiftByte(a) == ShiftByte(b)
    ensures a == b
  {
    var a4, b4 := Shift(Shift(Shift(Shift(a)))), Shift(Shift(Shift(Shift(b))));
    ShiftInjective(Shift(Shift(Shift(a4))), Shift(Shift(Shift(b4))));
    ShiftInjective(Shift(Shift(a4)), Shift(Shift(b4)));
    ShiftInjective(Shift(a4), Shift(b4));
    ShiftInjective(a4, b4);
    ShiftInjective(Shift(Shift(Shift(a))), Shift(Shift(Shift(b))));
    ShiftInjective(Shift(Shift(a)), Shift(Shift(b)));
    ShiftInjective(Shift(a), Shift(b));
    ShiftInjective(a, b);
  }

  /** A message with one more byte checks to zero exactly when that byte is its
      CRC. */
  lemma ChecksIff(message: seq<bv8>, b: bv8)
    ensures Crc(message + [b]) == 0 <==> b == Crc(message)
  {
    var c := Crc(message);
    SerialSnoc(0, message, b);
    FeedByte(c, b);
    assert c ^ b == 0 <==> b == c;
    assert ShiftByte(0) == 0;
    if ShiftByte(c ^ b) == 0 {
      ShiftByteInjective(c ^ b, 0);
    }
  }

  /** Different registers stay different over a common rest of the message. */
  lemma {:induction false} SerialInjective(crc1: bv8, crc2: bv8, rest: seq<bv8>)
    requires crc1 != crc2
    ensures Serial(crc1, rest) != Serial(crc2, rest)
    decreases |rest|
  {
    if rest == [] {
    } else {
      if FeedBits(crc1, rest[0], 8) == FeedBits(crc2, rest[0], 8) {
        FeedByteInjective(crc1, rest[0], crc2, rest[0]);
      }
      SerialInjective(FeedBits(crc1, rest[0], 8), FeedBits(crc2, rest[0], 8), rest[1..]);
    }
  }

  lemma {:induction false} SerialConcat(crc: bv8, a: seq<bv8>, b: seq<bv8>)
    ensures Serial(crc, a + b) == Serial(Serial(crc, a), b)
    decreases |a|
  {
    if a == [] {
      assert a + b == b;
    } else {
      assert (a + b)[1..] == a[1..] + b;
      SerialConcat(FeedBits(crc, a[0], 8), a[1..], b);
    }
  }

  /** Changing one byte of a message always changes its CRC. */
  lemma OneByteErrorDetected(message: seq<bv8>, i: nat, b: bv8)
    requires i < |message| && b != message[i]
    ensures Crc(message[i := b]) != Crc(message)
  {
    var a, rest := message[..i], message[i + 1..];
    var c := Serial(0, a);
    assert message == a + [message[i]] + rest && message[i := b] == a + [b] + rest;
    SerialConcat(0, a + [message[i]], rest);
    SerialConcat(0, a + [b], rest);
    SerialSnoc(0, a, message[i]);
    SerialSnoc(0, a, b);
    if FeedBits(c, b, 8) == FeedBits(c, message[i], 8) {
      FeedByteInjective(c, b, c, message[i]);
    }
    SerialInjective(FeedBits(c, b, 8), FeedBits(c, message[i], 8), rest);
  }

  /** The register starts at zero: the CRC of one byte is its table entry. */
  lemma CrcOfByte(b: bv8)
    ensures Crc([]) == 0 && Crc([b]) == DscrcTable(b)
  {
    TableStep(0, b);
    assert 0 as bv8 ^ b == b;
    assert [b][1..] == [];
    assert Serial(0, [b]) == Serial(FeedBits(0, b, 8), []);
  }
}
