// checksum.c: crc32a, the bit-by-bit CRC with a register that shifts left, against the reflected
// CRC-32 of section 8 of RFC 1952, whose register shifts right and takes a byte at a time.

module Crc32 {

  const POLYNOMIAL: bv32 := 0x04C1_1DB7
  const REFLECTED: bv32 := 0xEDB8_8320

  // ---------------------------------------------------------------------
  // reverse
  // ---------------------------------------------------------------------

  function Reverse(x: bv32): bv32 {
    var a := ((x & 0x5555_5555) << 1) | ((x >> 1) & 0x5555_5555);
    var b := ((a & 0x3333_3333) << 2) | ((a >> 2) & 0x3333_3333);
    var c := ((b & 0x0F0F_0F0F) << 4) | ((b >> 4) & 0x0F0F_0F0F);
    (c << 24) | ((c & 0xFF00) << 8) | ((c >> 8) & 0xFF00) | (c >> 24)
  }

  function Bit(x: bv32, i: bv8): bv32
    requires i < 32
  {
    (x >> i) & 1
  }

  /** Exactly the 32 bits in opposite order. */
  lemma ReverseBit(x: bv32, i: bv8)
    requires i < 32
    ensures Bit(Reverse(x), i) == Bit(x, 31 - i)
  {
  }

  lemma ReverseTwice(x: bv32)
    ensures Reverse(Reverse(x)) == x
  {
  }

  // ---------------------------------------------------------------------
  // RFC 1952, section 8
  // ---------------------------------------------------------------------

  function Xor(x: bv32, y: bv32): bv32 {
    x ^ y
  }

  function Half(x: bv32): bv32 {
    x >> 1
  }

  predicate Odd(x: bv32) {
    x & 1 != 0
  }

  /** One step of make_crc_table. */
  function Shift(c: bv32): bv32 {
    if Odd(c) then Xor(REFLECTED, Half(c)) else Half(c)
  }

  function Shifts(c: bv32, k: nat): bv32
    decreases k
  {
    if k == 0 then c else Shifts(Shift(c), k - 1)
  }

  function LowByte(x: bv32): bv32 {
    x & 0xff
  }

  function ByteDown(x: bv32): bv32 {
    x >> 8
  }

  /** crc_table[n]. */
  function TableEntry(n: bv32): bv32 {
    Shifts(n, 8)
  }

  /** One byte of update_crc. */
  function UpdateByte(c: bv32, byte: bv8): bv32 {
    Xor(TableEntry(LowByte(Xor(c, byte as bv32))), ByteDown(c))
  }

  function Update(c: bv32, message: seq<bv8>): bv32
    decreases |message|
  {
    if message == [] then c else Update(UpdateByte(c, message[0]), message[1..])
  }

  /** crc: the CRC of a message, with pre- and post-conditioning. */
  function Crc(message: seq<bv8>): bv32 {
    Xor(Update(0xffff_ffff, message), 0xffff_ffff)
  }

  // ---------------------------------------------------------------------
  // A byte is eight shifts of the register with the byte added in
  // ---------------------------------------------------------------------

  lemma XorOdd(x: bv32, y: bv32)
    ensures Odd(Xor(x, y)) <==> Odd(x) != Odd(y)
  {
  }

  lemma XorHalf(x: bv32, y: bv32)
    ensures Half(Xor(x, y)) == Xor(Half(x), Half(y))
  {
  }

  lemma XorAssociates(x: bv32, y: bv32, z: bv32)
    ensures Xor(x, Xor(y, z)) == Xor(Xor(x, y), z)
  {
  }

  lemma XorCommutes(x: bv32, y: bv32)
    ensures Xor(x, y) == Xor(y, x)
  {
  }

  lemma XorCancels(x: bv32, y: bv32)
    ensures Xor(x, Xor(x, y)) == y
  {
  }

  lemma ShiftXor(x: bv32, y: bv32)
    ensures Shift(Xor(x, y)) == Xor(Shift(x), Shift(y))
  {
    hide Odd, Xor, Half;
    var p, a, b := REFLECTED, Half(x), Half(y);
    XorOdd(x, y);
    XorHalf(x, y);
    XorAssociates(p, a, b);
    XorAssociates(a, p, b);
    XorCommutes(a, p);
    XorAssociates(Xor(p, a), p, b);
    XorCommutes(Xor(p, a), p);
    XorCancels(p, a);
  }

  lemma {:induction false} ShiftsXor(x: bv32, y: bv32, k: nat)
    ensures Shifts(Xor(x, y), k) == Xor(Shifts(x, k), Shifts(y, k))
    decreases k
  {
    hide Shift, Xor;
    if k > 0 {
      ShiftXor(x, y);
      ShiftsXor(Shift(x), Shift(y), k - 1);
    }
  }

  lemma SplitLow(x: bv32)
    ensures x == Xor(LowByte(x), HighBytes(x))
  {
  }

  function HighBytes(x: bv32): bv32 {
    x & 0xffff_ff00
  }

  lemma HighShifts(x: bv32)
    ensures Shifts(HighBytes(x), 8) == ByteDown(x)
  {
  }

  lemma DownOfXor(c: bv32, byte: bv8)
    ensures ByteDown(Xor(c, byte as bv32)) == ByteDown(c)
  {
  }

  lemma XorNothing(x: bv32)
    ensures Xor(x, 0) == x
  {
  }

  lemma UpdateIsShifts(c: bv32, byte: bv8)
    ensures UpdateByte(c, byte) == Shifts(Xor(c, byte as bv32), 8)
  {
    hide Xor, LowByte, HighBytes, Shifts, ByteDown;
    var x := Xor(c, byte as bv32);
    SplitLow(x);
    ShiftsXor(LowByte(x), HighBytes(x), 8);
    HighShifts(x);
    DownOfXor(c, byte);
  }

  // ---------------------------------------------------------------------
  // The register of crc32a is the reverse of that register
  // ---------------------------------------------------------------------

  function Double(x: bv32): bv32 {
    x << 1
  }

  /** (int) x < 0. */
  predicate Negative(x: bv32) {
    x & 0x8000_0000 != 0
  }

  function LeftShift(x: bv32): bv32 {
    if Negative(x) then Xor(Double(x), POLYNOMIAL) else Double(x)
  }

  lemma ReverseOdd(x: bv32)
    ensures Negative(Reverse(x)) <==> Odd(x)
  {
  }

  lemma ReverseHalf(x: bv32)
    ensures Reverse(Half(x)) == Double(Reverse(x))
  {
    hide Reverse, Half, Double;
    ReverseDouble(Reverse(x));
    ReverseTwice(x);
    ReverseTwice(Double(Reverse(x)));
  }

  lemma ReverseDouble(x: bv32)
    ensures Reverse(Double(x)) == Half(Reverse(x))
  {
    hide Reverse;
    ReverseShift(x);
  }

  lemma ReverseShift(x: bv32)
    ensures Reverse(x << 1) == Reverse(x) >> 1
  {
  }

  lemma ReverseReflected()
    ensures Reverse(REFLECTED) == POLYNOMIAL
  {
  }

  lemma ReverseOfXor(x: bv32, y: bv32)
    ensures Reverse(Xor(x, y)) == Xor(Reverse(x), Reverse(y))
  {
  }

  lemma DoubleXor(x: bv32, y: bv32)
    ensures Double(Xor(x, y)) == Xor(Double(x), Double(y))
  {
  }

  /** Shifting left is shifting right seen in the mirror. */
  lemma ShiftReverses(x: bv32)
    ensures LeftShift(Reverse(x)) == Reverse(Shift(x))
  {
    hide Reverse, Negative, Odd, Xor, Half, Double;
    ReverseOdd(x);
    ReverseHalf(x);
    ReverseReflected();
    ReverseOfXor(REFLECTED, Half(x));
    XorCommutes(POLYNOMIAL, Double(Reverse(x)));
  }

  lemma {:induction false} ShiftsLast(x: bv32, k: nat)
    ensures Shifts(x, k + 1) == Shift(Shifts(x, k))
    decreases k
  {
    hide Shift;
    if k > 0 {
      ShiftsLast(Shift(x), k - 1);
    }
  }

  lemma {:induction false} UpdateLast(c: bv32, message: seq<bv8>, byte: bv8)
    ensures Update(c, message + [byte]) == UpdateByte(Update(c, message), byte)
    decreases |message|
  {
    hide UpdateByte;
    var longer := message + [byte];
    if message == [] {
      assert longer[1..] == [];
    } else {
      assert longer[1..] == message[1..] + [byte];
      UpdateLast(UpdateByte(c, message[0]), message[1..], byte);
    }
  }

  /** The body of the inner loop: register and byte together make one shift. */
  lemma BitStep(crc: bv32, byte: bv32)
    ensures var crc' := if Negative(Xor(crc, byte)) then Xor(Double(crc), POLYNOMIAL) else Double(crc);
            Xor(crc', Double(byte)) == LeftShift(Xor(crc, byte))
  {
    hide Negative, Xor, Double;
    DoubleXor(crc, byte);
    XorAssociates(Double(crc), POLYNOMIAL, Double(byte));
    XorAssociates(Double(crc), Double(byte), POLYNOMIAL);
    XorCommutes(POLYNOMIAL, Double(byte));
  }

  function Halves(x: bv32, k: nat): bv32
    requires k <= 8
  {
    if k == 0 then x else Half(Halves(x, k - 1))
  }

  lemma NothingLeft(byte: bv8)
    ensures Halves(byte as bv32, 8) == 0
  {
    var x := byte as bv32;
    assert Halves(x, 1) == Half(x) && Halves(x, 2) == Half(Half(x)) && Halves(x, 3) == Half(Half(Half(x)));
    assert Halves(x, 4) == Half(Halves(x, 3)) && Halves(x, 5) == Half(Halves(x, 4));
    assert Halves(x, 6) == Half(Halves(x, 5)) && Halves(x, 7) == Half(Halves(x, 6));
  }

  lemma XorZero(x: bv32)
    ensures Xor(x, 0) == x && Reverse(0) == 0
  {
    XorNothing(x);
  }

  lemma Condition(x: bv32)
    ensures Reverse(!x) == Xor(Reverse(x), 0xffff_ffff) && Reverse(0xffff_ffff) == 0xffff_ffff
  {
  }

  /** One byte, bit by bit. */
  method AddByte(start: bv32, message: bv8) returns (crc: bv32)
    ensures Reverse(crc) == UpdateByte(Reverse(start), message)
  {
    hide Reverse, Negative, Xor, Double, Half, Shift, Shifts, LeftShift, UpdateByte;
    crc := start;
    var byte := message as bv32;
    ghost var b, d := byte, Xor(Reverse(start), byte);
    byte := Reverse(byte);
    ReverseOfXor(Reverse(start), b);
    ReverseTwice(start);
    var j := 0;
    assert Shifts(d, 0) == d by { ShiftsNone(d); }
    while j <= 7
      invariant j <= 8 && byte == Reverse(Halves(b, j)) && Xor(crc, byte) == Reverse(Shifts(d, j))
    {
      BitStep(crc, byte);
      ShiftReverses(Shifts(d, j));
      ShiftsLast(d, j);
      ReverseHalf(Halves(b, j));
      if Negative(Xor(crc, byte)) {
        crc := Xor(Double(crc), POLYNOMIAL);
      } else {
        crc := Double(crc);
      }
      byte := Double(byte);
      j := j + 1;
    }
    NothingLeft(message);
    XorZero(crc);
    ReverseTwice(Shifts(d, 8));
    UpdateIsShifts(Reverse(start), message);
  }

  lemma ShiftsNone(x: bv32)
    ensures Shifts(x, 0) == x
  {
  }

  /** crc32a gives the CRC of RFC 1952 for every message. */
  method Crc32a(message: seq<bv8>) returns (r: bv32)
    ensures r == Crc(message)
  {
    hide Reverse, Xor, UpdateByte, Update;
    var i := 0;
    var crc: bv32 := 0xFFFF_FFFF;
    ghost var start: bv32 := 0xFFFF_FFFF;
    Condition(crc);
    assert message[..0] == [];
    UpdateOfNone(start);
    while i < |message|
      invariant i <= |message| && Reverse(crc) == Update(start, message[..i])
    {
      assert message[..i + 1] == message[..i] + [message[i]];
      UpdateLast(start, message[..i], message[i]);
      crc := AddByte(crc, message[i]);
      i := i + 1;
    }
    assert message[..i] == message;
    Condition(crc);
    r := Reverse(!crc);
  }

  lemma UpdateOfNone(c: bv32)
    ensures Update(c, []) == c
  {
  }

  // ---------------------------------------------------------------------
  // What the CRC is for
  // ---------------------------------------------------------------------

  function XorBytes(a: seq<bv8>, b: seq<bv8>): (c: seq<bv8>)
    requires |a| == |b|
    ensures |c| == |a|
    decreases |a|
  {
    if a == [] then [] else [a[0] ^ b[0]] + XorBytes(a[1..], b[1..])
  }

  lemma ByteXor(a: bv8, b: bv8)
    ensures (a ^ b) as bv32 == Xor(a as bv32, b as bv32)
  {
  }

  lemma XorSwaps(a: bv32, b: bv32, c: bv32, d: bv32)
    ensures Xor(Xor(a, b), Xor(c, d)) == Xor(Xor(a, c), Xor(b, d))
  {
    hide Xor;
    XorAssociates(a, b, Xor(c, d));
    XorAssociates(b, c, d);
    XorCommutes(b, c);
    XorAssociates(c, b, d);
    XorAssociates(a, c, Xor(b, d));
  }

  lemma UpdateByteXor(c: bv32, d: bv32, a: bv8, b: bv8)
    ensures UpdateByte(Xor(c, d), a ^ b) == Xor(UpdateByte(c, a), UpdateByte(d, b))
  {
    hide Xor, Shifts, UpdateByte;
    UpdateIsShifts(Xor(c, d), a ^ b);
    UpdateIsShifts(c, a);
    UpdateIsShifts(d, b);
    ByteXor(a, b);
    XorSwaps(c, d, a as bv32, b as bv32);
    ShiftsXor(Xor(c, a as bv32), Xor(d, b as bv32), 8);
  }

  /** The register is linear in its start and the message together. */
  lemma {:induction false} UpdateXor(c: bv32, d: bv32, a: seq<bv8>, b: seq<bv8>)
    requires |a| == |b|
    ensures Update(Xor(c, d), XorBytes(a, b)) == Xor(Update(c, a), Update(d, b))
    decreases |a|
  {
    hide Xor, UpdateByte;
    if a != [] {
      UpdateByteXor(c, d, a[0], b[0]);
      assert XorBytes(a, b)[0] == a[0] ^ b[0] && XorBytes(a, b)[1..] == XorBytes(a[1..], b[1..]);
      UpdateXor(UpdateByte(c, a[0]), UpdateByte(d, b[0]), a[1..], b[1..]);
    }
  }

  /** For messages of one length: crc(a) ^ crc(b) ^ crc(c) = crc(a ^ b ^ c). */
  lemma CrcIsAffine(a: seq<bv8>, b: seq<bv8>, c: seq<bv8>)
    requires |a| == |b| == |c|
    ensures Xor(Xor(Crc(a), Crc(b)), Crc(c)) == Crc(XorBytes(XorBytes(a, b), c))
  {
    hide Xor, Update;
    var s: bv32 := 0xffff_ffff;
    UpdateXor(s, s, a, b);
    UpdateXor(Xor(s, s), s, XorBytes(a, b), c);
    XorOnes(Update(s, a), Update(s, b), Update(s, c));
  }

  lemma XorOnes(a: bv32, b: bv32, c: bv32)
    ensures var s: bv32 := 0xffff_ffff;
            Xor(Xor(s, s), s) == s && Xor(Xor(Xor(a, s), Xor(b, s)), Xor(c, s)) == Xor(Xor(Xor(a, b), c), s)
  {
  }

  // ---------------------------------------------------------------------
  // Known values
  // ---------------------------------------------------------------------

  lemma EightShifts(a: bv32, b: bv32, c: bv32, d: bv32, e: bv32, f: bv32, g: bv32, h: bv32, i: bv32)
    requires Shift(a) == b && Shift(b) == c && Shift(c) == d && Shift(d) == e
    requires Shift(e) == f && Shift(f) == g && Shift(g) == h && Shift(h) == i
    ensures TableEntry(a) == i
  {
    hide Shift;
    assert Shifts(h, 1) == i;
    assert Shifts(g, 2) == i;
    assert Shifts(f, 3) == i;
    assert Shifts(e, 4) == i;
    assert Shifts(d, 5) == i;
    assert Shifts(c, 6) == i;
    assert Shifts(b, 7) == i;
  }

  /** Entry 1 of the table of RFC 1952. */
  lemma FirstEntry()
    ensures TableEntry(1) == 0x7707_3096
  {
    EightShifts(0x0000_0001, 0xEDB8_8320, 0x76DC_4190, 0x3B6E_20C8, 0x1DB7_1064,
                0x0EDB_8832, 0x076D_C419, 0xEE0E_612C, 0x7707_3096);
  }

  lemma CheckByte1()
    ensures UpdateByte(0xFFFF_FFFF, 0x31) == 0x7C23_1048
  {
    EightShifts(0x0000_00CE, 0x0000_0067, 0xEDB8_8313, 0x9B64_C2A9, 0xA00A_E274,
                0x5005_713A, 0x2802_B89D, 0xF9B9_DF6E, 0x7CDC_EFB7);
  }

  lemma CheckByte2()
    ensures UpdateByte(0x7C23_1048, 0x32) == 0xB0AC_BB32
  {
    EightShifts(0x0000_007A, 0x0000_003D, 0xEDB8_833E, 0x76DC_419F, 0xD6D6_A3EF,
                0x86D3_D2D7, 0xAED1_6A4B, 0xBAD0_3605, 0xB0D0_9822);
  }

  lemma CheckByte3()
    ensures UpdateByte(0xB0AC_BB32, 0x33) == 0x77B7_9C2D
  {
    EightShifts(0x0000_0001, 0xEDB8_8320, 0x76DC_4190, 0x3B6E_20C8, 0x1DB7_1064,
                0x0EDB_8832, 0x076D_C419, 0xEE0E_612C, 0x7707_3096);
  }

  lemma CheckByte4()
    ensures UpdateByte(0x77B7_9C2D, 0x34) == 0x641C_1F5C
  {
    EightShifts(0x0000_0019, 0xEDB8_832C, 0x76DC_4196, 0x3B6E_20CB, 0xF00F_9345,
                0x95BF_4A82, 0x4ADF_A541, 0xC8D7_5180, 0x646B_A8C0);
  }

  lemma CheckByte5()
    ensures UpdateByte(0x641C_1F5C, 0x35) == 0x340A_C5E3
  {
    EightShifts(0x0000_0069, 0xEDB8_8314, 0x76DC_418A, 0x3B6E_20C5, 0xF00F_9342,
                0x7807_C9A1, 0xD1BB_67F0, 0x68DD_B3F8, 0x346E_D9FC);
  }

  lemma CheckByte6()
    ensures UpdateByte(0x340A_C5E3, 0x36) == 0xF68D_2C9E
  {
    EightShifts(0x0000_00D5, 0xEDB8_834A, 0x76DC_41A5, 0xD6D6_A3F2, 0x6B6B_51F9,
                0xD80D_2BDC, 0x6C06_95EE, 0x3603_4AF7, 0xF6B9_265B);
  }

  lemma CheckByte7()
    ensures UpdateByte(0xF68D_2C9E, 0x37) == 0xAFFC_9660
  {
    EightShifts(0x0000_00A9, 0xEDB8_8374, 0x76DC_41BA, 0x3B6E_20DD, 0xF00F_934E,
                0x7807_C9A7, 0xD1BB_67F3, 0x8565_30D9, 0xAF0A_1B4C);
  }

  lemma CheckByte8()
    ensures UpdateByte(0xAFFC_9660, 0x38) == 0x651F_2550
  {
    EightShifts(0x0000_0058, 0x0000_002C, 0x0000_0016, 0x0000_000B, 0xEDB8_8325,
                0x9B64_C2B2, 0x4DB2_6159, 0xCB61_B38C, 0x65B0_D9C6);
  }

  lemma CheckByte9()
    ensures UpdateByte(0x651F_2550, 0x39) == 0x340B_C6D9
  {
    EightShifts(0x0000_0069, 0xEDB8_8314, 0x76DC_418A, 0x3B6E_20C5, 0xF00F_9342,
                0x7807_C9A1, 0xD1BB_67F0, 0x68DD_B3F8, 0x346E_D9FC);
  }

  lemma UpdateStep(c: bv32, message: seq<bv8>, k: nat, c': bv32)
    requires k < |message| && UpdateByte(c, message[k]) == c'
    ensures Update(c, message[k..]) == Update(c', message[k + 1..])
  {
    hide UpdateByte;
    assert message[k..][1..] == message[k + 1..];
  }

  /** The CRC of the empty message, and the value by which CRCs are known: that of the characters 1 to 9. */
  lemma KnownValues()
    ensures Crc([]) == 0
    ensures Crc([0x31, 0x32, 0x33, 0x34, 0x35, 0x36, 0x37, 0x38, 0x39]) == 0xCBF4_3926
  {
    hide UpdateByte, Update, Xor;
    Final(0x340B_C6D9, 0xCBF4_3926);
    Final(0xFFFF_FFFF, 0);
    UpdateOfNone(0xFFFF_FFFF);
    UpdateOfNone(0x340B_C6D9);
    var m: seq<bv8> := [0x31, 0x32, 0x33, 0x34, 0x35, 0x36, 0x37, 0x38, 0x39];
    CheckByte1();
    UpdateStep(0xFFFF_FFFF, m, 0, 0x7C23_1048);
    CheckByte2();
    UpdateStep(0x7C23_1048, m, 1, 0xB0AC_BB32);
    CheckByte3();
    UpdateStep(0xB0AC_BB32, m, 2, 0x77B7_9C2D);
    CheckByte4();
    UpdateStep(0x77B7_9C2D, m, 3, 0x641C_1F5C);
    CheckByte5();
    UpdateStep(0x641C_1F5C, m, 4, 0x340A_C5E3);
    CheckByte6();
    UpdateStep(0x340A_C5E3, m, 5, 0xF68D_2C9E);
    CheckByte7();
    UpdateStep(0xF68D_2C9E, m, 6, 0xAFFC_9660);
    CheckByte8();
    UpdateStep(0xAFFC_9660, m, 7, 0x651F_2550);
    CheckByte9();
    UpdateStep(0x651F_2550, m, 8, 0x340B_C6D9);
    assert m[0..] == m && m[9..] == [];
  }

  lemma Final(c: bv32, crc: bv32)
    requires crc == !c
    ensures Xor(c, 0xffff_ffff) == crc
  {
  }
}
