/** The CRC-8 of src/build_tx.c: the byte loop, and what the check can and cannot detect. */
module Crc8 {
  import opened Words

  const CRC8_POLY: Byte := 0xB1
  const CRC8_INIT: Byte := 0xFF

  /** One turn of the shift register. */
  function Shift(v: Byte): Byte {
    if v & 1 == 1 then (v >> 1) ^ CRC8_POLY else v >> 1
  }

  /** `n` turns of the shift register. */
  function Shifts(v: Byte, n: nat): Byte {
    if n == 0 then v else Shift(Shifts(v, n - 1))
  }

  /** Addition of bits: the exclusive or. */
  function Plus(a: Byte, b: Byte): Byte {
    a ^ b
  }

  lemma PlusLaws(a: Byte, b: Byte, c: Byte, d: Byte)
    ensures Plus(Plus(a, b), Plus(c, d)) == Plus(Plus(a, c), Plus(b, d))
    ensures Plus(a, 0) == a && Plus(0, a) == a
    ensures Plus(a, b) == a <==> b == 0
    ensures Plus(a, b) == 0 <==> a == b
    ensures Plus(a, b) == Plus(a, c) <==> b == c
  {}

  function Update(crc: Byte, data: Byte): Byte {
    Shifts(Plus(crc, data), 8)
  }

  /** The CRC of a message, from a start value. */
  function Crc(init: Byte, msg: seq<Byte>): Byte {
    if msg == [] then init else Update(Crc(init, msg[..|msg| - 1]), msg[|msg| - 1])
  }

  method Crc8Update(crc: Byte, data: Byte) returns (r: Byte)
    ensures r == Update(crc, data)
  {
    r := crc ^ data;
    for i := 0 to 8
      invariant r == Shifts(Plus(crc, data), i)
    {
      if r & 1 == 1 {
        r := (r >> 1) ^ CRC8_POLY;
      } else {
        r := r >> 1;
      }
    }
  }

  // The shift register is a linear bijection.

  lemma ShiftLinear(a: Byte, b: Byte)
    ensures Shift(Plus(a, b)) == Plus(Shift(a), Shift(b))
  {}

  lemma ShiftInjective(a: Byte, b: Byte)
    ensures Shift(a) == Shift(b) ==> a == b
  {}

  lemma {:induction false} ShiftsLinear(a: Byte, b: Byte, n: nat)
    ensures Shifts(Plus(a, b), n) == Plus(Shifts(a, n), Shifts(b, n))
  {
    hide Shift, Plus;
    if n > 0 {
      ShiftsLinear(a, b, n - 1);
      ShiftLinear(Shifts(a, n - 1), Shifts(b, n - 1));
    }
  }

  lemma {:induction false} ShiftsInjective(a: Byte, b: Byte, n: nat)
    ensures Shifts(a, n) == Shifts(b, n) ==> a == b
  {
    if n > 0 {
      ShiftInjective(Shifts(a, n - 1), Shifts(b, n - 1));
      ShiftsInjective(a, b, n - 1);
    }
  }

  lemma {:induction false} ZeroShifts(n: nat)
    ensures Shifts(0, n) == 0
  {
    if n > 0 {
      ZeroShifts(n - 1);
    }
  }

  lemma {:induction false} ShiftsAdd(v: Byte, m: nat, n: nat)
    ensures Shifts(v, m + n) == Shifts(Shifts(v, m), n)
  {
    if n > 0 {
      ShiftsAdd(v, m, n - 1);
    }
  }

  // The order of the shift register: 1 comes back after 255 turns and not before.

  lemma FourShifts(v: Byte, n: nat)
    ensures Shifts(v, n + 4) == Shift(Shift(Shift(Shift(Shifts(v, n)))))
  {
    assert Shifts(v, n + 2) == Shift(Shift(Shifts(v, n)));
  }

  lemma EightShifts(v: Byte)
    ensures Shifts(v, 8) == Shift(Shift(Shift(Shift(Shift(Shift(Shift(Shift(v))))))))
  {
    FourShifts(v, 0);
    FourShifts(v, 4);
  }

  /** Four turns. */
  function Turn4(v: Byte): Byte {
    Shift(Shift(Shift(Shift(v))))
  }

  /** Seventeen turns. */
  function Turn17(v: Byte): Byte {
    Shift(Turn4(Turn4(Turn4(Turn4(v)))))
  }

  lemma SeventeenShifts(v: Byte)
    ensures Shifts(v, 17) == Turn17(v)
  {
    hide Shift;
    FourShifts(v, 0);
    FourShifts(v, 4);
    FourShifts(v, 8);
    FourShifts(v, 12);
  }

  /** 1 after 17, 34, ... turns. */
  function Jumps(n: nat): Byte {
    match n
    case 0 => 0x01 case 1 => 0x13 case 2 => 0x66 case 3 => 0xE3 case 4 => 0xE2
    case 5 => 0xF1 case 6 => 0x97 case 7 => 0x74 case 8 => 0x96 case 9 => 0x67
    case 10 => 0xF0 case 11 => 0x84 case 12 => 0x12 case 13 => 0x75 case 14 => 0x85 case _ => 0x01
  }

  lemma Jumps1()
    ensures Turn17(0x01) == 0x13 && Turn17(0x13) == 0x66 && Turn17(0x66) == 0xE3
  {}

  lemma Jumps2()
    ensures Turn17(0xE3) == 0xE2 && Turn17(0xE2) == 0xF1 && Turn17(0xF1) == 0x97
  {}

  lemma Jumps3()
    ensures Turn17(0x97) == 0x74 && Turn17(0x74) == 0x96 && Turn17(0x96) == 0x67
  {}

  lemma Jumps4()
    ensures Turn17(0x67) == 0xF0 && Turn17(0xF0) == 0x84 && Turn17(0x84) == 0x12
  {}

  lemma Jumps5()
    ensures Turn17(0x12) == 0x75 && Turn17(0x75) == 0x85 && Turn17(0x85) == 0x01
  {}

  lemma JumpsStep(n: nat)
    requires n < 15
    ensures Turn17(Jumps(n)) == Jumps(n + 1)
  {
    hide Turn17;
    Jumps1();
    Jumps2();
    Jumps3();
    Jumps4();
    Jumps5();
  }

  lemma {:induction false} Seventeens(n: nat)
    requires n <= 15
    ensures Shifts(1, 17 * n) == Jumps(n)
  {
    hide Turn17, Shift;
    if n > 0 {
      Seventeens(n - 1);
      ShiftsAdd(1, 17 * (n - 1), 17);
      SeventeenShifts(Jumps(n - 1));
      JumpsStep(n - 1);
    }
  }

  lemma PowersOfOne()
    ensures Shifts(1, 15) == 0x4C && Shifts(1, 51) == 0xE3 && Shifts(1, 85) == 0xF1 && Shifts(1, 255) == 1
  {
    EightShifts(1);
    FourShifts(1, 8);
    assert Shifts(1, 12) == Shift(Shift(Shift(Shift(Shifts(1, 8)))));
    assert Shifts(1, 15) == Shift(Shift(Shift(Shifts(1, 12))));
    Seventeens(3);
    Seventeens(5);
    Seventeens(15);
  }

  lemma {:induction false} PeriodMultiple(d: nat, q: nat)
    requires Shifts(1, d) == 1
    ensures Shifts(1, q * d) == 1
  {
    if q > 0 {
      PeriodMultiple(d, q - 1);
      ShiftsAdd(1, (q - 1) * d, d);
      assert (q - 1) * d + d == q * d;
    } else {
      assert q * d == 0;
    }
  }

  lemma PeriodRemainder(n: nat, d: nat)
    requires d > 0 && Shifts(1, d) == 1
    ensures Shifts(1, n) == Shifts(1, n % d)
  {
    PeriodMultiple(d, n / d);
    ShiftsAdd(1, n / d * d, n % d);
    assert n == n / d * d + n % d;
  }

  lemma DivisorsOf255(d: nat, q: nat)
    requires d < 255 && q * d == 255
    ensures d == 1 || d == 3 || d == 5 || d == 15 || d == 17 || d == 51 || d == 85
  {}

  /** A period that divides 255 properly divides 15, 51 or 85. */
  lemma DivisorPeriod(d: nat)
    requires 0 < d < 255 && 255 % d == 0 && Shifts(1, d) == 1
    ensures Shifts(1, 15) == 1 || Shifts(1, 51) == 1 || Shifts(1, 85) == 1
  {
    hide Shift, Shifts;
    assert 255 / d * d == 255;
    DivisorsOf255(d, 255 / d);
    if d == 1 {
      PeriodMultiple(d, 15);
    } else if d == 3 {
      PeriodMultiple(d, 5);
    } else if d == 5 {
      PeriodMultiple(d, 3);
    } else if d == 17 {
      PeriodMultiple(d, 3);
    }
  }

  /** No proper period: a shorter one would leave a still shorter remainder, or divide 255. */
  lemma {:induction false} NoShortPeriod(d: nat)
    requires 0 < d < 255
    ensures Shifts(1, d) != 1
    decreases d
  {
    PowersOfOne();
    if Shifts(1, d) == 1 {
      PeriodRemainder(255, d);
      if 255 % d > 0 {
        NoShortPeriod(255 % d);
      } else {
        DivisorPeriod(d);
      }
    }
  }

  /** The polynomial is primitive: `n` turns bring 1 back to 1 exactly when 255 divides `n`. */
  lemma OrderIs255(n: nat)
    ensures Shifts(1, n) == 1 <==> n % 255 == 0
  {
    PowersOfOne();
    PeriodRemainder(n, 255);
    if n % 255 > 0 {
      NoShortPeriod(n % 255);
    }
  }

  // Messages.

  function Xor(a: seq<Byte>, b: seq<Byte>): (c: seq<Byte>)
    requires |a| == |b|
  {
    seq(|a|, i requires 0 <= i < |a| => Plus(a[i], b[i]))
  }

  lemma UpdateLinear(u: Byte, v: Byte, x: Byte, y: Byte)
    ensures Update(Plus(u, v), Plus(x, y)) == Plus(Update(u, x), Update(v, y))
  {
    hide Plus, Shifts, Shift;
    PlusLaws(u, v, x, y);
    ShiftsLinear(Plus(u, x), Plus(v, y), 8);
  }

  /** The CRC is affine: it turns the exclusive or of two messages into that of their CRCs. */
  lemma {:induction false} CrcAffine(i: Byte, j: Byte, a: seq<Byte>, b: seq<Byte>)
    requires |a| == |b|
    ensures Crc(Plus(i, j), Xor(a, b)) == Plus(Crc(i, a), Crc(j, b))
  {
    hide Update, Plus;
    if a != [] {
      var n := |a| - 1;
      assert Xor(a, b)[..n] == Xor(a[..n], b[..n]);
      CrcAffine(i, j, a[..n], b[..n]);
      UpdateLinear(Crc(i, a[..n]), Crc(j, b[..n]), a[n], b[n]);
    }
  }

  /** A corrupted message keeps its CRC exactly when the error pattern is itself a code word. */
  lemma ErrorUndetectedIff(msg: seq<Byte>, error: seq<Byte>)
    requires |msg| == |error|
    ensures Crc(CRC8_INIT, Xor(msg, error)) == Crc(CRC8_INIT, msg) <==> Crc(0, error) == 0
  {
    hide Plus, Update;
    CrcAffine(CRC8_INIT, 0, msg, error);
    PlusLaws(CRC8_INIT, 0, 0, 0);
    PlusLaws(Crc(CRC8_INIT, msg), Crc(0, error), 0, 0);
  }

  /** The residue of a message and a last byte is zero exactly when that byte is the message's CRC. */
  lemma ResidueIff(init: Byte, msg: seq<Byte>, last: Byte)
    ensures Crc(init, msg + [last]) == 0 <==> last == Crc(init, msg)
  {
    hide Plus, Shift;
    var m := msg + [last];
    assert m[..|m| - 1] == msg;
    var c := Crc(init, msg);
    PlusLaws(c, last, 0, 0);
    ZeroShifts(8);
    ShiftsInjective(Plus(c, last), 0, 8);
  }

  // Errors confined to eight consecutive bits.  Bit 0 of a byte is its least significant, the one
  // that the loop shifts out first.

  /** The part of `pattern << s` that stays in the byte. */
  function Low(pattern: Byte, s: nat): Byte
    requires s < 8
  {
    match s
    case 0 => pattern
    case 1 => pattern << 1
    case 2 => pattern << 2
    case 3 => pattern << 3
    case 4 => pattern << 4
    case 5 => pattern << 5
    case 6 => pattern << 6
    case _ => pattern << 7
  }

  /** The part of `pattern << s` that spills into the next byte. */
  function High(pattern: Byte, s: nat): Byte
    requires s < 8
  {
    match s
    case 0 => 0
    case 1 => pattern >> 7
    case 2 => pattern >> 6
    case 3 => pattern >> 5
    case 4 => pattern >> 4
    case 5 => pattern >> 3
    case 6 => pattern >> 2
    case _ => pattern >> 1
  }

  predicate Fits(n: nat, p: nat, pattern: Byte) {
    p < 8 * n && (p / 8 + 1 < n || High(pattern, p % 8) == 0)
  }

  /** The message with the bits `p` to `p + 7` changed where `pattern` says. */
  function Burst(msg: seq<Byte>, p: nat, pattern: Byte): (r: seq<Byte>)
    requires Fits(|msg|, p, pattern)
    ensures |r| == |msg|
  {
    var k, s := p / 8, p % 8;
    var m := msg[k := Plus(msg[k], Low(pattern, s))];
    if k + 1 < |msg| then m[k + 1 := Plus(m[k + 1], High(pattern, s))] else m
  }

  lemma FewShifts(v: Byte)
    ensures Shifts(v, 1) == Shift(v) && Shifts(v, 2) == Shift(Shift(v)) && Shifts(v, 3) == Shift(Shift(Shift(v)))
  {}

  lemma BurstInByte1(pattern: Byte)
    ensures Plus(Shifts(Low(pattern, 1), 8), High(pattern, 1)) == Shifts(pattern, 7)
  {
    EightShifts(Low(pattern, 1));
    FewShifts(pattern);
    FourShifts(pattern, 3);
  }

  lemma BurstInByte2(pattern: Byte)
    ensures Plus(Shifts(Low(pattern, 2), 8), High(pattern, 2)) == Shifts(pattern, 6)
  {
    EightShifts(Low(pattern, 2));
    FewShifts(pattern);
    FourShifts(pattern, 2);
  }

  lemma BurstInByte3(pattern: Byte)
    ensures Plus(Shifts(Low(pattern, 3), 8), High(pattern, 3)) == Shifts(pattern, 5)
  {
    EightShifts(Low(pattern, 3));
    FewShifts(pattern);
    FourShifts(pattern, 1);
  }

  lemma BurstInByte4(pattern: Byte)
    ensures Plus(Shifts(Low(pattern, 4), 8), High(pattern, 4)) == Shifts(pattern, 4)
  {
    EightShifts(Low(pattern, 4));
    FewShifts(pattern);
    FourShifts(pattern, 0);
  }

  lemma BurstInByte5(pattern: Byte)
    ensures Plus(Shifts(Low(pattern, 5), 8), High(pattern, 5)) == Shifts(pattern, 3)
  {
    EightShifts(Low(pattern, 5));
    FewShifts(pattern);
  }

  lemma BurstInByte6(pattern: Byte)
    ensures Plus(Shifts(Low(pattern, 6), 8), High(pattern, 6)) == Shifts(pattern, 2)
  {
    EightShifts(Low(pattern, 6));
    FewShifts(pattern);
  }

  lemma BurstInByte7(pattern: Byte)
    ensures Plus(Shifts(Low(pattern, 7), 8), High(pattern, 7)) == Shifts(pattern, 1)
  {
    EightShifts(Low(pattern, 7));
    FewShifts(pattern);
  }

  /** A burst that starts at bit `s` of a byte is the pattern fed in from there. */
  lemma BurstInByte(pattern: Byte, s: nat)
    requires s < 8
    ensures Plus(Shifts(Low(pattern, s), 8), High(pattern, s)) == Shifts(pattern, 8 - s)
  {
    match s {
      case 0 => PlusLaws(Shifts(pattern, 8), 0, 0, 0);
      case 1 => BurstInByte1(pattern);
      case 2 => BurstInByte2(pattern);
      case 3 => BurstInByte3(pattern);
      case 4 => BurstInByte4(pattern);
      case 5 => BurstInByte5(pattern);
      case 6 => BurstInByte6(pattern);
      case _ => BurstInByte7(pattern);
    }
  }

  lemma ErrorStep(c: Byte, e: Byte, m: Byte, h: Byte)
    ensures Update(Plus(c, e), Plus(m, h)) == Plus(Update(c, m), Shifts(Plus(e, h), 8))
  {
    UpdateLinear(c, e, m, h);
  }

  lemma BurstSnoc(msg: seq<Byte>, p: nat, pattern: Byte)
    requires Fits(|msg|, p, pattern) && p / 8 + 1 < |msg|
    ensures var n, k, r := |msg| - 1, p / 8, Burst(msg, p, pattern);
      if k + 1 == n
        then r[..n] == msg[..n][k := Plus(msg[k], Low(pattern, p % 8))] && r[n] == Plus(msg[n], High(pattern, p % 8))
      else Fits(n, p, pattern) && r[..n] == Burst(msg[..n], p, pattern) && r[n] == msg[n]
  {}

  /** A change of the last byte. */
  lemma LastByteError(init: Byte, msg: seq<Byte>, low: Byte)
    requires msg != []
    ensures var n := |msg| - 1;
      Crc(init, msg[n := Plus(msg[n], low)]) == Plus(Crc(init, msg), Shifts(low, 8))
  {
    hide Update, Plus, Shifts;
    var n := |msg| - 1;
    assert msg[n := Plus(msg[n], low)][..n] == msg[..n];
    var c := Crc(init, msg[..n]);
    PlusLaws(c, 0, 0, 0);
    PlusLaws(low, 0, 0, 0);
    ErrorStep(c, 0, msg[n], low);
  }

  /** What a burst at bit `p` adds to the CRC: the pattern, shifted as often as bits follow its start. */
  lemma {:induction false} BurstSyndrome(init: Byte, msg: seq<Byte>, p: nat, pattern: Byte)
    requires Fits(|msg|, p, pattern)
    ensures Crc(init, Burst(msg, p, pattern)) == Plus(Crc(init, msg), Shifts(pattern, 8 * |msg| - p))
  {
    hide Update, Low, High, Plus, Shifts;
    var n, k, s := |msg| - 1, p / 8, p % 8;
    var low, high := Low(pattern, s), High(pattern, s);
    BurstInByte(pattern, s);
    if k == n {
      LastByteError(init, msg, low);
      PlusLaws(Shifts(low, 8), 0, 0, 0);
      assert Burst(msg, p, pattern) == msg[n := Plus(msg[n], low)];
    } else {
      BurstSnoc(msg, p, pattern);
      var c := Crc(init, msg[..n]);
      if k + 1 == n {
        LastByteError(init, msg[..n], low);
        ErrorStep(c, Shifts(low, 8), msg[n], high);
        ShiftsAdd(pattern, 8 - s, 8);
      } else {
        BurstSyndrome(init, msg[..n], p, pattern);
        var e := Shifts(pattern, 8 * n - p);
        PlusLaws(e, 0, 0, 0);
        PlusLaws(msg[n], 0, 0, 0);
        ErrorStep(c, e, msg[n], 0);
        ShiftsAdd(pattern, 8 * n - p, 8);
      }
    }
  }

  /** Every error confined to eight consecutive bits, at any bit of any message, changes the CRC. */
  lemma BurstDetected(msg: seq<Byte>, p: nat, pattern: Byte)
    requires Fits(|msg|, p, pattern) && pattern != 0
    ensures Crc(CRC8_INIT, Burst(msg, p, pattern)) != Crc(CRC8_INIT, msg)
  {
    hide Plus, Shift, Shifts, Crc, Burst, High;
    var n := 8 * |msg| - p;
    BurstSyndrome(CRC8_INIT, msg, p, pattern);
    PlusLaws(Crc(CRC8_INIT, msg), Shifts(pattern, n), 0, 0);
    ZeroShifts(n);
    ShiftsInjective(pattern, 0, n);
  }

  lemma OneFits(n: nat, p: nat)
    requires p < 8 * n
    ensures Fits(n, p, 1)
  {}

  /** The message with bit `p` inverted. */
  function Flip(msg: seq<Byte>, p: nat): (r: seq<Byte>)
    requires p < 8 * |msg|
    ensures |r| == |msg|
  {
    Burst(msg, p, 1)
  }

  lemma CancelIff(c: Byte, a: Byte, b: Byte)
    ensures Plus(Plus(c, a), b) == c <==> a == b
  {
    hide Plus;
    PlusLaws(c, a, 0, b);
    PlusLaws(b, 0, 0, 0);
    PlusLaws(c, Plus(a, b), 0, 0);
    PlusLaws(a, b, 0, 0);
  }

  lemma SameShiftsIff(d: nat, n: nat)
    ensures Shifts(1, d + n) == Shifts(1, n) <==> d % 255 == 0
  {
    hide Shift;
    ShiftsAdd(1, d, n);
    ShiftsInjective(Shifts(1, d), 1, n);
    OrderIs255(d);
  }

  lemma FlipSyndrome(msg: seq<Byte>, p: nat)
    requires p < 8 * |msg|
    ensures Crc(CRC8_INIT, Flip(msg, p)) == Plus(Crc(CRC8_INIT, msg), Shifts(1, 8 * |msg| - p))
  {
    OneFits(|msg|, p);
    BurstSyndrome(CRC8_INIT, msg, p, 1);
  }

  /** Two inverted bits go unnoticed exactly when their distance is a multiple of 255. */
  lemma TwoFlipsUndetectedIff(msg: seq<Byte>, p: nat, q: nat)
    requires p < q < 8 * |msg|
    ensures Crc(CRC8_INIT, Flip(Flip(msg, p), q)) == Crc(CRC8_INIT, msg) <==> (q - p) % 255 == 0
  {
    hide Plus, Shift, Shifts, Crc, Flip;
    var n := 8 * |msg|;
    FlipSyndrome(msg, p);
    FlipSyndrome(Flip(msg, p), q);
    CancelIff(Crc(CRC8_INIT, msg), Shifts(1, n - p), Shifts(1, n - q));
    SameShiftsIff(q - p, n - q);
    assert n - p == (q - p) + (n - q);
  }
}
