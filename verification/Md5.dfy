/** The digest code of src/md5.c. */
module Md5 {
  import opened Words
  import opened Rfc1321

  // The four functions as the code computes them.

  lemma SelectAgrees(b: Word, c: Word, d: Word)
    ensures d ^ (b & (c ^ d)) == (b & c) | (!b & d)
  {}

  function FF(b: Word, c: Word, d: Word): (w: Word)
    ensures w == F(b, c, d)
  {
    SelectAgrees(b, c, d);
    d ^ (b & (c ^ d))
  }

  function FG(b: Word, c: Word, d: Word): (w: Word)
    ensures w == G(b, c, d)
  {
    FF(d, b, c)
  }

  function FH(b: Word, c: Word, d: Word): (w: Word)
    ensures w == H(b, c, d)
  {
    b ^ c ^ d
  }

  function FI(b: Word, c: Word, d: Word): (w: Word)
    ensures w == I(b, c, d)
  {
    c ^ (b | !d)
  }

  /** The word, the shift and the constant of operation `i`. */
  predicate Scheduled(i: nat, k: nat, s: nat, t: Word)
    requires i < 64
  {
    k == Source(i) && s == Amount(i) && t == T(i)
  }

  lemma Schedule1a()
    ensures Scheduled(0, 0, 7, 0xd76aa478) && Scheduled(1, 1, 12, 0xe8c7b756) && Scheduled(2, 2, 17, 0x242070db) && Scheduled(3, 3, 22, 0xc1bdceee)
  {}

  lemma Schedule1b()
    ensures Scheduled(4, 4, 7, 0xf57c0faf) && Scheduled(5, 5, 12, 0x4787c62a) && Scheduled(6, 6, 17, 0xa8304613) && Scheduled(7, 7, 22, 0xfd469501)
  {}

  lemma Schedule1c()
    ensures Scheduled(8, 8, 7, 0x698098d8) && Scheduled(9, 9, 12, 0x8b44f7af) && Scheduled(10, 10, 17, 0xffff5bb1) && Scheduled(11, 11, 22, 0x895cd7be)
  {}

  lemma Schedule1d()
    ensures Scheduled(12, 12, 7, 0x6b901122) && Scheduled(13, 13, 12, 0xfd987193) && Scheduled(14, 14, 17, 0xa679438e) && Scheduled(15, 15, 22, 0x49b40821)
  {}

  lemma Schedule2a()
    ensures Scheduled(16, 1, 5, 0xf61e2562) && Scheduled(17, 6, 9, 0xc040b340) && Scheduled(18, 11, 14, 0x265e5a51) && Scheduled(19, 0, 20, 0xe9b6c7aa)
  {}

  lemma Schedule2b()
    ensures Scheduled(20, 5, 5, 0xd62f105d) && Scheduled(21, 10, 9, 0x02441453) && Scheduled(22, 15, 14, 0xd8a1e681) && Scheduled(23, 4, 20, 0xe7d3fbc8)
  {}

  lemma Schedule2c()
    ensures Scheduled(24, 9, 5, 0x21e1cde6) && Scheduled(25, 14, 9, 0xc33707d6) && Scheduled(26, 3, 14, 0xf4d50d87) && Scheduled(27, 8, 20, 0x455a14ed)
  {}

  lemma Schedule2d()
    ensures Scheduled(28, 13, 5, 0xa9e3e905) && Scheduled(29, 2, 9, 0xfcefa3f8) && Scheduled(30, 7, 14, 0x676f02d9) && Scheduled(31, 12, 20, 0x8d2a4c8a)
  {}

  lemma Schedule3a()
    ensures Scheduled(32, 5, 4, 0xfffa3942) && Scheduled(33, 8, 11, 0x8771f681) && Scheduled(34, 11, 16, 0x6d9d6122) && Scheduled(35, 14, 23, 0xfde5380c)
  {}

  lemma Schedule3b()
    ensures Scheduled(36, 1, 4, 0xa4beea44) && Scheduled(37, 4, 11, 0x4bdecfa9) && Scheduled(38, 7, 16, 0xf6bb4b60) && Scheduled(39, 10, 23, 0xbebfbc70)
  {}

  lemma Schedule3c()
    ensures Scheduled(40, 13, 4, 0x289b7ec6) && Scheduled(41, 0, 11, 0xeaa127fa) && Scheduled(42, 3, 16, 0xd4ef3085) && Scheduled(43, 6, 23, 0x04881d05)
  {}

  lemma Schedule3d()
    ensures Scheduled(44, 9, 4, 0xd9d4d039) && Scheduled(45, 12, 11, 0xe6db99e5) && Scheduled(46, 15, 16, 0x1fa27cf8) && Scheduled(47, 2, 23, 0xc4ac5665)
  {}

  lemma Schedule4a()
    ensures Scheduled(48, 0, 6, 0xf4292244) && Scheduled(49, 7, 10, 0x432aff97) && Scheduled(50, 14, 15, 0xab9423a7) && Scheduled(51, 5, 21, 0xfc93a039)
  {}

  lemma Schedule4b()
    ensures Scheduled(52, 12, 6, 0x655b59c3) && Scheduled(53, 3, 10, 0x8f0ccc92) && Scheduled(54, 10, 15, 0xffeff47d) && Scheduled(55, 1, 21, 0x85845dd1)
  {}

  lemma Schedule4c()
    ensures Scheduled(56, 8, 6, 0x6fa87e4f) && Scheduled(57, 15, 10, 0xfe2ce6e0) && Scheduled(58, 6, 15, 0xa3014314) && Scheduled(59, 13, 21, 0x4e0811a1)
  {}

  lemma Schedule4d()
    ensures Scheduled(60, 4, 6, 0xf7537e82) && Scheduled(61, 11, 10, 0xbd3af235) && Scheduled(62, 2, 15, 0x2ad7d2bb) && Scheduled(63, 9, 21, 0xeb86d391)
  {}

  /** One OP of the code is the operation of the standard with the same number. */
  method Op(ghost i: nat, ghost r: Registers, x: seq<Word>, f: Word, a: Word, b: Word, ghost c: Word, ghost d: Word,
            k: nat, s: nat, t: Word) returns (a': Word)
    requires i < 64 && |x| == 16 && Operations(i, r, x) == Registers(a, b, c, d)
    requires f == Auxiliary(i, b, c, d) && k < 16 && s < 32 && Scheduled(i, k, s, t)
    ensures Operations(i + 1, r, x) == Registers(d, a', b, c)
  {
    hide RotateLeft, Auxiliary, Source, Amount, T, Sum;
    a' := Sum(a, Sum(Sum(f, x[k]), t));
    a' := RotateLeft(a', s);
    a' := Sum(b, a');
  }

  // The 64 operations, unrolled as in the source.

  method Round1First(ghost r: Registers, x: seq<Word>, t: Registers) returns (u: Registers)
    requires |x| == 16 && t == Operations(0, r, x)
    ensures u == Operations(8, r, x)
  {
    hide Operations, F, G, H, I, FF, FG, FH, FI, Scheduled;
    Schedule1a();
    Schedule1b();
    var a, b, c, d := t.a, t.b, t.c, t.d;
    a := Op(0, r, x, FF(b, c, d), a, b, c, d, 0, 7, 0xd76aa478);
    d := Op(1, r, x, FF(a, b, c), d, a, b, c, 1, 12, 0xe8c7b756);
    c := Op(2, r, x, FF(d, a, b), c, d, a, b, 2, 17, 0x242070db);
    b := Op(3, r, x, FF(c, d, a), b, c, d, a, 3, 22, 0xc1bdceee);
    a := Op(4, r, x, FF(b, c, d), a, b, c, d, 4, 7, 0xf57c0faf);
    d := Op(5, r, x, FF(a, b, c), d, a, b, c, 5, 12, 0x4787c62a);
    c := Op(6, r, x, FF(d, a, b), c, d, a, b, 6, 17, 0xa8304613);
    b := Op(7, r, x, FF(c, d, a), b, c, d, a, 7, 22, 0xfd469501);
    u := Registers(a, b, c, d);
  }

  method Round1Second(ghost r: Registers, x: seq<Word>, t: Registers) returns (u: Registers)
    requires |x| == 16 && t == Operations(8, r, x)
    ensures u == Operations(16, r, x)
  {
    hide Operations, F, G, H, I, FF, FG, FH, FI, Scheduled;
    Schedule1c();
    Schedule1d();
    var a, b, c, d := t.a, t.b, t.c, t.d;
    a := Op(8, r, x, FF(b, c, d), a, b, c, d, 8, 7, 0x698098d8);
    d := Op(9, r, x, FF(a, b, c), d, a, b, c, 9, 12, 0x8b44f7af);
    c := Op(10, r, x, FF(d, a, b), c, d, a, b, 10, 17, 0xffff5bb1);
    b := Op(11, r, x, FF(c, d, a), b, c, d, a, 11, 22, 0x895cd7be);
    a := Op(12, r, x, FF(b, c, d), a, b, c, d, 12, 7, 0x6b901122);
    d := Op(13, r, x, FF(a, b, c), d, a, b, c, 13, 12, 0xfd987193);
    c := Op(14, r, x, FF(d, a, b), c, d, a, b, 14, 17, 0xa679438e);
    b := Op(15, r, x, FF(c, d, a), b, c, d, a, 15, 22, 0x49b40821);
    u := Registers(a, b, c, d);
  }

  method Round1(ghost r: Registers, x: seq<Word>, t: Registers) returns (u: Registers)
    requires |x| == 16 && t == Operations(0, r, x)
    ensures u == Operations(16, r, x)
  {
    hide Operations;
    u := Round1First(r, x, t);
    u := Round1Second(r, x, u);
  }

  method Round2First(ghost r: Registers, x: seq<Word>, t: Registers) returns (u: Registers)
    requires |x| == 16 && t == Operations(16, r, x)
    ensures u == Operations(24, r, x)
  {
    hide Operations, F, G, H, I, FF, FG, FH, FI, Scheduled;
    Schedule2a();
    Schedule2b();
    var a, b, c, d := t.a, t.b, t.c, t.d;
    a := Op(16, r, x, FG(b, c, d), a, b, c, d, 1, 5, 0xf61e2562);
    d := Op(17, r, x, FG(a, b, c), d, a, b, c, 6, 9, 0xc040b340);
    c := Op(18, r, x, FG(d, a, b), c, d, a, b, 11, 14, 0x265e5a51);
    b := Op(19, r, x, FG(c, d, a), b, c, d, a, 0, 20, 0xe9b6c7aa);
    a := Op(20, r, x, FG(b, c, d), a, b, c, d, 5, 5, 0xd62f105d);
    d := Op(21, r, x, FG(a, b, c), d, a, b, c, 10, 9, 0x02441453);
    c := Op(22, r, x, FG(d, a, b), c, d, a, b, 15, 14, 0xd8a1e681);
    b := Op(23, r, x, FG(c, d, a), b, c, d, a, 4, 20, 0xe7d3fbc8);
    u := Registers(a, b, c, d);
  }

  method Round2Second(ghost r: Registers, x: seq<Word>, t: Registers) returns (u: Registers)
    requires |x| == 16 && t == Operations(24, r, x)
    ensures u == Operations(32, r, x)
  {
    hide Operations, F, G, H, I, FF, FG, FH, FI, Scheduled;
    Schedule2c();
    Schedule2d();
    var a, b, c, d := t.a, t.b, t.c, t.d;
    a := Op(24, r, x, FG(b, c, d), a, b, c, d, 9, 5, 0x21e1cde6);
    d := Op(25, r, x, FG(a, b, c), d, a, b, c, 14, 9, 0xc33707d6);
    c := Op(26, r, x, FG(d, a, b), c, d, a, b, 3, 14, 0xf4d50d87);
    b := Op(27, r, x, FG(c, d, a), b, c, d, a, 8, 20, 0x455a14ed);
    a := Op(28, r, x, FG(b, c, d), a, b, c, d, 13, 5, 0xa9e3e905);
    d := Op(29, r, x, FG(a, b, c), d, a, b, c, 2, 9, 0xfcefa3f8);
    c := Op(30, r, x, FG(d, a, b), c, d, a, b, 7, 14, 0x676f02d9);
    b := Op(31, r, x, FG(c, d, a), b, c, d, a, 12, 20, 0x8d2a4c8a);
    u := Registers(a, b, c, d);
  }

  method Round2(ghost r: Registers, x: seq<Word>, t: Registers) returns (u: Registers)
    requires |x| == 16 && t == Operations(16, r, x)
    ensures u == Operations(32, r, x)
  {
    hide Operations;
    u := Round2First(r, x, t);
    u := Round2Second(r, x, u);
  }

  method Round3First(ghost r: Registers, x: seq<Word>, t: Registers) returns (u: Registers)
    requires |x| == 16 && t == Operations(32, r, x)
    ensures u == Operations(40, r, x)
  {
    hide Operations, F, G, H, I, FF, FG, FH, FI, Scheduled;
    Schedule3a();
    Schedule3b();
    var a, b, c, d := t.a, t.b, t.c, t.d;
    a := Op(32, r, x, FH(b, c, d), a, b, c, d, 5, 4, 0xfffa3942);
    d := Op(33, r, x, FH(a, b, c), d, a, b, c, 8, 11, 0x8771f681);
    c := Op(34, r, x, FH(d, a, b), c, d, a, b, 11, 16, 0x6d9d6122);
    b := Op(35, r, x, FH(c, d, a), b, c, d, a, 14, 23, 0xfde5380c);
    a := Op(36, r, x, FH(b, c, d), a, b, c, d, 1, 4, 0xa4beea44);
    d := Op(37, r, x, FH(a, b, c), d, a, b, c, 4, 11, 0x4bdecfa9);
    c := Op(38, r, x, FH(d, a, b), c, d, a, b, 7, 16, 0xf6bb4b60);
    b := Op(39, r, x, FH(c, d, a), b, c, d, a, 10, 23, 0xbebfbc70);
    u := Registers(a, b, c, d);
  }

  method Round3Second(ghost r: Registers, x: seq<Word>, t: Registers) returns (u: Registers)
    requires |x| == 16 && t == Operations(40, r, x)
    ensures u == Operations(48, r, x)
  {
    hide Operations, F, G, H, I, FF, FG, FH, FI, Scheduled;
    Schedule3c();
    Schedule3d();
    var a, b, c, d := t.a, t.b, t.c, t.d;
    a := Op(40, r, x, FH(b, c, d), a, b, c, d, 13, 4, 0x289b7ec6);
    d := Op(41, r, x, FH(a, b, c), d, a, b, c, 0, 11, 0xeaa127fa);
    c := Op(42, r, x, FH(d, a, b), c, d, a, b, 3, 16, 0xd4ef3085);
    b := Op(43, r, x, FH(c, d, a), b, c, d, a, 6, 23, 0x04881d05);
    a := Op(44, r, x, FH(b, c, d), a, b, c, d, 9, 4, 0xd9d4d039);
    d := Op(45, r, x, FH(a, b, c), d, a, b, c, 12, 11, 0xe6db99e5);
    c := Op(46, r, x, FH(d, a, b), c, d, a, b, 15, 16, 0x1fa27cf8);
    b := Op(47, r, x, FH(c, d, a), b, c, d, a, 2, 23, 0xc4ac5665);
    u := Registers(a, b, c, d);
  }

  method Round3(ghost r: Registers, x: seq<Word>, t: Registers) returns (u: Registers)
    requires |x| == 16 && t == Operations(32, r, x)
    ensures u == Operations(48, r, x)
  {
    hide Operations;
    u := Round3First(r, x, t);
    u := Round3Second(r, x, u);
  }

  method Round4First(ghost r: Registers, x: seq<Word>, t: Registers) returns (u: Registers)
    requires |x| == 16 && t == Operations(48, r, x)
    ensures u == Operations(56, r, x)
  {
    hide Operations, F, G, H, I, FF, FG, FH, FI, Scheduled;
    Schedule4a();
    Schedule4b();
    var a, b, c, d := t.a, t.b, t.c, t.d;
    a := Op(48, r, x, FI(b, c, d), a, b, c, d, 0, 6, 0xf4292244);
    d := Op(49, r, x, FI(a, b, c), d, a, b, c, 7, 10, 0x432aff97);
    c := Op(50, r, x, FI(d, a, b), c, d, a, b, 14, 15, 0xab9423a7);
    b := Op(51, r, x, FI(c, d, a), b, c, d, a, 5, 21, 0xfc93a039);
    a := Op(52, r, x, FI(b, c, d), a, b, c, d, 12, 6, 0x655b59c3);
    d := Op(53, r, x, FI(a, b, c), d, a, b, c, 3, 10, 0x8f0ccc92);
    c := Op(54, r, x, FI(d, a, b), c, d, a, b, 10, 15, 0xffeff47d);
    b := Op(55, r, x, FI(c, d, a), b, c, d, a, 1, 21, 0x85845dd1);
    u := Registers(a, b, c, d);
  }

  method Round4Second(ghost r: Registers, x: seq<Word>, t: Registers) returns (u: Registers)
    requires |x| == 16 && t == Operations(56, r, x)
    ensures u == Operations(64, r, x)
  {
    hide Operations, F, G, H, I, FF, FG, FH, FI, Scheduled;
    Schedule4c();
    Schedule4d();
    var a, b, c, d := t.a, t.b, t.c, t.d;
    a := Op(56, r, x, FI(b, c, d), a, b, c, d, 8, 6, 0x6fa87e4f);
    d := Op(57, r, x, FI(a, b, c), d, a, b, c, 15, 10, 0xfe2ce6e0);
    c := Op(58, r, x, FI(d, a, b), c, d, a, b, 6, 15, 0xa3014314);
    b := Op(59, r, x, FI(c, d, a), b, c, d, a, 13, 21, 0x4e0811a1);
    a := Op(60, r, x, FI(b, c, d), a, b, c, d, 4, 6, 0xf7537e82);
    d := Op(61, r, x, FI(a, b, c), d, a, b, c, 11, 10, 0xbd3af235);
    c := Op(62, r, x, FI(d, a, b), c, d, a, b, 2, 15, 0x2ad7d2bb);
    b := Op(63, r, x, FI(c, d, a), b, c, d, a, 9, 21, 0xeb86d391);
    u := Registers(a, b, c, d);
  }

  method Round4(ghost r: Registers, x: seq<Word>, t: Registers) returns (u: Registers)
    requires |x| == 16 && t == Operations(48, r, x)
    ensures u == Operations(64, r, x)
  {
    hide Operations;
    u := Round4First(r, x, t);
    u := Round4Second(r, x, u);
  }

  // Which bytes a call compresses and which it keeps for later.

  const BUFFER: nat := 128

  /** The bytes of `left` that go to the buffer first, when it is not empty. */
  function Take(left: nat, len: nat): nat
    requires left <= BUFFER
  {
    if left == 0 then 0 else if BUFFER - left > len then len else BUFFER - left
  }

  /** Bytes compressed and bytes left in the buffer, in turn by the three parts of the call. */
  datatype Portion = Portion(eaten: seq<Byte>, kept: seq<Byte>)

  /** The buffer filled up.  Of two whole blocks only the first is compressed. */
  function FillUp(q: seq<Byte>): Portion {
    if |q| > 64 then Portion(q[..64], q[64 * (|q| / 64)..]) else Portion([], q)
  }

  /** Whole blocks taken from the input: all but the last when it is unaligned, otherwise only the first. */
  function Blocks(m: seq<Byte>, addr: nat): Portion {
    if |m| < 64 then Portion([], m)
    else if addr % 4 != 0 then Portion(m[..64 * ((|m| - 1) / 64)], m[64 * ((|m| - 1) / 64)..])
    else Portion(m[..64], m[64 * (|m| / 64)..])
  }

  /** What remains goes to the buffer. */
  function Remain(p: seq<Byte>, m: seq<Byte>): Portion {
    if m != [] && |p + m| >= 64 then Portion((p + m)[..64], (p + m)[64..]) else Portion([], p + m)
  }

  /** One call of `md5_process_bytes` with `m` at address `addr` while `p` is in the buffer. */
  function Call(p: seq<Byte>, m: seq<Byte>, addr: nat): Portion
    requires |p| <= 64
  {
    var n := Take(|p|, |m|);
    var first := FillUp(p + m[..n]);
    var second := Blocks(m[n..], addr + n);
    var third := Remain(first.kept, second.kept);
    Portion(first.eaten + second.eaten + third.eaten, third.kept)
  }

  /** The condition a caller can check: less than two blocks at hand, or an unaligned start with nothing buffered. */
  predicate Supported(p: seq<Byte>, m: seq<Byte>, addr: nat) {
    |p| + |m| < BUFFER || (p == [] && addr % 4 != 0)
  }

  lemma FillUpSizes(q: seq<Byte>)
    requires |q| <= BUFFER
    ensures var r := FillUp(q);
      && |r.eaten| % 64 == 0 && |r.kept| <= 64 && (|q| == BUFFER ==> r.kept == [])
      && (if |q| < BUFFER then |r.eaten| + |r.kept| == |q| else |r.eaten| + |r.kept| < |q|)
  {}

  lemma BlocksSizes(m: seq<Byte>, addr: nat)
    ensures var r := Blocks(m, addr);
      && |r.eaten| % 64 == 0 && |r.kept| <= 64 && (|m| < 64 ==> r == Portion([], m))
      && (if |m| < BUFFER || addr % 4 != 0 then |r.eaten| + |r.kept| == |m| else |r.eaten| + |r.kept| < |m|)
  {}

  lemma RemainSizes(p: seq<Byte>, m: seq<Byte>)
    requires |p| <= 64 && |m| <= 64 && |p| + |m| < BUFFER
    ensures var r := Remain(p, m);
      |r.eaten| % 64 == 0 && |r.kept| <= 64 && |r.eaten| + |r.kept| == |p| + |m|
  {}

  lemma CallSizes(p: seq<Byte>, m: seq<Byte>, addr: nat)
    requires |p| <= 64
    ensures var r := Call(p, m, addr);
      && |r.eaten| % 64 == 0 && |r.kept| <= 64 && |r.eaten| + |r.kept| <= |p| + |m|
      && (|r.eaten| + |r.kept| == |p| + |m| <==> Supported(p, m, addr))
  {
    hide FillUp, Blocks, Remain;
    var n := Take(|p|, |m|);
    FillUpSizes(p + m[..n]);
    BlocksSizes(m[n..], addr + n);
    RemainSizes(FillUp(p + m[..n]).kept, Blocks(m[n..], addr + n).kept);
  }

  lemma CallKeepsOrder(p: seq<Byte>, m: seq<Byte>, addr: nat)
    requires |p| <= 64 && Supported(p, m, addr)
    ensures Call(p, m, addr).eaten + Call(p, m, addr).kept == p + m
  {
    hide FillUp, Blocks, Remain;
    var n := Take(|p|, |m|);
    var a, b := FillUp(p + m[..n]), Blocks(m[n..], addr + n);
    FillUpWhole(p + m[..n]);
    BlocksWhole(m[n..], addr + n);
    RemainWhole(a.kept, b.kept);
    NothingBetween(p, m, addr);
    var c := Remain(a.kept, b.kept);
    assert a.eaten + b.eaten + c.eaten + c.kept == a.eaten + b.eaten + (c.eaten + c.kept);
    assert a.eaten + b.eaten + (a.kept + b.kept) == (a.eaten + a.kept) + (b.eaten + b.kept);
    assert p + m[..n] + m[n..] == p + m;
  }

  lemma FillUpWhole(q: seq<Byte>)
    ensures |q| < BUFFER ==> FillUp(q).eaten + FillUp(q).kept == q
  {}

  lemma BlocksWhole(m: seq<Byte>, addr: nat)
    ensures |m| < BUFFER || addr % 4 != 0 ==> Blocks(m, addr).eaten + Blocks(m, addr).kept == m
  {}

  lemma RemainWhole(p: seq<Byte>, m: seq<Byte>)
    ensures Remain(p, m).eaten + Remain(p, m).kept == p + m
  {}

  /** What is kept by the first part and compressed by the second do not occur together. */
  lemma NothingBetween(p: seq<Byte>, m: seq<Byte>, addr: nat)
    requires |p| <= 64 && Supported(p, m, addr)
    ensures var n := Take(|p|, |m|);
      |p + m[..n]| < BUFFER && (FillUp(p + m[..n]).kept == [] || Blocks(m[n..], addr + n).eaten == [])
      && (|m[n..]| < BUFFER || (addr + n) % 4 != 0)
  {}

  /** A call loses no byte exactly when it is supported; the others drop whole blocks. */
  lemma CallLosslessIff(p: seq<Byte>, m: seq<Byte>, addr: nat)
    requires |p| <= 64
    ensures Call(p, m, addr).eaten + Call(p, m, addr).kept == p + m <==> Supported(p, m, addr)
  {
    hide Call, Supported;
    CallSizes(p, m, addr);
    if Supported(p, m, addr) {
      CallKeepsOrder(p, m, addr);
    }
  }

  /** Two aligned blocks in one call: the second one is never looked at. */
  lemma SecondBlockIgnored(m: seq<Byte>, other: seq<Byte>)
    requires |m| == |other| == 128 && m[..64] == other[..64]
    ensures Call([], m, 0) == Call([], other, 0) == Portion(m[..64], [])
    ensures CodeDigest(m[..64], [], 128) == CodeDigest(Call([], other, 0).eaten, Call([], other, 0).kept, |other|)
  {
    hide CodeDigest;
    assert m[0..] == m && other[0..] == other;
    assert [] + m[..0] == [] && [] + other[..0] == [];
    assert m[128..] == [] && other[128..] == [];
    assert [] + m[..64] + [] == m[..64] && [] + other[..64] + [] == other[..64];
  }

  // The end of a message.

  /** The buffered bytes with padding and length, in one block or two. */
  function Closing(p: seq<Byte>, n: nat): (b: seq<Byte>)
    requires |p| <= 64
    ensures |b| == if |p| < 56 then 64 else 128
  {
    p + [0x80] + Zeros((if |p| < 56 then 55 else 119) - |p|) + LengthBytes(n)
  }

  /** Padding a message only concerns its last, incomplete block. */
  lemma PadIsClosing(eaten: seq<Byte>, p: seq<Byte>)
    requires |eaten| % 64 == 0 && |p| <= 64
    ensures Pad(eaten + p) == eaten + Closing(p, |eaten + p|)
  {
    hide LengthBytes;
    var n := |eaten + p|;
    assert (55 - n) % 64 == (if |p| < 56 then 55 else 119) - |p|;
  }

  /** The digest that the code computes: only the first block of the closing is compressed. */
  function CodeDigest(eaten: seq<Byte>, p: seq<Byte>, n: nat): seq<Byte>
    requires |eaten| % 64 == 0 && |p| <= 64
  {
    var r := Process(INITIAL, eaten + Closing(p, n)[..64]);
    Unpack([r.a, r.b, r.c, r.d])
  }

  /** With fewer than 56 bytes buffered the closing is one block, and the digest is the standard's. */
  lemma CodeDigestIsRfc(eaten: seq<Byte>, p: seq<Byte>)
    requires |eaten| % 64 == 0 && |p| < 56
    ensures CodeDigest(eaten, p, |eaten + p|) == Digest(eaten + p)
  {
    hide Process, LengthBytes, Unpack;
    PadIsClosing(eaten, p);
    assert Closing(p, |eaten + p|)[..64] == Closing(p, |eaten + p|);
  }

  /** The last block is compressed, length and all, exactly when fewer than 56 bytes are buffered. */
  lemma ClosingWholeIff(p: seq<Byte>, n: nat)
    requires |p| <= 64
    ensures Closing(p, n)[..64] == Closing(p, n) <==> |p| < 56
  {}

  /** The message length reaches the block that is compressed exactly when fewer than 56 bytes are buffered. */
  lemma LengthReachesIff(p: seq<Byte>)
    requires |p| <= 64
    ensures (exists n, k :: Closing(p, n)[..64] != Closing(p, k)[..64]) <==> |p| < 56
  {
    hide LengthBytes;
    if |p| < 56 {
      ZeroAndOne();
      assert Closing(p, 0)[..64][56] == LengthBytes(0)[0] && Closing(p, 1)[..64][56] == LengthBytes(1)[0];
      assert Closing(p, 0)[..64] != Closing(p, 1)[..64];
    } else {
      forall n, k
        ensures Closing(p, n)[..64] == Closing(p, k)[..64]
      {
        var head := p + [0x80] + Zeros(119 - |p|);
        assert Closing(p, n)[..64] == head[..64] == Closing(p, k)[..64];
      }
    }
  }

  lemma ZeroAndOne()
    ensures LengthBytes(0)[0] != LengthBytes(1)[0]
  {
    hide Octet, WordOf, ByteOf;
    FirstLengthByte(0);
    FirstLengthByte(1);
    assert ByteValue(ByteOf(0)) == 0 && ByteValue(ByteOf(8)) == 8;
  }

  lemma FirstLengthByte(n: nat)
    requires n < 32
    ensures LengthBytes(n)[0] == ByteOf(8 * n)
  {
    hide Octet, WordOf, ByteOf;
    SmallBits(n);
    LowByte(8 * n);
  }

  lemma SmallBits(n: nat)
    requires n < 32
    ensures 8 * n % (TWO32 * TWO32) % TWO32 == 8 * n && 8 * n % 256 == 8 * n
  {}

  /** With 56 bytes buffered, the length no longer reaches the digest. */
  lemma LengthIgnored(eaten: seq<Byte>, p: seq<Byte>, n: nat, other: nat)
    requires |eaten| % 64 == 0 && |p| == 56
    ensures CodeDigest(eaten, p, n) == CodeDigest(eaten, p, other)
    ensures Closing(p, n)[..64] != Closing(p, n)
  {
    hide Process, LengthBytes, Unpack;
    assert Closing(p, n)[..64] == p + [0x80] + Zeros(7) == Closing(p, other)[..64];
  }

  // Runs of calls.

  lemma WholeSum(a: seq<Byte>, b: seq<Byte>)
    requires |a| % 64 == 0 && |b| % 64 == 0
    ensures |a + b| % 64 == 0
  {}

  /** One more call. */
  function Extend(before: Portion, m: seq<Byte>, addr: nat): (r: Portion)
    requires |before.kept| <= 64 && |before.eaten| % 64 == 0
    ensures |r.kept| <= 64 && |r.eaten| % 64 == 0
  {
    hide Call;
    CallSizes(before.kept, m, addr);
    var r := Call(before.kept, m, addr);
    WholeSum(before.eaten, r.eaten);
    Portion(before.eaten + r.eaten, r.kept)
  }

  /** A run of calls, each with its bytes and their address. */
  function Calls(chunks: seq<(seq<Byte>, nat)>): (r: Portion)
    ensures |r.kept| <= 64 && |r.eaten| % 64 == 0
  {
    if chunks == [] then Portion([], [])
    else Extend(Calls(chunks[..|chunks| - 1]), chunks[|chunks| - 1].0, chunks[|chunks| - 1].1)
  }

  function Message(chunks: seq<(seq<Byte>, nat)>): seq<Byte> {
    if chunks == [] then [] else Message(chunks[..|chunks| - 1]) + chunks[|chunks| - 1].0
  }

  predicate AllSupported(chunks: seq<(seq<Byte>, nat)>) {
    chunks == []
    || (&& AllSupported(chunks[..|chunks| - 1])
        && Supported(Calls(chunks[..|chunks| - 1]).kept, chunks[|chunks| - 1].0, chunks[|chunks| - 1].1))
  }

  /** A run has compressed and kept all of the message, in order, exactly when every call is supported. */
  lemma {:induction false} ChunkingLosslessIff(chunks: seq<(seq<Byte>, nat)>)
    ensures |Calls(chunks).eaten| + |Calls(chunks).kept| <= |Message(chunks)|
    ensures Calls(chunks).eaten + Calls(chunks).kept == Message(chunks) <==> AllSupported(chunks)
    ensures |Calls(chunks).eaten| + |Calls(chunks).kept| == |Message(chunks)| <==> AllSupported(chunks)
  {
    hide Call, Supported;
    if chunks != [] {
      var init, chunk := chunks[..|chunks| - 1], chunks[|chunks| - 1];
      ChunkingLosslessIff(init);
      var before := Calls(init);
      var r := Call(before.kept, chunk.0, chunk.1);
      CallSizes(before.kept, chunk.0, chunk.1);
      if Supported(before.kept, chunk.0, chunk.1) && AllSupported(init) {
        CallKeepsOrder(before.kept, chunk.0, chunk.1);
        assert before.eaten + r.eaten + r.kept == before.eaten + (r.eaten + r.kept) == before.eaten + before.kept + chunk.0;
      }
    }
  }

  /** However a message is split into supported calls, the digest is that of RFC 1321. */
  lemma ChunkingIrrelevant(chunks: seq<(seq<Byte>, nat)>)
    requires AllSupported(chunks) && |Calls(chunks).kept| < 56
    ensures CodeDigest(Calls(chunks).eaten, Calls(chunks).kept, |Message(chunks)|) == Digest(Message(chunks))
  {
    hide CodeDigest, Digest, Calls, Message, AllSupported;
    ChunkingLosslessIff(chunks);
    CodeDigestIsRfc(Calls(chunks).eaten, Calls(chunks).kept);
  }

  // The context and the routines that change it.

  class Context {
    var a: Word
    var b: Word
    var c: Word
    var d: Word
    var total0: nat
    var total1: nat
    var buflen: nat
    const buffer: array<Byte>

    /** The bytes compressed so far, and the number of bytes that were counted for them. */
    ghost var eaten: seq<Byte>
    ghost var counted: nat

    ghost predicate Valid()
      reads this, buffer
    {
      && buffer.Length == BUFFER && buflen <= 64 && Counting()
    }

    ghost predicate Counting()
      reads this`a, this`b, this`c, this`d, this`total0, this`total1, this`eaten, this`counted
    {
      && |eaten| % 64 == 0 && Registers(a, b, c, d) == Process(INITIAL, eaten)
      && total0 < TWO32 && total1 < TWO32 && total0 + TWO32 * total1 == counted % (TWO32 * TWO32)
    }

    ghost function Kept(): seq<Byte>
      requires buflen <= buffer.Length
      reads this, buffer
    {
      buffer[..buflen]
    }

    constructor ()
      ensures Valid() && fresh(buffer) && eaten == [] && counted == buflen == 0 && Kept() == []
    {
      a, b, c, d := 0x67452301, 0xefcdab89, 0x98badcfe, 0x10325476;
      total0, total1, buflen := 0, 0, 0;
      buffer := new Byte[BUFFER](_ => 0);
      eaten, counted := [], 0;
    }

    /** Adds to the 64-bit count kept in two words. */
    method Count(len: nat)
      requires total0 < TWO32 && total1 < TWO32 && len < TWO32
      requires total0 + TWO32 * total1 == counted % (TWO32 * TWO32)
      modifies this`total0, this`total1, this`counted
      ensures counted == old(counted) + len
      ensures total0 < TWO32 && total1 < TWO32 && total0 + TWO32 * total1 == counted % (TWO32 * TWO32)
    {
      CountLaw(counted, total0, total1, len);
      total0 := U32(total0 + len);
      if total0 < len {
        total1 := U32(total1 + 1);
      }
      counted := counted + len;
    }

    /** Compresses the first block; all of `len` is counted. */
    method ProcessBlock(block: seq<Byte>, len: nat)
      requires Counting() && 64 <= |block| && len < TWO32
      modifies this`a, this`b, this`c, this`d, this`total0, this`total1, this`eaten, this`counted
      ensures Counting() && eaten == old(eaten) + block[..64] && counted == old(counted) + len
    {
      hide Process, Pack, Sum, Operations;
      Count(len);
      var words := Pack(block[..64]);
      ghost var r := Registers(a, b, c, d);
      NoOperations(r, words);
      var t := Round1(r, words, Registers(a, b, c, d));
      t := Round2(r, words, t);
      t := Round3(r, words, t);
      t := Round4(r, words, t);
      a, b, c, d := Sum(a, t.a), Sum(b, t.b), Sum(c, t.c), Sum(d, t.d);
      ProcessOne(eaten, block[..64]);
      eaten := eaten + block[..64];
    }

    /** `memcpy` into the buffer. */
    method CopyIn(at: nat, src: seq<Byte>)
      requires buffer.Length == BUFFER && at + |src| <= BUFFER
      modifies buffer
      ensures buffer[..at + |src|] == old(buffer[..at]) + src
    {
      forall i | 0 <= i < |src| {
        buffer[at + i] := src[i];
      }
    }

    /** The first part of `md5_process_bytes`: fill the buffer up. */
    method FillBuffer(m: seq<Byte>)
      requires Valid() && buflen > 0 && |m| <= BUFFER - buflen
      modifies this`a, this`b, this`c, this`d, this`total0, this`total1, this`eaten, this`counted, this`buflen, buffer
      ensures var r := FillUp(old(Kept()) + m);
        buflen <= 64 && Counting() && eaten == old(eaten) + r.eaten && Kept() == r.kept
      ensures counted + buflen == old(counted) + old(buflen) + |m|
    {
      hide Counting, FillUp;
      ghost var q := Kept() + m;
      CopyIn(buflen, m);
      buflen := buflen + |m|;
      assert buffer[..buflen] == q;
      FillUpIs(q);
      if buflen > 64 {
        EmptyFirst();
      }
    }

    /** The first block is compressed; the bytes after the whole blocks move to the front. */
    method EmptyFirst()
      requires Counting() && buffer.Length == BUFFER && 64 < buflen <= BUFFER
      modifies this`a, this`b, this`c, this`d, this`total0, this`total1, this`eaten, this`counted, this`buflen, buffer
      ensures Counting() && buflen == old(buflen) % 64 && eaten == old(eaten) + old(buffer[..64])
      ensures buffer[..buflen] == old(buffer[buflen - buflen % 64..buflen])
      ensures counted + buflen == old(counted) + old(buflen)
    {
      hide Counting;
      var end := buflen - buflen % 64;
      assert buffer[..buflen][..64] == buffer[..64];
      ProcessBlock(buffer[..buflen], end);
      buflen := buflen % 64;
      CopyIn(0, buffer[end..end + buflen]);
    }

    lemma FillUpIs(q: seq<Byte>)
      requires |q| <= BUFFER
      ensures FillUp(q) == if |q| > 64 then Portion(q[..64], q[|q| - |q| % 64..]) else Portion([], q)
    {}

    /** The second part: whole blocks straight from the input. */
    method TakeBlocks(m: seq<Byte>, addr: nat) returns (rest: seq<Byte>)
      requires Counting() && |m| < TWO32
      modifies this`a, this`b, this`c, this`d, this`total0, this`total1, this`eaten, this`counted
      ensures Counting() && rest == Blocks(m, addr).kept && eaten == old(eaten) + Blocks(m, addr).eaten
      ensures counted + |rest| == old(counted) + |m|
    {
      hide Counting;
      rest := m;
      if |rest| >= 64 {
        if addr % 4 != 0 {
          while |rest| > 64
            invariant Counting() && |m| >= |rest| >= 1 && (|m| - |rest|) % 64 == 0
            invariant rest == m[|m| - |rest|..] && eaten == old(eaten) + m[..|m| - |rest|]
            invariant counted + |rest| == old(counted) + |m|
          {
            ghost var done := |m| - |rest|;
            ProcessBlock(rest, 64);
            rest := rest[64..];
            NextBlock(m, done);
          }
          WholeBlocks(|m|, |rest|);
        } else {
          var len := |rest| - |rest| % 64;
          ProcessBlock(rest, len);
          rest := rest[len..];
        }
      }
    }

    lemma NextBlock(m: seq<Byte>, done: nat)
      requires done + 64 <= |m|
      ensures m[..done] + m[done..][..64] == m[..done + 64] && m[done..][64..] == m[done + 64..]
    {}

    /** The third part: the remaining bytes go to the buffer. */
    method KeepRest(m: seq<Byte>)
      requires Valid() && |m| <= 64 && buflen + |m| < BUFFER
      modifies this`a, this`b, this`c, this`d, this`total0, this`total1, this`eaten, this`counted, this`buflen, buffer
      ensures var r := Remain(old(Kept()), m);
        Valid() && eaten == old(eaten) + r.eaten && Kept() == r.kept
      ensures counted + buflen == old(counted) + old(buflen) + |m|
    {
      hide Counting;
      if |m| > 0 {
        var leftOver := buflen;
        CopyIn(leftOver, m);
        leftOver := leftOver + |m|;
        if leftOver >= 64 {
          ProcessBlock(buffer[..leftOver], 64);
          leftOver := leftOver - 64;
          CopyIn(0, buffer[64..64 + leftOver]);
        }
        buflen := leftOver;
      }
    }

    /** Adds the bytes `m`, which lie at address `addr`. */
    method ProcessBytes(m: seq<Byte>, addr: nat)
      requires Valid() && |m| < TWO32
      modifies this, buffer
      ensures Valid()
      ensures var r := Call(old(Kept()), m, addr);
        eaten == old(eaten) + r.eaten && Kept() == r.kept
      ensures counted + buflen == old(counted) + old(buflen) + |m|
    {
      hide Counting, FillUp, Blocks, Remain;
      FirstFits(Kept(), m, addr);
      var n := 0;
      if buflen != 0 {
        n := if BUFFER - buflen > |m| then |m| else BUFFER - buflen;
        FillBuffer(m[..n]);
      } else {
        NothingToFill(m);
      }
      var rest := TakeBlocks(m[n..], addr + n);
      KeepRest(rest);
    }

    /** Counts the buffered bytes, and gives the count in bits as the two last words of the closing. */
    method LengthField(bytes: nat) returns (length: seq<Byte>)
      requires Counting() && bytes < TWO32
      modifies this`total0, this`total1, this`counted
      ensures Counting() && counted == old(counted) + bytes && length == LengthBytes(counted)
    {
      Count(bytes);
      BitCount(counted, total0, total1);
      var low := U32(8 * total0);
      var high := U32(8 * total1) + total0 / 0x2000_0000;
      length := Unpack([WordOf(low), WordOf(high)]);
    }

    /** Padding, length and the last block; then the registers, low-order byte first. */
    method FinishCtx() returns (digest: seq<Byte>)
      requires Valid()
      modifies this, buffer
      ensures digest == CodeDigest(old(eaten), old(Kept()), old(counted) + old(buflen))
    {
      hide Counting, LengthBytes, Process, Unpack, Zeros, WordOf;
      var bytes := buflen;
      var size := if bytes < 56 then 64 else 128;
      ghost var kept, n := Kept(), counted + bytes;
      var length := LengthField(bytes);
      CopyIn(bytes, [0x80] + Zeros(size - 9 - bytes));
      CopyIn(size - 8, length);
      assert buffer[..size] == Closing(kept, n);
      ProcessBlock(buffer[..size], size);
      digest := ReadCtx();
    }

    method ReadCtx() returns (digest: seq<Byte>)
      requires Counting()
      ensures var r := Process(INITIAL, eaten);
        digest == Unpack([r.a, r.b, r.c, r.d])
    {
      digest := Unpack([a, b, c, d]);
    }
  }

  /** `md5_buffer`: right for an unaligned buffer, and otherwise for less than two blocks, unless the last block overflows. */
  method Md5Buffer(m: seq<Byte>, addr: nat) returns (digest: seq<Byte>)
    requires |m| < TWO32
    ensures digest == CodeDigest(Call([], m, addr).eaten, Call([], m, addr).kept, |m|)
    ensures Supported([], m, addr) && |m| % 64 < 56 ==> digest == Digest(m)
  {
    hide *;
    var ctx := new Context();
    ctx.ProcessBytes(m, addr);
    digest := ctx.FinishCtx();
    assert [] + Call([], m, addr).eaten == Call([], m, addr).eaten;
    if Supported([], m, addr) && |m| % 64 < 56 {
      OneCall(m, addr);
    }
  }

  lemma OneCall(m: seq<Byte>, addr: nat)
    requires Supported([], m, addr) && |m| % 64 < 56
    ensures CodeDigest(Call([], m, addr).eaten, Call([], m, addr).kept, |m|) == Digest(m)
  {
    hide Call, Supported, CodeDigest, Digest;
    CallSizes([], m, addr);
    CallKeepsOrder([], m, addr);
    KeptSize(m, addr);
    assert [] + m == m;
    CodeDigestIsRfc(Call([], m, addr).eaten, Call([], m, addr).kept);
  }

  lemma KeptSize(m: seq<Byte>, addr: nat)
    requires Supported([], m, addr)
    ensures |Call([], m, addr).kept| == |m| % 64
  {}

  lemma Product64(a: nat, b: nat)
    requires a == b % (TWO32 * TWO32)
    ensures 8 * b % (TWO32 * TWO32) == 8 * a % (TWO32 * TWO32)
  {}

  lemma SplitBits(low: nat, high: nat, k: nat)
    requires low < TWO32 && high < TWO32
    ensures (low + TWO32 * high + TWO32 * TWO32 * k) % (TWO32 * TWO32) == low + TWO32 * high
  {}

  lemma Halves(low: nat, high: nat)
    requires low < TWO32
    ensures (low + TWO32 * high) % TWO32 == low && (low + TWO32 * high) / TWO32 == high
  {}

  lemma ShiftedLow(t0: nat)
    requires t0 < TWO32
    ensures 8 * t0 == U32(8 * t0) + TWO32 * (t0 / 0x2000_0000) && t0 / 0x2000_0000 < 8
  {}

  lemma ShiftedHigh(t1: nat)
    ensures 8 * t1 == U32(8 * t1) + TWO32 * (8 * t1 / TWO32) && U32(8 * t1) <= TWO32 - 8
  {}

  /** The two words of the count, shifted into bits. */
  lemma BitCount(n: nat, t0: nat, t1: nat)
    requires t0 < TWO32 && t1 < TWO32 && t0 + TWO32 * t1 == n % (TWO32 * TWO32)
    ensures var bits := 8 * n % (TWO32 * TWO32);
      && bits % TWO32 == U32(8 * t0) && bits / TWO32 == U32(8 * t1) + t0 / 0x2000_0000 < TWO32
  {
    hide U32;
    ShiftedLow(t0);
    ShiftedHigh(t1);
    Product64(t0 + TWO32 * t1, n);
    SplitBits(U32(8 * t0), U32(8 * t1) + t0 / 0x2000_0000, 8 * t1 / TWO32);
    Halves(U32(8 * t0), U32(8 * t1) + t0 / 0x2000_0000);
  }

  lemma WholeBlocks(len: nat, rest: nat)
    requires 0 < rest <= 64 && rest <= len && (len - rest) % 64 == 0
    ensures len - rest == 64 * ((len - 1) / 64)
  {}

  /** After the first two parts, what is left fits the buffer. */
  lemma FirstFits(p: seq<Byte>, m: seq<Byte>, addr: nat)
    requires |p| <= 64
    ensures var n := Take(|p|, |m|);
      && (p == [] ==> FillUp(p + m[..n]) == Portion([], []))
      && |Blocks(m[n..], addr + n).kept| <= 64
      && |FillUp(p + m[..n]).kept| + |Blocks(m[n..], addr + n).kept| < BUFFER
  {}

  lemma NothingToFill(m: seq<Byte>)
    ensures m[..0] == [] && m[0..] == m
  {}

  lemma NoOperations(r: Registers, x: seq<Word>)
    requires |x| == 16
    ensures Operations(0, r, x) == r
  {}

  lemma ProcessOne(eaten: seq<Byte>, block: seq<Byte>)
    requires |eaten| % 64 == 0 && |block| == 64
    ensures Process(INITIAL, eaten + block) == Compress(Process(INITIAL, eaten), Pack(block))
  {
    hide Compress, Pack;
    ProcessAppend(INITIAL, eaten, block);
    assert block[..64] == block && block[64..] == [];
    assert Process(Compress(Process(INITIAL, eaten), Pack(block)), block[64..]) == Compress(Process(INITIAL, eaten), Pack(block));
  }

  lemma CountLaw(counted: nat, t0: nat, t1: nat, len: nat)
    requires t0 < TWO32 && t1 < TWO32 && len < TWO32 && t0 + TWO32 * t1 == counted % (TWO32 * TWO32)
    ensures var u0 := U32(t0 + len);
      var u1 := if u0 < len then U32(t1 + 1) else t1;
      u0 + TWO32 * u1 == (counted + len) % (TWO32 * TWO32)
  {
    var m := TWO32 * TWO32;
    assert (counted + len) % m == (counted % m + len) % m;
  }
}
