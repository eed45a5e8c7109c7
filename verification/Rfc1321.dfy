/** The MD5 message digest as RFC 1321 defines it. */
module Rfc1321 {
  import opened Words

  datatype Registers = Registers(a: Word, b: Word, c: Word, d: Word)

  const INITIAL: Registers := Registers(0x67452301, 0xefcdab89, 0x98badcfe, 0x10325476)

  // Section 3.4: the auxiliary functions.

  function F(x: Word, y: Word, z: Word): Word { (x & y) | (!x & z) }
  function G(x: Word, y: Word, z: Word): Word { (x & z) | (y & !z) }
  function H(x: Word, y: Word, z: Word): Word { x ^ y ^ z }
  function I(x: Word, y: Word, z: Word): Word { y ^ (x | !z) }

  /** Addition modulo 2^32. */
  function Sum(a: Word, b: Word): Word {
    a + b
  }

  function RotateLeft(w: Word, s: nat): Word
    requires s < 32
  {
    (w << s) | (w >> (32 - s))
  }

  function T1(i: nat): Word {
    match i
    case 0 => 0xd76aa478 case 1 => 0xe8c7b756 case 2 => 0x242070db case 3 => 0xc1bdceee
    case 4 => 0xf57c0faf case 5 => 0x4787c62a case 6 => 0xa8304613 case 7 => 0xfd469501
    case 8 => 0x698098d8 case 9 => 0x8b44f7af case 10 => 0xffff5bb1 case 11 => 0x895cd7be
    case 12 => 0x6b901122 case 13 => 0xfd987193 case 14 => 0xa679438e case _ => 0x49b40821
  }

  function T2(i: nat): Word {
    match i
    case 0 => 0xf61e2562 case 1 => 0xc040b340 case 2 => 0x265e5a51 case 3 => 0xe9b6c7aa
    case 4 => 0xd62f105d case 5 => 0x02441453 case 6 => 0xd8a1e681 case 7 => 0xe7d3fbc8
    case 8 => 0x21e1cde6 case 9 => 0xc33707d6 case 10 => 0xf4d50d87 case 11 => 0x455a14ed
    case 12 => 0xa9e3e905 case 13 => 0xfcefa3f8 case 14 => 0x676f02d9 case _ => 0x8d2a4c8a
  }

  function T3(i: nat): Word {
    match i
    case 0 => 0xfffa3942 case 1 => 0x8771f681 case 2 => 0x6d9d6122 case 3 => 0xfde5380c
    case 4 => 0xa4beea44 case 5 => 0x4bdecfa9 case 6 => 0xf6bb4b60 case 7 => 0xbebfbc70
    case 8 => 0x289b7ec6 case 9 => 0xeaa127fa case 10 => 0xd4ef3085 case 11 => 0x04881d05
    case 12 => 0xd9d4d039 case 13 => 0xe6db99e5 case 14 => 0x1fa27cf8 case _ => 0xc4ac5665
  }

  function T4(i: nat): Word {
    match i
    case 0 => 0xf4292244 case 1 => 0x432aff97 case 2 => 0xab9423a7 case 3 => 0xfc93a039
    case 4 => 0x655b59c3 case 5 => 0x8f0ccc92 case 6 => 0xffeff47d case 7 => 0x85845dd1
    case 8 => 0x6fa87e4f case 9 => 0xfe2ce6e0 case 10 => 0xa3014314 case 11 => 0x4e0811a1
    case 12 => 0xf7537e82 case 13 => 0xbd3af235 case 14 => 0x2ad7d2bb case _ => 0xeb86d391
  }

  /** The table of 64 elements constructed from the sine function. */
  function T(i: nat): Word {
    if i < 16 then T1(i) else if i < 32 then T2(i - 16) else if i < 48 then T3(i - 32) else T4(i - 48)
  }

  function Pick(i: nat, s0: nat, s1: nat, s2: nat, s3: nat): nat {
    match i case 0 => s0 case 1 => s1 case 2 => s2 case _ => s3
  }

  /** The shift amounts of the four rounds. */
  function Amount(i: nat): (s: nat)
    ensures s < 32
  {
    if i < 16 then Pick(i % 4, 7, 12, 17, 22)
    else if i < 32 then Pick(i % 4, 5, 9, 14, 20)
    else if i < 48 then Pick(i % 4, 4, 11, 16, 23)
    else Pick(i % 4, 6, 10, 15, 21)
  }

  /** The order in which the four rounds take the words of a block. */
  function Source(i: nat): (k: nat)
    ensures k < 16
  {
    if i < 16 then i
    else if i < 32 then (5 * i + 1) % 16
    else if i < 48 then (3 * i + 5) % 16
    else 7 * i % 16
  }

  function Auxiliary(i: nat, x: Word, y: Word, z: Word): Word {
    if i < 16 then F(x, y, z) else if i < 32 then G(x, y, z) else if i < 48 then H(x, y, z) else I(x, y, z)
  }

  /** One operation: a = b + ((a + f(b, c, d) + X[k] + T[i]) <<< s), and the registers change roles. */
  function Operation(i: nat, r: Registers, x: seq<Word>): Registers
    requires i < 64 && |x| == 16
  {
    Registers(r.d, Sum(r.b, RotateLeft(Sum(r.a, Sum(Sum(Auxiliary(i, r.b, r.c, r.d), x[Source(i)]), T(i))), Amount(i))), r.b, r.c)
  }

  function Operations(n: nat, r: Registers, x: seq<Word>): Registers
    requires n <= 64 && |x| == 16
  {
    if n == 0 then r else Operation(n - 1, Operations(n - 1, r, x), x)
  }

  /** Section 3.4: one block of sixteen words. */
  function Compress(r: Registers, x: seq<Word>): Registers
    requires |x| == 16
  {
    var t := Operations(64, r, x);
    Registers(Sum(r.a, t.a), Sum(r.b, t.b), Sum(r.c, t.c), Sum(r.d, t.d))
  }

  /** All blocks of a padded message. */
  function Process(r: Registers, bytes: seq<Byte>): Registers
    requires |bytes| % 64 == 0
    decreases |bytes|
  {
    if bytes == [] then r else Process(Compress(r, Pack(bytes[..64])), bytes[64..])
  }

  function Zeros(n: nat): (z: seq<Byte>)
    ensures |z| == n
  {
    seq(n, i => 0)
  }

  /** Section 3.2: the length in bits, low-order word first, modulo 2^64. */
  function LengthBytes(n: nat): (b: seq<Byte>)
    ensures |b| == 8
  {
    var bits := 8 * n % (TWO32 * TWO32);
    Unpack([WordOf(bits % TWO32), WordOf(bits / TWO32)])
  }

  /** Sections 3.1 and 3.2: padding to 56 modulo 64 and the length. */
  function Pad(msg: seq<Byte>): seq<Byte> {
    msg + [0x80] + Zeros((55 - |msg|) % 64) + LengthBytes(|msg|)
  }

  lemma PadWhole(msg: seq<Byte>)
    ensures |Pad(msg)| % 64 == 0
  {}

  /** Sections 3.3 to 3.5. */
  function Digest(msg: seq<Byte>): (d: seq<Byte>)
    ensures |d| == 16
  {
    PadWhole(msg);
    var r := Process(INITIAL, Pad(msg));
    Unpack([r.a, r.b, r.c, r.d])
  }

  /** Blocks may be processed in portions. */
  lemma {:induction false} ProcessAppend(r: Registers, a: seq<Byte>, b: seq<Byte>)
    requires |a| % 64 == 0 && |b| % 64 == 0
    ensures Process(r, a + b) == Process(Process(r, a), b)
    decreases |a|
  {
    hide Compress, Pack;
    if a == [] {
      assert a + b == b;
    } else {
      assert (a + b)[..64] == a[..64] && (a + b)[64..] == a[64..] + b;
      ProcessAppend(Compress(r, Pack(a[..64])), a[64..], b);
    }
  }
}
