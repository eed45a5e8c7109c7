/** Machine words: bytes, 32-bit words, the bytes of a word and the numbers they stand for. */
module Words {

  type Byte = bv8
  type Word = bv32

  datatype Option<T> = None | Some(value: T)

  const TWO32: int := 0x1_0000_0000

  /** Unsigned 32-bit wrap-around of an address or a counter. */
  function U32(n: int): (r: nat)
    ensures r < TWO32
  {
    n % TWO32
  }

  /** Byte `i` of a word, byte 0 being the least significant: the truncation of `w >> 8 * i`. */
  function Octet(w: Word, i: nat): Byte
    requires i < 4
  {
    if i == 0 then (w & 0xff) as Byte
    else if i == 1 then ((w >> 8) & 0xff) as Byte
    else if i == 2 then ((w >> 16) & 0xff) as Byte
    else (w >> 24) as Byte
  }

  /** The word whose bytes are `b0` (least significant) to `b3`. */
  function Join(b0: Byte, b1: Byte, b2: Byte, b3: Byte): Word {
    (b0 as Word) | ((b1 as Word) << 8) | ((b2 as Word) << 16) | ((b3 as Word) << 24)
  }

  lemma OctetsOfJoin(b0: Byte, b1: Byte, b2: Byte, b3: Byte)
    ensures var w := Join(b0, b1, b2, b3);
      Octet(w, 0) == b0 && Octet(w, 1) == b1 && Octet(w, 2) == b2 && Octet(w, 3) == b3
  {}

  lemma JoinOfOctets(w: Word)
    ensures Join(Octet(w, 0), Octet(w, 1), Octet(w, 2), Octet(w, 3)) == w
  {}

  /** The unsigned value of a byte. */
  function ByteValue(b: Byte): (n: nat)
    ensures n < 256
  {
    b as int
  }

  /** The byte with value `n`. */
  function ByteOf(n: nat): (b: Byte)
    requires n < 256
    ensures ByteValue(b) == n
  {
    if n == 0 then 0 else ByteOf(n - 1) + 1
  }

  /** The unsigned value of a word. */
  function Value(w: Word): (n: nat)
    ensures n < TWO32
  {
    hide Octet, ByteValue;
    ByteValue(Octet(w, 0)) + 0x100 * ByteValue(Octet(w, 1))
    + 0x1_0000 * ByteValue(Octet(w, 2)) + 0x100_0000 * ByteValue(Octet(w, 3))
  }

  /** The word with value `n`. */
  function WordOf(n: nat): Word
    requires n < TWO32
  {
    Join(ByteOf(n % 256), ByteOf(n / 256 % 256), ByteOf(n / 256 / 256 % 256), ByteOf(n / 256 / 256 / 256))
  }

  lemma DigitsSum(n: nat)
    ensures n == n % 256 + 0x100 * (n / 256 % 256) + 0x1_0000 * (n / 256 / 256 % 256) + 0x100_0000 * (n / 256 / 256 / 256)
  {
    var q := n / 256;
    var r := q / 256;
    assert n == 256 * q + n % 256;
    assert q == 256 * r + q % 256;
    assert r == 256 * (r / 256) + r % 256;
  }

  lemma ValueOfWord(n: nat)
    requires n < TWO32
    ensures Value(WordOf(n)) == n
  {
    hide Octet, Join, ByteValue, ByteOf;
    OctetsOfJoin(ByteOf(n % 256), ByteOf(n / 256 % 256), ByteOf(n / 256 / 256 % 256), ByteOf(n / 256 / 256 / 256));
    DigitsSum(n);
  }

  /** The low byte of a number. */
  lemma LowByte(n: nat)
    requires n < TWO32
    ensures Octet(WordOf(n), 0) == ByteOf(n % 256)
  {
    hide Octet, Join, ByteOf;
    OctetsOfJoin(ByteOf(n % 256), ByteOf(n / 256 % 256), ByteOf(n / 256 / 256 % 256), ByteOf(n / 256 / 256 / 256));
  }

  /** The bytes of a run of words, least significant first. */
  function Unpack(ws: seq<Word>): (bs: seq<Byte>)
    ensures |bs| == 4 * |ws|
  {
    seq(4 * |ws|, j requires 0 <= j < 4 * |ws| => Octet(ws[j / 4], j % 4))
  }

  /** The words that a run of bytes fills; a last, incomplete word is dropped. */
  function Pack(bs: seq<Byte>): (ws: seq<Word>)
    ensures |ws| == |bs| / 4
  {
    seq(|bs| / 4, i requires 0 <= i < |bs| / 4 => Join(bs[4 * i], bs[4 * i + 1], bs[4 * i + 2], bs[4 * i + 3]))
  }

  lemma UnpackAppend(a: seq<Word>, b: seq<Word>)
    ensures Unpack(a + b) == Unpack(a) + Unpack(b)
  {
    hide Octet;
    var l, r := Unpack(a + b), Unpack(a) + Unpack(b);
    forall j | 0 <= j < |l|
      ensures l[j] == r[j]
    {
      if j >= 4 * |a| {
        assert j / 4 == |a| + (j - 4 * |a|) / 4 && j % 4 == (j - 4 * |a|) % 4;
      }
    }
  }

  lemma UnpackAt(ws: seq<Word>, i: nat)
    requires i < |ws|
    ensures var b := Unpack(ws);
      b[4 * i] == Octet(ws[i], 0) && b[4 * i + 1] == Octet(ws[i], 1)
      && b[4 * i + 2] == Octet(ws[i], 2) && b[4 * i + 3] == Octet(ws[i], 3)
  {}

  lemma PackUnpack(ws: seq<Word>)
    ensures Pack(Unpack(ws)) == ws
  {
    hide Octet, Join, Unpack;
    var b := Unpack(ws);
    forall i | 0 <= i < |ws|
      ensures Join(b[4 * i], b[4 * i + 1], b[4 * i + 2], b[4 * i + 3]) == ws[i]
    {
      UnpackAt(ws, i);
      JoinOfOctets(ws[i]);
    }
  }

  lemma PackAt(bs: seq<Byte>, j: nat)
    requires |bs| % 4 == 0 && j < |bs|
    ensures Octet(Pack(bs)[j / 4], j % 4) == bs[j]
  {
    hide Octet, Join;
    var i := j / 4;
    OctetsOfJoin(bs[4 * i], bs[4 * i + 1], bs[4 * i + 2], bs[4 * i + 3]);
    assert j == 4 * i + j % 4;
  }

  lemma UnpackPack(bs: seq<Byte>)
    requires |bs| % 4 == 0
    ensures Unpack(Pack(bs)) == bs
  {
    hide Octet, Pack;
    forall j | 0 <= j < |bs|
      ensures Unpack(Pack(bs))[j] == bs[j]
    {
      PackAt(bs, j);
    }
  }
}
