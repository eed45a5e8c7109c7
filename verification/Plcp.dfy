/** The PLCP header word (Table 82 of IEEE 802.15.6): how it is built and how it is read back. */
module Plcp {
  import opened Words
  import opened Crc8

  const HDR_DR_MASK: Word := 0x0000_0007
  const HDR_PI_MASK: Word := 0x0000_0038
  const HDR_BM_MASK: Word := 0x0000_0100
  const HDR_SS_MASK: Word := 0x0000_0800
  const HDR_LEN_MASK: Word := 0x00ff_0000
  const HDR_CRC_MASK: Word := 0xff00_0000

  /** The fields of `plcp_header_t` that reach the header word. */
  datatype HeaderInfo = HeaderInfo(
    dataRate: Word, pilotInfo: Word, burstMode: Word, scramblerSeed: Word, pdsuLength: Byte)
  {
    /** The values the standard allows; the host can store others. */
    predicate InRange() {
      dataRate < 8 && pilotInfo < 8 && burstMode < 2 && scramblerSeed < 2
    }
  }

  /** The bits that the fields other than the length set. */
  function OtherBits(h: HeaderInfo): Word {
    h.dataRate | PilotPart(h) | BurstPart(h) | SeedPart(h)
  }

  function PilotPart(h: HeaderInfo): Word { h.pilotInfo << 3 }
  function BurstPart(h: HeaderInfo): Word { h.burstMode << 8 }
  function SeedPart(h: HeaderInfo): Word { h.scramblerSeed << 11 }
  function LengthPart(h: HeaderInfo): Word { (h.pdsuLength as Word) << 16 }

  /** The CRC of the three low bytes of a word. */
  function HeaderCrc(bits: Word): Byte {
    Crc(CRC8_INIT, [Octet(bits, 0), Octet(bits, 1), Octet(bits, 2)])
  }

  function FieldBits(h: HeaderInfo): Word {
    OtherBits(h) | LengthPart(h)
  }

  function WithCrc(bits: Word, crc: Byte): Word {
    bits | ((crc as Word) << 24)
  }

  function HeaderWord(h: HeaderInfo): Word {
    WithCrc(FieldBits(h), HeaderCrc(FieldBits(h)))
  }

  function RateField(header: Word): Word { header & HDR_DR_MASK }
  function PilotField(header: Word): Word { (header & HDR_PI_MASK) >> 3 }
  function BurstField(header: Word): Word { (header & HDR_BM_MASK) >> 8 }
  function SeedField(header: Word): Word { (header & HDR_SS_MASK) >> 11 }
  function LengthField(header: Word): Byte { ((header & HDR_LEN_MASK) >> 16) as Byte }

  /** The receiver's test: the CRC of all four bytes leaves no residue. */
  predicate CrcOk(header: Word) {
    Crc(CRC8_INIT, [Octet(header, 0), Octet(header, 1), Octet(header, 2), Octet(header, 3)]) == 0
  }

  method Crc8Header(header: Word) returns (crc: Byte)
    ensures crc == HeaderCrc(header)
  {
    var b0, b1, b2 := Octet(header, 0), Octet(header, 1), Octet(header, 2);
    hide Octet, Update;
    crc := CRC8_INIT;
    crc := Crc8Update(crc, b0);
    crc := Crc8Update(crc, b1);
    crc := Crc8Update(crc, b2);
    CrcOfThree(b0, b1, b2);
  }

  lemma CrcOfThree(b0: Byte, b1: Byte, b2: Byte)
    ensures Crc(CRC8_INIT, [b0, b1, b2]) == Update(Update(Update(CRC8_INIT, b0), b1), b2)
  {
    hide Update;
    var m1, m2, m3 := [b0], [b0, b1], [b0, b1, b2];
    assert m3[..|m3| - 1] == m2 && m2[..|m2| - 1] == m1 && m1[..|m1| - 1] == [];
    assert Crc(CRC8_INIT, m1) == Update(CRC8_INIT, b0);
    assert Crc(CRC8_INIT, m2) == Update(Crc(CRC8_INIT, m1), b1);
  }

  lemma CrcOfFour(b0: Byte, b1: Byte, b2: Byte, b3: Byte)
    ensures Crc(CRC8_INIT, [b0, b1, b2, b3]) == Update(Update(Update(Update(CRC8_INIT, b0), b1), b2), b3)
  {
    hide Update;
    CrcOfThree(b0, b1, b2);
    assert [b0, b1, b2, b3][..3] == [b0, b1, b2];
  }

  /** The receiver accepts a header exactly when its top byte is the CRC of the rest. */
  lemma CrcOkIff(header: Word)
    ensures CrcOk(header) <==> Octet(header, 3) == HeaderCrc(header)
  {
    var m := [Octet(header, 0), Octet(header, 1), Octet(header, 2)];
    hide Octet, Update;
    ResidueIff(CRC8_INIT, m, Octet(header, 3));
    assert m + [Octet(header, 3)] == [Octet(header, 0), Octet(header, 1), Octet(header, 2), Octet(header, 3)];
  }

  lemma LowBytesKept(bits: Word, crc: Byte)
    ensures HeaderCrc(WithCrc(bits, crc)) == HeaderCrc(bits)
  {
    var w := WithCrc(bits, crc);
    assert Octet(w, 0) == Octet(bits, 0) && Octet(w, 1) == Octet(bits, 1) && Octet(w, 2) == Octet(bits, 2);
    hide Octet, WithCrc, Update;
  }

  lemma FieldsApart(h: HeaderInfo, crc: Byte)
    requires h.InRange()
    ensures var w := WithCrc(FieldBits(h), crc);
      && RateField(w) == h.dataRate && PilotField(w) == h.pilotInfo && BurstField(w) == h.burstMode
      && SeedField(w) == h.scramblerSeed && LengthField(w) == h.pdsuLength && Octet(w, 3) == crc
  {
    hide RateField, PilotField, BurstField, SeedField, LengthField, Octet, OtherBits, LengthPart, HeaderInfo.InRange;
    BitsApart(h, crc);
  }

  lemma BitsApart(h: HeaderInfo, crc: Byte)
    requires h.InRange()
    ensures var w := (OtherBits(h) | LengthPart(h)) | ((crc as Word) << 24);
      && RateField(w) == h.dataRate && PilotField(w) == h.pilotInfo && BurstField(w) == h.burstMode
      && SeedField(w) == h.scramblerSeed && LengthField(w) == h.pdsuLength && Octet(w, 3) == crc
  {}

  /** A header with fields in range passes the receiver's CRC and gives every field back. */
  lemma HeaderRecovered(h: HeaderInfo)
    requires h.InRange()
    ensures var w := HeaderWord(h);
      && CrcOk(w) && LengthField(w) == h.pdsuLength && SeedField(w) == h.scramblerSeed
      && RateField(w) == h.dataRate && PilotField(w) == h.pilotInfo && BurstField(w) == h.burstMode
  {
    hide Octet, RateField, PilotField, BurstField, SeedField, LengthField, HeaderCrc, WithCrc, FieldBits, CrcOk;
    var bits := FieldBits(h);
    FieldsApart(h, HeaderCrc(bits));
    LowBytesKept(bits, HeaderCrc(bits));
    CrcOkIff(HeaderWord(h));
  }

  lemma LengthIsOctet(header: Word)
    ensures LengthField(header) == Octet(header, 2)
  {}

  /** The layout of Table 82, byte by byte, least significant first. */
  lemma HeaderLayout(h: HeaderInfo)
    requires h.InRange()
    ensures var w := HeaderWord(h);
      && (Octet(w, 0) as Word) == h.dataRate | (h.pilotInfo << 3)
      && (Octet(w, 1) as Word) == h.burstMode | (h.scramblerSeed << 3)
      && Octet(w, 2) == h.pdsuLength && Octet(w, 3) == Crc(CRC8_INIT, [Octet(w, 0), Octet(w, 1), Octet(w, 2)])
  {
    hide HeaderCrc, Update, FieldBits, WithCrc, Octet;
    var bits := FieldBits(h);
    LowBytesKept(bits, HeaderCrc(bits));
    OctetsOf(h, HeaderCrc(bits));
    CrcOfLow(HeaderWord(h));
  }

  lemma CrcOfLow(w: Word)
    ensures HeaderCrc(w) == Crc(CRC8_INIT, [Octet(w, 0), Octet(w, 1), Octet(w, 2)])
  {}

  lemma OctetsOf(h: HeaderInfo, crc: Byte)
    requires h.InRange()
    ensures var w := WithCrc(FieldBits(h), crc);
      && (Octet(w, 0) as Word) == h.dataRate | (h.pilotInfo << 3)
      && (Octet(w, 1) as Word) == h.burstMode | (h.scramblerSeed << 3)
      && Octet(w, 2) == h.pdsuLength && Octet(w, 3) == crc
  {
    hide Octet;
    BytesOfFields(h.dataRate, h.pilotInfo, h.burstMode, h.scramblerSeed, h.pdsuLength, crc);
    FieldsApart(h, crc);
    LengthIsOctet(WithCrc(FieldBits(h), crc));
  }

  lemma BytesOfFields(a: Word, b: Word, c: Word, d: Word, length: Byte, crc: Byte)
    requires a < 8 && b < 8 && c < 2 && d < 2
    ensures var w := ((a | (b << 3) | (c << 8) | (d << 11)) | ((length as Word) << 16)) | ((crc as Word) << 24);
      (Octet(w, 0) as Word) == a | (b << 3) && (Octet(w, 1) as Word) == c | (d << 3)
  {}

  /** Some field other than the length sets a length bit that the length lacks. */
  predicate LengthDisturbed(h: HeaderInfo) {
    OtherBits(h) & HDR_LEN_MASK & !LengthPart(h) != 0
  }

  /** For any field values, the length survives exactly when no other field disturbs it. */
  lemma LengthRecoveredIff(h: HeaderInfo)
    ensures LengthField(HeaderWord(h)) == h.pdsuLength <==> !LengthDisturbed(h)
  {
    hide LengthField, WithCrc, FieldBits, HeaderCrc, LengthDisturbed;
    LengthBits(h, HeaderCrc(FieldBits(h)));
  }

  lemma LengthBits(h: HeaderInfo, crc: Byte)
    ensures LengthField(WithCrc(FieldBits(h), crc)) == h.pdsuLength <==> !LengthDisturbed(h)
  {}

  /** A field whose stored value the spread-factor command can set spoils the length. */
  lemma WideRateSpoilsLength()
    ensures LengthField(HeaderWord(HeaderInfo(0x1_0000, 6, 0, 0, 4))) != 4
  {
    hide LengthField, HeaderWord, LengthDisturbed;
    var h := HeaderInfo(0x1_0000, 6, 0, 0, 4);
    LengthRecoveredIff(h);
    RateReachesLength();
  }

  lemma RateReachesLength()
    ensures LengthDisturbed(HeaderInfo(0x1_0000, 6, 0, 0, 4))
  {}

  /** For any field values, the receiver accepts the header exactly when no field sets a top bit that the CRC lacks. */
  lemma CrcAcceptedIff(h: HeaderInfo)
    ensures CrcOk(HeaderWord(h)) <==> Octet(FieldBits(h), 3) & !HeaderCrc(FieldBits(h)) == 0
  {
    hide Octet, HeaderCrc, WithCrc, FieldBits, OtherBits, LengthPart, CrcOk, Update;
    var bits := FieldBits(h);
    CrcOkIff(HeaderWord(h));
    LowBytesKept(bits, HeaderCrc(bits));
    TopByte(bits, HeaderCrc(bits));
    CoveredByte(Octet(bits, 3), HeaderCrc(bits));
  }

  /** A rate that the spread-factor command can store: the receiver rejects the header. */
  lemma WideRateRejected()
    ensures !CrcOk(HeaderWord(HeaderInfo(0x0100_0000, 6, 0, 0, 0)))
  {
    hide HeaderWord, CrcOk, FieldBits, HeaderCrc, Octet;
    var h := HeaderInfo(0x0100_0000, 6, 0, 0, 0);
    CrcAcceptedIff(h);
    WideBits();
    WideCrc();
  }

  lemma WideBits()
    ensures FieldBits(HeaderInfo(0x0100_0000, 6, 0, 0, 0)) == 0x0100_0030 && Octet(0x0100_0030, 3) == 1
  {}

  lemma WideCrc()
    ensures HeaderCrc(0x0100_0030) == 0xC4
  {
    hide Shift;
    assert Octet(0x0100_0030, 0) == 0x30 && Octet(0x0100_0030, 1) == 0 && Octet(0x0100_0030, 2) == 0;
    CrcOfThree(0x30, 0, 0);
    WideUpdates();
  }

  lemma WideUpdates()
    ensures Update(Update(Update(CRC8_INIT, 0x30), 0), 0) == 0xC4
  {
    EightShifts(0xCF);
    EightShifts(0xC1);
    EightShifts(0x43);
  }

  lemma TopByte(bits: Word, crc: Byte)
    ensures Octet(WithCrc(bits, crc), 3) == Octet(bits, 3) | crc
  {}

  lemma CoveredByte(b: Byte, crc: Byte)
    ensures b | crc == crc <==> b & !crc == 0
  {}

  /** Some field other than the seed sets the seed's bit. */
  predicate SeedDisturbed(h: HeaderInfo) {
    h.dataRate & 0x800 != 0 || h.pilotInfo & 0x100 != 0 || h.burstMode & 8 != 0
  }

  /**
   * The transmitter scrambles with seed 1 for every nonzero `scrambler_seed`, the receiver for a set
   * seed bit.  For any field values, they agree exactly when a zero seed is not disturbed, and a nonzero
   * one is odd or another field sets its bit.
   */
  lemma SeedAgreesIff(h: HeaderInfo)
    ensures (SeedField(HeaderWord(h)) != 0) == (h.scramblerSeed != 0)
      <==> if h.scramblerSeed == 0 then !SeedDisturbed(h) else h.scramblerSeed & 1 == 1 || SeedDisturbed(h)
  {
    hide SeedField, FieldBits, HeaderCrc, WithCrc, SeedDisturbed;
    SeedBits(h, HeaderCrc(FieldBits(h)));
  }

  lemma SeedBits(h: HeaderInfo, crc: Byte)
    ensures SeedField(WithCrc(FieldBits(h), crc)) != 0 <==> h.scramblerSeed & 1 == 1 || SeedDisturbed(h)
  {}

  /** An even seed and a disturbed zero: sender and receiver use different streams. */
  lemma SeedsDisagree()
    ensures SeedField(HeaderWord(HeaderInfo(0, 6, 0, 2, 0))) == 0
    ensures SeedField(HeaderWord(HeaderInfo(0x800, 6, 0, 0, 0))) != 0
  {
    hide SeedField, FieldBits, HeaderCrc, WithCrc;
    SeedBits(HeaderInfo(0, 6, 0, 2, 0), HeaderCrc(FieldBits(HeaderInfo(0, 6, 0, 2, 0))));
    SeedBits(HeaderInfo(0x800, 6, 0, 0, 0), HeaderCrc(FieldBits(HeaderInfo(0x800, 6, 0, 0, 0))));
  }
}
