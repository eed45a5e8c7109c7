/** What a flash write leaves behind, and exactly when it can be read back. */
module FlashTheory {
  import opened Words
  import opened Ring
  import opened Memory
  import opened FlashDevice
  import opened FlashDriver
  import opened BuildTx

  /** How far sector `t` lies behind sector `s`, around the device. */
  function Behind(t: int, s: int, m: nat): (k: nat)
    requires m > 0
    ensures k < m
  {
    (t - s) % m
  }

  lemma BehindStep(t: nat, s: nat, n: nat)
    requires t < SECTORS && n > 0
    ensures Behind(t, s, SECTORS) < n <==> Behind(t, s, SECTORS) < n - 1 || t == (s + n - 1) % SECTORS
  {}

  /** Exactly the bytes of the `n` sectors from `sector` on are set. */
  lemma {:induction false} EraseAllAt(data: seq<Byte>, sector: nat, n: nat, q: nat)
    requires |data| == FLASH_SIZE && q < FLASH_SIZE
    ensures EraseAll(data, sector, n)[q] == if Behind(q / SECTOR_SIZE, sector, SECTORS) < n then 0xFF else data[q]
  {
    if n > 0 {
      EraseAllAt(data, sector, n - 1, q);
      hide Behind;
      BehindStep(q / SECTOR_SIZE, sector, n);
    }
  }

  lemma BehindPage(t: nat, p: nat, n: nat)
    requires t < PAGES && 0 < n <= PAGES
    ensures t == (p + n - 1) % PAGES <==> Behind(t, p, PAGES) == n - 1
  {}

  /** Exactly the bytes of the `n` pages from `page` on are and-ed with the data, each with its own byte. */
  lemma {:induction false} ProgramAllAt(data: seq<Byte>, page: nat, bytes: seq<Byte>, n: nat, q: nat)
    requires |data| == FLASH_SIZE && q < FLASH_SIZE && n <= PAGES && |bytes| >= PAGE_SIZE * n
    ensures var k := Behind(q / PAGE_SIZE, page, PAGES);
      ProgramAll(data, page, bytes, n)[q] == if k < n then data[q] & bytes[PAGE_SIZE * k + q % PAGE_SIZE] else data[q]
  {
    if n > 0 {
      ProgramAllAt(data, page, bytes, n - 1, q);
      BehindPage(q / PAGE_SIZE, page, n);
      hide Behind;
    }
  }

  /** A bit once cleared stays cleared: by the old contents, or by any page that covers the byte. */
  lemma {:induction false} ZeroStays(data: seq<Byte>, page: nat, bytes: seq<Byte>, n: nat, q: nat)
    requires |data| == FLASH_SIZE && q < FLASH_SIZE && |bytes| >= PAGE_SIZE * n && data[q] == 0
    ensures ProgramAll(data, page, bytes, n)[q] == 0
  {
    if n > 0 {
      ZeroStays(data, page, bytes, n - 1, q);
    }
  }

  lemma ProgramAt(data: seq<Byte>, page: int, bytes: seq<Byte>, q: nat)
    requires |bytes| == PAGE_SIZE && q < |data|
    ensures ProgramPage(data, page, bytes)[q] == if q / PAGE_SIZE == page % PAGES then data[q] & bytes[q % PAGE_SIZE] else data[q]
  {}

  lemma AndZero(b: Byte)
    ensures b & 0 == 0 && 0 & b == 0
  {}

  lemma {:induction false} ZeroProgrammed(data: seq<Byte>, page: nat, bytes: seq<Byte>, n: nat, k: nat, q: nat)
    requires |data| == FLASH_SIZE && q < FLASH_SIZE && |bytes| >= PAGE_SIZE * n
    requires k < n && q / PAGE_SIZE == (page + k) % PAGES && bytes[PAGE_SIZE * k + q % PAGE_SIZE] == 0
    ensures ProgramAll(data, page, bytes, n)[q] == 0
  {
    hide ProgramPage;
    var last := bytes[PAGE_SIZE * (n - 1)..PAGE_SIZE * n];
    var before := ProgramAll(data, page, bytes, n - 1);
    ProgramAt(before, page + n - 1, last, q);
    AndZero(before[q]);
    AndZero(last[q % PAGE_SIZE]);
    if k < n - 1 {
      ZeroProgrammed(data, page, bytes, n - 1, k, q);
    } else {
      assert last[q % PAGE_SIZE] == bytes[PAGE_SIZE * k + q % PAGE_SIZE];
    }
  }

  /** Bytes that a read of `size` returns: whole words only. */
  function ReadSize(size: nat): nat {
    4 * (size / 4)
  }

  /**
   * The condition a caller can check: page-aligned, within the device, and what is read back lies in the
   * sectors that were erased, which are counted from the size alone.
   */
  predicate ReadableBack(addr: nat, size: nat) {
    && addr % PAGE_SIZE == 0
    && NumPages(size) <= PAGES
    && (NumSectors(size) >= SECTORS || addr % SECTOR_SIZE + ReadSize(size) <= SECTOR_SIZE * NumSectors(size))
  }

  lemma PageOf(a: nat)
    ensures a % FLASH_SIZE / PAGE_SIZE == a / PAGE_SIZE % PAGES && a % FLASH_SIZE % PAGE_SIZE == a % PAGE_SIZE
  {}

  /** Where byte `j` of a read from a page-aligned address lies. */
  lemma Position(addr: nat, j: nat)
    requires addr % PAGE_SIZE == 0
    ensures var q := (addr + j) % FLASH_SIZE;
      && q / PAGE_SIZE == (addr / PAGE_SIZE + j / PAGE_SIZE) % PAGES && q % PAGE_SIZE == j % PAGE_SIZE
  {
    PageOf(addr + j);
    assert addr == addr / PAGE_SIZE * PAGE_SIZE;
    assert addr + j == (addr / PAGE_SIZE + j / PAGE_SIZE) * PAGE_SIZE + j % PAGE_SIZE;
  }

  lemma SectorPosition(addr: nat, j: nat)
    ensures var q := (addr + j) % FLASH_SIZE;
      q / SECTOR_SIZE == (addr / SECTOR_SIZE + (addr % SECTOR_SIZE + j) / SECTOR_SIZE) % SECTORS
  {}

  lemma BehindIsPage(p: nat, k: nat)
    requires k < PAGES
    ensures Behind((p + k) % PAGES, p, PAGES) == k
  {}

  lemma BehindIsSector(s: nat, k: nat)
    requires k < SECTORS
    ensures Behind((s + k) % SECTORS, s, SECTORS) == k
  {}

  lemma ReadSizeFits(size: nat, j: nat)
    requires j < ReadSize(size)
    ensures j / PAGE_SIZE < NumPages(size)
  {}

  lemma AndOnes(b: Byte)
    ensures 0xFF & b == b
  {}

  /** Under the condition, a byte read back is the byte written, whatever was there before. */
  lemma ReadableByte(data: seq<Byte>, addr: nat, size: nat, bytes: seq<Byte>, j: nat)
    requires |data| == FLASH_SIZE && |bytes| == PAGE_SIZE * NumPages(size)
    requires ReadableBack(addr, size) && j < ReadSize(size)
    ensures j < |bytes| && AfterWrite(data, addr, size, bytes)[(addr + j) % FLASH_SIZE] == bytes[j]
  {
    hide Behind, NumPages, NumSectors, EraseAll, ProgramAll;
    var q, p := (addr + j) % FLASH_SIZE, addr / PAGE_SIZE;
    var erased := EraseAll(data, addr / SECTOR_SIZE, NumSectors(size));
    ReadSizeFits(size, j);
    PageInWrite(size, j);
    Position(addr, j);
    BehindIsPage(p, j / PAGE_SIZE);
    ErasedPosition(addr, size, j);
    ProgramAllAt(erased, p, bytes, NumPages(size), q);
    EraseAllAt(data, addr / SECTOR_SIZE, NumSectors(size), q);
    AndOnes(bytes[j]);
  }

  lemma PageInWrite(size: nat, j: nat)
    requires j < ReadSize(size)
    ensures j < PAGE_SIZE * NumPages(size) && j == PAGE_SIZE * (j / PAGE_SIZE) + j % PAGE_SIZE
  {}

  lemma ErasedPosition(addr: nat, size: nat, j: nat)
    requires ReadableBack(addr, size) && j < ReadSize(size)
    ensures Behind((addr + j) % FLASH_SIZE / SECTOR_SIZE, addr / SECTOR_SIZE, SECTORS) < NumSectors(size)
  {
    hide Behind, NumPages, NumSectors;
    SectorPosition(addr, j);
    var k := (addr % SECTOR_SIZE + j) / SECTOR_SIZE;
    if NumSectors(size) < SECTORS {
      BehindIsSector(addr / SECTOR_SIZE, k);
    }
  }

  /** Under the condition, reading back gives what was written. */
  lemma WriteThenRead(data: seq<Byte>, addr: nat, size: nat, bytes: seq<Byte>)
    requires |data| == FLASH_SIZE && |bytes| == PAGE_SIZE * NumPages(size) && ReadableBack(addr, size)
    ensures ReadSize(size) <= |bytes|
    ensures ReadBack(AfterWrite(data, addr, size, bytes), addr, ReadSize(size)) == bytes[..ReadSize(size)]
  {
    hide AfterWrite, ReadableBack;
    forall j | 0 <= j < ReadSize(size)
      ensures AfterWrite(data, addr, size, bytes)[(addr + j) % FLASH_SIZE] == bytes[j]
    {
      ReadableByte(data, addr, size, bytes, j);
    }
  }

  /** A write of `size` bytes at `addr` can be read back whatever the device and the memory held. */
  ghost predicate AlwaysReadBack(addr: nat, size: nat) {
    forall data: seq<Byte>, bytes: seq<Byte> | |data| == FLASH_SIZE && |bytes| == PAGE_SIZE * NumPages(size) ::
      ReadSize(size) <= |bytes|
      && ReadBack(AfterWrite(data, addr, size, bytes), addr, ReadSize(size)) == bytes[..ReadSize(size)]
  }

  function Fill(n: nat, b: Byte): (s: seq<Byte>)
    ensures |s| == n
  {
    seq(n, i requires 0 <= i < n => b)
  }

  /** A start inside a page: the first byte is programmed with the byte of that offset instead. */
  lemma UnalignedFails(addr: nat, size: nat)
    requires addr % PAGE_SIZE != 0 && ReadSize(size) > 0
    ensures !AlwaysReadBack(addr, size)
  {
    var n := PAGE_SIZE * NumPages(size);
    var data, bytes := Fill(FLASH_SIZE, 0xFF), Fill(n, 0)[0 := 0xFF];
    var q := addr % FLASH_SIZE;
    PageOf(addr);
    ZeroProgrammed(EraseAll(data, addr / SECTOR_SIZE, NumSectors(size)), addr / PAGE_SIZE, bytes, NumPages(size), 0, q);
    hide EraseAll, ProgramAll, NumPages, NumSectors;
    assert ReadBack(AfterWrite(data, addr, size, bytes), addr, ReadSize(size))[0] == 0;
    assert bytes[..ReadSize(size)][0] == 0xFF;
  }

  /** A write longer than the device programs its first page twice. */
  lemma TooLongFails(addr: nat, size: nat)
    requires addr % PAGE_SIZE == 0 && NumPages(size) > PAGES
    ensures !AlwaysReadBack(addr, size)
  {
    var n := PAGE_SIZE * NumPages(size);
    var data, bytes := Fill(FLASH_SIZE, 0xFF), Fill(n, 0xFF)[PAGE_SIZE * PAGES := 0];
    var q := addr % FLASH_SIZE;
    PageOf(addr);
    assert (addr / PAGE_SIZE + PAGES) % PAGES == addr / PAGE_SIZE % PAGES;
    ZeroProgrammed(EraseAll(data, addr / SECTOR_SIZE, NumSectors(size)), addr / PAGE_SIZE, bytes, NumPages(size), PAGES, q);
    assert ReadSize(size) > 0;
    hide EraseAll, ProgramAll, NumPages, NumSectors;
    assert ReadBack(AfterWrite(data, addr, size, bytes), addr, ReadSize(size))[0] == 0;
    assert bytes[..ReadSize(size)][0] == 0xFF;
  }

  /** A read that runs past the erased sectors meets bits that an erase has not set. */
  lemma UnerasedFails(addr: nat, size: nat)
    requires ReadSize(size) > 0 && NumSectors(size) < SECTORS
    requires addr % SECTOR_SIZE + ReadSize(size) > SECTOR_SIZE * NumSectors(size)
    ensures !AlwaysReadBack(addr, size)
  {
    var n, s := PAGE_SIZE * NumPages(size), NumSectors(size);
    var data, bytes := Fill(FLASH_SIZE, 0), Fill(n, 0xFF);
    assert s > 0;
    var j := SECTOR_SIZE * s - addr % SECTOR_SIZE;
    var q := (addr + j) % FLASH_SIZE;
    SectorPosition(addr, j);
    BehindIsSector(addr / SECTOR_SIZE, s);
    EraseAllAt(data, addr / SECTOR_SIZE, s, q);
    ZeroStays(EraseAll(data, addr / SECTOR_SIZE, s), addr / PAGE_SIZE, bytes, NumPages(size), q);
    ReadSizeFits(size, j);
    hide EraseAll, ProgramAll, NumPages, NumSectors, Behind;
    assert ReadBack(AfterWrite(data, addr, size, bytes), addr, ReadSize(size))[j] == 0;
    assert bytes[..ReadSize(size)][j] == 0xFF;
  }

  /** Exactly when what `flash_write` stored can be read back. */
  lemma ReadBackIff(addr: nat, size: nat)
    ensures AlwaysReadBack(addr, size) <==> ReadSize(size) == 0 || ReadableBack(addr, size)
  {
    if ReadSize(size) == 0 || ReadableBack(addr, size) {
      forall data: seq<Byte>, bytes: seq<Byte> | |data| == FLASH_SIZE && |bytes| == PAGE_SIZE * NumPages(size)
        ensures ReadSize(size) <= |bytes|
          && ReadBack(AfterWrite(data, addr, size, bytes), addr, ReadSize(size)) == bytes[..ReadSize(size)]
      {
        if ReadSize(size) > 0 {
          WriteThenRead(data, addr, size, bytes);
        }
      }
    } else if addr % PAGE_SIZE != 0 {
      UnalignedFails(addr, size);
    } else if NumPages(size) > PAGES {
      TooLongFails(addr, size);
    } else {
      UnerasedFails(addr, size);
    }
  }

  /** Every page programmed lies in a sector erased by the same call. */
  predicate PagesErased(addr: nat, size: nat) {
    size == 0 || NumSectors(size) >= SECTORS
    || addr % SECTOR_SIZE / PAGE_SIZE + NumPages(size) <= SECTOR_SIZE / PAGE_SIZE * NumSectors(size)
  }

  /** No byte outside the erased sectors changes, whatever the device and the memory held. */
  ghost predicate OthersKept(addr: nat, size: nat) {
    forall data: seq<Byte>, bytes: seq<Byte>, q: nat
      | |data| == FLASH_SIZE && |bytes| == PAGE_SIZE * NumPages(size) && q < FLASH_SIZE
        && Behind(q / SECTOR_SIZE, addr / SECTOR_SIZE, SECTORS) >= NumSectors(size) ::
      AfterWrite(data, addr, size, bytes)[q] == data[q]
  }

  lemma SectorOfPage(p: nat)
    ensures p % PAGES / 256 == p / 256 % SECTORS
  {}

  lemma PageOfAddr(addr: nat)
    ensures addr / PAGE_SIZE == 256 * (addr / SECTOR_SIZE) + addr % SECTOR_SIZE / PAGE_SIZE
  {}

  lemma PageInSector(addr: nat, k: nat)
    ensures (addr / PAGE_SIZE + k) % PAGES / 256 == (addr / SECTOR_SIZE + (addr % SECTOR_SIZE / PAGE_SIZE + k) / 256) % SECTORS
  {
    PageOfAddr(addr);
    SectorOfPage(addr / PAGE_SIZE + k);
    var s, n := addr / SECTOR_SIZE, addr % SECTOR_SIZE / PAGE_SIZE + k;
    assert (256 * s + n) / 256 == s + n / 256;
  }

  /** A byte outside the erased sectors is in none of the programmed pages. */
  lemma OutsideKept(data: seq<Byte>, addr: nat, size: nat, bytes: seq<Byte>, q: nat)
    requires |data| == FLASH_SIZE && |bytes| == PAGE_SIZE * NumPages(size) && q < FLASH_SIZE && PagesErased(addr, size)
    requires Behind(q / SECTOR_SIZE, addr / SECTOR_SIZE, SECTORS) >= NumSectors(size)
    ensures AfterWrite(data, addr, size, bytes)[q] == data[q]
  {
    var p, s := addr / PAGE_SIZE, addr / SECTOR_SIZE;
    var k := Behind(q / PAGE_SIZE, p, PAGES);
    EraseAllAt(data, s, NumSectors(size), q);
    PagesFit(size);
    ProgramAllAt(EraseAll(data, s, NumSectors(size)), p, bytes, NumPages(size), q);
    if k < NumPages(size) {
      BehindPage(q / PAGE_SIZE, p, k + 1);
      PageInSector(addr, k);
      assert q / SECTOR_SIZE == q / PAGE_SIZE / 256;
      hide Behind, NumPages;
      BehindIsSector(s, (addr % SECTOR_SIZE / PAGE_SIZE + k) / 256);
    }
  }

  lemma PagesFit(size: nat)
    requires NumSectors(size) <= SECTORS
    ensures NumPages(size) <= PAGES
  {}

  /** A page programmed outside the erased sectors changes one of them. */
  lemma OutsideFails(addr: nat, size: nat)
    requires !PagesErased(addr, size)
    ensures !OthersKept(addr, size)
  {
    var s := NumSectors(size);
    var data, bytes := Fill(FLASH_SIZE, 0xFF), Fill(PAGE_SIZE * NumPages(size), 0);
    var k := 256 * s - addr % SECTOR_SIZE / PAGE_SIZE;
    assert s > 0 && k < NumPages(size);
    hide EraseAll, ProgramAll, NumPages, NumSectors, Behind, Fill;
    var q := FirstOutside(addr, s, k);
    assert bytes[PAGE_SIZE * k] == 0 by {
      FillIs(PAGE_SIZE * NumPages(size), 0, PAGE_SIZE * k);
    }
    ZeroProgrammed(EraseAll(data, addr / SECTOR_SIZE, s), addr / PAGE_SIZE, bytes, NumPages(size), k, q);
    FillIs(FLASH_SIZE, 0xFF, q);
    assert AfterWrite(data, addr, size, bytes)[q] != data[q];
  }

  lemma FillIs(n: nat, b: Byte, i: nat)
    requires i < n
    ensures Fill(n, b)[i] == b
  {}

  /** The first byte of the first page after the erased sectors. */
  lemma FirstOutside(addr: nat, s: nat, k: nat) returns (q: nat)
    requires s < SECTORS && k == 256 * s - addr % SECTOR_SIZE / PAGE_SIZE
    ensures q < FLASH_SIZE && q % PAGE_SIZE == 0 && q / PAGE_SIZE == (addr / PAGE_SIZE + k) % PAGES
    ensures Behind(q / SECTOR_SIZE, addr / SECTOR_SIZE, SECTORS) == s
  {
    q := PAGE_SIZE * ((addr / PAGE_SIZE + k) % PAGES);
    assert q / SECTOR_SIZE == q / PAGE_SIZE / 256;
    PageInSector(addr, k);
    BehindIsSector(addr / SECTOR_SIZE, s);
  }

  /** Exactly when a write leaves every sector alone that it has not erased. */
  lemma OthersKeptIff(addr: nat, size: nat)
    ensures OthersKept(addr, size) <==> PagesErased(addr, size)
  {
    if PagesErased(addr, size) {
      forall data: seq<Byte>, bytes: seq<Byte>, q: nat
        | |data| == FLASH_SIZE && |bytes| == PAGE_SIZE * NumPages(size) && q < FLASH_SIZE
          && Behind(q / SECTOR_SIZE, addr / SECTOR_SIZE, SECTORS) >= NumSectors(size)
        ensures AfterWrite(data, addr, size, bytes)[q] == data[q]
      {
        OutsideKept(data, addr, size, bytes, q);
      }
    } else {
      OutsideFails(addr, size);
    }
  }

  // The log of operations.

  lemma {:induction false} ErasuresAt(sector: nat, n: nat, i: nat)
    requires i < n
    ensures |Erasures(sector, n)| == n && Erasures(sector, n)[i] == Erased((sector + i) % SECTORS)
  {
    ErasuresLength(sector, n);
    if i < n - 1 {
      ErasuresLength(sector, n - 1);
      ErasuresAt(sector, n - 1, i);
    } else {
      ErasuresLength(sector, n - 1);
    }
  }

  lemma {:induction false} ErasuresLength(sector: nat, n: nat)
    ensures |Erasures(sector, n)| == n
  {
    if n > 0 {
      ErasuresLength(sector, n - 1);
    }
  }

  lemma {:induction false} ProgrammingsLength(page: nat, n: nat)
    ensures |Programmings(page, n)| == n
  {
    if n > 0 {
      ProgrammingsLength(page, n - 1);
    }
  }

  lemma {:induction false} ProgrammingsAt(page: nat, n: nat, i: nat)
    requires i < n
    ensures |Programmings(page, n)| == n && Programmings(page, n)[i] == Programmed((page + i) % PAGES)
  {
    ProgrammingsLength(page, n);
    ProgrammingsLength(page, n - 1);
    if i < n - 1 {
      ProgrammingsAt(page, n - 1, i);
    }
  }

  predicate Distinct(log: seq<Operation>) {
    forall i, j | 0 <= i < j < |log| :: log[i] != log[j]
  }

  lemma PagesApart(a: nat, i: nat, j: nat)
    requires i < j < i + PAGES
    ensures (a + i) % PAGES != (a + j) % PAGES
  {}

  lemma SectorsApart(a: nat, i: nat, j: nat)
    requires i < j < i + SECTORS || j < i < j + SECTORS
    ensures (a + i) % SECTORS != (a + j) % SECTORS
  {}

  /** Each page is programmed once exactly when the pages fit the device. */
  lemma EachPageOnceIff(page: nat, n: nat)
    ensures Distinct(Programmings(page, n)) <==> n <= PAGES
  {
    hide Programmings;
    var log := Programmings(page, n);
    ProgrammingsLength(page, n);
    if n <= PAGES {
      forall i, j | 0 <= i < j < n
        ensures log[i] != log[j]
      {
        ProgrammingsAt(page, n, i);
        ProgrammingsAt(page, n, j);
        PagesApart(page, i, j);
      }
    } else {
      ProgrammingsAt(page, n, 0);
      ProgrammingsAt(page, n, PAGES);
      assert log[0] == log[PAGES];
    }
  }

  /** Each sector is erased once exactly when the sectors fit the device. */
  lemma EachSectorOnceIff(sector: nat, n: nat)
    ensures Distinct(Erasures(sector, n)) <==> n <= SECTORS
  {
    hide Erasures;
    var log := Erasures(sector, n);
    ErasuresLength(sector, n);
    if n <= SECTORS {
      forall i, j | 0 <= i < j < n
        ensures log[i] != log[j]
      {
        ErasuresAt(sector, n, i);
        ErasuresAt(sector, n, j);
        SectorsApart(sector, i, j);
      }
    } else {
      ErasuresAt(sector, n, 0);
      ErasuresAt(sector, n, SECTORS);
      assert log[0] == log[SECTORS];
    }
  }

  /** The operations of a write, as the device sees them. */
  function WriteLog(addr: nat, size: nat): seq<Operation> {
    Erasures(addr / SECTOR_SIZE, NumSectors(size)) + Programmings(addr / PAGE_SIZE, NumPages(size))
  }

  predicate ErasedBefore(log: seq<Operation>, i: nat, sector: nat)
    requires i <= |log|
  {
    exists j | 0 <= j < i :: log[j] == Erased(sector)
  }

  /** Every page is programmed after its sector has been erased. */
  predicate ErasedFirst(log: seq<Operation>) {
    forall i | 0 <= i < |log| && log[i].Programmed? :: ErasedBefore(log, i, log[i].page / 256)
  }

  lemma SectorInLog(addr: nat, size: nat, k: nat)
    requires k < NumSectors(size)
    ensures |WriteLog(addr, size)| == NumSectors(size) + NumPages(size)
    ensures WriteLog(addr, size)[k] == Erased((addr / SECTOR_SIZE + k) % SECTORS)
  {
    hide Erasures, Programmings, NumSectors, NumPages;
    ErasuresAt(addr / SECTOR_SIZE, NumSectors(size), k);
    ProgrammingsLength(addr / PAGE_SIZE, NumPages(size));
  }

  lemma PageInLog(addr: nat, size: nat, k: nat)
    requires k < NumPages(size)
    ensures |WriteLog(addr, size)| == NumSectors(size) + NumPages(size)
    ensures WriteLog(addr, size)[NumSectors(size) + k] == Programmed((addr / PAGE_SIZE + k) % PAGES)
  {
    hide Erasures, Programmings, NumSectors, NumPages;
    ErasuresLength(addr / SECTOR_SIZE, NumSectors(size));
    ProgrammingsAt(addr / PAGE_SIZE, NumPages(size), k);
  }

  /** The sector, counted from the first one erased, that page `k` of a write lies in. */
  function SectorOfWrite(addr: nat, k: nat): nat {
    (addr % SECTOR_SIZE / PAGE_SIZE + k) / 256
  }

  /** Page `k` is programmed in a sector erased before exactly when that sector is among those erased. */
  lemma PageErasedIff(addr: nat, size: nat, k: nat)
    requires k < NumPages(size)
    ensures |WriteLog(addr, size)| == NumSectors(size) + NumPages(size)
    ensures ErasedBefore(WriteLog(addr, size), NumSectors(size) + k, (addr / PAGE_SIZE + k) % PAGES / 256)
      <==> SectorOfWrite(addr, k) % SECTORS < NumSectors(size)
  {
    hide NumSectors, NumPages, WriteLog;
    var log, s, n, d := WriteLog(addr, size), addr / SECTOR_SIZE, NumSectors(size), SectorOfWrite(addr, k);
    PageInLog(addr, size, k);
    PageInSector(addr, k);
    SameAround(s, d);
    if d % SECTORS < n {
      SectorInLog(addr, size, d % SECTORS);
      assert log[d % SECTORS] == Erased((addr / PAGE_SIZE + k) % PAGES / 256);
    } else {
      forall j | 0 <= j < n + k
        ensures log[j] != Erased((s + d) % SECTORS)
      {
        if j < n {
          SectorInLog(addr, size, j);
          SectorsApart(s, j, d % SECTORS);
        } else {
          PageInLog(addr, size, j - n);
        }
      }
    }
  }

  lemma SameAround(s: nat, d: nat)
    ensures (s + d % SECTORS) % SECTORS == (s + d) % SECTORS
  {}

  /** Every page of a write is programmed in a sector erased before it exactly under `PagesErased`. */
  lemma ErasedFirstIff(addr: nat, size: nat)
    ensures ErasedFirst(WriteLog(addr, size)) <==> PagesErased(addr, size)
  {
    hide WriteLog, PagesErased, NumSectors, NumPages, ErasedBefore;
    var log, n := WriteLog(addr, size), NumSectors(size);
    LogLength(addr, size);
    PagesErasedIs(addr, size);
    if PagesErased(addr, size) {
      forall i | 0 <= i < |log| && log[i].Programmed?
        ensures ErasedBefore(log, i, log[i].page / 256)
      {
        if i < n {
          SectorInLog(addr, size, i);
        } else {
          PageInLog(addr, size, i - n);
          PageErasedIff(addr, size, i - n);
          assert SectorOfWrite(addr, i - n) % SECTORS < n;
        }
      }
    } else {
      var k := 256 * n - addr % SECTOR_SIZE / PAGE_SIZE;
      PageInLog(addr, size, k);
      PageErasedIff(addr, size, k);
      assert log[n + k].Programmed? && !ErasedBefore(log, n + k, log[n + k].page / 256);
    }
  }

  lemma LogLength(addr: nat, size: nat)
    ensures |WriteLog(addr, size)| == NumSectors(size) + NumPages(size)
  {
    ErasuresLength(addr / SECTOR_SIZE, NumSectors(size));
    ProgrammingsLength(addr / PAGE_SIZE, NumPages(size));
  }

  lemma PagesErasedIs(addr: nat, size: nat)
    ensures PagesErased(addr, size) ==>
      forall k | 0 <= k < NumPages(size) :: SectorOfWrite(addr, k) % SECTORS < NumSectors(size)
    ensures !PagesErased(addr, size) ==>
      var n := NumSectors(size);
      var k := 256 * n - addr % SECTOR_SIZE / PAGE_SIZE;
      0 <= k < NumPages(size) && SectorOfWrite(addr, k) == n < SECTORS
  {}

  // What a write touches, in terms of the bytes written.

  /** `NumSectors` is the least number of sectors that hold `size` bytes. */
  lemma NumSectorsLeast(size: nat, n: nat)
    ensures size <= SECTOR_SIZE * n <==> NumSectors(size) <= n
  {}

  /** `NumPages` is the least number of pages that hold `size` bytes. */
  lemma NumPagesLeast(size: nat, n: nat)
    ensures size <= PAGE_SIZE * n <==> NumPages(size) <= n
  {}

  function SectorOfByte(b: nat): nat {
    b / SECTOR_SIZE
  }

  function PageOfByte(b: nat): nat {
    b / PAGE_SIZE
  }

  /** Some byte of the write lies in sector `t`. */
  predicate TouchesSector(addr: nat, size: nat, t: nat) {
    exists b | addr <= b < addr + size :: SectorOfByte(b) == t
  }

  predicate TouchesPage(addr: nat, size: nat, p: nat) {
    exists b | addr <= b < addr + size :: PageOfByte(b) == p
  }

  lemma TouchesSectorIff(addr: nat, size: nat, t: nat)
    requires addr % SECTOR_SIZE == 0
    ensures TouchesSector(addr, size, t) <==> addr / SECTOR_SIZE <= t < addr / SECTOR_SIZE + NumSectors(size)
  {
    var s := addr / SECTOR_SIZE;
    if s <= t < s + NumSectors(size) {
      NumSectorsLeast(size, t - s);
      var b := SECTOR_SIZE * t;
      assert addr <= b < addr + size && SectorOfByte(b) == t;
    }
    if TouchesSector(addr, size, t) {
      NumSectorsLeast(size, NumSectors(size));
    }
  }

  lemma TouchesPageIff(addr: nat, size: nat, p: nat)
    requires addr % PAGE_SIZE == 0
    ensures TouchesPage(addr, size, p) <==> addr / PAGE_SIZE <= p < addr / PAGE_SIZE + NumPages(size)
  {
    var s := addr / PAGE_SIZE;
    if s <= p < s + NumPages(size) {
      NumPagesLeast(size, p - s);
      var b := PAGE_SIZE * p;
      assert addr <= b < addr + size && PageOfByte(b) == p;
    }
    if TouchesPage(addr, size, p) {
      NumPagesLeast(size, NumPages(size));
    }
  }

  lemma WithinDevice(addr: nat, size: nat)
    requires addr % SECTOR_SIZE == 0 && addr + size <= FLASH_SIZE
    ensures addr / SECTOR_SIZE + NumSectors(size) <= SECTORS || size == 0
    ensures addr / PAGE_SIZE + NumPages(size) <= PAGES || size == 0
    ensures NumSectors(size) <= SECTORS
  {
    NumSectorsLeast(size, SECTORS - addr / SECTOR_SIZE);
    NumPagesLeast(size, PAGES - addr / PAGE_SIZE);
  }

  /** A sector-aligned write within the device leaves every byte alone whose sector holds none of the bytes written. */
  lemma UntouchedKept(data: seq<Byte>, addr: nat, size: nat, bytes: seq<Byte>, q: nat)
    requires |data| == FLASH_SIZE && |bytes| == PAGE_SIZE * NumPages(size) && q < FLASH_SIZE
    requires addr % SECTOR_SIZE == 0 && addr + size <= FLASH_SIZE && !TouchesSector(addr, size, q / SECTOR_SIZE)
    ensures AfterWrite(data, addr, size, bytes)[q] == data[q]
  {
    hide AfterWrite, TouchesSector, NumPages, NumSectors, ReadableBack, PagesErased;
    TouchesSectorIff(addr, size, q / SECTOR_SIZE);
    WithinDevice(addr, size);
    SectorAlignedIsGood(addr, size);
    EmptyWrite(size);
    OutsideKept(data, addr, size, bytes, q);
  }

  lemma EmptyWrite(size: nat)
    ensures size == 0 ==> NumSectors(size) == 0 && NumPages(size) == 0
  {}

  lemma SectorHere(addr: nat, size: nat, k: nat)
    requires k < NumSectors(size) && addr / SECTOR_SIZE + k < SECTORS
    ensures |WriteLog(addr, size)| == NumSectors(size) + NumPages(size)
    ensures WriteLog(addr, size)[k] == Erased(addr / SECTOR_SIZE + k)
  {
    hide WriteLog, NumSectors, NumPages;
    SectorInLog(addr, size, k);
  }

  lemma PageHere(addr: nat, size: nat, k: nat)
    requires k < NumPages(size) && addr / PAGE_SIZE + k < PAGES
    ensures |WriteLog(addr, size)| == NumSectors(size) + NumPages(size)
    ensures WriteLog(addr, size)[NumSectors(size) + k] == Programmed(addr / PAGE_SIZE + k)
  {
    hide WriteLog, NumSectors, NumPages;
    PageInLog(addr, size, k);
  }

  /** What is in the log of a write that does not reach the end of the device. */
  lemma LogHolds(addr: nat, size: nat, t: nat)
    requires addr / SECTOR_SIZE + NumSectors(size) <= SECTORS && addr / PAGE_SIZE + NumPages(size) <= PAGES
    ensures Erased(t) in WriteLog(addr, size) <==> addr / SECTOR_SIZE <= t < addr / SECTOR_SIZE + NumSectors(size)
    ensures Programmed(t) in WriteLog(addr, size) <==> addr / PAGE_SIZE <= t < addr / PAGE_SIZE + NumPages(size)
  {
    hide WriteLog, NumPages, NumSectors;
    var log, n, s, p := WriteLog(addr, size), NumSectors(size), addr / SECTOR_SIZE, addr / PAGE_SIZE;
    LogLength(addr, size);
    forall i | 0 <= i < |log|
      ensures log[i] == if i < n then Erased(s + i) else Programmed(p + (i - n))
    {
      if i < n {
        SectorHere(addr, size, i);
      } else {
        PageHere(addr, size, i - n);
      }
    }
    if s <= t < s + n {
      assert log[t - s] == Erased(t);
    }
    if p <= t < p + NumPages(size) {
      assert log[n + (t - p)] == Programmed(t);
    }
  }

  /** It erases a sector exactly when that holds one of the bytes written, and programs a page exactly when that does. */
  lemma LogTouches(addr: nat, size: nat, t: nat)
    requires addr % SECTOR_SIZE == 0 && addr + size <= FLASH_SIZE
    ensures Erased(t) in WriteLog(addr, size) <==> TouchesSector(addr, size, t)
    ensures Programmed(t) in WriteLog(addr, size) <==> TouchesPage(addr, size, t)
  {
    hide WriteLog, TouchesSector, TouchesPage, NumPages, NumSectors;
    PageAligned(addr);
    TouchesSectorIff(addr, size, t);
    TouchesPageIff(addr, size, t);
    WithinDevice(addr, size);
    EmptyWrite(size);
    DeviceEnd(addr);
    LogHolds(addr, size, t);
  }

  lemma PageAligned(addr: nat)
    requires addr % SECTOR_SIZE == 0
    ensures addr % PAGE_SIZE == 0
  {}

  lemma DeviceEnd(addr: nat)
    requires addr <= FLASH_SIZE
    ensures addr / SECTOR_SIZE <= SECTORS && addr / PAGE_SIZE <= PAGES
  {}

  /** A sector-aligned write that fits the device meets both conditions. */
  lemma SectorAlignedIsGood(addr: nat, size: nat)
    requires addr % SECTOR_SIZE == 0 && size <= FLASH_SIZE
    ensures ReadableBack(addr, size) && PagesErased(addr, size)
  {}

  lemma PackPrefix(cells: seq<Word>, at: nat, n: nat, m: nat)
    requires |cells| == RING && m <= n
    ensures Pack(MemoryBytes(cells, at, n)[..4 * m]) == CellsFrom(cells, at, m)
  {
    hide Octet, Cell;
    var a, b := CellsFrom(cells, at, n), CellsFrom(cells, at, m);
    assert a == b + a[m..];
    UnpackAppend(b, a[m..]);
    assert MemoryBytes(cells, at, n)[..4 * m] == Unpack(b);
    PackUnpack(b);
  }

  /** Under the condition, a read puts the words of memory back that a write took from there. */
  lemma WordsRestored(data: seq<Byte>, cells: seq<Word>, at: nat, addr: nat, size: nat)
    requires |data| == FLASH_SIZE && |cells| == RING && ReadableBack(addr, size)
    ensures Pack(ReadBack(AfterWrite(data, addr, size, MemoryBytes(cells, at, 64 * NumPages(size))), addr, ReadSize(size)))
      == CellsFrom(cells, at, size / 4)
  {
    hide AfterWrite, MemoryBytes, ReadableBack, Pack, CellsFrom, ReadBack;
    WriteThenRead(data, addr, size, MemoryBytes(cells, at, 64 * NumPages(size)));
    PackPrefix(cells, at, 64 * NumPages(size), size / 4);
  }

  lemma NothingToRead(data: seq<Byte>, cells: seq<Word>, addr: nat, size: nat)
    requires |data| == FLASH_SIZE && |cells| == RING && ReadSize(size) == 0
    ensures Pack(ReadBack(data, addr, 4 * (size / 4))) == CellsFrom(cells, 0, size / 4) == []
  {}

  /** The flash write command of the host: write from the start of memory, then verify. */
  method WriteAndVerify(d: Device, bank: Bank, size: nat, flashAddr: nat) returns (retval: int)
    requires d.Ready() && bank.Valid()
    modifies d, bank`rd
    ensures d.Ready() && bank.Valid()
    ensures d.data == AfterWrite(old(d.data), flashAddr, size, MemoryBytes(bank.cells, 0, 64 * NumPages(size)))
    ensures ReadSize(size) == 0 || ReadableBack(flashAddr, size) ==> retval == 0
    ensures retval == if Pack(ReadBack(d.data, flashAddr, ReadSize(size))) == CellsFrom(bank.cells, 0, size / 4) then 0 else -1
  {
    hide AfterWrite, MemoryBytes, ReadableBack, Pack, CellsFrom, ReadBack;
    ghost var before := d.data;
    assert Slot(0) == 0;
    FlashWrite(d, bank, 0, size, flashAddr);
    retval := FlashVerify(d, bank, 0, size, flashAddr);
    if ReadSize(size) == 0 {
      NothingToRead(d.data, bank.cells, flashAddr, size);
    } else if ReadableBack(flashAddr, size) {
      WordsRestored(before, bank.cells, 0, flashAddr, size);
    }
  }
}
