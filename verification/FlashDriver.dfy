/** The flash driver of src/flash.c. */
module FlashDriver {
  import opened Words
  import opened Ring
  import opened Memory
  import opened FlashDevice
  import opened BuildTx

  // Page and sector arithmetic of src/flash.h.

  function NumPages(size: nat): nat {
    if size % PAGE_SIZE != 0 then size / PAGE_SIZE + 1 else size / PAGE_SIZE
  }

  function NumSectors(size: nat): nat {
    if size % SECTOR_SIZE != 0 then size / SECTOR_SIZE + 1 else size / SECTOR_SIZE
  }

  // What the operations do to the device's contents.

  function EraseAll(data: seq<Byte>, sector: nat, n: nat): (r: seq<Byte>)
    ensures |r| == |data|
  {
    if n == 0 then data else Erase(EraseAll(data, sector, n - 1), sector + n - 1)
  }

  function ProgramAll(data: seq<Byte>, page: nat, bytes: seq<Byte>, n: nat): (r: seq<Byte>)
    requires |bytes| >= PAGE_SIZE * n
    ensures |r| == |data|
  {
    if n == 0 then data
    else
      ProgramPage(ProgramAll(data, page, bytes, n - 1), page + n - 1, bytes[PAGE_SIZE * (n - 1)..PAGE_SIZE * n])
  }

  function Erasures(sector: nat, n: nat): seq<Operation> {
    if n == 0 then [] else Erasures(sector, n - 1) + [Erased((sector + n - 1) % SECTORS)]
  }

  function Programmings(page: nat, n: nat): seq<Operation> {
    if n == 0 then [] else Programmings(page, n - 1) + [Programmed((page + n - 1) % PAGES)]
  }

  /** The bytes of `n` memory words from cell `at` on. */
  function MemoryBytes(cells: seq<Word>, at: nat, n: nat): (bs: seq<Byte>)
    requires |cells| == RING
    ensures |bs| == 4 * n
  {
    Unpack(CellsFrom(cells, at, n))
  }

  /** The device after a write of `size` bytes at `addr` from memory bytes `bytes`. */
  function AfterWrite(data: seq<Byte>, addr: nat, size: nat, bytes: seq<Byte>): (r: seq<Byte>)
    requires |bytes| == PAGE_SIZE * NumPages(size)
    ensures |r| == |data|
  {
    ProgramAll(EraseAll(data, addr / SECTOR_SIZE, NumSectors(size)), addr / PAGE_SIZE, bytes, NumPages(size))
  }

  /** The `n` bytes that a read from `addr` gives. */
  function ReadBack(data: seq<Byte>, addr: nat, n: nat): (bs: seq<Byte>)
    requires |data| == FLASH_SIZE
    ensures |bs| == n
  {
    seq(n, i requires 0 <= i < n => data[(addr + i) % FLASH_SIZE])
  }

  /** The low byte of a number: the truncation of an argument to `uint8_t`. */
  function LowByte(n: nat): Byte {
    ByteOf(n % 256)
  }

  lemma StatusBits(busy: bool, enabled: bool)
    ensures ((if busy then STATUS_WIP else 0) | (if enabled then STATUS_WEL else 0)) & STATUS_WIP == 0 <==> !busy
  {}

  lemma Split256(n: nat)
    ensures n % 0x1_0000 == n / 256 % 256 * 256 + n % 256
  {}

  lemma DropMultiple(a: nat, k: nat)
    ensures (a + k * FLASH_SIZE) % FLASH_SIZE == a % FLASH_SIZE
  {}

  lemma ZeroByte()
    ensures ByteValue(0) == 0
  {}

  /** The device decodes the sector and page numbers that the driver sends, modulo its size. */
  lemma SectorDecoded(sector: nat, sent: seq<Byte>)
    requires sent == [SECTOR_ERASE, LowByte(sector), 0, 0]
    ensures AddressIn(sent) / SECTOR_SIZE == sector % SECTORS
  {
    hide ByteValue, ByteOf;
    ZeroByte();
    var b := sector % 256;
    assert b % 8 == sector % 8;
    DropMultiple(b % 8 * 0x1_0000, b / 8);
    assert b * 0x1_0000 == b % 8 * 0x1_0000 + b / 8 * FLASH_SIZE;
  }

  lemma PageScaled(page: nat)
    ensures page % 0x1_0000 * 0x100 % FLASH_SIZE / PAGE_SIZE == page % PAGES
  {}

  lemma PageDecoded(page: nat, sent: seq<Byte>)
    requires |sent| >= 4 && sent[1] == LowByte(page / 256) && sent[2] == LowByte(page) && sent[3] == 0
    ensures AddressIn(sent) / PAGE_SIZE == page % PAGES
  {
    hide ByteValue, ByteOf;
    ZeroByte();
    Split256(page);
    PageScaled(page);
  }

  lemma AddressSplit(addr: nat)
    ensures (addr / 0x1_0000 % 256 * 0x1_0000 + addr / 0x100 % 256 * 0x100 + addr % 256) % FLASH_SIZE == addr % FLASH_SIZE
  {
    Split256(addr / 256);
    var low := addr / 256 % 0x1_0000 * 256 + addr % 256;
    assert addr / 256 / 256 == addr / 0x1_0000;
    assert low == addr / 0x1_0000 % 256 * 0x1_0000 + addr / 0x100 % 256 * 0x100 + addr % 256;
    var k := addr / 256 / 0x1_0000 * 32;
    DropMultiple(low, k);
    assert addr == low + k * FLASH_SIZE;
  }

  lemma AddressDecoded(addr: nat, sent: seq<Byte>)
    requires |sent| >= 4 && sent[1] == LowByte(addr / 0x1_0000) && sent[2] == LowByte(addr / 0x100) && sent[3] == LowByte(addr)
    ensures AddressIn(sent) == addr % FLASH_SIZE
  {
    hide ByteValue, ByteOf;
    AddressSplit(addr);
  }

  // The driver's routines.

  method FlashWriteEnable(d: Device)
    requires d.Ready()
    modifies d
    ensures d.Ready() && d.writeEnabled
    ensures d.data == old(d.data) && d.operations == old(d.operations) && d.refused == old(d.refused)
  {
    d.Start();
    var r := d.Transfer(WRITE_ENABLE);
    d.End();
  }

  method FlashReadStatus(d: Device) returns (status: Byte)
    requires d.Valid() && !d.selected
    modifies d
    ensures d.Valid() && !d.selected && (status & STATUS_WIP == 0 <==> old(d.polls) == 0)
    ensures d.polls == (if old(d.polls) > 0 then old(d.polls) - 1 else 0) && d.writeEnabled == old(d.writeEnabled)
    ensures d.data == old(d.data) && d.operations == old(d.operations) && d.refused == old(d.refused)
  {
    StatusBits(d.polls > 0, d.writeEnabled);
    d.Start();
    var r := d.Transfer(READ_STATUS);
    status := d.Transfer(0x00);
    d.End();
  }

  /** Polls until no operation is in progress. */
  method WaitWhileBusy(d: Device)
    requires d.Valid() && !d.selected
    modifies d
    ensures d.Ready() && d.writeEnabled == old(d.writeEnabled)
    ensures d.data == old(d.data) && d.operations == old(d.operations) && d.refused == old(d.refused)
  {
    var status := FlashReadStatus(d);
    while status & STATUS_WIP != 0
      invariant d.Valid() && !d.selected && d.writeEnabled == old(d.writeEnabled)
      invariant status & STATUS_WIP == 0 ==> d.polls == 0
      invariant d.data == old(d.data) && d.operations == old(d.operations) && d.refused == old(d.refused)
      decreases d.polls, status & STATUS_WIP != 0
    {
      status := FlashReadStatus(d);
    }
  }

  method EraseOneSector(d: Device, sector: nat)
    requires d.Ready()
    modifies d
    ensures d.Ready() && d.data == Erase(old(d.data), sector)
    ensures d.operations == old(d.operations) + [Erased(sector % SECTORS)] && d.refused == old(d.refused)
  {
    hide LowByte, Erase, AddressIn;
    FlashWriteEnable(d);
    d.Start();
    var r := d.Transfer(SECTOR_ERASE);
    r := d.Transfer(LowByte(sector));
    r := d.Transfer(0);
    r := d.Transfer(0);
    SectorDecoded(sector, d.sent);
    SameSector(d.data, sector);
    d.End();
    WaitWhileBusy(d);
  }

  lemma SameSector(data: seq<Byte>, sector: nat)
    ensures Erase(data, sector % SECTORS) == Erase(data, sector)
  {}

  method FlashSectorErase(d: Device, sector: nat, num: nat)
    requires d.Ready()
    modifies d
    ensures d.Ready() && d.data == EraseAll(old(d.data), sector, num)
    ensures d.operations == old(d.operations) + Erasures(sector, num) && d.refused == old(d.refused)
  {
    hide Erase;
    var left, next := num, sector;
    while left > 0
      invariant 0 <= left <= num && next == sector + (num - left)
      invariant d.Ready() && d.data == EraseAll(old(d.data), sector, num - left)
      invariant d.operations == old(d.operations) + Erasures(sector, num - left) && d.refused == old(d.refused)
    {
      left := left - 1;
      EraseOneSector(d, next);
      next := next + 1;
    }
  }

  lemma OneMoreWord(cells: seq<Word>, at: nat, i: nat)
    requires |cells| == RING
    ensures var w := cells[Cell(at + i)];
      MemoryBytes(cells, at, i + 1) == MemoryBytes(cells, at, i) + [Octet(w, 0), Octet(w, 1), Octet(w, 2), Octet(w, 3)]
  {}

  method SendWord(d: Device, data: Word)
    requires d.Valid() && d.selected && d.sent != [] && d.sent[0] == PAGE_PROGRAM
    modifies d`sent, d`polls
    ensures d.Valid() && d.polls == old(d.polls)
    ensures d.sent == old(d.sent) + [Octet(data, 0), Octet(data, 1), Octet(data, 2), Octet(data, 3)]
  {
    hide Octet;
    var r := d.Transfer(Octet(data, 0));
    r := d.Transfer(Octet(data, 1));
    r := d.Transfer(Octet(data, 2));
    r := d.Transfer(Octet(data, 3));
  }

  /** Write enable, then the program command with the page's address. */
  method OpenPage(d: Device, page: nat)
    requires d.Ready()
    modifies d
    ensures d.Valid() && d.selected && d.polls == 0 && d.writeEnabled
    ensures d.sent == [PAGE_PROGRAM, LowByte(page / 256), LowByte(page), 0]
    ensures d.data == old(d.data) && d.operations == old(d.operations) && d.refused == old(d.refused)
  {
    hide LowByte;
    FlashWriteEnable(d);
    d.Start();
    var r := d.Transfer(PAGE_PROGRAM);
    r := d.Transfer(LowByte(page / 256));
    r := d.Transfer(LowByte(page));
    r := d.Transfer(0);
  }

  /** One page, from memory, with its own write enable and its own wait. */
  method ProgramOnePage(d: Device, bank: Bank, page: nat, ghost at: nat)
    requires d.Ready() && bank.Valid() && bank.rd == Cell(at)
    modifies d, bank`rd
    ensures d.Ready() && bank.Valid() && bank.rd == Cell(at + PAGE_SIZE / 4)
    ensures d.data == ProgramPage(old(d.data), page, MemoryBytes(bank.cells, at, PAGE_SIZE / 4))
    ensures d.operations == old(d.operations) + [Programmed(page % PAGES)] && d.refused == old(d.refused)
  {
    hide LowByte, ProgramPage, AddressIn, MemoryBytes, Cell, Octet;
    OpenPage(d, page);
    ghost var head := d.sent;
    NoBytes(bank.cells, at);
    for i := 0 to PAGE_SIZE / 4
      invariant d.Valid() && d.selected && d.polls == 0 && d.writeEnabled
      invariant bank.Valid() && bank.rd == Cell(at + i)
      invariant d.sent == head + MemoryBytes(bank.cells, at, i)
      invariant d.data == old(d.data) && d.operations == old(d.operations) && d.refused == old(d.refused)
    {
      CellAdd(at + i, 1);
      OneMoreWord(bank.cells, at, i);
      var data := bank.Read();
      SendWord(d, data);
    }
    PageDecoded(page, d.sent);
    assert d.sent[4..] == MemoryBytes(bank.cells, at, PAGE_SIZE / 4);
    SamePage(d.data, page, d.sent[4..]);
    d.End();
    WaitWhileBusy(d);
  }

  lemma NoBytes(cells: seq<Word>, at: nat)
    requires |cells| == RING
    ensures MemoryBytes(cells, at, 0) == []
  {}

  lemma SamePage(data: seq<Byte>, page: nat, bytes: seq<Byte>)
    requires |bytes| == PAGE_SIZE
    ensures ProgramPage(data, page % PAGES, bytes) == ProgramPage(data, page, bytes)
  {}

  /** The bytes of consecutive pages in memory. */
  lemma PageBytes(cells: seq<Word>, at: nat, n: nat, i: nat)
    requires |cells| == RING && i < n
    ensures MemoryBytes(cells, at, 64 * n)[PAGE_SIZE * i..PAGE_SIZE * (i + 1)] == MemoryBytes(cells, at + 64 * i, 64)
  {}

  /**
   * Erase, then program page by page.  Every command is accepted by the device: each sector is erased and
   * each page programmed once, in order, write-enabled and with nothing in progress.
   */
  method FlashWrite(d: Device, bank: Bank, memAddr: nat, size: nat, flashAddr: nat)
    requires d.Ready() && bank.Valid()
    modifies d, bank`rd
    ensures d.Ready() && bank.Valid()
    ensures d.data == AfterWrite(old(d.data), flashAddr, size, MemoryBytes(bank.cells, Slot(memAddr), 64 * NumPages(size)))
    ensures d.operations == old(d.operations) + Erasures(flashAddr / SECTOR_SIZE, NumSectors(size))
      + Programmings(flashAddr / PAGE_SIZE, NumPages(size))
    ensures d.refused == old(d.refused)
  {
    hide MemoryBytes, EraseAll, Slot, Cell, ProgramPage;
    FlashSectorErase(d, flashAddr / SECTOR_SIZE, NumSectors(size));
    ghost var erased, n := d.data, NumPages(size);
    ghost var at, operations := Slot(memAddr), d.operations;
    ghost var bytes := MemoryBytes(bank.cells, at, 64 * n);
    var pages := NumPages(size);
    var page := flashAddr / PAGE_SIZE;
    bank.SetRd(memAddr);
    CellOfSlot(memAddr);
    while pages > 0
      invariant 0 <= pages <= n && page == flashAddr / PAGE_SIZE + (n - pages)
      invariant d.Ready() && bank.Valid() && bank.rd == Cell(at + 64 * (n - pages))
      invariant d.data == ProgramAll(erased, flashAddr / PAGE_SIZE, bytes, n - pages)
      invariant d.operations == operations + Programmings(flashAddr / PAGE_SIZE, n - pages) && d.refused == old(d.refused)
    {
      pages := pages - 1;
      ghost var i := n - pages - 1;
      PageBytes(bank.cells, at, n, i);
      ProgramOnePage(d, bank, page, at + 64 * i);
      page := page + 1;
    }
  }

  /** Sends a read command; the device then streams its contents. */
  method StartRead(d: Device, flashAddr: nat)
    requires d.Ready()
    modifies d`selected, d`sent, d`polls
    ensures d.Valid() && d.selected && d.polls == 0 && |d.sent| == 4 && d.sent[0] == READ_DATA
    ensures AddressIn(d.sent) == flashAddr % FLASH_SIZE
  {
    hide LowByte, AddressIn;
    d.Start();
    var r := d.Transfer(READ_DATA);
    r := d.Transfer(LowByte(flashAddr / 0x1_0000));
    r := d.Transfer(LowByte(flashAddr / 0x100));
    r := d.Transfer(LowByte(flashAddr));
    AddressDecoded(flashAddr, d.sent);
  }

  lemma AddressKept(sent: seq<Byte>, more: seq<Byte>)
    requires |sent| >= 4
    ensures AddressIn(sent + more) == AddressIn(sent)
  {}

  lemma AddModFlash(a: nat, b: nat)
    ensures (a % FLASH_SIZE + b) % FLASH_SIZE == (a + b) % FLASH_SIZE
  {}

  /** The reading position after `n` bytes. */
  ghost predicate Reading(d: Device, flashAddr: nat, n: nat)
    reads d
  {
    && d.Valid() && d.selected && d.polls == 0 && |d.sent| == 4 + n && d.sent[0] == READ_DATA
    && AddressIn(d.sent) == flashAddr % FLASH_SIZE
  }

  method StartReading(d: Device, flashAddr: nat)
    requires d.Ready()
    modifies d`selected, d`sent, d`polls
    ensures Reading(d, flashAddr, 0)
  {
    hide AddressIn;
    StartRead(d, flashAddr);
  }

  method EndReading(d: Device, flashAddr: nat, ghost n: nat)
    requires Reading(d, flashAddr, n)
    modifies d
    ensures d.Ready() && d.data == old(d.data) && d.operations == old(d.operations) && d.refused == old(d.refused)
  {
    hide AddressIn;
    d.End();
  }

  method ReadByte(d: Device, flashAddr: nat, ghost n: nat) returns (b: Byte)
    requires Reading(d, flashAddr, n)
    modifies d`sent, d`polls
    ensures Reading(d, flashAddr, n + 1) && b == d.data[(flashAddr + n) % FLASH_SIZE]
  {
    hide AddressIn;
    AddressKept(d.sent, [0x00]);
    AddModFlash(flashAddr, n);
    b := d.Transfer(0x00);
  }

  method ReadWord(d: Device, flashAddr: nat, ghost n: nat) returns (w: Word)
    requires Reading(d, flashAddr, n)
    modifies d`sent, d`polls
    ensures Reading(d, flashAddr, n + 4)
    ensures w == Join(d.data[(flashAddr + n) % FLASH_SIZE], d.data[(flashAddr + (n + 1)) % FLASH_SIZE],
                      d.data[(flashAddr + (n + 2)) % FLASH_SIZE], d.data[(flashAddr + (n + 3)) % FLASH_SIZE])
  {
    hide Reading, Join;
    var b0 := ReadByte(d, flashAddr, n);
    var b1 := ReadByte(d, flashAddr, n + 1);
    var b2 := ReadByte(d, flashAddr, n + 2);
    var b3 := ReadByte(d, flashAddr, n + 3);
    w := Join(b0, b1, b2, b3);
  }

  lemma PackReadBack(data: seq<Byte>, addr: nat, i: nat)
    requires |data| == FLASH_SIZE
    ensures Pack(ReadBack(data, addr, 4 * (i + 1)))
      == Pack(ReadBack(data, addr, 4 * i))
         + [Join(data[(addr + 4 * i) % FLASH_SIZE], data[(addr + (4 * i + 1)) % FLASH_SIZE],
                 data[(addr + (4 * i + 2)) % FLASH_SIZE], data[(addr + (4 * i + 3)) % FLASH_SIZE])]
  {}

  /** The flash contents go to memory, in whole words. */
  method FlashRead(d: Device, bank: Bank, memAddr: nat, size: nat, flashAddr: nat)
    requires d.Ready() && bank.Valid()
    modifies d, bank`cells, bank`wr
    ensures d.Ready() && bank.Valid()
    ensures d.data == old(d.data) && d.operations == old(d.operations) && d.refused == old(d.refused)
    ensures bank.cells == WriteAll(old(bank.cells), Slot(memAddr), Pack(ReadBack(d.data, flashAddr, 4 * (size / 4))))
  {
    hide Slot, Cell, Join, AddressIn, WriteAll, Pack;
    ghost var at, cells := Slot(memAddr), bank.cells;
    bank.SetWr(memAddr);
    CellOfSlot(memAddr);
    StartRead(d, flashAddr);
    NothingRead(cells, at, d.data, flashAddr);
    for i := 0 to size / 4
      invariant Reading(d, flashAddr, 4 * i)
      invariant d.data == old(d.data) && d.operations == old(d.operations) && d.refused == old(d.refused)
      invariant bank.Valid() && bank.wr == Cell(at + i)
      invariant bank.cells == WriteAll(cells, at, Pack(ReadBack(d.data, flashAddr, 4 * i)))
    {
      PackReadBack(d.data, flashAddr, i);
      CellAdd(at + i, 1);
      var w := ReadWord(d, flashAddr, 4 * i);
      WriteAllSnoc(cells, at, Pack(ReadBack(d.data, flashAddr, 4 * i)), w);
      bank.Write(w);
    }
    d.End();
  }

  lemma NothingRead(cells: seq<Word>, at: nat, data: seq<Byte>, addr: nat)
    requires |cells| == RING && |data| == FLASH_SIZE
    ensures WriteAll(cells, at, Pack(ReadBack(data, addr, 0))) == cells
  {}

  /** Zero exactly when the flash holds the words of memory. */
  method FlashVerify(d: Device, bank: Bank, memAddr: nat, size: nat, flashAddr: nat) returns (retval: int)
    requires d.Ready() && bank.Valid()
    modifies d, bank`rd
    ensures d.Ready() && bank.Valid()
    ensures d.data == old(d.data) && d.operations == old(d.operations) && d.refused == old(d.refused)
    ensures retval == if Pack(ReadBack(d.data, flashAddr, 4 * (size / 4))) == CellsFrom(bank.cells, Slot(memAddr), size / 4)
      then 0 else -1
  {
    hide Slot, Cell, Join, AddressIn, Pack, ReadBack, CellsFrom, Reading;
    ghost var at := Slot(memAddr);
    retval := 0;
    bank.SetRd(memAddr);
    CellOfSlot(memAddr);
    StartReading(d, flashAddr);
    NothingCompared(d.data, flashAddr, bank.cells, at);
    for i := 0 to size / 4
      invariant Reading(d, flashAddr, 4 * i)
      invariant d.data == old(d.data) && d.operations == old(d.operations) && d.refused == old(d.refused)
      invariant bank.Valid() && bank.rd == Cell(at + i)
      invariant retval == if Pack(ReadBack(d.data, flashAddr, 4 * i)) == CellsFrom(bank.cells, at, i) then 0 else -1
    {
      SameSoFar(d.data, flashAddr, bank.cells, at, i);
      CellAdd(at + i, 1);
      var w := ReadWord(d, flashAddr, 4 * i);
      var m := bank.Read();
      if w != m {
        retval := -1;
      }
    }
    EndReading(d, flashAddr, 4 * (size / 4));
  }

  lemma NothingCompared(data: seq<Byte>, addr: nat, cells: seq<Word>, at: nat)
    requires |data| == FLASH_SIZE && |cells| == RING
    ensures Pack(ReadBack(data, addr, 0)) == CellsFrom(cells, at, 0) == []
  {}

  /** One more word compared. */
  lemma SameSoFar(data: seq<Byte>, addr: nat, cells: seq<Word>, at: nat, i: nat)
    requires |data| == FLASH_SIZE && |cells| == RING
    ensures var w := Join(data[(addr + 4 * i) % FLASH_SIZE], data[(addr + (4 * i + 1)) % FLASH_SIZE],
                          data[(addr + (4 * i + 2)) % FLASH_SIZE], data[(addr + (4 * i + 3)) % FLASH_SIZE]);
      Pack(ReadBack(data, addr, 4 * (i + 1))) == CellsFrom(cells, at, i + 1) <==>
        Pack(ReadBack(data, addr, 4 * i)) == CellsFrom(cells, at, i) && w == cells[Cell(at + i)]
  {
    hide Cell, Join, Pack, ReadBack;
    PackReadBack(data, addr, i);
    assert CellsFrom(cells, at, i + 1) == CellsFrom(cells, at, i) + [cells[Cell(at + i)]];
    var w := Join(data[(addr + 4 * i) % FLASH_SIZE], data[(addr + (4 * i + 1)) % FLASH_SIZE],
                  data[(addr + (4 * i + 2)) % FLASH_SIZE], data[(addr + (4 * i + 3)) % FLASH_SIZE]);
    CompareMore(Pack(ReadBack(data, addr, 4 * i)), w, CellsFrom(cells, at, i), cells[Cell(at + i)]);
  }

  lemma CompareMore(a: seq<Word>, x: Word, b: seq<Word>, y: Word)
    ensures a + [x] == b + [y] <==> a == b && x == y
  {
    if a + [x] == b + [y] {
      assert a == (a + [x])[..|a|] && b == (b + [y])[..|b|];
      assert (a + [x])[|a|] == (b + [y])[|b|];
    }
  }
}
