/** The serial flash device (M25P40) as the bytes on its bus see it. */
module FlashDevice {
  import opened Words

  const FLASH_SIZE: nat := 0x8_0000
  const PAGE_SIZE: nat := 0x100
  const SECTOR_SIZE: nat := 0x1_0000
  const SECTORS: nat := 8
  const PAGES: nat := 2048

  const WRITE_ENABLE: Byte := 0x06
  const READ_STATUS: Byte := 0x05
  const READ_DATA: Byte := 0x03
  const PAGE_PROGRAM: Byte := 0x02
  const SECTOR_ERASE: Byte := 0xD8

  const STATUS_WIP: Byte := 0x01
  const STATUS_WEL: Byte := 0x02

  /** The address in bytes 1 to 3 of a command; the device decodes the bits it has. */
  function AddressIn(sent: seq<Byte>): nat
    requires |sent| >= 4
  {
    (ByteValue(sent[1]) * 0x1_0000 + ByteValue(sent[2]) * 0x100 + ByteValue(sent[3])) % FLASH_SIZE
  }

  /** Erasing sets every byte of a sector. */
  function Erase(data: seq<Byte>, sector: int): (r: seq<Byte>)
    ensures |r| == |data|
  {
    seq(|data|, q requires 0 <= q < |data| => if q / SECTOR_SIZE == sector % SECTORS then 0xFF else data[q])
  }

  /** Programming can only clear bits. */
  function ProgramPage(data: seq<Byte>, page: int, bytes: seq<Byte>): (r: seq<Byte>)
    requires |bytes| == PAGE_SIZE
    ensures |r| == |data|
  {
    seq(|data|, q requires 0 <= q < |data| =>
      if q / PAGE_SIZE == page % PAGES then data[q] & bytes[q % PAGE_SIZE] else data[q])
  }

  datatype Operation = Erased(sector: nat) | Programmed(page: nat)

  /**
   * `polls` is the number of status reads that will still show an operation in progress; `delays` are
   * the hardware's choices for the operations to come.  `refused` counts commands that arrived without
   * write enable, during an operation or malformed, which the device ignores.
   */
  class Device {
    var data: seq<Byte>
    var writeEnabled: bool
    var polls: nat
    var delays: seq<nat>
    var selected: bool
    var sent: seq<Byte>
    ghost var operations: seq<Operation>
    ghost var refused: nat

    ghost predicate Valid()
      reads this
    {
      |data| == FLASH_SIZE
    }

    /** No command under way and no operation in progress. */
    ghost predicate Ready()
      reads this
    {
      Valid() && !selected && polls == 0
    }

    constructor (data: seq<Byte>)
      requires |data| == FLASH_SIZE
      ensures Ready() && this.data == data && operations == [] && refused == 0
    {
      this.data := data;
      writeEnabled, polls, delays, selected, sent, operations, refused := false, 0, [], false, [], [], 0;
    }

    method Start()
      requires Valid() && !selected
      modifies this`selected, this`sent
      ensures Valid() && selected && sent == []
    {
      selected := true;
      sent := [];
    }

    function Status(): Byte
      reads this
    {
      (if polls > 0 then STATUS_WIP else 0) | (if writeEnabled then STATUS_WEL else 0)
    }

    /** One byte in, one byte out. */
    method Transfer(b: Byte) returns (r: Byte)
      requires Valid() && selected
      modifies this`sent, this`polls
      ensures Valid() && sent == old(sent) + [b]
      ensures polls == if old(sent) != [] && old(sent)[0] == READ_STATUS && old(polls) > 0 then old(polls) - 1 else old(polls)
      ensures old(sent) != [] && old(sent)[0] == READ_STATUS ==> r == old(Status())
      ensures |old(sent)| >= 4 && old(sent)[0] == READ_DATA && old(polls) == 0
        ==> r == data[(AddressIn(old(sent)) + |old(sent)| - 4) % FLASH_SIZE]
    {
      r := 0;
      if sent != [] && sent[0] == READ_STATUS {
        r := Status();
        if polls > 0 {
          polls := polls - 1;
        }
      } else if |sent| >= 4 && sent[0] == READ_DATA && polls == 0 {
        r := data[(AddressIn(sent) + |sent| - 4) % FLASH_SIZE];
      }
      sent := sent + [b];
    }

    /** A write command takes effect when the device is deselected. */
    method End()
      requires Valid() && selected
      modifies this
      ensures Valid() && !selected
      ensures var s := old(sent);
        if s == [] || s[0] == READ_STATUS || s[0] == READ_DATA then
          data == old(data) && writeEnabled == old(writeEnabled) && polls == old(polls)
          && operations == old(operations) && refused == old(refused)
        else if s == [WRITE_ENABLE] && old(polls) == 0 then
          data == old(data) && writeEnabled && polls == 0
          && operations == old(operations) && refused == old(refused)
        else if old(polls) == 0 && old(writeEnabled) && s[0] == SECTOR_ERASE && |s| == 4 then
          var sector := AddressIn(s) / SECTOR_SIZE;
          data == Erase(old(data), sector) && !writeEnabled
          && operations == old(operations) + [Erased(sector)] && refused == old(refused)
        else if old(polls) == 0 && old(writeEnabled) && s[0] == PAGE_PROGRAM && |s| == 4 + PAGE_SIZE && s[3] == 0 then
          var page := AddressIn(s) / PAGE_SIZE;
          data == ProgramPage(old(data), page, s[4..]) && !writeEnabled
          && operations == old(operations) + [Programmed(page)] && refused == old(refused)
        else
          refused == old(refused) + 1
    {
      selected := false;
      if sent == [] || sent[0] == READ_STATUS || sent[0] == READ_DATA {
        return;
      }
      if sent == [WRITE_ENABLE] && polls == 0 {
        writeEnabled := true;
      } else if polls == 0 && writeEnabled && sent[0] == SECTOR_ERASE && |sent| == 4 {
        data := Erase(data, AddressIn(sent) / SECTOR_SIZE);
        operations := operations + [Erased(AddressIn(sent) / SECTOR_SIZE)];
        Begin();
      } else if polls == 0 && writeEnabled && sent[0] == PAGE_PROGRAM && |sent| == 4 + PAGE_SIZE && sent[3] == 0 {
        data := ProgramPage(data, AddressIn(sent) / PAGE_SIZE, sent[4..]);
        operations := operations + [Programmed(AddressIn(sent) / PAGE_SIZE)];
        Begin();
      } else {
        refused := refused + 1;
      }
    }

    /** An operation clears the write enable latch and keeps the device busy for a while. */
    method Begin()
      modifies this`writeEnabled, this`polls, this`delays
      ensures !writeEnabled
    {
      writeEnabled := false;
      if delays != [] {
        polls := delays[0];
        delays := delays[1..];
      }
    }
  }
}
