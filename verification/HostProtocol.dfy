/** The constants of host_protocol.h, which is not part of this model: any consistent choice. */
module HostProtocol {
  import opened Words

  datatype Constants = Constants(
    packetHeader: Byte,   // PACKET_HEADER
    packetSize: nat,      // PACKET_SIZE: the bytes after the header byte
    cmdOffset: nat,       // PACKET_CMD_OFFSET
    argOffset: nat,       // PACKET_ARG_OFFSET
    replySize: nat,       // REPLY_SIZE: the bytes of an acknowledgement
    hbcHeaderSize: nat,   // HBC_HEADER_SIZE
    rxPacket: Byte,       // RX_PACKET
    memWrAddr: Byte,      // CMD_MEM_WR_ADDR
    memLoad: Byte,        // CMD_MEM_LOAD
    txAddr: Byte,         // CMD_HBC_TX_ADDR
    txPacket: Byte,       // CMD_HBC_TX_PACKET
    memRdAddr: Byte,      // CMD_MEM_RD_ADDR
    memDump: Byte,        // CMD_MEM_DUMP
    memTest: Byte,        // CMD_MEM_TEST
    flashRead: Byte,      // CMD_FLASH_READ
    flashWriteAddr: Byte, // CMD_FLASH_WRITE_ADDR
    flashWrite: Byte,     // CMD_FLASH_WRITE
    known: set<Byte>,     // the codes of all commands
    replying: set<Byte>,  // those that queue a reply
    hbcAck: Byte,         // HBC_ACK
    psocAck: Byte)        // PSOC_ACK
  {
    /** Command, argument and a final CRC byte fit without overlap; the command codes differ. */
    predicate Consistent() {
      && packetSize < 256 && argOffset + 4 < packetSize && cmdOffset + 1 < packetSize
      && (cmdOffset < argOffset || argOffset + 4 <= cmdOffset)
      && 1 <= replySize <= 4 && hbcHeaderSize < 256
      && memWrAddr !in {memLoad, txAddr, txPacket, memRdAddr, memDump, memTest, flashRead, flashWriteAddr, flashWrite}
      && memLoad !in {txAddr, txPacket, memRdAddr, memDump, memTest, flashRead, flashWriteAddr, flashWrite}
      && txAddr !in {txPacket, memRdAddr, memDump, memTest, flashRead, flashWriteAddr, flashWrite}
      && txPacket !in {memRdAddr, memDump, memTest, flashRead, flashWriteAddr, flashWrite}
      && memRdAddr !in {memDump, memTest, flashRead, flashWriteAddr, flashWrite}
      && memDump !in {memTest, flashRead, flashWriteAddr, flashWrite}
      && memTest !in {flashRead, flashWriteAddr, flashWrite}
      && flashRead !in {flashWriteAddr, flashWrite} && flashWriteAddr != flashWrite
      && {memWrAddr, memLoad, txAddr, txPacket, memRdAddr, memDump, flashWriteAddr} <= known
      && {memTest, flashRead, flashWrite} <= replying <= known
      && {memWrAddr, memLoad, txAddr, txPacket, memRdAddr, memDump, flashWriteAddr} !! replying
    }
  }

  type HostConstants = c: Constants | c.Consistent()
    witness Constants(1, 6, 0, 1, 4, 4, 2, 3, 4, 5, 6, 7, 8, 9, 10, 11, 12,
                      {3, 4, 5, 6, 7, 8, 9, 10, 11, 12}, {9, 10, 12}, 1, 2)

  const P: HostConstants
}
