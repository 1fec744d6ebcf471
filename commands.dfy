/** The MIFARE command codes the PN532 relays to a card inside InDataExchange. */
module Commands {
  import opened Bytes

  const MIFARE_CMD_AUTH_A: byte := 0x60
  const MIFARE_CMD_AUTH_B: byte := 0x61
  const MIFARE_CMD_READ: byte := 0x30
  const MIFARE_CMD_WRITE: byte := 0xA0
  const MIFARE_CMD_TRANSFER: byte := 0xB0
  const MIFARE_CMD_DECREMENT: byte := 0xC0
  const MIFARE_CMD_INCREMENT: byte := 0xC1
  const MIFARE_CMD_STORE: byte := 0xC2
  const MIFARE_ULTRALIGHT_CMD_WRITE: byte := 0xA2
}
