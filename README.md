# PN532 NFC driver and MIFARE Classic access, modelled in Dafny

This project models the host side of the TinyGo driver for the NXP PN532 NFC
controller on an I2C bus, the MIFARE Classic layer built on it, and the card
dump of the NFC demo program.

- `bytes.dfy` (`Bytes`): Go's `byte`, byte sums, big-endian numbers, and the
  32-bit shift-and-or accumulator that `FirmwareVersion` and
  `printMifareClasicUID` use.
- `bus.dfy` (`Bus`): the I2C bus and the clock. The bus is a script of what
  the chip answers: status bytes for the ready probes, replies for data reads,
  and acknowledgements for writes. A ghost log records every write, probe,
  read and sleep in order.
- `frame.dfy` (`Frame`): the normal information frame and the ACK frame of
  section 6.2.1 of the NXP PN532 User Manual (UM0701-02). It has a receiver's
  parser, which checks every rule of section 6.2.1.1. Two lemmas show that
  the frames the driver builds always parse, and that any frame that parses
  is of that form.
- `polling.dfy` (`Polling`): the outcome of `waitready` in closed form. Given
  the status bytes the chip answers, the closed form says after how many
  probes the wait ends and whether it gives up, including the timer arithmetic
  (1 ms, plus 10 ms per not-ready probe) and the unbounded wait of timeout 0.
- `pn532.dfy` (`PN532`): the `Device` class with its five buffers, and its
  operations:
  - `writecommand`, `isReady`, `waitready`, `readdata`, `isACK`;
  - the command/ACK handshake `sendCommandCheckAck`;
  - SAMConfiguration (`samconfig`, `Configure`);
  - GetFirmwareVersion;
  - InListPassiveTarget (`ReadPassiveTargetID`, `ReadDetectedPassiveTargetID`).

  Each method is proved against the bus script. Its new buffers, the remaining
  script and the log of bus events are stated in terms of the old state: the
  channel (`Channel`: the scripts and the buffers the driver reads into) after
  an exchange is `Exchanged`, and the shared buffer `ExchangeBuffer`. The
  decoders of the chip's answers are functions, and lemmas relate them to the
  frames the chip sends.
- `commands.dfy` (`Commands`): the MIFARE command codes.
- `mifare.dfy` (`MifareClassic`):
  - the InDataExchange payloads for authenticate, read and write, with a
    parser that shows what each payload asks of the card;
  - the two key slots of the `MifareClassic` class;
  - `AuthenticateBlock`, `ReadDataBlock` and `WriteDataBlock`;
  - the sector layout used by `IsFirstBlock` and `IsTrailerBlock`.
- `walk.dfy` (`CardDump`): the demo's sector walk over blocks 0 to 63, and the
  fold of the UID into a card number.
  - The walk has a specification, `Walk`, over the outcomes of its
    authentication attempts. Lemmas characterise when an attempt is made and
    when a block is read, in closed form.
  - `DumpCard` runs the walk against a `Device`. It is proved to take exactly
    the steps `Walk` prescribes, followed by the final authentication of
    block 4, and to write to the chip exactly the command frames of those
    steps, in order (`StepFrames`).
  - The outcomes are fixed by the channel as the dump found it. `WalkOn`
    passes the channel from block to block: each block's outcome is the chip's
    answer (`AuthOn`) on the channel the blocks before it left, and each
    exchange moves the channel on (`ExchangeOn`). `DumpCard`'s outcomes, and
    the channel it leaves, are those of `WalkOn`. So are the transmit buffer
    (`Transmitted`) and the shared buffer (`BufferAfter`) after the steps.

Three behaviours of the code are kept as written:

- **`readdata` ignores bus errors.** A short reply leaves the rest of the
  receive buffer as it was (drivers/pn532/pn532.go:212-216).
- **The UID stays in the shared buffer.** It is a slice of the shared buffer
  from offset 13 (drivers/pn532/pn532.go:276-301). Authentication and block
  reads do not disturb it; this is proved for the walk.
- **A block write pads with stale bytes.** What follows short data is
  whatever the shared buffer held, not zeros (drivers/pn532/mifareclassic.go:102-107,
  `MifareClassic.WriteKeepsStaleBytes`).

The failed-authentication and failed-read error messages contain an empty hex
string, because they encode `buffer[7:7]` and `buffer[8:8]`
(drivers/pn532/mifareclassic.go:68, 89). The card's status is therefore never
reported, and the model's `AuthError` and `ReadError` carry no status.

## Model

| member | source | states |
|---|---|---|
| `Bytes.ShiftIn` | drivers/pn532/pn532.go:251-252 | the uint32 shift-and-or stays below 2^32 and its low byte is the byte shifted in |
| `Bytes.ShiftInBigEndian` | nfc/main.go:113-116 | one shift-and-or step maps the low 32 bits of a big-endian number to the low 32 bits of the number with the byte appended |
| `Bytes.BigEndianLow32` | nfc/main.go:113-116 | a big-endian fold of four or more bytes into a uint32 keeps exactly the last four bytes |
| `Bytes.BigEndianFits32` | drivers/pn532/pn532.go:249-253 | a number of at most four bytes fits a uint32 unchanged |
| `Bytes.BigEndianBytes4` | drivers/pn532/pn532.go:254-257 | shifting and masking a four-byte big-endian number gives back its four bytes in order |
| `Bus.Bus.Write` | drivers/pn532/pn532.go:174 | a write transaction is accepted as the script says, and the frame written is logged |
| `Bus.Bus.ReadStatus` | drivers/pn532/pn532.go:220 | a status probe delivers the next scripted status byte; once the script is exhausted, it leaves the status buffer unchanged |
| `Bus.Bus.Read` | drivers/pn532/pn532.go:214 | a read transaction writes the chip's reply over the front of the buffer; what the reply does not cover keeps its old value |
| `Bus.Bus.Sleep` | drivers/pn532/pn532.go:190 | a sleep changes nothing but the log |
| `Bus.SilentFrames` | drivers/pn532/pn532.go:212-222 | a log of probes, reads and sleeps carries no frame |
| `Frame.Negate` | drivers/pn532/pn532.go:165 | `^x + 1` on a byte adds to x to give 0 modulo 256, and is 0 only for 0 |
| `Frame.ByteSum` | drivers/pn532/pn532.go:167-171 | the running byte sum of the payload, wrapping at 256; `Frame.ByteSumStep` and `Frame.DcsCancelsSum` state its meaning |
| `Frame.Dcs` | drivers/pn532/pn532.go:172 | the DCS byte `^(TFI + sum) + 1`; `Frame.FrameDataChecksum` proves that it cancels TFI plus the data modulo 256 |
| `Frame.InformationFrame` | drivers/pn532/pn532.go:159-173 | a normal information frame of n data bytes is n + 8 bytes long; its layout, checksums and parse are stated by the lemmas below |
| `Frame.CommandFrame` | drivers/pn532/pn532.go:159 | the frame of an n-byte command is n + 8 bytes long |
| `Frame.FrameLayout` | drivers/pn532/pn532.go:161-173 | the frame starts 00 00 FF; LEN is the data length plus one; the TFI is at offset 5; the data sits at offset 6; the last byte is the postamble 00 |
| `Frame.FrameChecksums` | drivers/pn532/pn532.go:160-172 | LEN + LCS ≡ 0 and TFI + data + DCS ≡ 0, modulo 256 |
| `Frame.LengthChecksum` | drivers/pn532/pn532.go:160-165 | LEN + LCS ≡ 0 modulo 256 |
| `Frame.FrameDataChecksum` | drivers/pn532/pn532.go:166-172 | TFI + data + DCS ≡ 0 modulo 256, where the running byte sum wraps |
| `Frame.DcsCancelsSum` | drivers/pn532/pn532.go:172 | the DCS cancels TFI plus the unbounded data sum modulo 256 |
| `Frame.FrameParts` | drivers/pn532/pn532.go:164-172 | where the TFI and data, the DCS, LEN and LCS sit in the frame |
| `Frame.FrameFromParts` | drivers/pn532/pn532.go:159-173 | a buffer holding each field of the frame at its offset is that frame |
| `Frame.ByteSumStep` | drivers/pn532/pn532.go:167-171 | adding one byte to the running sum and wrapping gives the wrapped sum of the longer prefix |
| `Frame.CancelIsNegate` | drivers/pn532/pn532.go:172 | the only byte that cancels a sum modulo 256 is the negated low byte of the sum |
| `Frame.ParseInformationFrame` | drivers/pn532/pn532.go:159-173 | a receiver that checks every rule of the frame format accepts every frame the driver builds, and reads back its TFI and data |
| `Frame.ParsedFrameIsInformationFrame` | drivers/pn532/pn532.go:159-173 | conversely, every frame a receiver accepts is the information frame of what it reads from it |
| `Frame.AckMutationRejected` | drivers/pn532/pn532.go:93-96 | changing any one byte of the ACK frame gives a frame that is not the ACK frame |
| `Polling.FirstReady` | drivers/pn532/pn532.go:183 | the position of the first ready status in the script: every answer before it is not ready |
| `Polling.PollLimit` | drivers/pn532/pn532.go:182-188 | the number n of not-ready probes at which the timer, 1 + 10·n ms, first exceeds the timeout |
| `Polling.WaitSpec` | drivers/pn532/pn532.go:180-193 | the closed form of a wait: the number of probes and whether it ends ready; `Polling.WaitSpecMeaning` states what it means |
| `Polling.PollShift` | drivers/pn532/pn532.go:183 | after k probes, the next probe sees what the k-th probe of the original script would have seen |
| `Polling.ReadyAtIsFirstReadyPoll` | drivers/pn532/pn532.go:183 | the probe ReadyAt names sees ready, and no earlier probe does; if ReadyAt names none, no probe ever sees ready |
| `Polling.FirstReadyPollIsReadyAt` | drivers/pn532/pn532.go:183 | a ready probe preceded only by not-ready probes is the one ReadyAt names |
| `Polling.WaitSpecMeaning` | drivers/pn532/pn532.go:180-193 | a successful wait ends on the first ready probe; a wait fails exactly when the timeout is non-zero and the first PollLimit probes all see not ready; `waitready(0)` never fails |
| `Polling.LiveWait` | drivers/pn532/pn532.go:183-191 | when the last scripted status is ready, every wait returns, and the script it leaves is still live |
| `Polling.PollEventsElapsed` | drivers/pn532/pn532.go:181-190 | a wait of n probes sleeps 10·(n − 1) ms |
| `Polling.PollsSilent` | drivers/pn532/pn532.go:180-193 | a wait writes nothing to the chip: its log holds only probes and sleeps |
| `Polling.WaitWithinTimeout` | drivers/pn532/pn532.go:182-190 | a wait with a non-zero timeout sleeps less than the timeout |
| `Polling.HundredMillisecondLimit` | drivers/pn532/pn532.go:125 | with the 100 ms timeout, the wait gives up at the tenth not-ready probe |
| `Polling.ThreeBusyPolls` | drivers/pn532/pn532.go:180-193 | three busy answers and then ready: the wait succeeds on the fourth probe, after 30 ms |
| `PN532.Response` | drivers/pn532/pn532.go:212-215 | `readdata` of n bytes after a handshake delivers n bytes |
| `PN532.Exchanged` | drivers/pn532/pn532.go:125-131 | the channel after a command exchange: the handshake, and the n-byte response read only if the handshake passed |
| `PN532.ExchangeBuffer` | drivers/pn532/pn532.go:119-131 | the shared buffer after a command exchange: the response over its first n bytes after a passed handshake, otherwise the command over its first bytes; the rest never changes |
| `PN532.HandshakeFrames` | drivers/pn532/pn532.go:139-156 | a handshake, followed by any number of reads and sleeps, writes exactly one frame to the chip: the command frame |
| `PN532.SamFrameChecked` | drivers/pn532/pn532.go:128-135 | for a well-formed chip-to-host frame, the SAMConfiguration check passes exactly when its first data byte is 0x15 |
| `PN532.SamResponseAccepted` | drivers/pn532/pn532.go:132-135 | the chip's SAMConfiguration answer passes the check |
| `PN532.FirmwareFrameDecodes` | drivers/pn532/pn532.go:238-257 | the chip's GetFirmwareVersion answer decodes to exactly the IC, Ver, Rev and Support bytes it carries |
| `PN532.AcceptedFirmwareFrame` | drivers/pn532/pn532.go:245-257 | any well-formed chip-to-host frame with five data bytes decodes to its last four data bytes, whatever the response code |
| `PN532.TargetFrameDecodes` | drivers/pn532/pn532.go:292-301 | an answer for one target yields the UID's length, and the UID is at offset 13 |
| `PN532.TargetResult` | drivers/pn532/pn532.go:292-301 | the decode of an InListPassiveTarget answer: an error unless byte 7 is 1, otherwise the UID length at byte 12; `PN532.TargetFrameDecodes` states it for the chip's frame |
| `PN532.SamResult` | drivers/pn532/pn532.go:132-135 | the SAMConfiguration check on byte 6; `PN532.SamFrameChecked` states it for the chip's frame |
| `PN532.DecodeFirmware` | drivers/pn532/pn532.go:245-257 | the GetFirmwareVersion decode; `PN532.FirmwareFrameDecodes` and `PN532.AcceptedFirmwareFrame` state what it yields for the chip's frames |
| `PN532.Device.constructor` | drivers/pn532/pn532.go:88-102 | a device with zeroed, distinct buffers at address 0x24; the chip is not touched |
| `PN532.Device.WriteCommand` | drivers/pn532/pn532.go:158-178 | the transmit buffer's first n + 8 bytes hold the command frame and the rest is unchanged; the frame is written; the result is the bus's acknowledgement |
| `PN532.Device.BuildFrame` | drivers/pn532/pn532.go:159-173 | the header, the payload with its running byte sum, the DCS and the postamble end up in place as the command frame; nothing after it changes |
| `PN532.Device.CopyPayload` | drivers/pn532/pn532.go:167-171 | the loop copies the command to offset 6 of the transmit buffer, leaves every other byte as it was, and returns the wrapping byte sum of the command |
| `PN532.Device.IsReady` | drivers/pn532/pn532.go:219-222 | one probe: the status buffer holds the next scripted status, and the result is whether that status is 0x01 |
| `PN532.Device.SleepThenProbe` | drivers/pn532/pn532.go:183-190 | one turn of the wait: a 10 ms sleep, then the next probe of the script |
| `PN532.Device.WaitReady` | drivers/pn532/pn532.go:180-193 | the probes, result and bus log of the loop are those of WaitSpec: the first ready probe, or giving up once the timer exceeds the timeout |
| `PN532.Device.ReadData` | drivers/pn532/pn532.go:212-217 | n + 1 bytes are read into the receive buffer, and the destination gets them without the leading I2C status byte |
| `PN532.Device.PutCommand` | drivers/pn532/pn532.go:119-123 | the command is written over the front of the shared buffer and nothing after it changes |
| `PN532.Device.ReadResponse` | drivers/pn532/pn532.go:128-131 | n response bytes, the receive buffer without its status byte, land over the front of the shared buffer; the channel is the one after the read |
| `PN532.Device.IsAck` | drivers/pn532/pn532.go:195-202 | six bytes are read into the ACK buffer, and the result is true exactly when they are 00 00 FF 00 FF 00 |
| `PN532.HandshakeOn` | drivers/pn532/pn532.go:139-156 | the handshake a channel determines for a positive timeout, which is one the handshake rules allow |
| `PN532.HandshakeUnique` | drivers/pn532/pn532.go:139-156 | for a positive timeout any handshake the rules allow on a channel is `PN532.HandshakeOn`: the channel determines the handshake |
| `PN532.Device.SendCommandCheckAck` | drivers/pn532/pn532.go:139-156 | write, wait, ACK, wait, in that order: each step runs once and only if all before it succeeded, and the error names the first step that failed; every buffer, the remaining script and the log follow from the old state |
| `PN532.Device.AwaitAck` | drivers/pn532/pn532.go:144-155 | the steps after an accepted write: the first wait, and then the ACK phase if the wait succeeded |
| `PN532.Device.CheckAckAndWait` | drivers/pn532/pn532.go:147-155 | pause, ACK read, and if the ACK is right, pause and second wait |
| `PN532.Device.Command` | drivers/pn532/pn532.go:119-127 | the command is put in the shared buffer and sent with the handshake; its frame is the one written, and the channel and log are those of the handshake |
| `PN532.Device.Exchange` | drivers/pn532/pn532.go:119-131 | a command and, after a passed handshake, its n-byte response read: the shared buffer is `ExchangeBuffer`, the channel `Exchanged`, and the log the handshake plus the read |
| `PN532.Device.SamConfig` | drivers/pn532/pn532.go:118-137 | sends 14 01 14 01; a failed handshake is the result; otherwise the result is the check of byte 6 of the chip's nine-byte answer; shared buffer, transmit buffer, channel and log are stated in full |
| `PN532.Device.Configure` | drivers/pn532/pn532.go:109-116 | a 10 ms sleep, then exactly SamConfig, with the same result and new state |
| `PN532.Device.FirmwareVersion` | drivers/pn532/pn532.go:229-260 | sends 02; a failed handshake is the result; otherwise the result is the decode of the chip's thirteen-byte answer: an error unless bytes 0 to 5 are 00 00 FF 06 FA D5, and otherwise the version in bytes 7 to 10; the new state is stated in full |
| `PN532.Device.DecodeVersion` | drivers/pn532/pn532.go:245-259 | the prefix check and the uint32 accumulation compute exactly DecodeFirmware of the first thirteen bytes |
| `PN532.Device.Accumulate` | drivers/pn532/pn532.go:249-257 | the uint32 accumulator over bytes 7 to 10 is their big-endian value, and masking it gives back each byte |
| `PN532.Device.ReadPassiveTargetID` | drivers/pn532/pn532.go:262-273 | sends 4A 01 and the baud rate; a failed handshake is wrapped as ListTargetFailed; otherwise the result is the decode of the twenty bytes read into the shared buffer, which hold the chip's answer; the new state is stated in full |
| `PN532.Device.ReadDetectedPassiveTargetID` | drivers/pn532/pn532.go:275-304 | twenty bytes of the chip's answer are read into the front of the shared buffer; it is an error unless byte 7 is 1; otherwise the UID length is byte 12 and the UID sits at offset 13 |
| `MifareClassic.SelectKeyCommand` | drivers/pn532/mifareclassic.go:35-40 | 0x60 exactly for key slot A, and 0x61 for every other slot |
| `MifareClassic.KeyField` | drivers/pn532/mifareclassic.go:47-53 | the key field of the authenticate payload is six bytes long |
| `MifareClassic.AuthPayload` | drivers/pn532/mifareclassic.go:46-53 | the authenticate payload; `MifareClassic.AuthPayloadParses` states what it asks of the card |
| `MifareClassic.ReadPayload` | drivers/pn532/mifareclassic.go:75-79 | the read payload; `MifareClassic.ReadPayloadParses` states what it asks of the card |
| `MifareClassic.WritePayload` | drivers/pn532/mifareclassic.go:102-107 | the write payload over the old front of the buffer; `MifareClassic.WritePayloadParses` and `MifareClassic.WriteKeepsStaleBytes` state its meaning |
| `MifareClassic.AuthPayloadParses` | drivers/pn532/mifareclassic.go:46-53 | the authenticate payload is read as an authentication with the slot's command, the low byte of the block number, the key (its first six bytes when it is long enough) and the UID |
| `MifareClassic.ReadPayloadParses` | drivers/pn532/mifareclassic.go:75-79 | the read payload 40 01 30 b is read as a read of block b |
| `MifareClassic.WritePayloadParses` | drivers/pn532/mifareclassic.go:102-107 | the write payload 40 01 A0 b is read as a write of block b with the data, padded with the buffer's old bytes |
| `MifareClassic.WritePayloadFromParts` | drivers/pn532/mifareclassic.go:102-107 | a buffer with the write header, the data and the old bytes after it is the write payload |
| `MifareClassic.CommandsDistinct` | drivers/pn532/commands.go:5-8 | the four MIFARE commands in use are pairwise distinct |
| `MifareClassic.WriteKeepsStaleBytes` | drivers/pn532/mifareclassic.go:102-107 | the write payload is 20 bytes; each byte past the data is the buffer's old byte, so data of at most nine bytes leaves a UID at offset 13 in the payload |
| `MifareClassic.AuthResult` | drivers/pn532/mifareclassic.go:67-71 | the authentication check on byte 7; `MifareClassic.AuthFrameDecodes` states it for the chip's frame |
| `MifareClassic.ReadResult` | drivers/pn532/mifareclassic.go:88-95 | the read decode; `MifareClassic.ReadFrameDecodes` and `MifareClassic.ReadResultIsBlock` state what it yields |
| `MifareClassic.AuthFrameDecodes` | drivers/pn532/mifareclassic.go:58-71 | an answer that starts with the chip's InDataExchange frame is accepted exactly when its status byte is 0x00 |
| `MifareClassic.ReadFrameDecodes` | drivers/pn532/mifareclassic.go:83-95 | the chip's answer to a read is 26 bytes; with status 0x00 it decodes to the block it carries, and with any other status it is an error |
| `MifareClassic.ReadResultIsBlock` | drivers/pn532/mifareclassic.go:88-95 | a read succeeds exactly when the status byte is 0x00, and then returns sixteen bytes |
| `MifareClassic.IsFirstBlock` | drivers/pn532/mifareclassic.go:131-136 | a block below 128 is first when it is a multiple of 4, and a higher one when it is a multiple of 16; `MifareClassic.FirstBlockStartsSector` and `MifareClassic.SectorSteps` state its meaning |
| `MifareClassic.IsTrailerBlock` | drivers/pn532/mifareclassic.go:138-143 | a block below 128 is a trailer when the next block is a multiple of 4, and a higher one when the next block is a multiple of 16; `MifareClassic.TrailerPrecedesFirst` and `MifareClassic.FirstNotTrailer` state its meaning |
| `MifareClassic.SectorStart` | drivers/pn532/mifareclassic.go:131-136 | the first block of a block's sector is not after the block |
| `MifareClassic.TrailerPrecedesFirst` | drivers/pn532/mifareclassic.go:131-143 | a block is a trailer exactly when the next block (in uint32 arithmetic) is a first block |
| `MifareClassic.FirstNotTrailer` | drivers/pn532/mifareclassic.go:131-143 | no block is both a first block and a trailer |
| `MifareClassic.FirstBlockStartsSector` | drivers/pn532/mifareclassic.go:131-136 | a block is a first block exactly when it starts its own sector |
| `MifareClassic.SectorSteps` | drivers/pn532/mifareclassic.go:131-143 | the sector number goes up by one just after a trailer and stays the same otherwise; a block is a first block exactly when its sector differs from the previous block's |
| `MifareClassic.SectorStartChain` | drivers/pn532/mifareclassic.go:131-136 | a block that is not a first block is in the same sector as the block before it |
| `MifareClassic.ClassificationExamples` | drivers/pn532/mifareclassic.go:131-143 | 3, 127 and 143 are trailers; 4, 128 and 144 are first blocks; 3, 4, 127 and 128 are not the other kind |
| `MifareClassic.MifareClassic.constructor` | drivers/pn532/mifareclassic.go:25-33 | both key slots hold the factory key FF FF FF FF FF FF |
| `MifareClassic.MifareClassic.SetKeyA` | drivers/pn532/mifareclassic.go:123-125 | slot A is replaced, and slot B keeps its key |
| `MifareClassic.MifareClassic.SetKeyB` | drivers/pn532/mifareclassic.go:127-129 | slot B is replaced, and slot A keeps its key |
| `MifareClassic.MifareClassic.BuildAuthPayload` | drivers/pn532/mifareclassic.go:46-53 | the fresh buffer holds exactly the authenticate payload |
| `MifareClassic.MifareClassic.AuthenticateBlock` | drivers/pn532/mifareclassic.go:42-72 | the handshake carries the frame of the authenticate payload with the key in the slot, and the transmit buffer past it is unchanged; a failed handshake is the result; otherwise the result is the check of status byte 7 of the chip's twelve-byte answer; channel and log are stated in full, and the shared buffer is not modified |
| `MifareClassic.MifareClassic.ReadAnswer` | drivers/pn532/mifareclassic.go:58-59 | the answer is the receive buffer after the read, without its status byte; the channel is the one after the read |
| `MifareClassic.MifareClassic.ReadDataBlock` | drivers/pn532/mifareclassic.go:74-96 | the handshake carries the frame of the read payload; a failed handshake is the result; otherwise the result is the decode of the chip's 26-byte answer (the block or ReadError); only the first four bytes of the shared buffer change; channel and log are stated in full |
| `MifareClassic.MifareClassic.PutWritePayload` | drivers/pn532/mifareclassic.go:102-107 | the first twenty bytes become the write payload built over their old value, and nothing after them changes |
| `MifareClassic.MifareClassic.WriteDataBlock` | drivers/pn532/mifareclassic.go:98-121 | more than sixteen bytes is refused, and no buffer, no bus state and no log changes; otherwise the 20-byte payload is the shared buffer's front and its frame is written; a failed handshake is the result; after a passed one there is a 10 ms sleep and a 26-byte read whose status is not looked at; channel and log are stated in full |
| `MifareClassic.MifareClassic.AwaitWrite` | drivers/pn532/mifareclassic.go:113-118 | a 10 ms sleep, then a 26-byte read; the channel is the one after the read |
| `MifareClassic.MifareClassic.WriteFittingBlock` | drivers/pn532/mifareclassic.go:102-120 | the write of data that fits a block: shared buffer, transmit buffer, result, channel and log |
| `CardDump.KeyFor` | nfc/main.go:73-77 | key A exactly at block 0, and key B everywhere else |
| `CardDump.Authenticated` | nfc/main.go:63-83 | the flag after a block, reset at each first block and set by a successful attempt; `CardDump.AttemptsClosedForm` characterises it |
| `CardDump.Walk` | nfc/main.go:65-97 | the specification of the walk over the outcomes of its attempts; the lemmas below state what it prescribes |
| `CardDump.AuthenticatedPrefix` | nfc/main.go:65-83 | the flag at a block depends only on the outcomes of the attempts before it |
| `CardDump.WalkPrefix` | nfc/main.go:65-97 | the walk over the first blocks depends only on their outcomes |
| `CardDump.AttemptsClosedForm` | nfc/main.go:66-83 | an authentication is attempted at a block exactly when no earlier attempt in its sector succeeded, so a failure makes the next block of the sector try again |
| `CardDump.ReadsClosedForm` | nfc/main.go:84-96 | a block is read exactly when some attempt in its sector, up to and including the block, succeeded |
| `CardDump.WalkContains` | nfc/main.go:65-97 | a step is in the walk exactly when it is one of the steps at its block |
| `CardDump.AuthenticationsOfWalk` | nfc/main.go:69-81 | every authentication of the walk is at a block where it attempts, with key A at block 0 only, with the card's UID and that block's outcome |
| `CardDump.ReadsOfWalk` | nfc/main.go:84-96 | the walk reads exactly the blocks below 64 at which the flag is set |
| `CardDump.WalkOrdered` | nfc/main.go:65 | the walk visits blocks in increasing order, authenticates before it reads at a block, and stays below the bound |
| `CardDump.AllAccepted` | nfc/main.go:63-97 | when every attempt succeeds, the walk authenticates once per sector, at its first block, and reads every block |
| `CardDump.NoneAccepted` | nfc/main.go:78-88 | when every attempt fails, the walk attempts at every block and reads none |
| `CardDump.StepFrame` | drivers/pn532/mifareclassic.go:46-79 | the command frame a step sends: the authenticate payload with the factory key, or the read payload |
| `CardDump.StepFramesConcat` | nfc/main.go:65-99 | the frames of two runs of steps are the frames of the first, then those of the second |
| `CardDump.ExchangeFrames` | nfc/main.go:74-91 | one exchange of the walk writes exactly the command frame of its step |
| `CardDump.Overwritten` | drivers/pn532/mifareclassic.go:75-79 | a buffer with a front written over it: the front first, then the old bytes past it, at the old length |
| `CardDump.IsOverwritten` | drivers/pn532/pn532.go:158-178 | a buffer whose front is the new bytes and whose rest is the old buffer's is that buffer overwritten |
| `CardDump.Transmitted` | drivers/pn532/pn532.go:158-178 | the transmit buffer after the command frames of a run of steps were each built over the front of the last, at 64 bytes |
| `CardDump.TransmittedConcat` | nfc/main.go:65-99 | the transmit buffer after two runs of steps is that of the second run built over that of the first |
| `CardDump.StepBuffer` | drivers/pn532/mifareclassic.go:75-79 | a read step puts its four-byte read payload over the front of the shared buffer, and an authentication leaves it |
| `CardDump.BufferAfter` | nfc/main.go:65-99 | the shared buffer after a run of steps; everything past the first four bytes, the UID included, is the old buffer's |
| `CardDump.BufferAfterConcat` | nfc/main.go:65-99 | the shared buffer after two runs of steps is that of the second run applied to that of the first |
| `CardDump.AuthOn` | drivers/pn532/mifareclassic.go:55-71 | an authentication succeeds on a channel exactly when the handshake the channel determines passes and the chip's twelve-byte answer has status 0x00 |
| `CardDump.ExchangeOn` | drivers/pn532/mifareclassic.go:55-61 | the channel after an exchange of the walk with the 100 ms timeout: the handshake the channel determines, and the n-byte answer read only if it passed |
| `CardDump.VisitOn` | nfc/main.go:66-96 | one pass of the loop body on a channel: an attempt exactly at a first block or without the flag, its outcome the chip's answer, the read only with the flag set afterwards, and the channel left after the exchanges made |
| `CardDump.WalkOn` | nfc/main.go:65-97 | the walk from a block on a channel: one outcome per remaining block, each the chip's answer on the channel the blocks before it left, and the channel at the end |
| `CardDump.OnCourseAdvance` | nfc/main.go:65-97 | after one pass of the loop body, the outcomes met so far and the walk still ahead from the new channel still make up the whole walk |
| `CardDump.CourseAdvance` | nfc/main.go:65-97 | one pass of the loop body, as `CardDump.VisitBlock` states it, keeps flag, steps, channel, frames and both buffers in step with the walk |
| `CardDump.CourseDone` | nfc/main.go:65-97 | after block 63 the outcomes met are all of the walk's, and the channel is the one the walk ends on |
| `CardDump.DumpCard` | nfc/main.go:58-102 | no walk, no bus traffic and the same channel unless the UID is four bytes long; otherwise the outcomes are those of `WalkOn` on the channel as the dump found it, the steps exactly the walk over them, then one authentication of block 4 with key A whose outcome is the chip's answer on the channel the walk left; the frames written to the chip are those of the steps, in order; the final channel, transmit buffer and shared buffer follow from the steps; the UID in the shared buffer survives |
| `CardDump.FinalStep` | nfc/main.go:98-101 | the final authentication extends the frames and both buffers of the walk by its one step |
| `CardDump.WalkBlocks` | nfc/main.go:63-97 | the loop over blocks 0 to 63 meets the outcomes of `WalkOn` on the channel it starts from and leaves the channel the walk ends on; it takes the steps of the walk over those outcomes and writes their frames in order; the transmit and shared buffers follow from the steps; the UID survives |
| `CardDump.WalkAdvance` | nfc/main.go:65-97 | one pass of the loop body extends the flag and the steps exactly as the walk does at the next block |
| `CardDump.VisitBlock` | nfc/main.go:66-96 | one pass of the loop body: the new flag and the attempt and read it makes, as the walk prescribes; an attempt's handshake is the one the channel determines; outcome, new flag and new channel are those of `CardDump.VisitOn` on the channel before the pass; the frames written are those of the steps, and the transmit and shared buffers follow from them |
| `CardDump.VisitAttempted` | nfc/main.go:66-72 | a pass that attempts an authentication behaves as one with the flag clear |
| `CardDump.VisitSkipped` | nfc/main.go:84-91 | a pass with the flag still set in its sector reads the block straight away, and the channel is that of the read |
| `CardDump.ReadOnly` | nfc/main.go:91 | the transmit and shared buffers after a lone read step |
| `CardDump.AttemptBlock` | nfc/main.go:72-91 | an authentication at a block with its key, then the read only if it succeeded: the handshake is the one the channel determines, outcome and channel are those of `CardDump.VisitOn` with the flag clear, and frames and buffers follow from the steps |
| `CardDump.TryBlockKey` | nfc/main.go:73-81 | an authentication with a key slot and the UID in the shared buffer: its handshake is the one the channel determines, its outcome whether that handshake passed and the chip's answer has status 0x00 (`CardDump.AuthOn`), and the new channel that of the exchange (`CardDump.ExchangeOn`); the transmit buffer has the step's frame over its front; the one frame written is that of the step |
| `CardDump.ReadKeepingUid` | nfc/main.go:91 | a block read leaves the UID in the shared buffer intact: the shared buffer has the read payload over its front; its handshake is the one the channel determines, and the new channel that of the exchange; the transmit buffer has the read frame over its front; the log is that of ReadDataBlock, and the one frame written is that of the read step |
| `CardDump.FoldCardId` | nfc/main.go:110-116 | the card number is the UID read big-endian modulo 2^32: the whole UID for up to four bytes (u0<<24 \| u1<<16 \| u2<<8 \| u3 for four), and the last four bytes for a longer UID |

## Left out

- `machine.I2C.Tx` and `time.Sleep` are not part of this model. They are
  replaced by the scripted `Bus.Bus` and its ghost event log, so a sleep is a
  logged event rather than elapsed time.
- An I2C error is modelled only as a short reply or an exhausted script. A
  short reply overwrites the front of the receive buffer with the bytes the
  chip sent, and the rest keeps its old value (`Bus.Received`). A probe on an
  exhausted script leaves the status byte as it was. Every other electrical
  behaviour of the bus is left out.
- Debug printing (`Debug`, `printBuffer`, `hex.Dump`) is left out because it
  does not affect the driver's state or results.
- `FirmwareVersion.String` is left out because it is string formatting. It
  also prints the IC byte where Support is meant (drivers/pn532/pn532.go:31).
- Error message texts and `errors.Join` are left out. Each distinct error is a
  tag of `PN532.Error` or `PN532.LinkError`, so two errors are told apart by
  their tags only.
- `readdata` always returns nil, so `PN532.Device.ReadData` has no result. The
  callers' `err != nil` branches after it can never be taken and are not
  modelled.
- Go panics on slice bounds caused by the caller are preconditions:
  - `PN532.Device.WriteCommand` requires a command of at most 56 bytes;
  - `MifareClassic.MifareClassic.AuthenticateBlock` requires a UID of at most
    46 bytes and key slot 0 or 1.
- The panic caused by a chip answer with a UID length over 51 is the error
  `UidOutOfBounds`, which the source does not have.
- `PN532.Device.ReadDetectedPassiveTargetID`: returns the UID's length rather
  than a slice. The UID is the shared buffer's bytes from offset 13, as in the
  source, where it aliases that buffer.
- The big-endian `sense_res` that `ReadDetectedPassiveTargetID` computes
  (drivers/pn532/pn532.go:296-299) is never used, so it is left out.
- `waitready(0)` spins for ever when the chip never answers ready. Callers
  that pass timeout 0 require a live script, one whose last status is ready
  (`Polling.Live`). That non-terminating case therefore is not modelled.
- `PN532.Device.SendCommandCheckAck`, `PN532.Device.ReadPassiveTargetID` and the
  methods between them: with timeout 0 they require `Polling.Live`, which is
  stronger than termination. A script on which both waits return but whose
  last status is not ready, such as 01 01 00, is excluded.
- Timeouts are whole milliseconds (`nat`), where the source has a signed
  `time.Duration` in nanoseconds. A negative timeout, or one below 1 ms, makes
  `waitready` give up at the first not-ready probe, because the timer starts
  at 1 ms (drivers/pn532/pn532.go:184-187). The driver's own callers pass
  100 ms; only `ReadPassiveTargetID` takes a caller's timeout, and a
  negative or sub-millisecond one passed there is not modelled.
- `MifareClassic.MifareClassic.SetKeyA` and `MifareClassic.MifareClassic.SetKeyB`:
  store a copy of the key. The source stores the caller's slice
  (drivers/pn532/mifareclassic.go:124, 128), so a later change to that slice
  would change the key; that aliasing is not modelled.
- `CardDump.DumpCard`: takes the UID length as a parameter and expects the UID
  in the shared buffer, where `ReadPassiveTargetID` left it. The rest of
  nfc/main.go is not part of this model: I2C set-up, sleeps, the outer retry
  loop, `println` and `hex.Dump` of the data read.
- `CardDump.VisitBlock`: does not model the second `if !authenticated` check
  of the loop (nfc/main.go:84-88). It can never be true, because the failure
  path above it has already continued.
- The `continue` after a failed final authentication (nfc/main.go:101) skips
  the separator print and the 3 s sleep at the end of the outer loop
  (nfc/main.go:104-106). The outer loop, the print and the sleep are not part
  of this model, so `CardDump.DumpCard` ends after that authentication either
  way.
- The MIFARE transfer, decrement, increment, store and Ultralight-write codes
  (drivers/pn532/commands.go:9-13) are declared in `Commands` but are used by
  no operation.
