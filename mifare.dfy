/** MIFARE Classic access through the PN532: the InDataExchange payloads for
    authenticate, read and write, the two key slots, the decoding of the
    chip's answers, and the sector layout of a MIFARE Classic 1K/4K card. */
module MifareClassic {
  import opened Bytes
  import opened Wrappers
  import opened Bus
  import opened Frame
  import opened Polling
  import opened PN532
  import opened Commands

  /** `MifareClassicKeyType`: the key slot, A or B. */
  type KeyType = byte

  const KEY_A: KeyType := 0
  const KEY_B: KeyType := 1

  /** Bytes in one block. */
  const BLOCK_SIZE: nat := 16
  /** Length of a MIFARE Classic key. */
  const KEY_SIZE: nat := 6
  /** The transport key both slots start with. */
  const FACTORY_KEY: seq<byte> := [0xFF, 0xFF, 0xFF, 0xFF, 0xFF, 0xFF]

  /** Header length of the authenticate payload, before the UID. */
  const AUTH_HEADER: nat := 10
  /** Longest UID whose authenticate frame fits the transmit buffer. */
  const MAX_UID: nat := MAX_COMMAND - AUTH_HEADER
  /** Length of the write payload: header and one block. */
  const WRITE_PAYLOAD: nat := 4 + BLOCK_SIZE
  /** Bytes read back after authenticate and after read or write. */
  const AUTH_RESPONSE: nat := 12
  const BLOCK_RESPONSE: nat := 26
  /** Where the card's status and a read block sit in the chip's answer. */
  const STATUS_OFFSET: nat := 7
  const DATA_OFFSET: nat := 8

  /** The response code of InDataExchange. */
  const INDATAEXCHANGE_RESPONSE: byte := 0x41

  /** `selectKeyCommand`: the authentication command of a key slot; key A's for
      slot A, key B's for any other slot. */
  function SelectKeyCommand(number: KeyType): (c: byte)
    ensures c == MIFARE_CMD_AUTH_A <==> number == KEY_A
    ensures c == MIFARE_CMD_AUTH_A || c == MIFARE_CMD_AUTH_B
  {
    if number == KEY_A then MIFARE_CMD_AUTH_A else MIFARE_CMD_AUTH_B
  }

  /** The six key bytes of the authenticate payload: Go's copy takes as much of
      the key as there is (at most six bytes survive, the UID overwrites the
      rest) and the zeroed buffer supplies what a short key lacks. */
  function KeyField(key: seq<byte>): (f: seq<byte>)
    ensures |f| == KEY_SIZE
  {
    seq(KEY_SIZE, i requires 0 <= i < KEY_SIZE => if i < |key| then key[i] else 0)
  }

  /** The InDataExchange payload `AuthenticateBlock` sends: header, card number
      1, the authentication command, the low byte of the block number, the key
      field and the UID. */
  function AuthPayload(uid: seq<byte>, blockNumber: nat, keyCmd: byte, key: seq<byte>): seq<byte>
  {
    [COMMAND_INDATAEXCHANGE, 1, keyCmd, blockNumber % 0x100] + KeyField(key) + uid
  }

  /** The payload of `ReadDataBlock`. */
  function ReadPayload(blockNumber: byte): seq<byte>
  {
    [COMMAND_INDATAEXCHANGE, 1, MIFARE_CMD_READ, blockNumber]
  }

  /** The payload of `WriteDataBlock`: the first twenty bytes of the shared
      buffer with the header and the data written over them, so that whatever
      the data does not cover is what the buffer held before. */
  function WritePayload(before: seq<byte>, blockNumber: byte, data: seq<byte>): seq<byte>
    requires |before| == WRITE_PAYLOAD && |data| <= BLOCK_SIZE
  {
    [COMMAND_INDATAEXCHANGE, 1, MIFARE_CMD_WRITE, blockNumber] + data + before[4 + |data|..]
  }

  /** What an InDataExchange payload asks the card to do, as the chip reads it. */
  datatype Request =
    | AuthRequest(keyCmd: byte, block: byte, key: seq<byte>, uid: seq<byte>)
    | ReadRequest(block: byte)
    | WriteRequest(block: byte, data: seq<byte>)

  /** The chip's reading of an InDataExchange payload for card 1: byte 2 names
      the MIFARE command, byte 3 the block, then the command's arguments. */
  function ParseRequest(p: seq<byte>): Option<Request>
  {
    if |p| < 4 || p[0] != COMMAND_INDATAEXCHANGE || p[1] != 1 then None
    else if (p[2] == MIFARE_CMD_AUTH_A || p[2] == MIFARE_CMD_AUTH_B) && |p| >= AUTH_HEADER then
      Some(AuthRequest(p[2], p[3], p[4..AUTH_HEADER], p[AUTH_HEADER..]))
    else if p[2] == MIFARE_CMD_READ && |p| == 4 then Some(ReadRequest(p[3]))
    else if p[2] == MIFARE_CMD_WRITE && |p| == WRITE_PAYLOAD then Some(WriteRequest(p[3], p[4..]))
    else None
  }

  /** The chip reads an authenticate payload as an authentication with the
      slot's command, the block number's low byte, the key field and the UID. */
  lemma AuthPayloadParses(uid: seq<byte>, blockNumber: nat, keyNumber: KeyType, key: seq<byte>)
    ensures ParseRequest(AuthPayload(uid, blockNumber, SelectKeyCommand(keyNumber), key))
         == Some(AuthRequest(SelectKeyCommand(keyNumber), blockNumber % 0x100, KeyField(key), uid))
    ensures |key| >= KEY_SIZE ==> KeyField(key) == key[..KEY_SIZE]
  {
    var p := AuthPayload(uid, blockNumber, SelectKeyCommand(keyNumber), key);
    assert p[4..AUTH_HEADER] == KeyField(key);
    assert p[AUTH_HEADER..] == uid;
  }

  /** The chip reads a read payload as a read of that block. */
  lemma ReadPayloadParses(blockNumber: byte)
    ensures ParseRequest(ReadPayload(blockNumber)) == Some(ReadRequest(blockNumber))
  {
  }

  /** The chip reads a write payload as a write of a whole block: the data
      given, then the stale buffer bytes after it. */
  lemma WritePayloadParses(before: seq<byte>, blockNumber: byte, data: seq<byte>)
    requires |before| == WRITE_PAYLOAD && |data| <= BLOCK_SIZE
    ensures ParseRequest(WritePayload(before, blockNumber, data))
         == Some(WriteRequest(blockNumber, data + before[4 + |data|..]))
  {
    var p := WritePayload(before, blockNumber, data);
    assert p[4..] == data + before[4 + |data|..];
  }

  /** A twenty-byte sequence with the write header, the data after it and the
      old bytes after the data is the write payload. */
  lemma WritePayloadFromParts(s: seq<byte>, before: seq<byte>, blockNumber: byte, data: seq<byte>)
    requires |before| == WRITE_PAYLOAD && |data| <= BLOCK_SIZE && |s| == WRITE_PAYLOAD
    requires s[0] == COMMAND_INDATAEXCHANGE && s[1] == 1 && s[2] == MIFARE_CMD_WRITE && s[3] == blockNumber
    requires forall j :: 0 <= j < |data| ==> s[4 + j] == data[j]
    requires forall j :: 4 + |data| <= j < WRITE_PAYLOAD ==> s[j] == before[j]
    ensures s == WritePayload(before, blockNumber, data)
  {
    assert s[4..4 + |data|] == data;
    assert s[4 + |data|..] == before[4 + |data|..];
    assert s == s[..4] + s[4..4 + |data|] + s[4 + |data|..];
  }

  /** The four MIFARE commands the driver sends are pairwise distinct, so
      payload byte 2 alone tells which operation a payload requests. */
  lemma CommandsDistinct()
    ensures |{MIFARE_CMD_AUTH_A, MIFARE_CMD_AUTH_B, MIFARE_CMD_READ, MIFARE_CMD_WRITE}| == 4
  {
  }

  /** A write pads with what the shared buffer held: where the data stops, the
      payload carries the old bytes, such as a UID read into the buffer at
      offset 13 when the data is at most nine bytes long. */
  lemma WriteKeepsStaleBytes(before: seq<byte>, blockNumber: byte, data: seq<byte>)
    requires |before| == WRITE_PAYLOAD && |data| <= BLOCK_SIZE
    ensures |WritePayload(before, blockNumber, data)| == WRITE_PAYLOAD
    ensures forall j :: 4 <= j < WRITE_PAYLOAD ==>
      WritePayload(before, blockNumber, data)[j] == if j < 4 + |data| then data[j - 4] else before[j]
    ensures |data| <= 9 ==> WritePayload(before, blockNumber, data)[13..17] == before[13..17]
  {
  }

  /** Whether an authentication answer reports success: status byte 0x00. */
  function AuthResult(resp: seq<byte>): Outcome<Error>
    requires |resp| == AUTH_RESPONSE
  {
    if resp[STATUS_OFFSET] != 0x00 then Fail(AuthError) else Pass
  }

  /** What `ReadDataBlock` makes of its 26 response bytes: an error unless the
      status byte is 0x00, else the sixteen bytes after it. */
  function ReadResult(resp: seq<byte>): Result<seq<byte>, Error>
    requires |resp| == BLOCK_RESPONSE
  {
    if resp[STATUS_OFFSET] != 0x00 then Err(ReadError)
    else Ok(resp[DATA_OFFSET..DATA_OFFSET + BLOCK_SIZE])
  }

  /** The chip's answer to a successful authentication, padded by whatever
      else arrives in the 12 bytes read, is accepted; an answer carrying any
      other status is refused. */
  lemma AuthFrameDecodes(resp: seq<byte>, status: byte)
    requires |resp| == AUTH_RESPONSE
    requires resp[..10] == InformationFrame(PN532TOHOST, [INDATAEXCHANGE_RESPONSE, status])
    ensures AuthResult(resp) == Pass <==> status == 0x00
  {
    assert resp[STATUS_OFFSET] == resp[..10][STATUS_OFFSET];
  }

  /** The chip's answer to a read, a chip-to-host frame carrying the response
      code, the status and a block, is exactly 26 bytes long; with status
      0x00 it decodes to that block, with another status it is an error. */
  lemma ReadFrameDecodes(status: byte, block: seq<byte>)
    requires |block| == BLOCK_SIZE
    ensures |InformationFrame(PN532TOHOST, [INDATAEXCHANGE_RESPONSE, status] + block)| == BLOCK_RESPONSE
    ensures ReadResult(InformationFrame(PN532TOHOST, [INDATAEXCHANGE_RESPONSE, status] + block))
         == if status == 0x00 then Ok(block) else Err(ReadError)
  {
    var d := [INDATAEXCHANGE_RESPONSE, status] + block;
    var f := InformationFrame(PN532TOHOST, d);
    FrameLayout(PN532TOHOST, d);
    assert f[DATA_OFFSET..DATA_OFFSET + BLOCK_SIZE] == f[6..6 + |d|][2..];
  }

  /** A successful read delivers exactly one block. */
  lemma ReadResultIsBlock(resp: seq<byte>)
    requires |resp| == BLOCK_RESPONSE
    ensures ReadResult(resp).Ok? <==> resp[STATUS_OFFSET] == 0x00
    ensures ReadResult(resp).Ok? ==> |ReadResult(resp).value| == BLOCK_SIZE
  {
  }

  /** `IsFirstBlock`: the first block of a sector; sectors are four blocks long
      below block 128 and sixteen blocks long from there on. */
  predicate IsFirstBlock(block: nat)
    requires block < UINT32
  {
    if block < 128 then block % 4 == 0 else block % 16 == 0
  }

  /** `IsTrailerBlock`: the last block of a sector, which holds its keys and
      access bits. The source tests block + 1 in uint32 arithmetic, which wraps. */
  predicate IsTrailerBlock(block: nat)
    requires block < UINT32
  {
    if block < 128 then (block + 1) % UINT32 % 4 == 0 else (block + 1) % UINT32 % 16 == 0
  }

  /** The first block of the sector holding block. */
  function SectorStart(block: nat): (s: nat)
    ensures s <= block
  {
    if block < 128 then block - block % 4 else block - block % 16
  }

  /** The sector holding block: 32 sectors of four blocks, then sectors of sixteen. */
  function Sector(block: nat): nat
  {
    if block < 128 then block / 4 else 32 + (block - 128) / 16
  }

  /** A trailer is the block just before a first block, across the uint32 wrap too. */
  lemma TrailerPrecedesFirst(block: nat)
    requires block < UINT32
    ensures IsTrailerBlock(block) <==> IsFirstBlock((block + 1) % UINT32)
  {
    if block + 1 == UINT32 {
      assert (block + 1) % UINT32 == 0;
    } else if block == 127 {
      assert (block + 1) % UINT32 == 128;
    } else {
      assert (block + 1) % UINT32 == block + 1;
    }
  }

  /** No block both starts and ends a sector. */
  lemma FirstNotTrailer(block: nat)
    requires block < UINT32
    ensures !(IsFirstBlock(block) && IsTrailerBlock(block))
  {
    if block + 1 < UINT32 {
      assert (block + 1) % UINT32 == block + 1;
    }
  }

  /** A first block is exactly a block that starts its own sector. */
  lemma FirstBlockStartsSector(block: nat)
    requires block < UINT32
    ensures IsFirstBlock(block) <==> SectorStart(block) == block
  {
  }

  /** Walking up the card, the sector number goes up by one just after a
      trailer and stays the same after any other block. */
  lemma SectorSteps(block: nat)
    requires block + 1 < UINT32
    ensures Sector(block + 1) == Sector(block) + (if IsTrailerBlock(block) then 1 else 0)
    ensures IsFirstBlock(block + 1) <==> Sector(block + 1) != Sector(block)
  {
    assert (block + 1) % UINT32 == block + 1;
    if block < 127 {
      assert (block + 1) / 4 == block / 4 + (if (block + 1) % 4 == 0 then 1 else 0);
    } else if block >= 128 {
      assert (block + 1 - 128) / 16 == (block - 128) / 16 + (if (block + 1) % 16 == 0 then 1 else 0);
    }
  }

  /** A block that does not start a sector shares its sector's first block
      with the block before it. */
  lemma SectorStartChain(block: nat)
    requires 0 < block < UINT32 && !IsFirstBlock(block)
    ensures SectorStart(block - 1) == SectorStart(block)
  {
    if block < 128 {
      var q, r := block / 4, block % 4;
      assert block == 4 * q + r && 0 < r < 4;
      assert (block - 1) % 4 == r - 1 && (block - 1) / 4 == q;
    } else {
      assert block != 128;
      var q, r := block / 16, block % 16;
      assert block == 16 * q + r && 0 < r < 16;
      assert (block - 1) % 16 == r - 1 && (block - 1) / 16 == q;
    }
  }

  /** Classification of blocks 3, 4, 127, 128, 143 and 144: 3, 127 and 143
      end a sector; 4, 128 and 144 start one. */
  lemma ClassificationExamples()
    ensures IsTrailerBlock(3) && IsFirstBlock(4)
    ensures IsTrailerBlock(127) && IsFirstBlock(128)
    ensures IsTrailerBlock(143) && IsFirstBlock(144)
    ensures !IsTrailerBlock(4) && !IsFirstBlock(3) && !IsTrailerBlock(128) && !IsFirstBlock(127)
  {
  }

  /** A MIFARE Classic card reached through a PN532, with the two keys used
      to authenticate. */
  class MifareClassic {
    const dev: Device
    /** Key slot A at index 0, key slot B at index 1. */
    var keys: seq<seq<byte>>

    ghost predicate Valid()
      reads this
    {
      |keys| == 2 && dev.Valid()
    }

    /** `NewMifareClasic`: both key slots hold the factory key. */
    constructor (device: Device)
      requires device.Valid()
      ensures Valid() && dev == device
      ensures keys == [FACTORY_KEY, FACTORY_KEY]
    {
      dev := device;
      keys := [FACTORY_KEY, FACTORY_KEY];
    }

    /** `SetKeyA`: replaces key slot A only. */
    method SetKeyA(key: seq<byte>)
      requires Valid()
      modifies this
      ensures Valid()
      ensures keys == old(keys)[KEY_A := key]
      ensures keys[KEY_B] == old(keys[KEY_B])
    {
      keys := keys[KEY_A := key];
    }

    /** `SetKeyB`: replaces key slot B only. */
    method SetKeyB(key: seq<byte>)
      requires Valid()
      modifies this
      ensures Valid()
      ensures keys == old(keys)[KEY_B := key]
      ensures keys[KEY_A] == old(keys[KEY_A])
    {
      keys := keys[KEY_B := key];
    }

    /** Builds the authenticate payload in a fresh zeroed buffer: the header,
        then the key copied from offset 4 and the UID copied from offset 10
        over it. */
    static method BuildAuthPayload(uid: seq<byte>, blockNumber: nat, keyCmd: byte, key: seq<byte>)
      returns (buffer: array<byte>)
      ensures fresh(buffer)
      ensures buffer[..] == AuthPayload(uid, blockNumber, keyCmd, key)
    {
      buffer := new byte[AUTH_HEADER + |uid|](_ => 0);
      buffer[0] := COMMAND_INDATAEXCHANGE;
      buffer[1] := 1;
      buffer[2] := keyCmd;
      buffer[3] := blockNumber % 0x100;
      forall i | 0 <= i < |key| && 4 + i < buffer.Length {
        buffer[4 + i] := key[i];
      }
      forall i | 0 <= i < |uid| {
        buffer[AUTH_HEADER + i] := uid[i];
      }
      assert buffer[..4] == [COMMAND_INDATAEXCHANGE, 1, keyCmd, blockNumber % 0x100];
      assert buffer[4..AUTH_HEADER] == KeyField(key);
      assert buffer[AUTH_HEADER..] == uid;
      assert buffer[..] == buffer[..4] + buffer[4..AUTH_HEADER] + buffer[AUTH_HEADER..];
    }

    /** `AuthenticateBlock`: sends the authenticate payload for the key slot
        with a 100 ms timeout and reads twelve bytes of answer into a fresh
        buffer; the card's status is at offset 7. The shared buffer, and with
        it a UID held there, is not touched. */
    method AuthenticateBlock(uid: seq<byte>, blockNumber: nat, keyNumber: KeyType)
      returns (r: Outcome<Error>, ghost h: Handshake)
      requires Valid() && keyNumber < 2 && blockNumber < UINT32 && |uid| <= MAX_UID
      modifies dev.txBuffer, dev.rxBuffer, dev.ackbuff, dev.rdy, dev.bus
      ensures HandshakeFollows(h, Accepted(old(dev.bus.writeResults)), old(dev.bus.ready), old(dev.rdy[0]),
                               old(dev.rxBuffer[..]), old(dev.bus.replies), TIMEOUT)
      ensures r == if h.outcome.Fail? then Fail(Link(h.outcome.error))
                   else AuthResult(Response(old(dev.rxBuffer[..]), old(dev.bus.replies), AUTH_RESPONSE))
      ensures var f := CommandFrame(AuthPayload(uid, blockNumber, SelectKeyCommand(keyNumber), keys[keyNumber]));
        dev.txBuffer[..|f|] == f && dev.txBuffer[|f|..] == old(dev.txBuffer[|f|..])
      ensures dev.Chan() == Exchanged(old(dev.Chan()), h, AUTH_RESPONSE)
      ensures dev.bus.trace == old(dev.bus.trace)
        + HandshakeEvents(CommandFrame(AuthPayload(uid, blockNumber, SelectKeyCommand(keyNumber), keys[keyNumber])), h)
        + (if h.outcome.Pass? then [ReadBytes(AUTH_RESPONSE + 1)] else [])
    {
      ghost var c := dev.Chan();
      var buffer := BuildAuthPayload(uid, blockNumber, SelectKeyCommand(keyNumber), keys[keyNumber]);
      var link;
      link, h := dev.SendCommandCheckAck(buffer[..], TIMEOUT);
      if link.Fail? {
        r := Fail(Link(link.error));
        return;
      }
      var response := ReadAnswer(AUTH_RESPONSE);
      ResponseOfChannel(c, h, AUTH_RESPONSE);
      r := if response[STATUS_OFFSET] != 0x00 then Fail(AuthError) else Pass;
    }

    /** The answer read that follows a passed handshake: `readdata` of n bytes
        into a fresh zeroed buffer, which is the chip's next reply without its
        status byte, completed with what the receive buffer held. */
    method ReadAnswer(n: nat) returns (answer: seq<byte>)
      requires Valid() && n < BUFFSIZE
      modifies dev.rxBuffer, dev.bus
      ensures dev.Chan() == AfterRead(old(dev.Chan()), n)
      ensures answer == dev.rxBuffer[1..n + 1]
      ensures dev.bus.trace == old(dev.bus.trace) + [ReadBytes(n + 1)]
    {
      var response := new byte[n](_ => 0);
      dev.ReadData(response, n);
      answer := response[..];
    }

    /** `ReadDataBlock`: puts the read payload at the front of the shared
        buffer, sends it with a 100 ms timeout and reads 26 bytes of answer
        into a fresh buffer. The shared buffer beyond its first four bytes is
        not touched. */
    method ReadDataBlock(blockNumber: byte) returns (r: Result<seq<byte>, Error>, ghost h: Handshake)
      requires Valid()
      modifies dev.buffer, dev.txBuffer, dev.rxBuffer, dev.ackbuff, dev.rdy, dev.bus
      ensures HandshakeFollows(h, Accepted(old(dev.bus.writeResults)), old(dev.bus.ready), old(dev.rdy[0]),
                               old(dev.rxBuffer[..]), old(dev.bus.replies), TIMEOUT)
      ensures r == if h.outcome.Fail? then Err(Link(h.outcome.error))
                   else ReadResult(Response(old(dev.rxBuffer[..]), old(dev.bus.replies), BLOCK_RESPONSE))
      ensures dev.buffer[..] == ReadPayload(blockNumber) + old(dev.buffer[4..])
      ensures dev.txBuffer[..12] == CommandFrame(ReadPayload(blockNumber)) && dev.txBuffer[12..] == old(dev.txBuffer[12..])
      ensures dev.Chan() == Exchanged(old(dev.Chan()), h, BLOCK_RESPONSE)
      ensures dev.bus.trace == old(dev.bus.trace)
        + HandshakeEvents(CommandFrame(ReadPayload(blockNumber)), h)
        + (if h.outcome.Pass? then [ReadBytes(BLOCK_RESPONSE + 1)] else [])
    {
      ghost var c := dev.Chan();
      var link;
      link, h := dev.Command(ReadPayload(blockNumber), TIMEOUT);
      if link.Fail? {
        r := Err(Link(link.error));
        return;
      }
      var response := ReadAnswer(BLOCK_RESPONSE);
      ResponseOfChannel(c, h, BLOCK_RESPONSE);
      if response[STATUS_OFFSET] != 0x00 {
        r := Err(ReadError);
        return;
      }
      r := Ok(response[DATA_OFFSET..DATA_OFFSET + BLOCK_SIZE]);
    }

    /** The buffer-filling part of `WriteDataBlock`: the header and the data
        over the front of buf, the rest of buf as it was. */
    static method PutWritePayload(buf: array<byte>, blockNumber: byte, data: seq<byte>)
      requires buf.Length == BUFFSIZE && |data| <= BLOCK_SIZE
      modifies buf
      ensures buf[..] == WritePayload(old(buf[..WRITE_PAYLOAD]), blockNumber, data) + old(buf[WRITE_PAYLOAD..])
    {
      ghost var before := buf[..WRITE_PAYLOAD];
      buf[0] := COMMAND_INDATAEXCHANGE;
      buf[1] := 1;
      buf[2] := MIFARE_CMD_WRITE;
      buf[3] := blockNumber;
      forall i | 0 <= i < |data| {
        buf[4 + i] := data[i];
      }
      WritePayloadFromParts(buf[..WRITE_PAYLOAD], before, blockNumber, data);
      assert buf[..] == buf[..WRITE_PAYLOAD] + buf[WRITE_PAYLOAD..];
    }

    /** `WriteDataBlock`: refuses more than a block of data before touching
        anything, and then the ghost h stands for no handshake at all;
        otherwise writes the header and the data over the front of the shared
        buffer, sends its first twenty bytes with a 100 ms timeout, lets the
        card write for 10 ms and reads 26 bytes of answer, whose status is not
        checked. */
    method WriteDataBlock(blockNumber: byte, data: seq<byte>) returns (r: Outcome<Error>, ghost h: Handshake)
      requires Valid()
      modifies dev.buffer, dev.txBuffer, dev.rxBuffer, dev.ackbuff, dev.rdy, dev.bus
      ensures |data| > BLOCK_SIZE ==>
        && r == Fail(BlockTooLarge)
        && unchanged(dev.buffer, dev.txBuffer, dev.rxBuffer, dev.ackbuff, dev.rdy, dev.bus)
      ensures |data| <= BLOCK_SIZE ==>
        HandshakeFollows(h, Accepted(old(dev.bus.writeResults)), old(dev.bus.ready), old(dev.rdy[0]),
                         old(dev.rxBuffer[..]), old(dev.bus.replies), TIMEOUT)
      ensures |data| <= BLOCK_SIZE ==> r == if h.outcome.Fail? then Fail(Link(h.outcome.error)) else Pass
      ensures |data| <= BLOCK_SIZE ==>
        var payload := WritePayload(old(dev.buffer[..WRITE_PAYLOAD]), blockNumber, data);
        && dev.buffer[..] == payload + old(dev.buffer[WRITE_PAYLOAD..])
        && dev.txBuffer[..28] == CommandFrame(payload) && dev.txBuffer[28..] == old(dev.txBuffer[28..])
        && dev.Chan() == Exchanged(old(dev.Chan()), h, BLOCK_RESPONSE)
        && dev.bus.trace == old(dev.bus.trace) + HandshakeEvents(CommandFrame(payload), h)
                            + (if h.outcome.Pass? then [Slept(10), ReadBytes(BLOCK_RESPONSE + 1)] else [])
    {
      if |data| > BLOCK_SIZE {
        r, h := Fail(BlockTooLarge), Handshake(Pass, 0, 0);
        return;
      }
      r, h := WriteFittingBlock(blockNumber, data);
    }

    /** What follows an acknowledged write command: 10 ms for the card to
        write, then the 26-byte answer, read and dropped. */
    method AwaitWrite()
      requires Valid()
      modifies dev.rxBuffer, dev.bus
      ensures dev.Chan() == AfterRead(old(dev.Chan()), BLOCK_RESPONSE)
      ensures dev.bus.trace == old(dev.bus.trace) + [Slept(10), ReadBytes(BLOCK_RESPONSE + 1)]
    {
      dev.bus.Sleep(10);
      var _ := ReadAnswer(BLOCK_RESPONSE);
    }

    /** `WriteDataBlock` for data that fits a block. */
    method WriteFittingBlock(blockNumber: byte, data: seq<byte>) returns (r: Outcome<Error>, ghost h: Handshake)
      requires Valid() && |data| <= BLOCK_SIZE
      modifies dev.buffer, dev.txBuffer, dev.rxBuffer, dev.ackbuff, dev.rdy, dev.bus
      ensures HandshakeFollows(h, Accepted(old(dev.bus.writeResults)), old(dev.bus.ready), old(dev.rdy[0]),
                               old(dev.rxBuffer[..]), old(dev.bus.replies), TIMEOUT)
      ensures r == if h.outcome.Fail? then Fail(Link(h.outcome.error)) else Pass
      ensures var payload := WritePayload(old(dev.buffer[..WRITE_PAYLOAD]), blockNumber, data);
        && dev.buffer[..] == payload + old(dev.buffer[WRITE_PAYLOAD..])
        && dev.txBuffer[..28] == CommandFrame(payload) && dev.txBuffer[28..] == old(dev.txBuffer[28..])
        && dev.Chan() == Exchanged(old(dev.Chan()), h, BLOCK_RESPONSE)
        && dev.bus.trace == old(dev.bus.trace) + HandshakeEvents(CommandFrame(payload), h)
                            + (if h.outcome.Pass? then [Slept(10), ReadBytes(BLOCK_RESPONSE + 1)] else [])
    {
      ghost var t := dev.bus.trace;
      var payload := WritePayload(dev.buffer[..WRITE_PAYLOAD], blockNumber, data);
      PutWritePayload(dev.buffer, blockNumber, data);
      var link;
      link, h := dev.SendCommandCheckAck(payload, TIMEOUT);
      if link.Fail? {
        r := Fail(Link(link.error));
        return;
      }
      ghost var t1 := dev.bus.trace;
      AwaitWrite();
      AppendAssoc(t, HandshakeEvents(CommandFrame(payload), h), [Slept(10), ReadBytes(BLOCK_RESPONSE + 1)]);
      r := Pass;
    }
  }
}
