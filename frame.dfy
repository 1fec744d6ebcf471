/** The PN532 host-side frame format (section 6.2.1 of the NXP PN532 User Manual,
    UM0701-02): the normal information frame the driver sends and the ACK frame
    it expects back. */
module Frame {
  import opened Bytes
  import opened Wrappers

  /** Size of each of the driver's buffers. */
  const BUFFSIZE: nat := 64
  /** Longest command payload whose frame fits the 64-byte transmit buffer. */
  const MAX_COMMAND: nat := BUFFSIZE - 8

  const PREAMBLE: byte := 0x00
  const STARTCODE1: byte := 0x00
  const STARTCODE2: byte := 0xFF
  const POSTAMBLE: byte := 0x00

  /** Frame identifier (TFI) of host-to-chip and chip-to-host frames. */
  const HOSTTOPN532: byte := 0xD4
  const PN532TOHOST: byte := 0xD5

  /** The ACK frame (section 6.2.1.3). */
  const ACK: seq<byte> := [0x00, 0x00, 0xFF, 0x00, 0xFF, 0x00]

  /** Go's `^x + 1` on a byte: the two's-complement negation, so that adding it
      back gives zero modulo 256. */
  function Negate(x: byte): (r: byte)
    ensures (x as int + r) % 0x100 == 0
    ensures x == 0 <==> r == 0
  {
    (0xFF - x + 1) % 0x100
  }

  /** Go's `var sum byte; sum += b` over s: the byte sum with wrap-around. */
  function ByteSum(s: seq<byte>): byte
  {
    Sum(s) % 0x100
  }

  /** A normal information frame carrying `data` under frame identifier `tfi`:
      preamble, start codes, LEN and LCS, TFI, data, DCS, postamble. */
  function InformationFrame(tfi: byte, data: seq<byte>): (f: seq<byte>)
    requires |data| < 0xFF
    ensures |f| == |data| + 8
  {
    var len: byte := |data| + 1;
    [PREAMBLE, STARTCODE1, STARTCODE2, len, Negate(len), tfi]
      + data
      + [Dcs(tfi, data), POSTAMBLE]
  }

  /** The frame `writecommand` puts on the bus for a command payload. */
  function CommandFrame(cmd: seq<byte>): (f: seq<byte>)
    requires |cmd| <= MAX_COMMAND
    ensures |f| == |cmd| + 8
  {
    InformationFrame(HOSTTOPN532, cmd)
  }

  /** The frame checksum DCS: Go's `^(tfi + sum) + 1` in byte arithmetic. */
  function Dcs(tfi: byte, data: seq<byte>): byte
  {
    Negate((tfi as int + ByteSum(data)) % 0x100)
  }

  /** The fields a receiver reads out of a normal information frame. */
  datatype Information = Information(tfi: byte, data: seq<byte>)

  /** A receiver's reading of a normal information frame, checking every rule
      of section 6.2.1.1: the start sequence, LEN + LCS = 0, a TFI, the frame
      length LEN determines, TFI + data + DCS = 0 and the postamble. */
  function ParseFrame(f: seq<byte>): Option<Information>
  {
    if |f| < 8 || f[0] != PREAMBLE || f[1] != STARTCODE1 || f[2] != STARTCODE2 then None
    else if f[3] == 0 || (f[3] as int + f[4]) % 0x100 != 0 || |f| != f[3] as int + 7 then None
    else if (Sum(f[5..5 + f[3]]) + f[5 + f[3]]) % 0x100 != 0 || f[|f| - 1] != POSTAMBLE then None
    else Some(Information(f[5], f[6..5 + f[3]]))
  }

  /** Layout of an information frame: the start sequence, LEN, the TFI, the
      data in place and the postamble last. */
  lemma FrameLayout(tfi: byte, data: seq<byte>)
    requires |data| < 0xFF
    ensures var f := InformationFrame(tfi, data);
      && f[..3] == [0x00, 0x00, 0xFF]
      && f[3] == |data| + 1
      && f[5] == tfi
      && f[6..6 + |data|] == data
      && f[|f| - 1] == 0x00
  {
  }

  /** Both checksums of an information frame hold: LEN + LCS = 0 and
      TFI + data + DCS = 0, modulo 256. */
  lemma FrameChecksums(tfi: byte, data: seq<byte>)
    requires |data| < 0xFF
    ensures var f := InformationFrame(tfi, data);
      && (f[3] as int + f[4]) % 0x100 == 0
      && (Sum(f[5..6 + |data|]) + f[6 + |data|]) % 0x100 == 0
  {
    LengthChecksum(tfi, data);
    FrameDataChecksum(tfi, data);
  }

  lemma LengthChecksum(tfi: byte, data: seq<byte>)
    requires |data| < 0xFF
    ensures var f := InformationFrame(tfi, data); (f[3] as int + f[4]) % 0x100 == 0
  {
    FrameParts(tfi, data);
  }

  lemma FrameDataChecksum(tfi: byte, data: seq<byte>)
    requires |data| < 0xFF
    ensures var f := InformationFrame(tfi, data); (Sum(f[5..6 + |data|]) + f[6 + |data|]) % 0x100 == 0
  {
    var f := InformationFrame(tfi, data);
    FrameParts(tfi, data);
    TfiSum(tfi, data);
    DcsCancelsSum(tfi, data);
    assert Sum(f[5..6 + |data|]) == tfi as int + Sum(data);
  }

  lemma DcsCancelsSum(tfi: byte, data: seq<byte>)
    ensures (tfi as int + Sum(data) + Dcs(tfi, data)) % 0x100 == 0
  {
    ModOfSum(tfi as int, Sum(data));
    DcsCancels(tfi as int + Sum(data));
  }

  /** Where the pieces of an information frame sit. */
  lemma FrameParts(tfi: byte, data: seq<byte>)
    requires |data| < 0xFF
    ensures var f := InformationFrame(tfi, data);
      && f[5..6 + |data|] == [tfi] + data
      && f[6 + |data|] == Dcs(tfi, data)
      && f[3] == |data| + 1 && f[4] == Negate(f[3])
  {
  }

  /** A sequence with the header, data, DCS and postamble of a frame in their
      places is that frame. */
  lemma FrameFromParts(s: seq<byte>, tfi: byte, data: seq<byte>)
    requires |data| < 0xFF && |s| == |data| + 8
    requires s[0] == PREAMBLE && s[1] == STARTCODE1 && s[2] == STARTCODE2
    requires s[3] == |data| + 1 && s[4] == Negate(|data| + 1) && s[5] == tfi
    requires forall j :: 0 <= j < |data| ==> s[6 + j] == data[j]
    requires s[6 + |data|] == Dcs(tfi, data) && s[7 + |data|] == POSTAMBLE
    ensures s == InformationFrame(tfi, data)
  {
    var n := |data|;
    assert s[..6] == [PREAMBLE, STARTCODE1, STARTCODE2, n + 1, Negate(n + 1), tfi];
    assert s[6..6 + n] == data;
    assert s == s[..6] + s[6..6 + n] + [s[6 + n], s[7 + n]];
  }

  /** The byte sum of TFI and data. */
  lemma TfiSum(tfi: byte, data: seq<byte>)
    ensures Sum([tfi] + data) == tfi as int + Sum(data)
  {
    SumConcat([tfi], data);
    assert [tfi][..0] == [];
  }

  /** One step of the byte sum: add the next byte and wrap. */
  lemma ByteSumStep(s: seq<byte>, i: nat)
    requires i < |s|
    ensures ByteSum(s[..i + 1]) == (ByteSum(s[..i]) + s[i]) % 0x100
  {
    assert s[..i + 1][..i] == s[..i];
    ModOfSum(s[i], Sum(s[..i]));
  }

  lemma ModOfSum(a: nat, b: nat)
    ensures (a + b % 0x100) % 0x100 == (a + b) % 0x100
  {
    var q := b / 0x100;
    assert b == q * 0x100 + b % 0x100;
  }

  /** Adding the negation of a sum's low byte cancels the sum modulo 256. */
  lemma DcsCancels(s: nat)
    ensures (s + Negate(s % 0x100)) % 0x100 == 0
  {
  }

  /** A byte d that cancels s modulo 256 is the negation of s's low byte. */
  lemma CancelIsNegate(s: nat, d: byte)
    requires (s + d) % 0x100 == 0
    ensures d == Negate(s % 0x100)
  {
  }

  /** A receiver accepts every information frame and reads back exactly its
      identifier and data. */
  lemma ParseInformationFrame(tfi: byte, data: seq<byte>)
    requires |data| < 0xFF
    ensures ParseFrame(InformationFrame(tfi, data)) == Some(Information(tfi, data))
  {
    var f := InformationFrame(tfi, data);
    FrameChecksums(tfi, data);
    assert f[6..5 + f[3]] == data;
  }

  /** Conversely, a frame that a receiver accepts is the information frame of
      what it reads out of it, so the format leaves no choice. */
  lemma ParsedFrameIsInformationFrame(f: seq<byte>)
    requires ParseFrame(f).Some?
    ensures |ParseFrame(f).value.data| < 0xFF
    ensures f == InformationFrame(ParseFrame(f).value.tfi, ParseFrame(f).value.data)
  {
    var tfi, data := ParseFrame(f).value.tfi, ParseFrame(f).value.data;
    var n := |data|;
    assert f[3] == n + 1;
    CancelIsNegate(f[3], f[4]);
    assert f[5..6 + n] == [tfi] + data;
    assert (Sum(f[5..6 + n]) + f[6 + n]) % 0x100 == 0;
    TfiSum(tfi, data);
    assert (tfi as int + Sum(data) + f[6 + n]) % 0x100 == 0;
    assert f[6 + n] == Dcs(tfi, data) by {
      CancelIsNegate(tfi as int + Sum(data), f[6 + n]);
      ModOfSum(tfi as int, Sum(data));
    }
    assert forall j :: 0 <= j < n ==> f[6 + j] == data[j];
    FrameFromParts(f, tfi, data);
  }

  /** A one-byte change to the ACK frame is never an ACK frame. */
  lemma AckMutationRejected(i: nat, v: byte)
    requires i < |ACK| && v != ACK[i]
    ensures ACK[i := v] != ACK
  {
    assert ACK[i := v][i] != ACK[i];
  }
}
