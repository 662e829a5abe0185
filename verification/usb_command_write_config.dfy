/**
 * UsbCommand_WriteConfig of usb_command_write_config.c: the generic HID
 * command that copies one transfer's worth of configuration bytes into the
 * hardware configuration buffer or the staging user configuration buffer.
 *
 * The command's input is the generic HID in-buffer: byte 1 is the length,
 * bytes 2-3 the offset (a little-endian uint16), bytes 4.. the data. An error
 * is reported in byte 0 of the generic HID out-buffer.
 */
module UsbCommandWriteConfig {
  import opened ReportLayout

  // Constants of headers that are not part of this model; the values are
  // assumptions. The in-buffer is as long as the out-buffer, and both
  // configuration sizes fit in a uint16, so the source's uint16_t bufferLength
  // equals the size.

  /** USB_GENERIC_HID_OUT_BUFFER_LENGTH, also the length of the in-buffer. */
  const GenericHidBufferLength: nat := 64
  /** The largest length one transfer may carry: the buffer minus the four header bytes. */
  const MaxWriteLength: nat := GenericHidBufferLength - 4
  /** HARDWARE_CONFIG_SIZE and USER_CONFIG_SIZE. */
  const HardwareConfigSize: nat := 64
  const UserConfigSize: nat := 32704
  /** UsbStatusCode_TransferConfig_LengthTooLarge and _BufferOutOfBounds. */
  const StatusLengthTooLarge: uint8 := 2
  const StatusBufferOutOfBounds: uint8 := 3

  /** GET_USB_BUFFER_UINT16: two bytes, low byte first. */
  function ReadUint16(buffer: seq<uint8>, at: nat): (v: nat)
    requires at + 1 < |buffer|
    ensures v < 0x1_0000
    ensures v % 256 == buffer[at] && v / 256 == buffer[at + 1]
  {
    buffer[at] as nat + 256 * (buffer[at + 1] as nat)
  }

  /** The size of the buffer the command writes to. */
  function ConfigSize(isHardware: bool): nat
  {
    if isHardware then HardwareConfigSize else UserConfigSize
  }

  /** How the command ends: it writes, or it rejects with one of two statuses. */
  datatype Outcome = Written | LengthTooLarge | BufferOutOfBounds

  /**
   * The checks in order: the length check comes first, and a write that ends
   * exactly at the end of the buffer is accepted.
   */
  function Decide(isHardware: bool, length: nat, offset: nat): (o: Outcome)
    ensures o == LengthTooLarge <==> length > MaxWriteLength
    ensures o == BufferOutOfBounds <==>
              length <= MaxWriteLength && offset + length > ConfigSize(isHardware)
    ensures o == Written ==> offset + length <= ConfigSize(isHardware)
  {
    if length > MaxWriteLength then LengthTooLarge
    else if offset + length > ConfigSize(isHardware) then BufferOutOfBounds
    else Written
  }

  /** The status byte an outcome leaves in byte 0 of the out-buffer, if any. */
  function StatusOf(o: Outcome): (status: uint8)
    requires o != Written
    ensures status != 0 && (o == LengthTooLarge <==> status == StatusLengthTooLarge)
  {
    if o == LengthTooLarge then StatusLengthTooLarge else StatusBufferOutOfBounds
  }

  /** A buffer with `data` copied in at `offset`. */
  function CopiedAt(buffer: seq<uint8>, offset: nat, data: seq<uint8>): (r: seq<uint8>)
    requires offset + |data| <= |buffer|
    ensures |r| == |buffer|
    ensures forall j :: 0 <= j < |data| ==> r[offset + j] == data[j]
    ensures forall i :: 0 <= i < |buffer| && !(offset <= i < offset + |data|) ==> r[i] == buffer[i]
  {
    buffer[..offset] + data + buffer[offset + |data|..]
  }

  /** GET_USB_BUFFER_UINT8(1): the number of data bytes. */
  function LengthOf(inBuffer: seq<uint8>): (length: nat)
    requires |inBuffer| == GenericHidBufferLength
    ensures length < 256
  {
    inBuffer[1]
  }

  /** GET_USB_BUFFER_UINT16(2): where in the configuration buffer the data goes. */
  function OffsetOf(inBuffer: seq<uint8>): (offset: nat)
    requires |inBuffer| == GenericHidBufferLength
    ensures offset < 0x1_0000
    ensures offset % 256 == inBuffer[2] && offset / 256 == inBuffer[3]
  {
    ReadUint16(inBuffer, 2)
  }

  /** The outcome of the command for this input. */
  function OutcomeOf(isHardware: bool, inBuffer: seq<uint8>): Outcome
    requires |inBuffer| == GenericHidBufferLength
  {
    Decide(isHardware, LengthOf(inBuffer), OffsetOf(inBuffer))
  }

  /** The data bytes of an accepted command. */
  function DataOf(inBuffer: seq<uint8>): (data: seq<uint8>)
    requires |inBuffer| == GenericHidBufferLength && LengthOf(inBuffer) <= MaxWriteLength
    ensures |data| == LengthOf(inBuffer)
  {
    inBuffer[4..4 + LengthOf(inBuffer)]
  }

  /**
   * UsbCommand_WriteConfig(isHardware). On a rejection the status is written
   * to byte 0 of the out-buffer and neither configuration buffer changes; on
   * success the out-buffer is left alone, the data bytes are copied to the
   * chosen buffer at the offset, and the other buffer is not touched.
   */
  method WriteConfig(isHardware: bool, inBuffer: array<uint8>, outBuffer: array<uint8>,
                     hardwareConfig: array<uint8>, stagingUserConfig: array<uint8>)
    requires inBuffer.Length == GenericHidBufferLength && outBuffer.Length == GenericHidBufferLength
    requires hardwareConfig.Length == HardwareConfigSize && stagingUserConfig.Length == UserConfigSize
    requires hardwareConfig != stagingUserConfig
    requires inBuffer != outBuffer && inBuffer != hardwareConfig && inBuffer != stagingUserConfig
    requires outBuffer != hardwareConfig && outBuffer != stagingUserConfig
    modifies outBuffer, hardwareConfig, stagingUserConfig
    ensures OutcomeOf(isHardware, inBuffer[..]) != Written ==>
              outBuffer[..] == old(outBuffer[..])[0 := StatusOf(OutcomeOf(isHardware, inBuffer[..]))]
    ensures OutcomeOf(isHardware, inBuffer[..]) != Written ==>
              hardwareConfig[..] == old(hardwareConfig[..]) &&
              stagingUserConfig[..] == old(stagingUserConfig[..])
    ensures OutcomeOf(isHardware, inBuffer[..]) == Written ==> outBuffer[..] == old(outBuffer[..])
    ensures OutcomeOf(isHardware, inBuffer[..]) == Written && isHardware ==>
              hardwareConfig[..] == CopiedAt(old(hardwareConfig[..]), OffsetOf(inBuffer[..]), DataOf(inBuffer[..])) &&
              stagingUserConfig[..] == old(stagingUserConfig[..])
    ensures OutcomeOf(isHardware, inBuffer[..]) == Written && !isHardware ==>
              stagingUserConfig[..] == CopiedAt(old(stagingUserConfig[..]), OffsetOf(inBuffer[..]), DataOf(inBuffer[..])) &&
              hardwareConfig[..] == old(hardwareConfig[..])
  {
    ghost var input := inBuffer[..];
    var length := inBuffer[1];
    var offset := ReadUint16(inBuffer[..], 2);
    assert length == LengthOf(input) && offset == OffsetOf(input);

    if length > GenericHidBufferLength - 4 {
      outBuffer[0] := StatusLengthTooLarge;
      assert OutcomeOf(isHardware, input) == LengthTooLarge;
      return;
    }

    var buffer := if isHardware then hardwareConfig else stagingUserConfig;
    var bufferLength := if isHardware then HardwareConfigSize else UserConfigSize;

    if offset + length > bufferLength {
      outBuffer[0] := StatusBufferOutOfBounds;
      assert OutcomeOf(isHardware, input) == BufferOutOfBounds;
      return;
    }

    assert OutcomeOf(isHardware, input) == Written && DataOf(input) == input[4..4 + length];
    Copy(buffer, offset, inBuffer, 4, length);
    assert inBuffer[..] == input;
  }

  /** memcpy(dest + at, src + from, length), for two distinct arrays. */
  method Copy(dest: array<uint8>, at: nat, src: array<uint8>, from: nat, length: nat)
    requires at + length <= dest.Length && from + length <= src.Length
    requires dest != src
    modifies dest
    ensures dest[..] == CopiedAt(old(dest[..]), at, src[from..from + length])
  {
    forall i | 0 <= i < length {
      dest[at + i] := src[from + i];
    }
    ghost var copied := CopiedAt(old(dest[..]), at, src[from..from + length]);
    forall k | 0 <= k < dest.Length ensures dest[k] == copied[k] {
      if at <= k < at + length {
        assert copied[at + (k - at)] == src[from..from + length][k - at];
      }
    }
    assert dest[..] == copied;
  }
}
