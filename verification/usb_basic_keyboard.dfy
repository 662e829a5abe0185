/**
 * The state of usb_interface_basic_keyboard.c: the two reports of the double
 * buffer, the pointer to the active one, the action counter and the latched
 * protocol, with the operations that change them in place.
 *
 * The device stack is outside the model: the send result and the attach flag
 * are inputs, and the HID class handle is reduced to its protocol field.
 */
module UsbBasicKeyboard {
  import opened ReportLayout
  import opened ScancodeCodec
  import opened Wrappers

  type uint16 = x: int | 0 <= x < 0x1_0000
  type uint32 = x: int | 0 <= x < 0x1_0000_0000

  /** The usb_status_t values this interface returns. */
  datatype UsbStatus = Success | Error | Busy | InvalidRequest | AllocFail

  /** Report types of the Get_Report and Set_Report requests (HID 1.11, section 7.2.1). */
  const InputReportType: uint8 := 1
  const OutputReportType: uint8 := 2
  /** USB_BASIC_KEYBOARD_SET_REPORT_LENGTH: the LED output report is one byte. */
  const SetReportLength: nat := 1
  /** HID_KEYBOARD_LED_CAPSLOCK: bit 1 of the LED output report (HID 1.11, Appendix B.1). */
  const CapsLockLed: Byte := 0x02

  /** uint32_t increment: wraps to 0 after 2^32 - 1. */
  function Inc32(c: uint32): (r: uint32)
    ensures r % 2 != c % 2
    ensures r == (c + 1) % 0x1_0000_0000
  {
    if c == 0xFFFF_FFFF then 0 else c + 1
  }

  /** Bytes sent by one transmit: the boot report in boot protocol, the whole report otherwise. */
  function SendLength(protocol: uint8): (n: nat)
    ensures n <= ReportLength
    ensures IsBoot(protocol) <==> n == BootReportLength
    ensures !IsBoot(protocol) ==> n == ReportLength
  {
    if IsBoot(protocol) then BootReportLength else ReportLength
  }

  /** The device stack's HID class handle: the protocol the host last set. */
  class HidHandle {
    var protocol: uint8

    constructor (protocol: uint8)
      ensures this.protocol == protocol
    {
      this.protocol := protocol;
    }
  }

  /** The events UsbBasicKeyboardCallback is called with, with their parameters. */
  datatype HidEvent =
    | SetConfigurationEvent
    | SetInterfaceEvent(alternateSetting: uint8)
    | SendResponse
    | GetReport(reportType: uint8, reportId: uint8, reportLength: uint32)
    | SetReport(reportType: uint8, reportId: uint8, reportLength: uint32, reportBuffer: seq<Byte>)
    | RequestReportBuffer(reportLength: uint32)
    | SetProtocol(value: uint16)
    | OtherEvent(code: uint32)

  /** What the callback hands back through its parameter, or shows on the display. */
  datatype Reply =
    | NoReply
    | ReportBuffer(buffer: array<Byte>)
    | CapsLockIcon(on: bool)

  class BasicKeyboard {
    /** usbBasicKeyboardReports[0] and [1]. */
    const first: array<Byte>
    const second: array<Byte>
    /** usbBasicKeyboardOutBuffer, where the host writes the LED report. */
    const outBuffer: array<Byte>
    /** ActiveUsbBasicKeyboardReport == usbBasicKeyboardReports. */
    var activeIsFirst: bool
    /** UsbBasicKeyboardActionCounter. */
    var actionCounter: uint32
    /** usbBasicKeyboardProtocol, latched from the handle. */
    var protocol: uint8

    /**
     * Two distinct reports of the full length, and the active pointer moves
     * exactly when the counter does, so the first report is active exactly
     * when the counter is even.
     */
    ghost predicate Valid()
      reads this
    {
      && first.Length == ReportLength && second.Length == ReportLength
      && outBuffer.Length == SetReportLength
      && first != second && outBuffer != first && outBuffer != second
      && (activeIsFirst <==> actionCounter % 2 == 0)
    }

    /** The zero-initialised statics: both reports empty, the first active, protocol 0. */
    constructor ()
      ensures Valid() && fresh(first) && fresh(second) && fresh(outBuffer)
      ensures activeIsFirst && actionCounter == 0 && protocol == 0
      ensures first[..] == seq(ReportLength, _ => 0) && second[..] == seq(ReportLength, _ => 0)
    {
      first := new Byte[ReportLength](_ => 0);
      second := new Byte[ReportLength](_ => 0);
      outBuffer := new Byte[SetReportLength](_ => 0);
      activeIsFirst := true;
      actionCounter := 0;
      protocol := 0;
    }

    /** ActiveUsbBasicKeyboardReport. */
    function Active(): (a: array<Byte>)
      reads this
      ensures a == first || a == second
      ensures Valid() ==> (a == first <==> activeIsFirst)
    {
      if activeIsFirst then first else second
    }

    /** GetInactiveUsbBasicKeyboardReport: always the report that is not active. */
    function Inactive(): (a: array<Byte>)
      reads this
      ensures a == first || a == second
      ensures Valid() ==> a != Active() && (a == first <==> !activeIsFirst)
    {
      if activeIsFirst then second else first
    }

    /** SwitchActiveUsbBasicKeyboardReport: the inactive report becomes the active one. */
    method Switch()
      modifies this`activeIsFirst
      ensures activeIsFirst == !old(activeIsFirst)
      ensures Active() == old(Inactive()) && Inactive() == old(Active())
    {
      activeIsFirst := !activeIsFirst;
    }

    /** Switching twice selects the report that was active before. */
    method SwitchTwice()
      requires Valid()
      modifies this`activeIsFirst
      ensures activeIsFirst == old(activeIsFirst) && Active() == old(Active())
    {
      Switch();
      Switch();
    }

    /** UsbBasicKeyboardResetActiveReport: zero every byte of the active report. */
    method ResetActiveReport()
      requires Valid()
      modifies Active()
      ensures Active()[..] == seq(ReportLength, _ => 0)
      ensures Inactive()[..] == old(Inactive()[..])
    {
      var a := Active();
      forall i | 0 <= i < a.Length {
        a[i] := 0;
      }
    }

    /**
     * UsbBasicKeyboardCheckReportReady: Success when the two reports differ in
     * some byte, otherwise the idle check, which always answers Busy.
     */
    function CheckReportReady(): (s: UsbStatus)
      requires Valid()
      reads this, first, second
      ensures s == Success || s == Busy
      ensures s == Success <==> exists i :: 0 <= i < ReportLength && Active()[i] != Inactive()[i]
    {
      if Active()[..] != Inactive()[..] then Success else Busy
    }

    /**
     * UsbBasicKeyboardAction. Detached: Error and nothing changes. Attached:
     * the active report's first SendLength(protocol) bytes are sent; on a
     * successful send the counter is incremented and the reports swap; in
     * either case the protocol is re-latched from the handle and the send's
     * status is returned.
     */
    method Action(handle: HidHandle, attached: bool, sendResult: UsbStatus)
        returns (status: UsbStatus, sent: Option<seq<Byte>>)
      requires Valid()
      modifies this
      ensures Valid()
      ensures !attached ==>
                status == Error && sent == None &&
                activeIsFirst == old(activeIsFirst) && actionCounter == old(actionCounter) &&
                protocol == old(protocol)
      ensures attached ==>
                status == sendResult &&
                sent == Some(old(Active()[..])[..SendLength(old(protocol))]) &&
                protocol == handle.protocol
      ensures attached && sendResult == Success ==>
                actionCounter == Inc32(old(actionCounter)) && activeIsFirst == !old(activeIsFirst)
      ensures attached && sendResult != Success ==>
                actionCounter == old(actionCounter) && activeIsFirst == old(activeIsFirst)
    {
      if !attached {
        return Error, None;
      }
      var length := if protocol == 0 then BootReportLength else ReportLength;
      sent := Some(Active()[..length]);
      status := sendResult;
      if status == Success {
        actionCounter := Inc32(actionCounter);
        Switch();
      }
      protocol := handle.protocol;
    }

    /**
     * UsbBasicKeyboardCallback: the HID class requests and device events. The
     * reply is what the callback stores in the request's reportBuffer, or the
     * Caps Lock state it shows on the display.
     */
    method Callback(handle: HidHandle, event: HidEvent, attached: bool)
        returns (status: UsbStatus, reply: Reply)
      requires Valid()
      requires event.SetReport? ==> |event.reportBuffer| == event.reportLength
      modifies this, handle
      ensures Valid()
      ensures protocol == old(protocol)
      ensures !event.SetProtocol? ==> handle.protocol == old(handle.protocol)
      ensures !(event.GetReport? && status == Success) ==>
                activeIsFirst == old(activeIsFirst) && actionCounter == old(actionCounter)
      ensures event.SetConfigurationEvent? ==> status == Success && reply == NoReply
      ensures event.SetInterfaceEvent? ==>
                reply == NoReply && (status == Success <==> event.alternateSetting == 0) &&
                (status != Success ==> status == InvalidRequest)
      ensures event.SendResponse? ==>
                reply == NoReply && status == (if attached then Success else InvalidRequest)
      ensures event.GetReport? ==>
                if event.reportType == InputReportType && event.reportId == 0 &&
                   event.reportLength <= ReportLength
                then status == Success && reply == ReportBuffer(old(Active())) &&
                     actionCounter == Inc32(old(actionCounter)) && activeIsFirst == !old(activeIsFirst)
                else status == InvalidRequest && reply == NoReply
      ensures event.SetReport? ==>
                if event.reportType == OutputReportType && event.reportId == 0 &&
                   event.reportLength == SetReportLength
                then status == Success &&
                     reply == CapsLockIcon(event.reportBuffer[0] & CapsLockLed != 0)
                else status == InvalidRequest && reply == NoReply
      ensures event.RequestReportBuffer? ==>
                if event.reportLength <= SetReportLength
                then status == Success && reply == ReportBuffer(outBuffer)
                else status == AllocFail && reply == NoReply
      ensures event.SetProtocol? ==>
                reply == NoReply &&
                if event.value % 256 <= 1
                then status == Success && handle.protocol == event.value % 256
                else status == InvalidRequest && handle.protocol == old(handle.protocol)
      ensures event.OtherEvent? ==> status == InvalidRequest && reply == NoReply
    {
      status, reply := InvalidRequest, NoReply;
      match event
      case SetConfigurationEvent =>
        status := Success;
      case SetInterfaceEvent(alternateSetting) =>
        if alternateSetting == 0 {
          status := Success;
        }
      case SendResponse =>
        if attached {
          status := Success;
        }
      case GetReport(reportType, reportId, reportLength) =>
        if reportType == InputReportType && reportId == 0 && reportLength <= ReportLength {
          reply := ReportBuffer(Active());
          actionCounter := Inc32(actionCounter);
          Switch();
          status := Success;
        }
      case SetReport(reportType, reportId, reportLength, reportBuffer) =>
        if reportType == OutputReportType && reportId == 0 && reportLength == outBuffer.Length {
          reply := CapsLockIcon(reportBuffer[0] & CapsLockLed != 0);
          status := Success;
        }
      case RequestReportBuffer(reportLength) =>
        if reportLength <= outBuffer.Length {
          reply := ReportBuffer(outBuffer);
          status := Success;
        } else {
          status := AllocFail;
        }
      case SetProtocol(value) =>
        var report: uint8 := value % 256;
        if report <= 1 {
          handle.protocol := report;
          status := Success;
        }
      case OtherEvent(_) =>
    }

    /**
     * UsbBasicKeyboardSetConfiguration: HID interfaces with boot support start
     * in report protocol, so the protocol becomes 1; the status is Error.
     */
    method SetConfiguration(configuration: uint8) returns (status: UsbStatus)
      requires Valid()
      modifies this`protocol
      ensures Valid() && protocol == 1 && status == Error
    {
      protocol := 1;
      status := Error;
    }

    // -------------------------------------------------------------------------
    // The codec, acting in place on a report array under the latched protocol

    /** UsbBasicKeyboard_AddScancode; `cursor` is *idx, None for a NULL idx. */
    method AddScancode(report: array<Byte>, scancode: Byte, cursor: Option<uint8>)
        returns (newCursor: Option<uint8>)
      requires report.Length == ReportLength
      modifies report
      ensures Added(report[..], newCursor) == Add(protocol, old(report[..]), scancode, cursor)
    {
      newCursor := cursor;
      if protocol == 0 {
        if cursor.Some? && cursor.value < MaxKeys {
          report[PayloadOffset + cursor.value] := scancode;
          newCursor := Some(cursor.value + 1);
          return;
        }
        if cursor.None? {
          for i := 0 to MaxKeys
            invariant report[..] == old(report[..])
            invariant forall j :: 0 <= j < i ==> Slot(report[..], j) != 0
          {
            if report[PayloadOffset + i] == 0 {
              FirstEmptySlot(report[..], i);
              report[PayloadOffset + i] := scancode;
              return;
            }
          }
        }
        SetRolloverError(report);
      } else {
        // the bitfield range first, then the modifier range
        match KeyBit(scancode)
        case Some(b) => SetBit(report, b.base, b.nr);
        case None =>
      }
    }

    /** UsbBasicKeyboard_RemoveScancode. */
    method RemoveScancode(report: array<Byte>, scancode: Byte)
      requires report.Length == ReportLength
      modifies report
      ensures report[..] == Remove(protocol, old(report[..]), scancode)
    {
      if protocol == 0 {
        for i := 0 to MaxKeys
          invariant report[..] == old(report[..])
          invariant FindSlot(report[..], scancode, 0) == FindSlot(report[..], scancode, i)
        {
          if report[PayloadOffset + i] == scancode {
            report[PayloadOffset + i] := 0;
            return;
          }
        }
      } else {
        // the bitfield range first, then the modifier range
        match KeyBit(scancode)
        case Some(b) => ClearBit(report, b.base, b.nr);
        case None =>
      }
    }

    /** UsbBasicKeyboard_ContainsScancode. */
    method ContainsScancode(report: array<Byte>, scancode: Byte) returns (found: bool)
      requires report.Length == ReportLength
      ensures found == Contains(protocol, report[..], scancode)
      ensures IsBoot(protocol) ==>
                (found <==> exists i :: 0 <= i < MaxKeys && Slot(report[..], i) == scancode)
    {
      if protocol == 0 {
        for i := 0 to MaxKeys
          invariant forall j :: 0 <= j < i ==> Slot(report[..], j) != scancode
        {
          if report[PayloadOffset + i] == scancode {
            assert Slot(report[..], i) == scancode;
            return true;
          }
        }
        return false;
      }
      match KeyBit(scancode)
      case Some(b) => found := report[ByteOf(b.base, b.nr)] & BitMask(b.nr % 8) != 0;
      case None => found := false;
    }

    /**
     * UsbBasicKeyboard_MergeReports(target, source, idx): the modifier bytes
     * are or-ed in both protocols, then the payload is merged as the protocol
     * reads it. `cursor` is *idx, None for a NULL idx. The code reads *idx only
     * inside the boot-protocol loop, so a NULL idx is safe in report protocol
     * and, in boot protocol, when source slot 0 is empty; then only the
     * modifier bytes change.
     */
    method MergeReports(target: array<Byte>, source: array<Byte>, cursor: Option<uint8>)
        returns (newCursor: Option<uint8>)
      requires target.Length == ReportLength && source.Length == ReportLength
      requires target != source
      requires cursor.None? && IsBoot(protocol) ==> Slot(source[..], 0) == 0
      modifies target
      ensures newCursor.Some? <==> cursor.Some?
      ensures cursor.Some? ==>
                Merged(target[..], newCursor.value) == Merge(protocol, old(target[..]), source[..], cursor.value)
      ensures cursor.None? ==> target[..] == Merge(protocol, old(target[..]), source[..], 0).report
      ensures cursor.None? && IsBoot(protocol) ==>
                target[..] == old(target[..])[ModifiersOffset := old(target[ModifiersOffset]) | source[ModifiersOffset]]
    {
      if protocol == 0 {
        var c := BootMergeInPlace(target, source, if cursor.Some? then cursor.value else 0);
        newCursor := if cursor.Some? then Some(c) else None;
      } else {
        ReportMergeInPlace(target, source);
        newCursor := cursor;
      }
    }
  }

  /** setRolloverError. */
  method SetRolloverError(report: array<Byte>)
    requires report.Length == ReportLength
    modifies report
    ensures report[..] == Rollover(old(report[..]))
  {
    if report[PayloadOffset] != ErrorRollover {
      forall i | PayloadOffset <= i < PayloadOffset + MaxKeys {
        report[i] := ErrorRollover;
      }
      assert report[..] == Rollover(old(report[..]));
    }
  }

  /**
   * The boot-protocol branch of MergeReports. The loop stops at the first zero
   * source byte and is bounded by the cursor alone.
   */
  method BootMergeInPlace(target: array<Byte>, source: array<Byte>, cursor: uint8) returns (newCursor: uint8)
    requires target.Length == ReportLength && source.Length == ReportLength
    requires target != source
    modifies target
    ensures Merged(target[..], newCursor) == BootMerge(old(target[..]), source[..], cursor)
  {
    target[ModifiersOffset] := target[ModifiersOffset] | source[ModifiersOffset];
    newCursor := AppendKeys(target, source, cursor);
  }

  /** The loop of the boot-protocol merge: copy source keys to the cursor until a zero byte. */
  method AppendKeys(target: array<Byte>, source: array<Byte>, cursor: uint8) returns (newCursor: uint8)
    requires target.Length == ReportLength && source.Length == ReportLength
    requires target != source
    modifies target
    ensures Merged(target[..], newCursor) == BootMergeFrom(old(target[..]), source[..], cursor, 0)
  {
    var i: nat := 0;
    newCursor := cursor;
    while source[PayloadOffset + i] != 0
      invariant i <= MaxKeys && i <= newCursor
      invariant BootMergeFrom(target[..], source[..], newCursor, i) == BootMergeFrom(old(target[..]), source[..], cursor, 0)
      decreases MaxKeys - i
    {
      if newCursor < MaxKeys {
        target[PayloadOffset + newCursor] := source[PayloadOffset + i];
        newCursor := newCursor + 1;
        i := i + 1;
      } else {
        SetRolloverError(target);
        return;
      }
    }
  }

  /** The report-protocol branch of MergeReports: or the modifier byte and each bitfield byte. */
  method ReportMergeInPlace(target: array<Byte>, source: array<Byte>)
    requires target.Length == ReportLength && source.Length == ReportLength
    requires target != source
    modifies target
    ensures target[..] == ReportMerge(old(target[..]), source[..])
  {
    ghost var merged := ReportMerge(target[..], source[..]);
    target[ModifiersOffset] := target[ModifiersOffset] | source[ModifiersOffset];
    for i := 0 to BitfieldLength
      invariant target[..PayloadOffset + i] == merged[..PayloadOffset + i]
      invariant target[PayloadOffset + i..] == old(target[..])[PayloadOffset + i..]
    {
      target[PayloadOffset + i] := target[PayloadOffset + i] | source[PayloadOffset + i];
      assert target[..PayloadOffset + i + 1] == merged[..PayloadOffset + i + 1];
    }
  }
}
