/**
 * The packed keyboard report and the byte-array bit helpers of
 * usb_interface_basic_keyboard.h.
 *
 * A report is one run of bytes: the modifier byte, the reserved byte, then a
 * payload that is read either as six boot-protocol scancode slots or as the
 * report-protocol bitfield. Both views are offsets into the same bytes, which
 * is exactly what the C union does.
 */
module ReportLayout {

  /** A byte of a report; bit operations act on it. */
  type Byte = bv8

  /** uint8_t values that are compared and counted rather than masked: scancodes, cursors, the protocol. */
  type uint8 = x: int | 0 <= x < 256

  // Constants of the report descriptor header, which is not part of this model.
  // The values below are assumptions, chosen to satisfy the facts collected in
  // `ConstantsAgree`; the proofs work on the concrete values.

  /** USB_BOOT_KEYBOARD_MAX_KEYS: scancode slots of the boot report (HID 1.11, Appendix B.1). */
  const MaxKeys: nat := 6
  /** USB_BOOT_KEYBOARD_REPORT_LENGTH: modifiers, reserved, six slots. */
  const BootReportLength: nat := 8
  /** USB_BASIC_KEYBOARD_MIN_BITFIELD_SCANCODE / MAX_BITFIELD_SCANCODE. */
  const MinBitfieldScancode: nat := 0x04
  const MaxBitfieldScancode: nat := 0xDD
  /** USB_BASIC_KEYBOARD_BITFIELD_LENGTH: bytes of the report-protocol bitfield. */
  const BitfieldLength: nat := 28
  /** USB_BASIC_KEYBOARD_MIN_MODIFIERS_SCANCODE / MAX_MODIFIERS_SCANCODE: LeftControl .. RightGUI. */
  const MinModifiersScancode: nat := 0xE0
  const MaxModifiersScancode: nat := 0xE7
  /** HID_KEYBOARD_SC_ERROR_ROLLOVER: the ErrorRollOver usage of the Keyboard/Keypad page. */
  const ErrorRollover: Byte := 0x01

  const ModifiersOffset: nat := 0
  const ReservedOffset: nat := 1
  const PayloadOffset: nat := 2
  /** The union is as long as its longer member. */
  const PayloadLength: nat := if MaxKeys < BitfieldLength then BitfieldLength else MaxKeys
  /** USB_BASIC_KEYBOARD_REPORT_LENGTH, equal to sizeof(usb_basic_keyboard_report_t). */
  const ReportLength: nat := PayloadOffset + PayloadLength

  /** The assumptions the model makes about the unseen constants. */
  predicate ConstantsAgree()
  {
    // the bitfield range fits in the bitfield
    && MinBitfieldScancode <= MaxBitfieldScancode
    && MaxBitfieldScancode - MinBitfieldScancode < 8 * BitfieldLength
    // the modifier range fits in the modifier byte
    && MinModifiersScancode <= MaxModifiersScancode
    && MaxModifiersScancode - MinModifiersScancode < 8
    // the two ranges do not overlap
    && MaxBitfieldScancode < MinModifiersScancode
    // the payload holds at least one byte past the six slots
    && MaxKeys < PayloadLength
    && BootReportLength == PayloadOffset + MaxKeys
    && MaxModifiersScancode < 256 && ErrorRollover != 0
    // the two bit arrays lie in the report and never reach the reserved byte
    && ModifiersOffset < ReservedOffset < PayloadOffset
    && PayloadOffset + (MaxBitfieldScancode - MinBitfieldScancode) / 8 < ReportLength
  }

  lemma ConstantsHold()
    ensures ConstantsAgree()
  {
  }

  predicate IsReport(r: seq<Byte>)
  {
    |r| == ReportLength
  }

  /** USB_BASIC_KEYBOARD_IS_IN_BITFIELD: an inclusive range test. */
  predicate IsInBitfield(scancode: uint8)
  {
    MinBitfieldScancode <= scancode <= MaxBitfieldScancode
  }

  /** USB_BASIC_KEYBOARD_IS_IN_MODIFIERS: an inclusive range test. */
  predicate IsInModifiers(scancode: uint8)
  {
    MinModifiersScancode <= scancode <= MaxModifiersScancode
  }

  lemma RangesInclusive(scancode: uint8)
    ensures IsInBitfield(MinBitfieldScancode) && IsInBitfield(MaxBitfieldScancode)
    ensures IsInModifiers(MinModifiersScancode) && IsInModifiers(MaxModifiersScancode)
    ensures !IsInBitfield(MinBitfieldScancode - 1) && !IsInBitfield(MaxBitfieldScancode + 1)
    ensures !IsInModifiers(MinModifiersScancode - 1) && !IsInModifiers(MaxModifiersScancode + 1)
    ensures !(IsInBitfield(scancode) && IsInModifiers(scancode))
  {
  }

  /** A byte read as a number: distinct bytes are distinct numbers. */
  lemma CodeInjective(x: Byte, y: Byte)
    ensures x != y ==> x as int != y as int
  {
  }

  /** Slot `i` of the boot-protocol view. */
  function Slot(r: seq<Byte>, i: nat): Byte
    requires IsReport(r) && i < MaxKeys
  {
    r[PayloadOffset + i]
  }

  /** The boot-protocol view: the six scancode slots. */
  function ScancodeView(r: seq<Byte>): (v: seq<Byte>)
    requires IsReport(r)
    ensures |v| == MaxKeys
    ensures forall i :: 0 <= i < MaxKeys ==> v[i] == Slot(r, i)
  {
    r[PayloadOffset..PayloadOffset + MaxKeys]
  }

  /** The report-protocol view: the bitfield bytes. */
  function BitfieldView(r: seq<Byte>): (v: seq<Byte>)
    requires IsReport(r)
    ensures |v| == BitfieldLength
  {
    r[PayloadOffset..PayloadOffset + BitfieldLength]
  }

  /** The two views share storage: the slots are the first bytes of the bitfield. */
  lemma ViewsOverlap(r: seq<Byte>)
    requires IsReport(r)
    ensures ScancodeView(r) == BitfieldView(r)[..MaxKeys]
  {
  }

  // --- test_bit / set_bit / clear_bit over the bytes starting at `base` ---
  // The source computes nr >> 3 and nr & 7; every caller passes a non-negative
  // nr, for which these are nr / 8 and nr % 8.

  /** The byte of bit `nr` when the bit array starts at `base`. */
  function ByteOf(base: nat, nr: nat): nat
  {
    base + nr / 8
  }

  /** 1 << bit, for a bit number below 8. */
  function BitMask(bit: nat): Byte
    requires bit < 8
  {
    if bit == 0 then 0x01 else if bit == 1 then 0x02 else if bit == 2 then 0x04
    else if bit == 3 then 0x08 else if bit == 4 then 0x10 else if bit == 5 then 0x20
    else if bit == 6 then 0x40 else 0x80
  }

  predicate TestBit(p: seq<Byte>, base: nat, nr: nat)
    requires ByteOf(base, nr) < |p|
  {
    p[ByteOf(base, nr)] & BitMask(nr % 8) != 0
  }

  function SetBitAt(p: seq<Byte>, base: nat, nr: nat): seq<Byte>
    requires ByteOf(base, nr) < |p|
  {
    p[ByteOf(base, nr) := p[ByteOf(base, nr)] | BitMask(nr % 8)]
  }

  function ClearBitAt(p: seq<Byte>, base: nat, nr: nat): seq<Byte>
    requires ByteOf(base, nr) < |p|
  {
    p[ByteOf(base, nr) := p[ByteOf(base, nr)] & !BitMask(nr % 8)]
  }

  /** set_bit: p[nr >> 3] |= 1 << (nr & 7). */
  method SetBit(p: array<Byte>, base: nat, nr: nat)
    requires ByteOf(base, nr) < p.Length
    modifies p
    ensures p[..] == SetBitAt(old(p[..]), base, nr)
  {
    var k := ByteOf(base, nr);
    p[k] := p[k] | BitMask(nr % 8);
  }

  /** clear_bit: p[nr >> 3] &= ~(1 << (nr & 7)). */
  method ClearBit(p: array<Byte>, base: nat, nr: nat)
    requires ByteOf(base, nr) < p.Length
    modifies p
    ensures p[..] == ClearBitAt(old(p[..]), base, nr)
  {
    var k := ByteOf(base, nr);
    p[k] := p[k] & !BitMask(nr % 8);
  }

  /** One byte: or-ing a mask sets that bit and only that bit. */
  lemma MaskOr(x: Byte, i: nat, j: nat)
    requires i < 8 && j < 8
    ensures (x | BitMask(i)) & BitMask(j) != 0 <==> i == j || x & BitMask(j) != 0
  {
    assert BitMask(i) & BitMask(j) != 0 <==> i == j by { MaskDistinct(i, j); }
  }

  /** One byte: and-ing the complement of a mask clears that bit and only that bit. */
  lemma MaskAndNot(x: Byte, i: nat, j: nat)
    requires i < 8 && j < 8
    ensures (x & !BitMask(i)) & BitMask(j) != 0 <==> i != j && x & BitMask(j) != 0
  {
    assert BitMask(i) & BitMask(j) != 0 <==> i == j by { MaskDistinct(i, j); }
  }

  /** One byte: x | y has a bit of a mask iff x or y has it. */
  lemma OrMask(x: Byte, y: Byte, m: Byte)
    ensures (x | y) & m != 0 <==> x & m != 0 || y & m != 0
  {
  }

  lemma MaskDistinct(i: nat, j: nat)
    requires i < 8 && j < 8
    ensures BitMask(i) & BitMask(j) != 0 <==> i == j
  {
  }

  /** Two bit numbers on the same base name the same bit only if they are equal. */
  lemma SameBitSameNumber(base: nat, nr: nat, m: nat)
    ensures ByteOf(base, nr) == ByteOf(base, m) && nr % 8 == m % 8 ==> nr == m
  {
  }

  /** Two bit positions (base, nr) name different bits of the report. */
  predicate Apart(base: nat, nr: nat, base2: nat, m: nat)
  {
    ByteOf(base, nr) != ByteOf(base2, m) || nr % 8 != m % 8
  }

  /** set_bit followed by test_bit is true, and set_bit changes no other byte. */
  lemma SetBitExact(p: seq<Byte>, base: nat, nr: nat)
    requires ByteOf(base, nr) < |p|
    ensures |SetBitAt(p, base, nr)| == |p|
    ensures TestBit(SetBitAt(p, base, nr), base, nr)
    ensures forall i :: 0 <= i < |p| && i != ByteOf(base, nr) ==> SetBitAt(p, base, nr)[i] == p[i]
  {
    MaskOr(p[ByteOf(base, nr)], nr % 8, nr % 8);
  }

  /** set_bit leaves every other bit of the array as it was. */
  lemma SetBitKeepsOthers(p: seq<Byte>, base: nat, nr: nat, base2: nat, m: nat)
    requires ByteOf(base, nr) < |p| && ByteOf(base2, m) < |p|
    requires Apart(base, nr, base2, m)
    ensures TestBit(SetBitAt(p, base, nr), base2, m) == TestBit(p, base2, m)
  {
    var k, k2 := ByteOf(base, nr), ByteOf(base2, m);
    if k == k2 {
      MaskOr(p[k], nr % 8, m % 8);
    } else {
      assert SetBitAt(p, base, nr)[k2] == p[k2];
    }
  }

  /** clear_bit followed by test_bit is false, and clear_bit changes no other byte. */
  lemma ClearBitExact(p: seq<Byte>, base: nat, nr: nat)
    requires ByteOf(base, nr) < |p|
    ensures |ClearBitAt(p, base, nr)| == |p|
    ensures !TestBit(ClearBitAt(p, base, nr), base, nr)
    ensures forall i :: 0 <= i < |p| && i != ByteOf(base, nr) ==> ClearBitAt(p, base, nr)[i] == p[i]
  {
    MaskAndNot(p[ByteOf(base, nr)], nr % 8, nr % 8);
  }

  /** clear_bit leaves every other bit of the array as it was. */
  lemma ClearBitKeepsOthers(p: seq<Byte>, base: nat, nr: nat, base2: nat, m: nat)
    requires ByteOf(base, nr) < |p| && ByteOf(base2, m) < |p|
    requires Apart(base, nr, base2, m)
    ensures TestBit(ClearBitAt(p, base, nr), base2, m) == TestBit(p, base2, m)
  {
    var k, k2 := ByteOf(base, nr), ByteOf(base2, m);
    if k == k2 {
      MaskAndNot(p[k], nr % 8, m % 8);
    } else {
      assert ClearBitAt(p, base, nr)[k2] == p[k2];
    }
  }

  /** A bit of a byte that is the or of two bytes is set iff it is set in either. */
  lemma TestBitOfOr(p: seq<Byte>, x: seq<Byte>, y: seq<Byte>, base: nat, nr: nat)
    requires ByteOf(base, nr) < |p| && ByteOf(base, nr) < |x| && ByteOf(base, nr) < |y|
    requires p[ByteOf(base, nr)] == x[ByteOf(base, nr)] | y[ByteOf(base, nr)]
    ensures TestBit(p, base, nr) <==> TestBit(x, base, nr) || TestBit(y, base, nr)
  {
    var k, m := ByteOf(base, nr), BitMask(nr % 8);
    OrMask(x[k], y[k], m);
  }

  /** set_bit and clear_bit are idempotent; set_bit after clear_bit sets the bit whatever it was. */
  lemma SetClearAlgebra(p: seq<Byte>, base: nat, nr: nat)
    requires ByteOf(base, nr) < |p|
    ensures SetBitAt(SetBitAt(p, base, nr), base, nr) == SetBitAt(p, base, nr)
    ensures ClearBitAt(ClearBitAt(p, base, nr), base, nr) == ClearBitAt(p, base, nr)
    ensures SetBitAt(ClearBitAt(p, base, nr), base, nr) == SetBitAt(p, base, nr)
    ensures ClearBitAt(SetBitAt(p, base, nr), base, nr) == ClearBitAt(p, base, nr)
  {
  }
}
