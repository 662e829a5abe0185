/**
 * The scancode codec of usb_interface_basic_keyboard.c, as functions on the
 * bytes of one report: what UsbBasicKeyboard_AddScancode, _RemoveScancode,
 * _ContainsScancode and _MergeReports compute, and the properties they have.
 *
 * `protocol` is the latched usbBasicKeyboardProtocol: 0 selects the boot view
 * (six scancode slots), any other value the report view (a bitfield of keys
 * plus the modifier byte).
 */
module ScancodeCodec {
  import opened ReportLayout
  import opened Wrappers

  predicate IsBoot(protocol: uint8)
  {
    protocol == 0
  }

  // ---------------------------------------------------------------------------
  // Boot protocol: six scancode slots

  /** The first slot at or after `from` that holds `v`. */
  function FindSlot(r: seq<Byte>, v: Byte, from: nat): (k: Option<nat>)
    requires IsReport(r) && from <= MaxKeys
    ensures k.Some? ==> from <= k.value < MaxKeys && Slot(r, k.value) == v
    ensures k.Some? ==> forall j :: from <= j < k.value ==> Slot(r, j) != v
    ensures k.None? ==> forall j :: from <= j < MaxKeys ==> Slot(r, j) != v
    decreases MaxKeys - from
  {
    if from == MaxKeys then None
    else if Slot(r, from) == v then Some(from)
    else FindSlot(r, v, from + 1)
  }

  /** setRolloverError: stamp ErrorRollOver into all six slots unless slot 0 already holds it. */
  function Rollover(r: seq<Byte>): (q: seq<Byte>)
    requires IsReport(r)
    ensures IsReport(q)
    ensures forall k :: 0 <= k < |r| && !(PayloadOffset <= k < PayloadOffset + MaxKeys) ==> q[k] == r[k]
  {
    if Slot(r, 0) != ErrorRollover then
      r[..PayloadOffset] + seq(MaxKeys, _ => ErrorRollover) + r[PayloadOffset + MaxKeys..]
    else
      r
  }

  /** The outcome of an add: the new report and the new value of the cursor, if one was given. */
  datatype Added = Added(report: seq<Byte>, cursor: Option<uint8>)

  /** Boot-protocol add: at the cursor, else in the first empty slot, else rollover. */
  function BootAdd(r: seq<Byte>, scancode: Byte, cursor: Option<uint8>): (a: Added)
    requires IsReport(r)
    ensures IsReport(a.report)
  {
    if cursor.Some? && cursor.value < MaxKeys then
      Added(r[PayloadOffset + cursor.value := scancode], Some(cursor.value + 1))
    else if cursor.None? && FindSlot(r, 0, 0).Some? then
      Added(r[PayloadOffset + FindSlot(r, 0, 0).value := scancode], None)
    else
      Added(Rollover(r), cursor)
  }

  /** Boot-protocol remove: zero the first slot that holds the scancode. */
  function BootRemove(r: seq<Byte>, scancode: Byte): (q: seq<Byte>)
    requires IsReport(r)
    ensures IsReport(q)
  {
    match FindSlot(r, scancode, 0)
    case Some(k) => r[PayloadOffset + k := 0]
    case None => r
  }

  predicate BootContains(r: seq<Byte>, scancode: Byte)
    requires IsReport(r)
  {
    FindSlot(r, scancode, 0).Some?
  }

  // ---------------------------------------------------------------------------
  // Report protocol: one bit per key

  /** A bit of the report: bit `nr` of the bit array that starts at byte `base`. */
  datatype BitPos = BitPos(base: nat, nr: nat)

  /**
   * The bit that stands for a key code under the report protocol: the bitfield
   * range is tested first, then the modifier range; other codes have none.
   */
  function CodeBit(code: uint8): (b: Option<BitPos>)
    ensures b.Some? <==> IsInBitfield(code) || IsInModifiers(code)
    ensures b.Some? ==> ByteOf(b.value.base, b.value.nr) < ReportLength
    ensures b.Some? ==> ByteOf(b.value.base, b.value.nr) != ReservedOffset
  {
    if IsInBitfield(code) then Some(BitPos(PayloadOffset, code - MinBitfieldScancode))
    else if IsInModifiers(code) then Some(BitPos(ModifiersOffset, code - MinModifiersScancode))
    else None
  }

  /** The bit of a scancode byte. */
  function KeyBit(scancode: Byte): (b: Option<BitPos>)
    ensures b.Some? ==> ByteOf(b.value.base, b.value.nr) < ReportLength
    ensures b.Some? ==> ByteOf(b.value.base, b.value.nr) != ReservedOffset
  {
    CodeBit(scancode as int)
  }

  function ReportAdd(r: seq<Byte>, scancode: Byte): (q: seq<Byte>)
    requires IsReport(r)
    ensures IsReport(q)
  {
    match KeyBit(scancode)
    case Some(b) => SetBitAt(r, b.base, b.nr)
    case None => r
  }

  function ReportRemove(r: seq<Byte>, scancode: Byte): (q: seq<Byte>)
    requires IsReport(r)
    ensures IsReport(q)
  {
    match KeyBit(scancode)
    case Some(b) => ClearBitAt(r, b.base, b.nr)
    case None => r
  }

  predicate ReportContains(r: seq<Byte>, scancode: Byte)
    requires IsReport(r)
  {
    match KeyBit(scancode)
    case Some(b) => TestBit(r, b.base, b.nr)
    case None => false
  }

  // ---------------------------------------------------------------------------
  // The operations as the source dispatches them on the protocol

  function Add(protocol: uint8, r: seq<Byte>, scancode: Byte, cursor: Option<uint8>): (a: Added)
    requires IsReport(r)
    ensures IsReport(a.report)
  {
    if IsBoot(protocol) then BootAdd(r, scancode, cursor)
    else Added(ReportAdd(r, scancode), cursor)
  }

  function Remove(protocol: uint8, r: seq<Byte>, scancode: Byte): (q: seq<Byte>)
    requires IsReport(r)
    ensures IsReport(q)
  {
    if IsBoot(protocol) then BootRemove(r, scancode) else ReportRemove(r, scancode)
  }

  predicate Contains(protocol: uint8, r: seq<Byte>, scancode: Byte)
    requires IsReport(r)
  {
    if IsBoot(protocol) then BootContains(r, scancode) else ReportContains(r, scancode)
  }

  // ---------------------------------------------------------------------------
  // Merge

  /** Payload byte `i`: a slot for i < 6, a byte of the union beyond the slots otherwise. */
  function PayloadByte(r: seq<Byte>, i: nat): Byte
    requires IsReport(r) && i < PayloadLength
  {
    r[PayloadOffset + i]
  }

  /** The outcome of a merge: the new target report and the new cursor. */
  datatype Merged = Merged(report: seq<Byte>, cursor: uint8)

  /**
   * The boot-protocol merge loop from source index `i` on. It runs while the
   * source byte at payload index `i` is non-zero and never checks `i < 6`;
   * the cursor alone keeps `i` at most 6, so index 6, the first payload byte
   * past the slots, can be read.
   */
  function BootMergeFrom(t: seq<Byte>, s: seq<Byte>, cursor: uint8, i: nat): (m: Merged)
    requires IsReport(t) && IsReport(s)
    requires i <= MaxKeys && i <= cursor
    ensures IsReport(m.report)
    ensures forall k :: 0 <= k < |t| && !(PayloadOffset <= k < PayloadOffset + MaxKeys) ==> m.report[k] == t[k]
    decreases MaxKeys - i
  {
    if PayloadByte(s, i) == 0 then
      Merged(t, cursor)
    else if cursor < MaxKeys then
      BootMergeFrom(t[PayloadOffset + cursor := PayloadByte(s, i)], s, cursor + 1, i + 1)
    else
      Merged(Rollover(t), cursor)
  }

  function BootMerge(t: seq<Byte>, s: seq<Byte>, cursor: uint8): (m: Merged)
    requires IsReport(t) && IsReport(s)
    ensures IsReport(m.report)
  {
    BootMergeFrom(t[ModifiersOffset := t[ModifiersOffset] | s[ModifiersOffset]], s, cursor, 0)
  }

  /** Report-protocol merge: the modifier byte and every bitfield byte are or-ed pairwise. */
  function ReportMerge(t: seq<Byte>, s: seq<Byte>): (q: seq<Byte>)
    requires IsReport(t) && IsReport(s)
    ensures IsReport(q)
  {
    seq(|t|, k requires 0 <= k < |t| =>
      if k == ModifiersOffset || PayloadOffset <= k < PayloadOffset + BitfieldLength then t[k] | s[k]
      else t[k])
  }

  function Merge(protocol: uint8, t: seq<Byte>, s: seq<Byte>, cursor: uint8): (m: Merged)
    requires IsReport(t) && IsReport(s)
    ensures IsReport(m.report)
  {
    if IsBoot(protocol) then BootMerge(t, s, cursor)
    else Merged(ReportMerge(t, s), cursor)
  }

  // ---------------------------------------------------------------------------
  // Rollover

  /** Rollover fills all six slots, except that it inspects only slot 0, and it is idempotent. */
  lemma RolloverEffect(r: seq<Byte>)
    requires IsReport(r)
    ensures Slot(r, 0) != ErrorRollover ==>
              forall i :: 0 <= i < MaxKeys ==> Slot(Rollover(r), i) == ErrorRollover
    ensures Slot(r, 0) == ErrorRollover ==> Rollover(r) == r
    ensures Rollover(Rollover(r)) == Rollover(r)
  {
    if Slot(r, 0) != ErrorRollover {
      var q := Rollover(r);
      forall i | 0 <= i < MaxKeys ensures Slot(q, i) == ErrorRollover {
        assert q[PayloadOffset + i] == seq(MaxKeys, _ => ErrorRollover)[i];
      }
      assert Slot(q, 0) == ErrorRollover;
    }
  }

  // ---------------------------------------------------------------------------
  // Boot-protocol add and remove

  /** The three boot-protocol cases of AddScancode, stated without the search function. */
  lemma BootAddCases(r: seq<Byte>, scancode: Byte, cursor: Option<uint8>)
    requires IsReport(r)
    ensures cursor.Some? && cursor.value < MaxKeys ==>
              BootAdd(r, scancode, cursor) ==
                Added(r[PayloadOffset + cursor.value := scancode], Some(cursor.value + 1))
    ensures cursor.None? && (exists j :: 0 <= j < MaxKeys && Slot(r, j) == 0) ==>
              exists k :: 0 <= k < MaxKeys && Slot(r, k) == 0 &&
                (forall j :: 0 <= j < k ==> Slot(r, j) != 0) &&
                BootAdd(r, scancode, cursor) == Added(r[PayloadOffset + k := scancode], None)
    ensures (cursor.Some? && cursor.value >= MaxKeys) ||
            (cursor.None? && forall j :: 0 <= j < MaxKeys ==> Slot(r, j) != 0) ==>
              BootAdd(r, scancode, cursor) == Added(Rollover(r), cursor)
  {
    if cursor.None? && (exists j :: 0 <= j < MaxKeys && Slot(r, j) == 0) {
      var k := FindSlot(r, 0, 0);
      assert k.Some?;
      assert Slot(r, k.value) == 0 && forall j :: 0 <= j < k.value ==> Slot(r, j) != 0;
    }
  }

  /** A boot-protocol add that does not roll over leaves the scancode contained. */
  lemma BootAddThenContains(r: seq<Byte>, scancode: Byte, cursor: Option<uint8>)
    requires IsReport(r)
    requires (cursor.Some? && cursor.value < MaxKeys) ||
             (cursor.None? && exists j :: 0 <= j < MaxKeys && Slot(r, j) == 0)
    ensures BootContains(BootAdd(r, scancode, cursor).report, scancode)
  {
    var q := BootAdd(r, scancode, cursor).report;
    BootAddCases(r, scancode, cursor);
    var k: nat;
    if cursor.Some? {
      k := cursor.value;
    } else {
      k :| 0 <= k < MaxKeys && Slot(r, k) == 0 && q == r[PayloadOffset + k := scancode];
    }
    assert Slot(q, k) == scancode;
  }

  /**
   * Boot protocol: Remove zeroes only the first matching slot, so the scancode is
   * still contained afterwards exactly when it occupied two or more slots.
   */
  lemma BootRemoveThenContains(r: seq<Byte>, scancode: Byte)
    requires IsReport(r) && scancode != 0
    ensures BootContains(BootRemove(r, scancode), scancode) <==>
              exists i, j :: 0 <= i < j < MaxKeys && Slot(r, i) == scancode && Slot(r, j) == scancode
  {
    var v := scancode;
    assert v != 0;
    var q := BootRemove(r, scancode);
    var f := FindSlot(r, v, 0);
    if f.Some? {
      var k := f.value;
      assert q == r[PayloadOffset + k := 0];
      if BootContains(q, scancode) {
        var m := FindSlot(q, v, 0).value;
        assert Slot(q, m) == v;
        assert m != k;
        assert Slot(r, m) == v;
      }
      if exists i, j :: 0 <= i < j < MaxKeys && Slot(r, i) == v && Slot(r, j) == v {
        var i, j :| 0 <= i < j < MaxKeys && Slot(r, i) == v && Slot(r, j) == v;
        assert k <= i;
        assert Slot(q, j) == v;
      }
    }
  }

  /** Boot protocol: removing 0 rewrites an empty slot with 0, so the report is unchanged. */
  lemma BootRemoveZero(r: seq<Byte>)
    requires IsReport(r)
    ensures BootRemove(r, 0) == r
  {
  }

  /** The report after adding `codes` in order, without a cursor, under the boot protocol. */
  function AddAll(r: seq<Byte>, codes: seq<Byte>): (q: seq<Byte>)
    requires IsReport(r)
    ensures IsReport(q)
    decreases |codes|
  {
    if codes == [] then r
    else BootAdd(AddAll(r, codes[..|codes| - 1]), codes[|codes| - 1], None).report
  }

  /** Up to six non-zero keys added to an empty report land in order, one per slot. */
  lemma {:induction false} AddAllFillsInOrder(r: seq<Byte>, codes: seq<Byte>)
    requires IsReport(r) && forall i :: 0 <= i < MaxKeys ==> Slot(r, i) == 0
    requires |codes| <= MaxKeys && forall i :: 0 <= i < |codes| ==> codes[i] != 0
    ensures forall i :: 0 <= i < |codes| ==> Slot(AddAll(r, codes), i) == codes[i]
    ensures forall i :: |codes| <= i < MaxKeys ==> Slot(AddAll(r, codes), i) == 0
    ensures forall k :: 0 <= k < ReportLength && !(PayloadOffset <= k < PayloadOffset + MaxKeys) ==>
              AddAll(r, codes)[k] == r[k]
    decreases |codes|
  {
    if codes != [] {
      var n := |codes| - 1;
      var prefix := codes[..n];
      AddAllFillsInOrder(r, prefix);
      var p := AddAll(r, prefix);
      assert forall i :: 0 <= i < n ==> Slot(p, i) == codes[i];
      FillSlot(p, n, codes[n]);
      assert AddAll(r, codes) == BootAdd(p, codes[n], None).report;
    }
  }

  /** Adding to a report whose first `n` slots are taken and the rest empty fills slot `n`. */
  lemma FillSlot(p: seq<Byte>, n: nat, scancode: Byte)
    requires IsReport(p) && n < MaxKeys
    requires forall j :: 0 <= j < n ==> Slot(p, j) != 0
    requires forall j :: n <= j < MaxKeys ==> Slot(p, j) == 0
    ensures BootAdd(p, scancode, None).report == p[PayloadOffset + n := scancode]
    ensures forall i :: 0 <= i < MaxKeys && i != n ==> Slot(BootAdd(p, scancode, None).report, i) == Slot(p, i)
    ensures Slot(BootAdd(p, scancode, None).report, n) == scancode
  {
    FirstEmptySlot(p, n);
  }

  /** The search for an empty slot stops at the first zero. */
  lemma FirstEmptySlot(p: seq<Byte>, n: nat)
    requires IsReport(p) && n < MaxKeys
    requires forall j :: 0 <= j < n ==> Slot(p, j) != 0
    requires Slot(p, n) == 0
    ensures FindSlot(p, 0, 0) == Some(n)
  {
  }

  /**
   * Adding a seventh key to six held keys rolls over: all six slots hold
   * ErrorRollOver. The rollover guard looks only at slot 0, so when the first
   * key held is itself ErrorRollOver the seventh add changes nothing.
   */
  lemma SeventhKeyRollsOver(r: seq<Byte>, codes: seq<Byte>)
    requires IsReport(r) && forall i :: 0 <= i < MaxKeys ==> Slot(r, i) == 0
    requires |codes| == MaxKeys + 1 && forall i :: 0 <= i < |codes| ==> codes[i] != 0
    ensures codes[0] != ErrorRollover ==>
              forall i :: 0 <= i < MaxKeys ==> Slot(AddAll(r, codes), i) == ErrorRollover
    ensures codes[0] == ErrorRollover ==> AddAll(r, codes) == AddAll(r, codes[..MaxKeys])
    ensures codes[0] == ErrorRollover ==>
              forall i :: 0 <= i < MaxKeys ==> Slot(AddAll(r, codes), i) == codes[i]
  {
    var six := codes[..MaxKeys];
    AddAllFillsInOrder(r, six);
    var p := AddAll(r, six);
    assert forall j :: 0 <= j < MaxKeys ==> Slot(p, j) == codes[j] by {
      forall j | 0 <= j < MaxKeys ensures Slot(p, j) == codes[j] {
        assert Slot(p, j) == six[j];
      }
    }
    BootAddCases(p, codes[MaxKeys], None);
    assert AddAll(r, codes) == Rollover(p);
    RolloverEffect(p);
  }

  // ---------------------------------------------------------------------------
  // Report-protocol add, remove and contains

  /** Distinct key codes that have a bit have different bits. */
  lemma CodeBitsApart(code: uint8, other: uint8)
    requires code != other && CodeBit(code).Some? && CodeBit(other).Some?
    ensures Apart(CodeBit(code).value.base, CodeBit(code).value.nr,
                  CodeBit(other).value.base, CodeBit(other).value.nr)
  {
    var b, c := CodeBit(code).value, CodeBit(other).value;
    if b.base == c.base {
      SameBitSameNumber(b.base, b.nr, c.nr);
    } else {
      assert ByteOf(b.base, b.nr) != ByteOf(c.base, c.nr);
    }
  }

  /** Distinct scancodes that have a bit have different bits. */
  lemma KeyBitsApart(scancode: Byte, other: Byte)
    requires scancode != other && KeyBit(scancode).Some? && KeyBit(other).Some?
    ensures Apart(KeyBit(scancode).value.base, KeyBit(scancode).value.nr,
                  KeyBit(other).value.base, KeyBit(other).value.nr)
  {
    CodeInjective(scancode, other);
    CodeBitsApart(scancode as int, other as int);
  }

  /**
   * Which bit a scancode has under the report protocol: a bitfield code is bit
   * `code - MinBitfieldScancode` of the bitfield, a modifier code is bit
   * `code - MinModifiersScancode` of the modifier byte, and any other code has
   * no bit. The two ranges are disjoint, so testing the bitfield range first
   * never hides a modifier.
   */
  lemma ReportBitPositions(r: seq<Byte>, scancode: Byte)
    requires IsReport(r)
    ensures IsInBitfield(scancode as int) ==>
              (ReportContains(r, scancode) <==> TestBit(r, PayloadOffset, scancode as int - MinBitfieldScancode))
    ensures IsInModifiers(scancode as int) ==>
              (ReportContains(r, scancode) <==> TestBit(r, ModifiersOffset, scancode as int - MinModifiersScancode))
    ensures !IsInBitfield(scancode as int) && !IsInModifiers(scancode as int) ==> !ReportContains(r, scancode)
  {
  }

  /**
   * The ends of both ranges on the wire: the lowest bitfield code is bit 0 of
   * report byte 2 and the highest is bit 1 of byte 29; LeftControl is bit 0
   * and RightGUI bit 7 of the modifier byte.
   */
  lemma ReportWirePositions(r: seq<Byte>)
    requires IsReport(r)
    ensures ReportContains(r, 0x04) <==> r[2] & 0x01 != 0
    ensures ReportContains(r, 0xDD) <==> r[29] & 0x02 != 0
    ensures ReportContains(r, 0xE0) <==> r[0] & 0x01 != 0
    ensures ReportContains(r, 0xE7) <==> r[0] & 0x80 != 0
  {
    ReportBitPositions(r, 0x04);
    ReportBitPositions(r, 0xDD);
    ReportBitPositions(r, 0xE0);
    ReportBitPositions(r, 0xE7);
  }

  /**
   * Report protocol: Add sets the scancode's bit, so Contains becomes true when
   * the scancode has one; Contains is unchanged for every other scancode; a
   * scancode outside both ranges leaves the report as it was.
   */
  lemma ReportAddExact(r: seq<Byte>, scancode: Byte, other: Byte)
    requires IsReport(r)
    ensures KeyBit(scancode).Some? ==> ReportContains(ReportAdd(r, scancode), scancode)
    ensures KeyBit(scancode).None? ==> ReportAdd(r, scancode) == r && !ReportContains(r, scancode)
    ensures other != scancode ==>
              ReportContains(ReportAdd(r, scancode), other) == ReportContains(r, other)
  {
    match KeyBit(scancode)
    case None =>
    case Some(b) =>
      SetBitExact(r, b.base, b.nr);
      if other != scancode && KeyBit(other).Some? {
        KeyBitsApart(scancode, other);
        SetBitKeepsOthers(r, b.base, b.nr, KeyBit(other).value.base, KeyBit(other).value.nr);
      }
  }

  /** Report protocol: Remove clears the scancode's bit and no other. */
  lemma ReportRemoveExact(r: seq<Byte>, scancode: Byte, other: Byte)
    requires IsReport(r)
    ensures !ReportContains(ReportRemove(r, scancode), scancode)
    ensures KeyBit(scancode).None? ==> ReportRemove(r, scancode) == r
    ensures other != scancode ==>
              ReportContains(ReportRemove(r, scancode), other) == ReportContains(r, other)
  {
    match KeyBit(scancode)
    case None =>
    case Some(b) =>
      ClearBitExact(r, b.base, b.nr);
      if other != scancode && KeyBit(other).Some? {
        KeyBitsApart(scancode, other);
        ClearBitKeepsOthers(r, b.base, b.nr, KeyBit(other).value.base, KeyBit(other).value.nr);
      }
  }

  // ---------------------------------------------------------------------------
  // Boot-protocol merge

  /** `t` with slots c .. c+n-1 taken from source slots 0 .. n-1. */
  function Placed(t: seq<Byte>, s: seq<Byte>, c: nat, n: nat): (q: seq<Byte>)
    requires IsReport(t) && IsReport(s)
    requires n == 0 || c + n <= MaxKeys
    ensures IsReport(q)
  {
    seq(|t|, k requires 0 <= k < |t| =>
      if PayloadOffset + c <= k < PayloadOffset + c + n then s[k - c] else t[k])
  }

  /** Placing one more source slot extends the placed run by one. */
  lemma PlacedStep(t: seq<Byte>, s: seq<Byte>, c: nat, i: nat)
    requires IsReport(t) && IsReport(s) && c + i < MaxKeys
    ensures Placed(t, s, c, i)[PayloadOffset + c + i := PayloadByte(s, i)] == Placed(t, s, c, i + 1)
  {
  }

  lemma {:induction false} MergeFromAppends(t: seq<Byte>, s: seq<Byte>, c0: nat, i: nat, n: nat)
    requires IsReport(t) && IsReport(s)
    requires i <= n && c0 + n <= MaxKeys
    requires forall j :: i <= j < n ==> PayloadByte(s, j) != 0
    requires PayloadByte(s, n) == 0
    ensures BootMergeFrom(Placed(t, s, c0, i), s, c0 + i, i) == Merged(Placed(t, s, c0, n), c0 + n)
    decreases n - i
  {
    if i < n {
      PlacedStep(t, s, c0, i);
      MergeFromAppends(t, s, c0, i + 1, n);
    }
  }

  lemma {:induction false} MergeFromOverflows(t: seq<Byte>, s: seq<Byte>, c0: uint8, i: nat, w: nat)
    requires IsReport(t) && IsReport(s)
    requires c0 + w == MaxKeys || (w == 0 && c0 >= MaxKeys)
    requires i <= w
    requires forall j :: i <= j <= w ==> PayloadByte(s, j) != 0
    ensures BootMergeFrom(Placed(t, s, c0, i), s, c0 + i, i) == Merged(Rollover(Placed(t, s, c0, w)), c0 + w)
    decreases w - i
  {
    if i < w {
      PlacedStep(t, s, c0, i);
      MergeFromOverflows(t, s, c0, i + 1, w);
    }
  }

  /**
   * Boot-protocol merge, no overflow: when the source's non-zero run has length
   * n and fits after the cursor, it is copied to slots cursor .. cursor+n-1,
   * the modifier bytes are or-ed, the cursor advances by n and nothing else changes.
   */
  lemma BootMergeAppends(t: seq<Byte>, s: seq<Byte>, cursor: uint8, n: nat)
    requires IsReport(t) && IsReport(s)
    requires n == 0 || cursor + n <= MaxKeys
    requires forall j :: 0 <= j < n ==> PayloadByte(s, j) != 0
    requires PayloadByte(s, n) == 0
    ensures BootMerge(t, s, cursor).cursor == cursor + n
    ensures BootMerge(t, s, cursor).report[ModifiersOffset] == t[ModifiersOffset] | s[ModifiersOffset]
    ensures forall j :: 0 <= j < n ==> Slot(BootMerge(t, s, cursor).report, cursor + j) == Slot(s, j)
    ensures forall k :: ModifiersOffset < k < ReportLength &&
                        !(PayloadOffset + cursor <= k < PayloadOffset + cursor + n) ==>
                          BootMerge(t, s, cursor).report[k] == t[k]
  {
    var t' := t[ModifiersOffset := t[ModifiersOffset] | s[ModifiersOffset]];
    if n == 0 {
      assert BootMerge(t, s, cursor) == Merged(t', cursor);
    } else {
      assert Placed(t', s, cursor, 0) == t';
      MergeFromAppends(t', s, cursor, 0, n);
      PlacedContents(t', s, cursor, n);
    }
  }

  /** What Placed holds: the copied slots, and the target's bytes everywhere else. */
  lemma PlacedContents(t: seq<Byte>, s: seq<Byte>, c: nat, n: nat)
    requires IsReport(t) && IsReport(s) && c + n <= MaxKeys
    ensures forall j :: 0 <= j < n ==> Slot(Placed(t, s, c, n), c + j) == Slot(s, j)
    ensures forall k :: 0 <= k < ReportLength && !(PayloadOffset + c <= k < PayloadOffset + c + n) ==>
              Placed(t, s, c, n)[k] == t[k]
  {
    var q := Placed(t, s, c, n);
    forall j | 0 <= j < n ensures Slot(q, c + j) == Slot(s, j) {
      assert q[PayloadOffset + c + j] == s[PayloadOffset + j];
    }
  }

  /**
   * Boot-protocol merge, overflow: when the source's non-zero run is longer
   * than the room after the cursor, the room is filled, rollover is applied
   * and the merge stops with the cursor at 6 (or where it was, if already past).
   */
  lemma BootMergeOverflows(t: seq<Byte>, s: seq<Byte>, cursor: uint8)
    requires IsReport(t) && IsReport(s)
    requires var w := if cursor < MaxKeys then MaxKeys - cursor else 0;
             forall j :: 0 <= j <= w ==> PayloadByte(s, j) != 0
    ensures var w := if cursor < MaxKeys then MaxKeys - cursor else 0;
            var t' := t[ModifiersOffset := t[ModifiersOffset] | s[ModifiersOffset]];
            BootMerge(t, s, cursor) == Merged(Rollover(Placed(t', s, cursor, w)), cursor + w)
  {
    var w := if cursor < MaxKeys then MaxKeys - cursor else 0;
    var t' := t[ModifiersOffset := t[ModifiersOffset] | s[ModifiersOffset]];
    assert Placed(t', s, cursor, 0) == t';
    MergeFromOverflows(t', s, cursor, 0, w);
  }

  /**
   * The boot merge loop has no bound of its own: with the cursor at 0 and all
   * six source slots non-zero, the outcome is decided by payload byte 6, which
   * is not a scancode slot (it is a bitfield byte of the union). A zero there
   * gives the six codes; anything else gives rollover.
   */
  lemma MergeConsultsPayloadByteSix(t: seq<Byte>, s: seq<Byte>)
    requires IsReport(t) && IsReport(s)
    requires forall j :: 0 <= j < MaxKeys ==> Slot(s, j) != 0
    ensures PayloadByte(s, MaxKeys) == 0 ==>
              ScancodeView(BootMerge(t, s, 0).report) == ScancodeView(s)
    ensures PayloadByte(s, MaxKeys) != 0 && Slot(s, 0) != ErrorRollover ==>
              ScancodeView(BootMerge(t, s, 0).report) == seq(MaxKeys, _ => ErrorRollover)
  {
    assert forall j :: 0 <= j < MaxKeys ==> PayloadByte(s, j) == Slot(s, j);
    if PayloadByte(s, MaxKeys) == 0 {
      BootMergeAppends(t, s, 0, MaxKeys);
    } else {
      BootMergeOverflows(t, s, 0);
      var t' := t[ModifiersOffset := t[ModifiersOffset] | s[ModifiersOffset]];
      var p := Placed(t', s, 0, MaxKeys);
      assert Slot(p, 0) == Slot(s, 0);
      RolloverEffect(p);
    }
  }

  // ---------------------------------------------------------------------------
  // Report-protocol merge

  /** Report-protocol merge is set union: the merged report holds a key iff either report did. */
  lemma ReportMergeUnion(t: seq<Byte>, s: seq<Byte>, scancode: Byte)
    requires IsReport(t) && IsReport(s)
    ensures ReportContains(ReportMerge(t, s), scancode) <==>
              ReportContains(t, scancode) || ReportContains(s, scancode)
  {
    match KeyBit(scancode)
    case None =>
    case Some(b) => MergeBit(t, s, b.base, b.nr);
  }

  /** One bit of the report-protocol merge is the or of that bit in the two reports. */
  lemma MergeBit(t: seq<Byte>, s: seq<Byte>, base: nat, nr: nat)
    requires IsReport(t) && IsReport(s)
    requires ByteOf(base, nr) == ModifiersOffset ||
             PayloadOffset <= ByteOf(base, nr) < PayloadOffset + BitfieldLength
    ensures TestBit(ReportMerge(t, s), base, nr) <==> TestBit(t, base, nr) || TestBit(s, base, nr)
  {
    var k := ByteOf(base, nr);
    assert ReportMerge(t, s)[k] == t[k] | s[k];
    TestBitOfOr(ReportMerge(t, s), t, s, base, nr);
  }

  /** The reserved byte is never written by any codec operation. */
  lemma ReservedByteKept(protocol: uint8, r: seq<Byte>, s: seq<Byte>, scancode: Byte,
                         cursor: Option<uint8>, mergeCursor: uint8)
    requires IsReport(r) && IsReport(s)
    ensures Add(protocol, r, scancode, cursor).report[ReservedOffset] == r[ReservedOffset]
    ensures Remove(protocol, r, scancode)[ReservedOffset] == r[ReservedOffset]
    ensures Merge(protocol, r, s, mergeCursor).report[ReservedOffset] == r[ReservedOffset]
  {
    if IsBoot(protocol) {
      var t := r[ModifiersOffset := r[ModifiersOffset] | s[ModifiersOffset]];
      assert BootMergeFrom(t, s, mergeCursor, 0).report[ReservedOffset] == t[ReservedOffset];
    } else {
      assert ReportMerge(r, s)[ReservedOffset] == r[ReservedOffset];
    }
  }
}
