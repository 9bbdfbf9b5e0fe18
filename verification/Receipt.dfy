/**
 * The install receipt: two 64-byte slots on one flash page, written word by word with the commit word
 * last and never erased. Programming flash can only clear digits.
 */
module Receipt {
  import opened Bits
  import opened Crc
  import opened Options

  const PAGE_SIZE: nat := 4096
  const SLOTS: nat := 16
  const SLOT_SIZE: nat := 64
  const BODY: nat := 32
  const COMMIT_AT: nat := 36
  const ERASED: byte := 255

  const PAGE_MAGIC0: uint32 := 0x5249_4353
  const PAGE_MAGIC1: uint32 := 0x3130_5043
  const SLOT_MAGIC: uint32 := 0x3152_4353
  const COMMIT: uint32 := 0x5449_4d43
  const RECEIPT_FORMAT: uint16 := 1
  const FIRMWARE_REVISION: uint16 := 4
  const SOURCE_APP_CENTER: byte := 1
  const SOURCE_FIRST_OBSERVED: byte := 2

  type InstallId = s: seq<byte> | |s| == 16 witness seq(16, _ => 0)
  type Slot = s: seq<byte> | |s| == SLOT_SIZE witness seq(SLOT_SIZE, _ => 0)
  type Page = s: seq<byte> | |s| == PAGE_SIZE witness seq(PAGE_SIZE, _ => 0)

  datatype ReceiptData = ReceiptData(installedAt: uint64, installId: InstallId, source: byte)

  datatype Status = Pending | Recorded(receipt: ReceiptData) | Invalid

  // ----- Reading -----

  predicate WellFormed(data: ReceiptData) {
    && data.installedAt != 0
    && data.installedAt <= 0x7fff_ffff_ffff_ffff
    && (data.source == SOURCE_APP_CENTER || data.source == SOURCE_FIRST_OBSERVED)
    && exists k | 0 <= k < 16 :: data.installId[k] != 0
  }

  function DataOf(slot: Slot): ReceiptData {
    FromBytesRoundTrip(slot[8..16]);
    EightBytes();
    ReceiptData(FromBytes(slot[8..16]), slot[16..32], slot[6])
  }

  lemma EightBytes()
    ensures Pow256(8) == 0x1_0000_0000_0000_0000 && Pow256(4) == 0x1_0000_0000
  {
    assert Pow256(4) == 0x1_0000_0000;
    assert Pow256(6) == 0x1_0000_0000_0000;
  }

  function ValidateSlot(slot: Slot): Option<ReceiptData> {
    if FromBytes(slot[0..4]) == SLOT_MAGIC
      && U16(slot[4], slot[5]) == FIRMWARE_REVISION
      && WellFormed(DataOf(slot))
      && FromBytes(slot[COMMIT_AT..COMMIT_AT + 4]) == COMMIT
      && FromBytes(slot[BODY..COMMIT_AT]) == Crc32(slot[..BODY])
    then Some(DataOf(slot))
    else None
  }

  predicate Blank(s: seq<byte>) {
    forall i | 0 <= i < |s| :: s[i] == ERASED
  }

  function SlotBase(i: nat): nat {
    SLOTS + i * SLOT_SIZE
  }

  function SlotOf(page: Page, i: nat): Slot
    requires i < 2
  {
    page[SlotBase(i)..SlotBase(i) + SLOT_SIZE]
  }

  predicate HeaderHolds(page: Page) {
    && FromBytes(page[0..4]) == PAGE_MAGIC0
    && FromBytes(page[4..8]) == PAGE_MAGIC1
    && U16(page[8], page[9]) == RECEIPT_FORMAT
    && U16(page[10], page[11]) == FIRMWARE_REVISION
  }

  function ReadReceipt(page: Page): Status {
    if !HeaderHolds(page) then Invalid
    else if ValidateSlot(SlotOf(page, 0)).Some? then Recorded(ValidateSlot(SlotOf(page, 0)).value)
    else if ValidateSlot(SlotOf(page, 1)).Some? then Recorded(ValidateSlot(SlotOf(page, 1)).value)
    else if Blank(SlotOf(page, 0)) || Blank(SlotOf(page, 1)) then Pending
    else Invalid
  }

  // ----- Flash -----

  /**
   * How one write attempt is powered: to its end, or only until its word number `after`, whose
   * programming stops with the digits of `mask` not yet cleared.
   */
  datatype Supply = Steady | Fails(after: nat, mask: seq<byte>)
  {
    function Next(): Supply {
      if Fails? && after > 0 then Fails(after - 1, mask) else this
    }

    predicate Down() {
      Fails? && after == 0
    }

    function MaskAt(k: nat): byte {
      if Fails? && k < |mask| then mask[k] else 0
    }
  }

  datatype Written = Written(page: Page, ok: bool, supply: Supply)

  /** Programming clears digits: what stands is what stood and what was to be written. */
  function Programmed(old_: seq<byte>, value: seq<byte>): seq<byte>
    requires |old_| == |value|
  {
    seq(|old_|, k requires 0 <= k < |old_| => AndByte(old_[k], value[k]))
  }

  /** Interrupted programming: the digits under the mask may not have been cleared yet. */
  function Torn(old_: seq<byte>, value: seq<byte>, supply: Supply): seq<byte>
    requires |old_| == |value|
  {
    seq(|old_|, k requires 0 <= k < |old_| => AndByte(old_[k], Or(value[k], supply.MaskAt(k))))
  }

  function AndByte(a: byte, b: nat): byte {
    AndAtMost(a, b);
    And(a, b)
  }

  function Overlay(page: Page, at: nat, bytes: seq<byte>): Page
    requires at + |bytes| <= PAGE_SIZE
  {
    page[..at] + bytes + page[at + |bytes|..]
  }

  /** One word write of the flash writer: the words of a value are its four bytes. */
  function WriteWord(page: Page, at: nat, value: seq<byte>, supply: Supply): Written
    requires |value| == 4 && at + 4 <= PAGE_SIZE
  {
    var observed := page[at..at + 4];
    if observed == value then Written(page, true, supply.Next())
    else if Programmed(observed, value) != value then Written(page, false, supply.Next())
    else if supply.Down() then Written(Overlay(page, at, Torn(observed, value, supply)), false, supply)
    else Written(Overlay(page, at, Programmed(observed, value)), true, supply.Next())
  }

  /** Word by word, stopping at the first that fails. */
  function WriteWords(page: Page, at: nat, bytes: seq<byte>, supply: Supply): Written
    requires |bytes| % 4 == 0 && at + |bytes| <= PAGE_SIZE
    decreases |bytes|
  {
    if bytes == [] then Written(page, true, supply)
    else
      var w := WriteWord(page, at, bytes[..4], supply);
      if w.ok then WriteWords(w.page, at + 4, bytes[4..], w.supply) else w
  }

  // ----- Writing -----

  function BodyWith(data: ReceiptData, reserved: byte): (body: seq<byte>)
    ensures |body| == BODY
  {
    ToBytes(SLOT_MAGIC, 4) + [Low(FIRMWARE_REVISION), High(FIRMWARE_REVISION), data.source, reserved]
    + ToBytes(data.installedAt, 8) + data.installId
  }

  /** The nine words before the commit word, whatever the reserved byte. */
  function ImageWith(data: ReceiptData, reserved: byte): (image: seq<byte>)
    ensures |image| == COMMIT_AT
  {
    BodyWith(data, reserved) + ToBytes(Crc32(BodyWith(data, reserved)), 4)
  }

  /** The writer leaves the reserved byte zero. */
  function ImageOf(data: ReceiptData): (image: seq<byte>)
    ensures |image| == COMMIT_AT
  {
    ImageWith(data, 0)
  }

  function FirstBlank(page: Page): nat {
    if Blank(SlotOf(page, 0)) then 0 else if Blank(SlotOf(page, 1)) then 1 else 2
  }

  function WriteReceipt(page: Page, data: ReceiptData, supply: Supply): Written {
    if !ReadReceipt(page).Pending? || !WellFormed(data) then Written(page, false, supply)
    else
      var base := SlotBase(FirstBlank(page));
      var w := WriteWords(page, base, ImageOf(data), supply);
      if !w.ok then w
      else
        var c := WriteWords(w.page, base + COMMIT_AT, ToBytes(COMMIT, 4), w.supply);
        if !c.ok then c
        else c.(ok := ValidateSlot(SlotOf(c.page, FirstBlank(page))).Some?)
  }

  // ----- What a write leaves behind -----

  lemma OnesAreNeutral(b: byte)
    ensures AndByte(ERASED, b) == b
  {
    Pow2Table();
    AndOnes(b, 8);
  }

  predicate SameOutside(p: Page, q: Page, from: nat, to: nat)
    requires from <= to <= PAGE_SIZE
  {
    p[..from] == q[..from] && p[to..] == q[to..]
  }

  lemma TornLength(old_: seq<byte>, value: seq<byte>, supply: Supply)
    requires |old_| == |value|
    ensures |Torn(old_, value, supply)| == |Programmed(old_, value)| == |value|
  {
  }

  /** On erased flash a word either arrives as intended or its write reports failure. */
  lemma WordOnErased(page: Page, at: nat, value: seq<byte>, supply: Supply)
    requires |value| == 4 && at + 4 <= PAGE_SIZE && Blank(page[at..at + 4])
    ensures var w := WriteWord(page, at, value, supply);
      && (w.ok ==> w.page == Overlay(page, at, value) && w.supply == supply.Next())
      && SameOutside(page, w.page, at, at + 4)
      && (supply.Steady? ==> w.ok)
  {
    hide Programmed, Torn, Blank, Overlay;
    var observed := page[at..at + 4];
    ErasedTakesAnything(observed, value);
    TornLength(observed, value, supply);
    OverlayStaysInside(page, at, observed);
    OverlayStaysInside(page, at, Torn(observed, value, supply));
    OverlayStaysInside(page, at, value);
  }

  lemma ErasedTakesAnything(observed: seq<byte>, value: seq<byte>)
    requires |observed| == |value| && Blank(observed)
    ensures Programmed(observed, value) == value
  {
    forall k | 0 <= k < |value|
      ensures Programmed(observed, value)[k] == value[k]
    {
      OnesAreNeutral(value[k]);
    }
  }

  lemma OverlayStaysInside(page: Page, at: nat, bytes: seq<byte>)
    requires at + |bytes| <= PAGE_SIZE
    ensures SameOutside(page, Overlay(page, at, bytes), at, at + |bytes|)
    ensures bytes == page[at..at + |bytes|] ==> Overlay(page, at, bytes) == page
  {
    assert page == page[..at] + page[at..at + |bytes|] + page[at + |bytes|..];
  }

  lemma {:induction false} WordsOnErased(page: Page, at: nat, bytes: seq<byte>, supply: Supply)
    requires |bytes| % 4 == 0 && at + |bytes| <= PAGE_SIZE && Blank(page[at..at + |bytes|])
    ensures var w := WriteWords(page, at, bytes, supply);
      && (w.ok ==> w.page == Overlay(page, at, bytes))
      && SameOutside(page, w.page, at, at + |bytes|)
      && (supply.Steady? ==> w.ok && w.supply == supply)
    decreases |bytes|
  {
    hide WriteWord, Blank;
    if bytes == [] {
      assert page == Overlay(page, at, []);
    } else {
      var region := page[at..at + |bytes|];
      SliceOfSlice(page, at, at + |bytes|, 0, 4);
      BlankParts(region, 4);
      WordOnErased(page, at, bytes[..4], supply);
      var w := WriteWord(page, at, bytes[..4], supply);
      if w.ok {
        assert w.page[at + 4..at + |bytes|] == region[4..] by {
          OutsideKeeps(page, w.page, at, at + 4, at + |bytes|);
        }
        WordsOnErased(w.page, at + 4, bytes[4..], w.supply);
        OverlayTwice(page, at, bytes, WriteWords(page, at, bytes, supply).page);
      }
      WidenOutside(page, w.page, at, at + 4, at + |bytes|);
    }
  }

  lemma BlankParts(s: seq<byte>, k: nat)
    requires Blank(s) && k <= |s|
    ensures Blank(s[0..k]) && Blank(s[k..])
  {
  }

  lemma OutsideKeeps(p: Page, q: Page, from: nat, to: nat, wide: nat)
    requires from <= to <= wide <= PAGE_SIZE && SameOutside(p, q, from, to)
    ensures q[to..wide] == p[to..wide] == p[from..wide][to - from..]
  {
    assert forall k | to <= k < wide :: q[k] == q[to..][k - to] == p[k];
    SliceOfSlice(p, from, wide, to - from, wide - from);
  }

  lemma OverlayTwice(page: Page, at: nat, bytes: seq<byte>, q: Page)
    requires |bytes| >= 4 && at + |bytes| <= PAGE_SIZE
    ensures Overlay(Overlay(page, at, bytes[..4]), at + 4, bytes[4..]) == Overlay(page, at, bytes)
    ensures SameOutside(Overlay(page, at, bytes[..4]), q, at + 4, at + |bytes|)
        ==> SameOutside(page, q, at, at + |bytes|)
  {
    var first := Overlay(page, at, bytes[..4]);
    assert first[at + |bytes|..] == page[at + |bytes|..];
    assert first[..at + 4][..at] == page[..at];
    assert q[..at + 4][..at] == q[..at];
  }

  lemma WidenOutside(p: Page, q: Page, from: nat, to: nat, wide: nat)
    requires from <= to <= wide <= PAGE_SIZE && SameOutside(p, q, from, to)
    ensures SameOutside(p, q, from, wide)
  {
    assert p[to..][wide - to..] == p[wide..];
    assert q[to..][wide - to..] == q[wide..];
  }

  /** The commit word of a slot stands in full. */
  predicate Committed(slot: Slot) {
    slot[COMMIT_AT..COMMIT_AT + 4] == ToBytes(COMMIT, 4)
  }

  /**
   * The shape of an attempt: it stays inside the first blank slot, and only after the nine words of its
   * image all stand is the commit word touched.
   */
  lemma AttemptShape(page: Page, data: ReceiptData, supply: Supply)
    requires ReadReceipt(page).Pending? && WellFormed(data)
    ensures var i, w := FirstBlank(page), WriteReceipt(page, data, supply);
      && i < 2
      && SameOutside(page, w.page, SlotBase(i), SlotBase(i) + COMMIT_AT + 4)
      && (Blank(SlotOf(w.page, i)[COMMIT_AT..COMMIT_AT + 4]) || SlotOf(w.page, i)[..COMMIT_AT] == ImageOf(data))
      && (w.ok || supply.Steady? ==> SlotOf(w.page, i)[..COMMIT_AT] == ImageOf(data) && Committed(SlotOf(w.page, i)))
      && (w.ok ==> ValidateSlot(SlotOf(w.page, i)).Some?)
      && (supply.Steady? ==> w.ok == ValidateSlot(SlotOf(w.page, i)).Some?)
  {
    hide WriteWords, ImageOf, ValidateSlot, HeaderHolds;
    var i := FirstBlank(page);
    assert Blank(SlotOf(page, i));
    var base := SlotBase(i);
    assert Blank(page[base..base + COMMIT_AT]) by {
      assert page[base..base + COMMIT_AT] == SlotOf(page, i)[..COMMIT_AT];
    }
    WordsOnErased(page, base, ImageOf(data), supply);
    var w := WriteWords(page, base, ImageOf(data), supply);
    CommitUntouched(page, w.page, base);
    WidenOutside(page, w.page, base, base + COMMIT_AT, base + COMMIT_AT + 4);
    if w.ok {
      assert w.page[base..base + COMMIT_AT] == ImageOf(data);
      WordsOnErased(w.page, base + COMMIT_AT, ToBytes(COMMIT, 4), w.supply);
      var c := WriteWords(w.page, base + COMMIT_AT, ToBytes(COMMIT, 4), w.supply);
      var end := base + COMMIT_AT;
      assert c.page[base..end] == c.page[..end][base..] && w.page[base..end] == w.page[..end][base..];
      SliceOfSlice(c.page, base, base + SLOT_SIZE, 0, COMMIT_AT);
      assert c.page[..base] == c.page[..end][..base] && w.page[..base] == w.page[..end][..base];
      SliceOfSlice(c.page, base, base + SLOT_SIZE, COMMIT_AT, COMMIT_AT + 4);
    } else {
      SliceOfSlice(w.page, base, base + SLOT_SIZE, COMMIT_AT, COMMIT_AT + 4);
    }
  }

  lemma CommitUntouched(page: Page, q: Page, base: nat)
    requires base + SLOT_SIZE <= PAGE_SIZE
    requires Blank(page[base..base + SLOT_SIZE]) && SameOutside(page, q, base, base + COMMIT_AT)
    ensures Blank(q[base + COMMIT_AT..base + COMMIT_AT + 4])
  {
    var slot := page[base..base + SLOT_SIZE];
    var from := base + COMMIT_AT;
    assert q[from..from + 4] == q[from..][..4];
    assert page[from..from + 4] == page[from..][..4];
    SliceOfSlice(page, base, base + SLOT_SIZE, COMMIT_AT, COMMIT_AT + 4);
    assert q[from..from + 4] == slot[COMMIT_AT..COMMIT_AT + 4];
  }

  lemma CommitWord()
    ensures FromBytes(ToBytes(COMMIT, 4)) == COMMIT
    ensures forall s: seq<byte> :: |s| == 4 && FromBytes(s) == COMMIT ==> s == ToBytes(COMMIT, 4)
    ensures !Blank(ToBytes(COMMIT, 4))
  {
    EightBytes();
    BytesRoundTrip(COMMIT, 4);
    forall s: seq<byte> | |s| == 4 && FromBytes(s) == COMMIT
      ensures s == ToBytes(COMMIT, 4)
    {
      FromBytesRoundTrip(s);
    }
    assert ToBytes(COMMIT, 4)[0] == 0x43;
  }

  lemma ValidIsCommitted(slot: Slot)
    requires ValidateSlot(slot).Some?
    ensures Committed(slot)
  {
    CommitWord();
  }

  lemma BodyParts(data: ReceiptData, reserved: byte)
    ensures var body := BodyWith(data, reserved);
      && body[0..4] == ToBytes(SLOT_MAGIC, 4)
      && body[4] == Low(FIRMWARE_REVISION) && body[5] == High(FIRMWARE_REVISION)
      && body[6] == data.source && body[7] == reserved
      && body[8..16] == ToBytes(data.installedAt, 8) && body[16..32] == data.installId
  {
    hide ToBytes, Low, High;
    var body := BodyWith(data, reserved);
    assert body[4..8] == [Low(FIRMWARE_REVISION), High(FIRMWARE_REVISION), data.source, reserved];
    assert body[4] == body[4..8][0] && body[5] == body[4..8][1] && body[6] == body[4..8][2] && body[7] == body[4..8][3];
  }

  lemma ImageValidates(slot: Slot, data: ReceiptData, reserved: byte)
    requires WellFormed(data) && slot[..COMMIT_AT] == ImageWith(data, reserved) && Committed(slot)
    ensures ValidateSlot(slot) == Some(data) && slot[7] == reserved
  {
    hide Crc32, WellFormed, ToBytes, FromBytes, U16, Low, High, BodyWith;
    var body := BodyWith(data, reserved);
    BodyParts(data, reserved);
    assert slot[..BODY] == slot[..COMMIT_AT][..BODY] == body;
    assert slot[BODY..COMMIT_AT] == slot[..COMMIT_AT][BODY..] == ToBytes(Crc32(body), 4);
    assert slot[0..4] == slot[..BODY][0..4] && slot[8..16] == slot[..BODY][8..16];
    assert slot[16..32] == slot[..BODY][16..32];
    assert slot[4] == body[4] && slot[5] == body[5] && slot[6] == body[6] && slot[7] == body[7];
    EightBytes();
    CommitWord();
    BytesRoundTrip(SLOT_MAGIC, 4);
    BytesRoundTrip(data.installedAt, 8);
    BytesRoundTrip(Crc32(body), 4);
    U16RoundTrip(FIRMWARE_REVISION, 0, 0);
  }

  lemma ValidIsImage(slot: Slot)
    requires ValidateSlot(slot).Some?
    ensures WellFormed(ValidateSlot(slot).value) && Committed(slot)
    ensures slot[..COMMIT_AT] == ImageWith(ValidateSlot(slot).value, slot[7])
  {
    hide Crc32, WellFormed, ToBytes, FromBytes, U16, Low, High, BodyWith;
    var data, reserved := ValidateSlot(slot).value, slot[7];
    var body := BodyWith(data, reserved);
    ValidIsCommitted(slot);
    BodyParts(data, reserved);
    EightBytes();
    FromBytesRoundTrip(slot[0..4]);
    FromBytesRoundTrip(slot[8..16]);
    FromBytesRoundTrip(slot[BODY..COMMIT_AT]);
    U16RoundTrip(0, slot[4], slot[5]);
    SameParts(slot[..BODY], body);
    assert slot[..COMMIT_AT] == slot[..BODY] + slot[BODY..COMMIT_AT];
  }

  lemma SameParts(a: seq<byte>, b: seq<byte>)
    requires |a| == |b| == BODY
    requires a[0..4] == b[0..4] && a[4] == b[4] && a[5] == b[5] && a[6] == b[6] && a[7] == b[7]
    requires a[8..16] == b[8..16] && a[16..32] == b[16..32]
    ensures a == b
  {
    assert a[4..8] == [a[4], a[5], a[6], a[7]] == [b[4], b[5], b[6], b[7]] == b[4..8];
    assert a == a[0..4] + a[4..8] + a[8..16] + a[16..32];
    assert b == b[0..4] + b[4..8] + b[8..16] + b[16..32];
  }

  /**
   * A slot reads as a receipt exactly when its first 40 bytes are the sealed image of that receipt, the
   * receipt is one that may be written, and the commit word stands. Only the reserved byte is free.
   */
  lemma SlotIsImage(slot: Slot, data: ReceiptData)
    ensures ValidateSlot(slot) == Some(data)
       <==> WellFormed(data) && slot[..COMMIT_AT] == ImageWith(data, slot[7]) && Committed(slot)
  {
    hide WellFormed, ValidateSlot, Committed, ImageWith;
    if ValidateSlot(slot) == Some(data) {
      ValidIsImage(slot);
    } else if WellFormed(data) && slot[..COMMIT_AT] == ImageWith(data, slot[7]) && Committed(slot) {
      ImageValidates(slot, data, slot[7]);
    }
  }

  /** The image with its commit word is a valid slot, and holds exactly the data. */
  lemma ImageIsValid(slot: Slot, data: ReceiptData)
    requires WellFormed(data) && slot[..COMMIT_AT] == ImageOf(data) && Committed(slot)
    ensures ValidateSlot(slot) == Some(data)
  {
    hide WellFormed, ImageWith, ValidateSlot, Committed;
    ImageValidates(slot, data, 0);
  }

  // ----- Damage -----

  /** A valid slot with one byte of its 40 changed is not valid, whatever the change. */
  lemma DamagedSlotIsRefused(good: Slot, bad: Slot, i: nat)
    requires ValidateSlot(good).Some? && DifferOnlyAt(good, bad, i) && i < COMMIT_AT + 4
    ensures ValidateSlot(bad).None?
  {
    hide WellFormed, Crc32, U16, FromBytes;
    SameElsewhere(good, bad, i);
    if i < BODY {
      DifferOnlyInPrefix(good, bad, i, BODY);
      Crc32DetectsByte(good[..BODY], bad[..BODY], i);
      assert good[BODY..COMMIT_AT] == bad[BODY..COMMIT_AT];
    } else if i < COMMIT_AT {
      assert good[..BODY] == bad[..BODY];
      assert good[BODY..COMMIT_AT][i - BODY] != bad[BODY..COMMIT_AT][i - BODY];
      FromBytesRoundTrip(good[BODY..COMMIT_AT]);
      FromBytesRoundTrip(bad[BODY..COMMIT_AT]);
    } else {
      assert good[COMMIT_AT..COMMIT_AT + 4][i - COMMIT_AT] != bad[COMMIT_AT..COMMIT_AT + 4][i - COMMIT_AT];
      FromBytesRoundTrip(good[COMMIT_AT..COMMIT_AT + 4]);
      FromBytesRoundTrip(bad[COMMIT_AT..COMMIT_AT + 4]);
    }
  }

  /** The slot a recorded page is read from. */
  function ValidSlot(page: Page): nat
    requires ReadReceipt(page).Recorded?
  {
    if ValidateSlot(SlotOf(page, 0)).Some? then 0 else 1
  }

  /** A recorded page with one byte of its receipt changed never reads as recorded. */
  lemma DamagedReceiptIsNotRead(good: Page, bad: Page, i: nat)
    requires ReadReceipt(good).Recorded? && AtMostOneValid(good)
    requires var base := SlotBase(ValidSlot(good)); base <= i < base + COMMIT_AT + 4
    requires DifferOnlyAt(good, bad, i)
    ensures !ReadReceipt(bad).Recorded?
  {
    hide ValidateSlot, HeaderHolds, Blank;
    var n := ValidSlot(good);
    SameElsewhere(good, bad, i);
    SlotDiffers(good, bad, i, n);
    DamagedSlotIsRefused(SlotOf(good, n), SlotOf(bad, n), i - SlotBase(n));
    assert SlotOf(bad, 1 - n) == SlotOf(good, 1 - n);
  }

  lemma SlotDiffers(a: Page, b: Page, i: nat, n: nat)
    requires n < 2 && SlotBase(n) <= i < SlotBase(n) + SLOT_SIZE && DifferOnlyAt(a, b, i)
    ensures DifferOnlyAt(SlotOf(a, n), SlotOf(b, n), i - SlotBase(n))
  {
    SameElsewhere(a, b, i);
  }

  lemma OtherSlotAndHeader(page: Page, q: Page, i: nat)
    requires i < 2 && SameOutside(page, q, SlotBase(i), SlotBase(i) + COMMIT_AT + 4)
    ensures SlotOf(q, 1 - i) == SlotOf(page, 1 - i)
    ensures HeaderHolds(q) == HeaderHolds(page)
  {
    assert q[..SLOTS] == q[..SlotBase(i)][..SLOTS] == page[..SlotBase(i)][..SLOTS] == page[..SLOTS];
    assert q[0..4] == q[..SLOTS][0..4] == page[..SLOTS][0..4] == page[0..4];
    assert q[4..8] == q[..SLOTS][4..8] == page[..SLOTS][4..8] == page[4..8];
    assert q[8] == q[..SLOTS][8] == page[8] && q[9] == q[..SLOTS][9] == page[9];
    assert q[10] == q[..SLOTS][10] == page[10] && q[11] == q[..SLOTS][11] == page[11];
    if i == 0 {
      var to := SlotBase(0) + COMMIT_AT + 4;
      assert SlotOf(q, 1) == q[to..][SlotBase(1) - to..SlotBase(1) + SLOT_SIZE - to];
      assert SlotOf(page, 1) == page[to..][SlotBase(1) - to..SlotBase(1) + SLOT_SIZE - to];
    } else {
      assert SlotOf(q, 0) == q[..SlotBase(1)][SlotBase(0)..];
      assert SlotOf(page, 0) == page[..SlotBase(1)][SlotBase(0)..];
    }
  }

  predicate AtMostOneValid(page: Page) {
    ValidateSlot(SlotOf(page, 0)).None? || ValidateSlot(SlotOf(page, 1)).None?
  }

  /**
   * What one attempt does to what the page reads, however it was powered. A page that is not pending is
   * not touched. On a pending page a receipt is recorded exactly when the attempt's commit word came to
   * stand in full, and then it is the attempt's data to the byte; success is reported only then.
   */
  lemma AttemptOutcome(page: Page, data: ReceiptData, supply: Supply)
    ensures var w := WriteReceipt(page, data, supply);
      if ReadReceipt(page).Pending? && WellFormed(data) then
        var i := FirstBlank(page);
        && i < 2
        && (ReadReceipt(w.page).Recorded? <==> Committed(SlotOf(w.page, i)))
        && (ReadReceipt(w.page).Recorded? ==> ReadReceipt(w.page).receipt == data)
        && (w.ok ==> ReadReceipt(w.page) == Recorded(data))
        && (supply.Steady? ==> w.ok)
      else
        w.page == page && !w.ok
    ensures AtMostOneValid(page) ==> AtMostOneValid(WriteReceipt(page, data, supply).page)
  {
    hide WriteReceipt, ValidateSlot, HeaderHolds, Crc32, ImageOf, WellFormed, SlotOf;
    if ReadReceipt(page).Pending? && WellFormed(data) {
      var i, w := FirstBlank(page), WriteReceipt(page, data, supply);
      AttemptShape(page, data, supply);
      OtherSlotAndHeader(page, w.page, i);
      var slot := SlotOf(w.page, i);
      if Committed(slot) {
        CommitWord();
        ImageIsValid(slot, data);
      } else if ValidateSlot(slot).Some? {
        ValidIsCommitted(slot);
      }
    } else {
      NotPendingIsUntouched(page, data, supply);
    }
  }

  lemma NotPendingIsUntouched(page: Page, data: ReceiptData, supply: Supply)
    requires !(ReadReceipt(page).Pending? && WellFormed(data))
    ensures WriteReceipt(page, data, supply) == Written(page, false, supply)
  {
    hide ReadReceipt, WellFormed;
  }

  // ----- Any number of attempts -----

  datatype Attempt = Attempt(data: ReceiptData, supply: Supply)

  function PageAfter(page: Page, attempts: seq<Attempt>): Page
    decreases |attempts|
  {
    if attempts == [] then page
    else
      var n := |attempts| - 1;
      WriteReceipt(PageAfter(page, attempts[..n]), attempts[n].data, attempts[n].supply).page
  }

  /** Attempt `k` brought its commit word to stand in full. */
  ghost predicate AttemptCommits(page: Page, attempts: seq<Attempt>, k: nat)
    requires k < |attempts|
  {
    var before, after := PageAfter(page, attempts[..k]), PageAfter(page, attempts[..k + 1]);
    && ReadReceipt(before).Pending?
    && WellFormed(attempts[k].data)
    && Committed(SlotOf(after, FirstBlank(before)))
  }

  /**
   * Over any attempts with any power failures, a pending page reads a receipt exactly when one of the
   * attempts committed, and then that attempt's data; never a mixture, and never two slots at once.
   */
  lemma {:induction false} OnlyCommittedDataIsRead(page: Page, attempts: seq<Attempt>)
    requires ReadReceipt(page).Pending?
    ensures var status := ReadReceipt(PageAfter(page, attempts));
      && (status.Recorded? <==> exists k | 0 <= k < |attempts| :: AttemptCommits(page, attempts, k))
      && (status.Recorded? ==>
          exists k | 0 <= k < |attempts| :: AttemptCommits(page, attempts, k) && status.receipt == attempts[k].data)
    ensures AtMostOneValid(PageAfter(page, attempts))
    decreases |attempts|
  {
    hide WriteReceipt, ReadReceipt, WellFormed, Committed, ValidateSlot, SlotOf;
    if attempts == [] {
      PendingHasNoValidSlot(page);
    } else {
      var n := |attempts| - 1;
      var before := PageAfter(page, attempts[..n]);
      OnlyCommittedDataIsRead(page, attempts[..n]);
      AttemptOutcome(before, attempts[n].data, attempts[n].supply);
      assert attempts[..n + 1] == attempts;
      EarlierAttempts(page, attempts, n);
      hide AttemptCommits;
      LastAttempt(page, attempts);
      if AttemptCommits(page, attempts, n) {
        assert ReadReceipt(PageAfter(page, attempts)) == Recorded(attempts[n].data);
      }
    }
  }

  lemma EarlierAttempts(page: Page, attempts: seq<Attempt>, n: nat)
    requires n <= |attempts|
    ensures forall k | 0 <= k < n :: AttemptCommits(page, attempts, k) == AttemptCommits(page, attempts[..n], k)
  {
    hide PageAfter, ReadReceipt, WellFormed, Committed, SlotOf;
    forall k | 0 <= k < n
      ensures AttemptCommits(page, attempts, k) == AttemptCommits(page, attempts[..n], k)
    {
      assert attempts[..n][..k] == attempts[..k] && attempts[..n][..k + 1] == attempts[..k + 1];
    }
  }

  lemma LastAttempt(page: Page, attempts: seq<Attempt>)
    requires attempts != []
    ensures var n := |attempts| - 1;
      var before := PageAfter(page, attempts[..n]);
      AttemptCommits(page, attempts, n) <==>
        ReadReceipt(before).Pending? && WellFormed(attempts[n].data)
        && Committed(SlotOf(PageAfter(page, attempts), FirstBlank(before)))
  {
    hide PageAfter, ReadReceipt, WellFormed, Committed, SlotOf;
    assert attempts[..|attempts|] == attempts;
  }

  lemma PendingHasNoValidSlot(page: Page)
    requires ReadReceipt(page).Pending?
    ensures AtMostOneValid(page)
  {
  }

  /** What is recorded stays recorded, and an unusable page stays unusable. */
  lemma {:induction false} SettledPagesStay(page: Page, attempts: seq<Attempt>)
    requires !ReadReceipt(page).Pending?
    ensures PageAfter(page, attempts) == page
    decreases |attempts|
  {
    hide WriteReceipt, ReadReceipt, WellFormed;
    if attempts != [] {
      var n := |attempts| - 1;
      SettledPagesStay(page, attempts[..n]);
      NotPendingIsUntouched(page, attempts[n].data, attempts[n].supply);
    }
  }

  // ----- The page as it leaves the factory -----

  /** The first twelve bytes of the page: its two magic words, its format and the firmware revision. */
  const HEADER_BYTES: seq<byte> := [0x53, 0x43, 0x49, 0x52, 0x43, 0x50, 0x30, 0x31, 1, 0, 4, 0]

  lemma WordIs(s: seq<byte>, a: byte, b: byte, c: byte, d: byte)
    requires |s| == 4
    ensures FromBytes(s) == a + 0x100 * (b + 0x100 * (c + 0x100 * d)) <==> s == [a, b, c, d]
  {
    var w := [a, b, c, d];
    assert w[1..] == [b, c, d] && w[2..] == [c, d] && w[3..] == [d] && w[4..] == [];
    assert w[1..][1..] == w[2..] && w[2..][1..] == w[3..] && w[3..][1..] == w[4..];
    assert FromBytes(w[3..]) == d && FromBytes(w[2..]) == c + 0x100 * d;
    FromBytesRoundTrip(s);
    FromBytesRoundTrip(w);
  }

  lemma HeaderWords(page: Page)
    ensures FromBytes(page[0..4]) == PAGE_MAGIC0 <==> page[0..4] == HEADER_BYTES[0..4]
    ensures FromBytes(page[4..8]) == PAGE_MAGIC1 <==> page[4..8] == HEADER_BYTES[4..8]
  {
    hide FromBytes;
    WordIs(page[0..4], 0x53, 0x43, 0x49, 0x52);
    WordIs(page[4..8], 0x43, 0x50, 0x30, 0x31);
    assert HEADER_BYTES[0..4] == [0x53, 0x43, 0x49, 0x52] && HEADER_BYTES[4..8] == [0x43, 0x50, 0x30, 0x31];
  }

  lemma HeaderIs(page: Page)
    ensures HeaderHolds(page) <==> page[..12] == HEADER_BYTES
  {
    hide FromBytes;
    HeaderWords(page);
    var head := page[..12];
    assert head[0..4] == page[0..4] && head[4..8] == page[4..8];
    assert head == head[0..4] + head[4..8] + [page[8], page[9], page[10], page[11]];
    assert HEADER_BYTES == HEADER_BYTES[0..4] + HEADER_BYTES[4..8] + [1, 0, 4, 0];
    if head == HEADER_BYTES {
      assert page[8] == head[8] && page[9] == head[9] && page[10] == head[10] && page[11] == head[11];
    }
  }

  /** A blank slot reads as no receipt. */
  lemma BlankIsNotValid(slot: Slot)
    requires Blank(slot)
    ensures ValidateSlot(slot).None?
  {
    hide ValidateSlot, FromBytes;
    assert Blank(slot[COMMIT_AT..COMMIT_AT + 4]);
    CommitWord();
    if ValidateSlot(slot).Some? {
      ValidIsCommitted(slot);
    }
  }

  /**
   * What a page reads, from its bytes: without its header it is unusable; a slot that is the sealed image
   * of a receipt makes it recorded; and it is pending as long as one of its slots is still erased.
   */
  lemma PageReads(page: Page)
    ensures ReadReceipt(page).Recorded?
       <==> page[..12] == HEADER_BYTES && exists i | 0 <= i < 2 :: ValidateSlot(SlotOf(page, i)).Some?
    ensures AtMostOneValid(page) ==>
      forall i, data | 0 <= i < 2 :: page[..12] == HEADER_BYTES && ValidateSlot(SlotOf(page, i)) == Some(data)
        ==> ReadReceipt(page) == Recorded(data)
    ensures ReadReceipt(page).Pending?
       <==> && page[..12] == HEADER_BYTES && !ReadReceipt(page).Recorded?
            && exists i | 0 <= i < 2 :: SlotOf(page, i) == seq(SLOT_SIZE, _ => ERASED)
  {
    hide ValidateSlot, HeaderHolds, SlotOf;
    HeaderIs(page);
    BlankIs(SlotOf(page, 0));
    BlankIs(SlotOf(page, 1));
  }

  lemma BlankIs(s: seq<byte>)
    ensures Blank(s) <==> s == seq(|s|, _ => ERASED)
  {
  }

  /** On a page with both slots erased no single attempt, however it is cut, uses the page up. */
  lemma SecondChance(page: Page, data: ReceiptData, supply: Supply)
    requires page[..12] == HEADER_BYTES && Blank(SlotOf(page, 0)) && Blank(SlotOf(page, 1))
    ensures ReadReceipt(page).Pending?
    ensures !ReadReceipt(WriteReceipt(page, data, supply).page).Invalid?
  {
    hide WriteReceipt, ValidateSlot, HeaderHolds, SlotOf, Blank, WellFormed, ImageOf;
    HeaderIs(page);
    BlankIsNotValid(SlotOf(page, 0));
    BlankIsNotValid(SlotOf(page, 1));
    if WellFormed(data) {
      AttemptShape(page, data, supply);
      OtherSlotAndHeader(page, WriteReceipt(page, data, supply).page, 0);
    } else {
      NotPendingIsUntouched(page, data, supply);
    }
  }

  /** On a pending page, with lasting power, exactly the documented receipts can be written. */
  lemma WritableExactly(page: Page, data: ReceiptData)
    requires ReadReceipt(page).Pending?
    ensures WriteReceipt(page, data, Steady).ok
       <==> && 0 < data.installedAt < 0x8000_0000_0000_0000
            && data.source in {1, 2}
            && data.installId != seq(16, _ => 0)
  {
    hide ReadReceipt;
    AttemptOutcome(page, data, Steady);
    if forall k | 0 <= k < 16 :: data.installId[k] == 0 {
      assert data.installId == seq(16, _ => 0);
    }
  }

  /** What programming leaves, torn or not, has no bit raised. */
  lemma BitsOnlyFall(old_: seq<byte>, value: seq<byte>, supply: Supply)
    requires |old_| == |value|
    ensures forall k | 0 <= k < |value| ::
      Programmed(old_, value)[k] <= old_[k] && Torn(old_, value, supply)[k] <= old_[k]
    ensures (forall k | 0 <= k < |value| :: AndByte(old_[k], value[k]) == value[k])
       <==> Programmed(old_, value) == value
    ensures Programmed(value, value) == value
  {
    hide AndByte;
    forall k | 0 <= k < |value|
      ensures Programmed(old_, value)[k] <= old_[k] && Torn(old_, value, supply)[k] <= old_[k]
      ensures Programmed(old_, value)[k] == AndByte(old_[k], value[k])
      ensures Programmed(value, value)[k] == value[k]
    {
      AndAtMostByte(old_[k], value[k]);
      AndAtMostByte(old_[k], Or(value[k], supply.MaskAt(k)));
      AndItself(value[k]);
    }
  }

  /**
   * What the writer of a word can do to the flash: it raises no bit, touches no other byte, and with
   * lasting power succeeds exactly when the word can be had by clearing bits, and else changes nothing; a
   * word that stands already needs no power.
   */
  lemma WordWriteIsHonest(page: Page, at: nat, value: seq<byte>, supply: Supply)
    requires |value| == 4 && at + 4 <= PAGE_SIZE
    ensures var w, observed := WriteWord(page, at, value, supply), page[at..at + 4];
      && SameOutside(page, w.page, at, at + 4)
      && (w.ok ==> w.page[at..at + 4] == value)
      && (forall k | 0 <= k < 4 :: w.page[at..at + 4][k] <= observed[k])
      && (supply.Steady? ==> (w.ok <==> forall k | 0 <= k < 4 :: AndByte(observed[k], value[k]) == value[k]))
      && (!w.ok && supply.Steady? ==> w.page == page)
      && (observed == value ==> w.ok && w.page == page)
  {
    hide AndByte, Programmed, Torn, Overlay;
    var observed := page[at..at + 4];
    TornLength(observed, value, supply);
    BitsOnlyFall(observed, value, supply);
    OverlayReads(page, at, Programmed(observed, value));
    OverlayReads(page, at, Torn(observed, value, supply));
  }

  lemma OverlayReads(page: Page, at: nat, bytes: seq<byte>)
    requires at + |bytes| <= PAGE_SIZE
    ensures SameOutside(page, Overlay(page, at, bytes), at, at + |bytes|)
    ensures Overlay(page, at, bytes)[at..at + |bytes|] == bytes
  {
  }

  lemma AndAtMostByte(a: byte, b: nat)
    ensures AndByte(a, b) <= a
  {
    AndAtMost(a, b);
  }

  lemma {:induction false} AndSelf(a: nat)
    ensures And(a, a) == a
  {
    if a > 0 {
      AndSelf(a / 2);
    }
  }

  lemma AndItself(a: byte)
    ensures AndByte(a, a) == a
  {
    AndSelf(a);
  }
}
