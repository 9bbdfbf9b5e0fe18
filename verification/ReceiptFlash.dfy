/** The receipt code of the firmware over the flash page it reads and programs in place. */
module ReceiptFlash {
  import opened Bits
  import opened Crc
  import opened Receipt

  method CopySlot(page: array<byte>, base: nat) returns (slot: Slot)
    requires page.Length == PAGE_SIZE && base + SLOT_SIZE <= PAGE_SIZE
    ensures slot == page[base..base + SLOT_SIZE]
  {
    var copied: seq<byte> := [];
    for index := 0 to SLOT_SIZE
      invariant copied == page[base..base + index]
    {
      copied := copied + [page[base + index]];
    }
    slot := copied;
  }

  method InstallReceiptSlotBlank(slot: Slot) returns (blank: bool)
    ensures blank == Blank(slot)
  {
    for i := 0 to SLOT_SIZE
      invariant forall k | 0 <= k < i :: slot[k] == ERASED
    {
      if slot[i] != ERASED {
        return false;
      }
    }
    return true;
  }

  lemma OrIsZero(a: nat, b: nat)
    ensures Or(a, b) == 0 <==> a == 0 && b == 0
    decreases a + b
  {
    if a != 0 || b != 0 {
      OrIsZero(a / 2, b / 2);
    }
  }

  method InstallIdPresent(installId: InstallId) returns (present: bool)
    ensures present <==> exists k | 0 <= k < 16 :: installId[k] != 0
  {
    var combined := 0;
    for i := 0 to 16
      invariant combined == 0 <==> forall k | 0 <= k < i :: installId[k] == 0
    {
      OrIsZero(combined, installId[i]);
      combined := Or(combined, installId[i]);
    }
    present := combined != 0;
  }

  method ValidateInstallReceipt(slot: Slot) returns (valid: bool, receipt: ReceiptData)
    ensures valid <==> ValidateSlot(slot).Some?
    ensures valid ==> receipt == ValidateSlot(slot).value
  {
    receipt := DataOf(slot);
    var present := InstallIdPresent(receipt.installId);
    if FromBytes(slot[0..4]) != SLOT_MAGIC
      || U16(slot[4], slot[5]) != FIRMWARE_REVISION
      || (receipt.source != SOURCE_APP_CENTER && receipt.source != SOURCE_FIRST_OBSERVED)
      || receipt.installedAt == 0 || receipt.installedAt > 0x7fff_ffff_ffff_ffff
      || !present
      || FromBytes(slot[COMMIT_AT..COMMIT_AT + 4]) != COMMIT {
      return false, receipt;
    }
    var crc := Crc32Ieee(slot[..BODY]);
    valid := crc == FromBytes(slot[BODY..COMMIT_AT]);
  }

  method ReadInstallReceipt(page: array<byte>) returns (status: Status)
    requires page.Length == PAGE_SIZE
    ensures status == ReadReceipt(page[..])
  {
    hide ValidateSlot, Blank;
    if FromBytes(page[0..4]) != PAGE_MAGIC0 || FromBytes(page[4..8]) != PAGE_MAGIC1
      || U16(page[8], page[9]) != RECEIPT_FORMAT || U16(page[10], page[11]) != FIRMWARE_REVISION {
      assert page[..][0..4] == page[0..4] && page[..][4..8] == page[4..8];
      return Invalid;
    }
    assert HeaderHolds(page[..]) by { assert page[..][0..4] == page[0..4] && page[..][4..8] == page[4..8]; }
    for index := 0 to 2
      invariant forall k | 0 <= k < index :: ValidateSlot(SlotOf(page[..], k)).None?
    {
      var slot := CopySlot(page, SlotBase(index));
      assert slot == SlotOf(page[..], index);
      var valid, receipt := ValidateInstallReceipt(slot);
      if valid {
        return Recorded(receipt);
      }
    }
    assert ValidateSlot(SlotOf(page[..], 0)).None? && ValidateSlot(SlotOf(page[..], 1)).None?;
    for index := 0 to 2
      invariant forall k | 0 <= k < index :: !Blank(SlotOf(page[..], k))
    {
      var slot := CopySlot(page, SlotBase(index));
      assert slot == SlotOf(page[..], index);
      var blank := InstallReceiptSlotBlank(slot);
      if blank {
        return Pending;
      }
    }
    assert !Blank(SlotOf(page[..], 0)) && !Blank(SlotOf(page[..], 1));
    return Invalid;
  }

  /** Programs flash words; `supply` is what the power and the flash controller will allow. */
  class FlashWriter {
    const page: array<byte>
    var supply: Supply

    constructor (page: array<byte>, supply: Supply)
      ensures this.page == page && this.supply == supply
    {
      this.page := page;
      this.supply := supply;
    }

    method WriteWord(at: nat, value: uint32) returns (ok: bool)
      requires page.Length == PAGE_SIZE && at + 4 <= PAGE_SIZE
      modifies page, this`supply
      ensures Written(page[..], ok, supply) == Receipt.WriteWord(old(page[..]), at, ToBytes(value, 4), old(supply))
    {
      hide ToBytes, Programmed, Torn;
      var word := ToBytes(value, 4);
      ghost var before := page[..];
      var observed := page[at..at + 4];
      assert observed == before[at..at + 4];
      if observed == word {
        supply := supply.Next();
        return true;
      }
      if Programmed(observed, word) != word {
        supply := supply.Next();
        return false;
      }
      ok := !supply.Down();
      var result := if ok then Programmed(observed, word) else Torn(observed, word, supply);
      ResultLength(observed, word, supply);
      page[at] := result[0];
      page[at + 1] := result[1];
      page[at + 2] := result[2];
      page[at + 3] := result[3];
      OverlayIs(page[..], before, at, result);
      if ok {
        supply := supply.Next();
      }
    }
  }

  lemma OverlayIs(q: Page, p: Page, at: nat, word: seq<byte>)
    requires at + |word| <= PAGE_SIZE
    requires forall k | 0 <= k < PAGE_SIZE :: q[k] == if at <= k < at + |word| then word[k - at] else p[k]
    ensures q == Overlay(p, at, word)
  {
  }

  lemma ResultLength(observed: seq<byte>, word: seq<byte>, supply: Supply)
    requires |observed| == |word|
    ensures |Programmed(observed, word)| == |Torn(observed, word, supply)| == |word|
  {
  }

  lemma OneWord(page: Page, at: nat, bytes: seq<byte>, supply: Supply)
    requires bytes != [] && |bytes| % 4 == 0 && at + |bytes| <= PAGE_SIZE
    ensures FromBytes(bytes[..4]) < 0x1_0000_0000 && ToBytes(FromBytes(bytes[..4]), 4) == bytes[..4]
    ensures var w := Receipt.WriteWord(page, at, bytes[..4], supply);
      WriteWords(page, at, bytes, supply) == if w.ok then WriteWords(w.page, at + 4, bytes[4..], w.supply) else w
  {
    EightBytes();
    FromBytesRoundTrip(bytes[..4]);
  }

  method WriteInstallReceipt(page: array<byte>, receipt: ReceiptData, writer: FlashWriter) returns (ok: bool)
    requires page.Length == PAGE_SIZE && writer.page == page
    modifies page, writer`supply
    ensures Written(page[..], ok, writer.supply) == WriteReceipt(old(page[..]), receipt, old(writer.supply))
  {
    hide Receipt.WriteWord, WriteWords, ReadReceipt, ValidateSlot, ToBytes, Crc32, FromBytes;
    ghost var before, power := page[..], writer.supply;
    var status := ReadInstallReceipt(page);
    var present := InstallIdPresent(receipt.installId);
    if !status.Pending?
      || receipt.installedAt == 0 || receipt.installedAt > 0x7fff_ffff_ffff_ffff
      || (receipt.source != SOURCE_APP_CENTER && receipt.source != SOURCE_FIRST_OBSERVED)
      || !present {
      return false;
    }
    assert ReadReceipt(before).Pending? && WellFormed(receipt);
    var slotIndex := FirstBlankSlot(page);
    PendingHasBlank(before);

    var body := BodyWith(receipt, 0);
    var crc := Crc32Ieee(body);
    var image := body + ToBytes(crc, 4);
    assert image == ImageOf(receipt);
    var base := SlotBase(slotIndex);
    var offset := 0;
    while offset < COMMIT_AT
      invariant 0 <= offset <= COMMIT_AT && offset % 4 == 0
      invariant WriteWords(before, base, image, power)
             == WriteWords(page[..], base + offset, image[offset..], writer.supply)
    {
      OneWord(page[..], base + offset, image[offset..], writer.supply);
      assert image[offset..][..4] == image[offset..offset + 4] && image[offset..][4..] == image[offset + 4..];
      ok := writer.WriteWord(base + offset, FromBytes(image[offset..offset + 4]));
      if !ok {
        return false;
      }
      offset := offset + 4;
    }
    assert image[COMMIT_AT..] == [];
    NoWords(page[..], base + COMMIT_AT, writer.supply);
    ghost var word := ToBytes(COMMIT, 4);
    OneWord(page[..], base + COMMIT_AT, word, writer.supply);
    assert word[..4] == word && word[4..] == [];
    ok := writer.WriteWord(base + COMMIT_AT, COMMIT);
    if !ok {
      return false;
    }
    NoWords(page[..], base + COMMIT_AT + 4, writer.supply);
    var recorded := CopySlot(page, base);
    assert recorded == SlotOf(page[..], slotIndex);
    var unused: ReceiptData;
    ok, unused := ValidateInstallReceipt(recorded);
  }

  lemma NoWords(page: Page, at: nat, supply: Supply)
    requires at <= PAGE_SIZE
    ensures WriteWords(page, at, [], supply) == Written(page, true, supply)
  {
  }

  lemma PendingHasBlank(page: Page)
    requires ReadReceipt(page).Pending?
    ensures FirstBlank(page) < 2
  {
  }

  method FirstBlankSlot(page: array<byte>) returns (slotIndex: nat)
    requires page.Length == PAGE_SIZE
    ensures slotIndex == FirstBlank(page[..])
  {
    slotIndex := 0;
    while slotIndex < 2
      invariant slotIndex <= 2
      invariant forall k | 0 <= k < slotIndex :: !Blank(SlotOf(page[..], k))
    {
      var slot := CopySlot(page, SlotBase(slotIndex));
      assert slot == SlotOf(page[..], slotIndex);
      var blank := InstallReceiptSlotBlank(slot);
      if blank {
        break;
      }
      slotIndex := slotIndex + 1;
    }
    assert slotIndex > 0 ==> !Blank(SlotOf(page[..], 0));
    assert slotIndex > 1 ==> !Blank(SlotOf(page[..], 1));
  }
}
