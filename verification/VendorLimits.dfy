/** Where the vendor storage loses data: concrete flash contents and writes. */
module VendorLimits {
  import opened Octets
  import opened VendorImage
  import opened VendorFlash
  import opened VendorStorage

  // The empty image with this version, due to be committed to this slot next.
  function Empty(version: U32, slot: U16): Image {
    Blank().(version := version, version2 := version, nextIndex := slot)
  }

  // One byte x stored under id 1 in an empty image, before the version goes up.
  function OneByte(im: Image, x: Byte): (next: Image)
    requires im.itemNum == im.freeOffset == 0 && im.freeSize == DATA_SIZE
    requires |im.item| == MAX_ITEMS && |im.data| == DATA_SIZE
    ensures |next.item| == MAX_ITEMS && |next.data| == DATA_SIZE && next.data[0] == x
  {
    im.(item := im.item[0 := im.item[0].(id := 1, offset := 0, size := 1)], data := im.data[0 := x],
        itemNum := 1, freeOffset := 64, freeSize := DATA_SIZE - 64)
  }

  lemma OneByteWrote(im: Image, x: Byte)
    requires Layout(im) && im.itemNum == im.freeOffset == 0 && im.freeSize == DATA_SIZE
    ensures Wrote(im, 1, [x], Advanced(OneByte(im, x)))
  {
    AppendedWrote(im, 1, [x], OneByte(im, x));
  }

  // The image that storing x under id 1 commits to erased flash.
  function Stored(x: Byte): (next: Image)
    ensures |next.item| == MAX_ITEMS && |next.data| == DATA_SIZE && next.data[0] == x && next.version == 2
  {
    Advanced(OneByte(Blank(), x))
  }

  function Zeros(): (b: seq<Byte>)
    ensures |b| == SLOT_SIZE && forall i :: 0 <= i < |b| ==> b[i] == 0
  {
    seq(SLOT_SIZE, _ => 0)
  }

  function ErasedFlash(): (flash: seq<seq<Byte>>)
    ensures FlashShape(flash) && forall i :: 0 <= i < |flash| ==> flash[i] == Zeros()
  {
    [Zeros(), Zeros(), Zeros(), Zeros()]
  }

  lemma ErasedOffersNothing()
    ensures Erased(Zeros()) && Sound(Slots(ErasedFlash()), Blank(), 1)
  {
    assert forall i :: 0 <= i < PART_NUM ==> Slots(ErasedFlash())[i] == FromBytes(Zeros());
  }

  /** With version 2^32 - 1 in slot 0 a one-byte write to slot 1 completes, and start-up still
      recovers the image from before it. */
  lemma WrappedWriteIsLost() returns (slots: seq<Image>, im: Image, next: Image)
    ensures Sound(slots, im, 0xFFFF_FFFF) && Wrote(im, 1, [7], next)
    ensures Recover(slots[im.nextIndex := next]) == im && 1 !in View(im) && 1 in View(next)
  {
    var z := FromBytes(Zeros());
    im := Empty(0xFFFF_FFFF, 1);
    next := Advanced(OneByte(im, 7));
    slots := [im, z, z, z];
    assert Wins(slots, 0);
    OneByteWrote(im, 7);
    WinnerStays(slots, im, next, 0xFFFF_FFFF);
    BlankIsEmpty();
  }

  // What start-up recovers once the write of x reached only the last sector of slot 0 and the write
  // of y only its first.
  function Leftover(x: Byte, y: Byte): Image {
    Recover(Slots(PutSlot(ErasedFlash(), 0, Mixed(Zeros(), Stored(x), Stored(y)))))
  }

  lemma LeftoverIs(x: Byte, y: Byte)
    ensures Leftover(x, y) == FromBytes(Mixed(Zeros(), Stored(x), Stored(y)))
  {
    OneByteWrote(Blank(), x);
    OneByteWrote(Blank(), y);
    ErasedOffersNothing();
    OrderMatters(ErasedFlash(), Blank(), 1, [x], Stored(x), 1, [y], Stored(y), 1);
  }

  lemma LeftoverFields(x: Byte, y: Byte)
    ensures Leftover(x, y).version == 2 && Leftover(x, y).data[0] == 0
  {
    LeftoverIs(x, y);
    MixedSlot(Zeros(), Stored(x), Stored(y));
    var slot := Mixed(Zeros(), Stored(x), Stored(y));
    assert FromBytes(slot).data[0] == slot[512] == Zeros()[512];
  }

  /** From erased flash, two writes of a byte other than 0, cut off with their sectors out of order,
      leave an image that is neither the old one nor either of the new ones. */
  lemma MixedWritesRecovered(x: Byte, y: Byte)
    requires x != 0 && y != 0
    ensures Wrote(Blank(), 1, [x], Stored(x)) && Wrote(Blank(), 1, [y], Stored(y))
    ensures Leftover(x, y) !in {Blank(), Stored(x), Stored(y)}
  {
    OneByteWrote(Blank(), x);
    OneByteWrote(Blank(), y);
    LeftoverFields(x, y);
    assert Blank().version == 1;
  }
}
