/** The four flash slots, their byte layout, and crash atomicity: over every run of writes,
    power losses and reboots, start-up recovers exactly the last completed image. */
module VendorFlash {
  import opened Octets
  import opened Optional
  import opened VendorImage

  const SECTOR := 512
  const SECTORS := 8
  const SLOT_SIZE := 4096

  // Little-endian fields of the packed struct.
  function Le16(x: U16): (b: seq<Byte>)
    ensures |b| == 2 && U16At(b, 0) == x == b[0] as int + 0x100 * b[1] as int
  {
    [x % 0x100, x / 0x100]
  }

  function Le32(x: U32): (b: seq<Byte>)
    ensures |b| == 4 && U32At(b, 0) == x
    ensures x == b[0] as int + 0x100 * b[1] as int + 0x1_0000 * b[2] as int + 0x100_0000 * b[3] as int
  {
    var b: seq<Byte> := [x % 0x100, x / 0x100 % 0x100, x / 0x100 / 0x100 % 0x100, x / 0x100 / 0x100 / 0x100];
    assert U32At(b, 0) == x;
    b
  }

  function U16At(b: seq<Byte>, at: nat): U16
    requires at + 2 <= |b|
  {
    b[at] as int + 0x100 * b[at + 1] as int
  }

  function U32At(b: seq<Byte>, at: nat): U32
    requires at + 4 <= |b|
  {
    b[at] as int + 0x100 * b[at + 1] as int + 0x1_0000 * b[at + 2] as int + 0x100_0000 * b[at + 3] as int
  }

  function ItemBytes(it: Item): (b: seq<Byte>)
    ensures |b| == 8 && ItemAt(b, 0) == it
  {
    Le16(it.id) + Le16(it.offset) + Le16(it.size) + Le16(it.flag)
  }

  function ItemAt(b: seq<Byte>, at: nat): Item
    requires at + 8 <= |b|
  {
    Item(U16At(b, at), U16At(b, at + 2), U16At(b, at + 4), U16At(b, at + 6))
  }

  // The first n of these parts, one after the other.
  function Concat(parts: seq<seq<Byte>>, n: nat): seq<Byte>
    requires n <= |parts|
  {
    if n == 0 then [] else Concat(parts, n - 1) + parts[n - 1]
  }

  function TableParts(t: seq<Item>): (parts: seq<seq<Byte>>)
    ensures |parts| == |t| && forall k :: 0 <= k < |t| ==> parts[k] == ItemBytes(t[k])
  {
    seq(|t|, k requires 0 <= k < |t| => ItemBytes(t[k]))
  }

  function TableBytes(t: seq<Item>): (b: seq<Byte>)
    ensures |b| == 8 * |t|
  {
    ConcatAt(TableParts(t), |t|);
    Concat(TableParts(t), |t|)
  }

  // Part k of a row of eight-byte parts.
  lemma {:induction false} ConcatAt(parts: seq<seq<Byte>>, n: nat)
    requires n <= |parts| && forall k :: 0 <= k < |parts| ==> |parts[k]| == 8
    ensures |Concat(parts, n)| == 8 * n
    ensures forall k :: 0 <= k < n ==> Concat(parts, n)[8 * k..8 * k + 8] == parts[k]
  {
    if n > 0 {
      ConcatAt(parts, n - 1);
      var low := Concat(parts, n - 1);
      forall k | 0 <= k < n
        ensures Concat(parts, n)[8 * k..8 * k + 8] == parts[k]
      {
        SliceOfSum(low, parts[n - 1], 8 * k);
      }
    }
  }

  lemma SliceOfSum(x: seq<Byte>, y: seq<Byte>, at: nat)
    requires |y| == 8 && (at + 8 <= |x| || at == |x|)
    ensures (x + y)[at..at + 8] == if at == |x| then y else x[at..at + 8]
  {
  }

  function HeadBytes(im: Image): (b: seq<Byte>)
    ensures |b| == 16
    ensures U32At(b, 0) == im.tag && U32At(b, 4) == im.version
    ensures U16At(b, 8) == im.nextIndex && U16At(b, 10) == im.itemNum
    ensures U16At(b, 12) == im.freeOffset && U16At(b, 14) == im.freeSize
  {
    Le32(im.tag) + Le32(im.version) + Le16(im.nextIndex) + Le16(im.itemNum)
    + Le16(im.freeOffset) + Le16(im.freeSize)
  }

  // The 4096 bytes that a commit of the image writes.
  function Bytes(im: Image): (b: seq<Byte>)
    requires |im.item| == MAX_ITEMS && |im.data| == DATA_SIZE
    ensures |b| == SLOT_SIZE
  {
    HeadBytes(im) + TableBytes(im.item) + im.data + Le32(im.hash) + Le32(im.version2)
  }

  function FromBytes(b: seq<Byte>): (im: Image)
    requires |b| == SLOT_SIZE
    ensures |im.item| == MAX_ITEMS && |im.data| == DATA_SIZE
  {
    Image(U32At(b, 0), U32At(b, 4), U16At(b, 8), U16At(b, 10), U16At(b, 12), U16At(b, 14),
          seq(MAX_ITEMS, k requires 0 <= k < MAX_ITEMS => ItemAt(b, 16 + 8 * k)),
          b[512..4088], U32At(b, 4088), U32At(b, 4092))
  }

  // The five parts of a slot.
  lemma SlotParts(im: Image)
    requires |im.item| == MAX_ITEMS && |im.data| == DATA_SIZE
    ensures var b := Bytes(im);
      && b[0..16] == HeadBytes(im) && b[16..512] == TableBytes(im.item)
      && b[512..4088] == im.data && b[4088..4092] == Le32(im.hash) && b[4092..4096] == Le32(im.version2)
  {
  }

  /** Where the fields of an image lie in its slot, lowest byte first. */
  lemma SlotBytes(im: Image)
    requires |im.item| == MAX_ITEMS && |im.data| == DATA_SIZE
    ensures var b := Bytes(im);
      && b[0..4] == Le32(im.tag) && b[4..8] == Le32(im.version)
      && b[8..10] == Le16(im.nextIndex) && b[10..12] == Le16(im.itemNum)
      && b[12..14] == Le16(im.freeOffset) && b[14..16] == Le16(im.freeSize)
      && b[512..4088] == im.data && b[4088..4092] == Le32(im.hash) && b[4092..4096] == Le32(im.version2)
  {
    var b := Bytes(im);
    SlotParts(im);
    HeadParts(im);
    SliceOfSlice(b, 0, 16, 0, 4);
    SliceOfSlice(b, 0, 16, 4, 8);
    SliceOfSlice(b, 0, 16, 8, 10);
    SliceOfSlice(b, 0, 16, 10, 12);
    SliceOfSlice(b, 0, 16, 12, 14);
    SliceOfSlice(b, 0, 16, 14, 16);
  }

  // And the fields of table entry k.
  lemma EntryBytes(im: Image, k: nat)
    requires |im.item| == MAX_ITEMS && |im.data| == DATA_SIZE && k < MAX_ITEMS
    ensures var b, at := Bytes(im), 16 + 8 * k;
      && b[at..at + 2] == Le16(im.item[k].id) && b[at + 2..at + 4] == Le16(im.item[k].offset)
      && b[at + 4..at + 6] == Le16(im.item[k].size) && b[at + 6..at + 8] == Le16(im.item[k].flag)
  {
    var b, at := Bytes(im), 16 + 8 * k;
    SlotParts(im);
    ConcatAt(TableParts(im.item), |im.item|);
    SliceOfSlice(b, 16, 512, 8 * k, 8 * k + 8);
    ItemParts(b[at..at + 8], im.item[k]);
    SliceOfSlice(b, at, at + 8, 0, 2);
    SliceOfSlice(b, at, at + 8, 2, 4);
    SliceOfSlice(b, at, at + 8, 4, 6);
    SliceOfSlice(b, at, at + 8, 6, 8);
  }

  // The tag as it lies in flash.
  lemma TagBytes()
    ensures Le32(TAG) == [0x44, 0x56, 0x4B, 0x52]
  {
  }

  lemma HeadParts(im: Image)
    ensures var b := HeadBytes(im);
      && b[0..4] == Le32(im.tag) && b[4..8] == Le32(im.version)
      && b[8..10] == Le16(im.nextIndex) && b[10..12] == Le16(im.itemNum)
      && b[12..14] == Le16(im.freeOffset) && b[14..16] == Le16(im.freeSize)
  {
  }

  lemma ItemParts(b: seq<Byte>, it: Item)
    requires b == ItemBytes(it)
    ensures b[0..2] == Le16(it.id) && b[2..4] == Le16(it.offset) && b[4..6] == Le16(it.size) && b[6..8] == Le16(it.flag)
  {
  }

  lemma ItemsRoundTrip(b: seq<Byte>, t: seq<Item>)
    requires |b| == SLOT_SIZE && |t| == MAX_ITEMS && b[16..512] == TableBytes(t)
    ensures FromBytes(b).item == t
  {
    ConcatAt(TableParts(t), |t|);
    forall k | 0 <= k < MAX_ITEMS
      ensures ItemAt(b, 16 + 8 * k) == t[k]
    {
      SliceOfSlice(b, 16, 512, 8 * k, 8 * k + 8);
      ItemThere(b, 16 + 8 * k, t[k]);
    }
  }

  lemma SliceOfSlice(b: seq<Byte>, lo: nat, hi: nat, i: nat, j: nat)
    requires lo <= hi <= |b| && i <= j <= hi - lo
    ensures b[lo..hi][i..j] == b[lo + i..lo + j]
  {
    assert forall k :: 0 <= k < j - i ==> b[lo..hi][i..j][k] == b[lo + i..lo + j][k];
  }

  lemma ItemThere(b: seq<Byte>, at: nat, it: Item)
    requires at + 8 <= |b| && b[at..at + 8] == ItemBytes(it)
    ensures ItemAt(b, at) == it
  {
    assert ItemAt(b, at) == ItemAt(b[at..at + 8], 0);
  }

  /** Reading a slot back yields the image that was committed to it. */
  lemma BytesRoundTrip(im: Image)
    requires |im.item| == MAX_ITEMS && |im.data| == DATA_SIZE
    ensures FromBytes(Bytes(im)) == im
  {
    var b := Bytes(im);
    SlotParts(im);
    assert b[..16] == b[0..16] && b[4092..] == b[4092..4096];
    ItemsRoundTrip(b, im.item);
  }

  lemma Le16Back(b: seq<Byte>, at: nat)
    requires at + 2 <= |b|
    ensures Le16(U16At(b, at)) == b[at..at + 2]
  {
    DivIs(U16At(b, at), 0x100, b[at + 1], b[at]);
  }

  lemma Le32Back(b: seq<Byte>, at: nat)
    requires at + 4 <= |b|
    ensures Le32(U32At(b, at)) == b[at..at + 4]
  {
    var top := b[at + 2] as int + 0x100 * b[at + 3] as int;
    DivIs(U32At(b, at), 0x100, b[at + 1] as int + 0x100 * top, b[at]);
    DivIs(b[at + 1] as int + 0x100 * top, 0x100, top, b[at + 1]);
    DivIs(top, 0x100, b[at + 3], b[at + 2]);
  }

  lemma ItemBack(b: seq<Byte>, at: nat)
    requires at + 8 <= |b|
    ensures ItemBytes(ItemAt(b, at)) == b[at..at + 8]
  {
    Le16Back(b, at);
    Le16Back(b, at + 2);
    Le16Back(b, at + 4);
    Le16Back(b, at + 6);
  }

  lemma {:induction false} ConcatBack(b: seq<Byte>, at: nat, parts: seq<seq<Byte>>, n: nat)
    requires n <= |parts| && at + 8 * n <= |b|
    requires forall k :: 0 <= k < n ==> IsPart(b, at, k, parts[k])
    ensures Concat(parts, n) == b[at..at + 8 * n]
  {
    if n > 0 {
      ConcatBack(b, at, parts, n - 1);
      assert IsPart(b, at, n - 1, parts[n - 1]);
      Joined(b, at, at + 8 * (n - 1), at + 8 * n);
    }
  }

  predicate IsPart(b: seq<Byte>, at: nat, k: nat, part: seq<Byte>) {
    at + 8 * k + 8 <= |b| && part == b[at + 8 * k..at + 8 * k + 8]
  }

  lemma Joined(b: seq<Byte>, lo: nat, mid: nat, hi: nat)
    requires lo <= mid <= hi <= |b|
    ensures b[lo..mid] + b[mid..hi] == b[lo..hi]
  {
  }

  lemma HeadBack(b: seq<Byte>)
    requires |b| == SLOT_SIZE
    ensures HeadBytes(FromBytes(b)) == b[..16]
  {
    Le32Back(b, 0);
    Le32Back(b, 4);
    Le16Back(b, 8);
    Le16Back(b, 10);
    Le16Back(b, 12);
    Le16Back(b, 14);
  }

  lemma ItemsBack(b: seq<Byte>)
    requires |b| == SLOT_SIZE
    ensures TableBytes(FromBytes(b).item) == b[16..512]
  {
    var parts := TableParts(FromBytes(b).item);
    forall k | 0 <= k < |parts|
      ensures IsPart(b, 16, k, parts[k])
    {
      ItemBack(b, 16 + 8 * k);
    }
    ConcatBack(b, 16, parts, |parts|);
  }

  /** No two slots read back as the same image. */
  lemma FieldsRoundTrip(b: seq<Byte>)
    requires |b| == SLOT_SIZE
    ensures Bytes(FromBytes(b)) == b
  {
    HeadBack(b);
    ItemsBack(b);
    Le32Back(b, 4088);
    Le32Back(b, 4092);
    Joined(b, 0, 16, 512);
    Joined(b, 0, 512, 4088);
    Joined(b, 0, 4088, 4092);
    Joined(b, 0, 4092, 4096);
  }

  // A commit that lost power after the first k sectors.
  function Torn(was: seq<Byte>, im: seq<Byte>, k: nat): seq<Byte>
    requires |was| == |im| == SLOT_SIZE && k <= SECTORS
  {
    im[..SECTOR * k] + was[SECTOR * k..]
  }

  lemma TornFields(was: seq<Byte>, next: Image, k: nat)
    requires |was| == SLOT_SIZE && |next.item| == MAX_ITEMS && |next.data| == DATA_SIZE && k <= SECTORS
    ensures var torn := Torn(was, Bytes(next), k);
      && |torn| == SLOT_SIZE
      && (k == 0 ==> torn == was)
      && (k == SECTORS ==> torn == Bytes(next) && FromBytes(torn) == next)
      && (0 < k < SECTORS ==>
            FromBytes(torn).version == next.version && FromBytes(torn).version2 == FromBytes(was).version2)
  {
    BytesRoundTrip(next);
    assert k == SECTORS ==> Torn(was, Bytes(next), k) == Bytes(next);
  }

  predicate FlashShape(flash: seq<seq<Byte>>) {
    |flash| == PART_NUM && forall i :: 0 <= i < PART_NUM ==> |flash[i]| == SLOT_SIZE
  }

  // The four slots as start-up reads them.
  function Slots(flash: seq<seq<Byte>>): (slots: seq<Image>)
    requires FlashShape(flash)
    ensures |slots| == PART_NUM
    ensures forall i :: 0 <= i < PART_NUM ==> slots[i] == FromBytes(flash[i])
  {
    seq(PART_NUM, i requires 0 <= i < PART_NUM => FromBytes(flash[i]))
  }

  // The four slots with other bytes in one of them.
  function PutSlot(flash: seq<seq<Byte>>, at: nat, slot: seq<Byte>): (flash': seq<seq<Byte>>)
    requires FlashShape(flash) && at < PART_NUM && |slot| == SLOT_SIZE
    ensures FlashShape(flash') && Slots(flash') == Slots(flash)[at := FromBytes(slot)]
  {
    flash[at := slot]
  }

  // The version a slot offers to start-up; 0 when it offers none.
  function Offer(slot: Image): U32 {
    if slot.tag == TAG && slot.version == slot.version2 then slot.version else 0
  }

  // The first of the lowest n slots with the highest offer, as the start-up loop finds it.
  function Best(slots: seq<Image>, n: nat): (i: nat)
    requires n <= |slots|
    ensures n > 0 ==> i < n
  {
    if n <= 1 then 0
    else if Offer(slots[n - 1]) <= Offer(slots[Best(slots, n - 1)]) then Best(slots, n - 1)
    else n - 1
  }

  // What start-up leaves in RAM.
  function Recover(slots: seq<Image>): Image
    requires |slots| > 0
  {
    var slot := slots[Best(slots, |slots|)];
    if Offer(slot) > 0 then slot else Blank()
  }

  lemma {:induction false} BestIsHighest(slots: seq<Image>, n: nat)
    requires 0 < n <= |slots|
    ensures forall i :: 0 <= i < n ==> Offer(slots[i]) <= Offer(slots[Best(slots, n)])
    ensures forall i :: 0 <= i < Best(slots, n) ==> Offer(slots[i]) < Offer(slots[Best(slots, n)])
  {
    if n > 1 {
      BestIsHighest(slots, n - 1);
    }
  }

  // A slot start-up may take: the tag is there, and both versions agree and are not 0.
  predicate Whole(slot: Image) {
    slot.tag == TAG && slot.version == slot.version2 && slot.version > 0
  }

  /** Start-up takes the first of the whole slots with the highest version; if none is whole, it builds
      the blank image. */
  lemma NewestIsLoaded(slots: seq<Image>) returns (i: nat)
    requires |slots| > 0
    ensures i < |slots|
    ensures if exists k :: 0 <= k < |slots| && Whole(slots[k]) then
        && Recover(slots) == slots[i] && Whole(slots[i])
        && (forall k :: 0 <= k < |slots| && Whole(slots[k]) ==> slots[k].version <= slots[i].version)
        && (forall k :: 0 <= k < i && Whole(slots[k]) ==> slots[k].version < slots[i].version)
      else
        Recover(slots) == Blank()
  {
    BestIsHighest(slots, |slots|);
    i := Best(slots, |slots|);
  }

  // Slot j strictly beats all the others.
  ghost predicate Wins(slots: seq<Image>, j: nat)
    requires j < |slots|
  {
    Offer(slots[j]) > 0 && forall i :: 0 <= i < |slots| && i != j ==> Offer(slots[i]) < Offer(slots[j])
  }

  // Some slot other than the one due next in im wins with im, or no slot offers anything
  // and im is the image built from nothing.
  ghost predicate Holds(slots: seq<Image>, im: Image) {
    if forall i :: 0 <= i < |slots| ==> Offer(slots[i]) == 0 then im == Blank()
    else exists j :: 0 <= j < |slots| && Wins(slots, j) && j != im.nextIndex && slots[j] == im
  }

  lemma HeldIsRecovered(slots: seq<Image>, im: Image)
    requires |slots| > 0 && Holds(slots, im)
    ensures Recover(slots) == im
  {
    BestIsHighest(slots, |slots|);
  }

  // No later version can be mistaken for this slot's tail.
  predicate OldTail(slot: Image, version: nat) {
    slot.version2 <= version || slot.version2 == 0xFFFF_FFFF
  }

  ghost predicate GoodImage(im: Image, bound: nat) {
    Layout(im) && im.tag == TAG && im.version == im.version2 && 1 <= im.version <= bound
  }

  // im is what start-up would recover, the slot due next is not the one it lies in, and
  // no slot has a tail that a later commit could complete by accident.
  ghost predicate Sound(slots: seq<Image>, im: Image, bound: nat) {
    && |slots| == PART_NUM
    && GoodImage(im, bound)
    && (forall i :: 0 <= i < |slots| ==> OldTail(slots[i], im.version))
    && Holds(slots, im)
  }

  // A slot offering the next version beats all that was there.
  lemma NewestWins(slots: seq<Image>, im: Image, slot: Image, bound: nat)
    requires Sound(slots, im, bound) && Offer(slot) == im.version + 1
    ensures Wins(slots[im.nextIndex := slot], im.nextIndex) && Recover(slots[im.nextIndex := slot]) == slot
  {
    var slots' := slots[im.nextIndex := slot];
    HeldIsRecovered(slots, im);
    BestIsHighest(slots, |slots|);
    BestIsHighest(slots', |slots'|);
  }

  lemma CompletedCommit(slots: seq<Image>, im: Image, next: Image, bound: nat)
    requires Sound(slots, im, bound) && GoodImage(next, bound + 1)
    requires next.version == im.version + 1 && next.nextIndex == (im.nextIndex + 1) % PART_NUM
    ensures Sound(slots[im.nextIndex := next], next, bound + 1)
  {
    NewestWins(slots, im, next, bound);
    var slots' := slots[im.nextIndex := next];
    forall i | 0 <= i < |slots'|
      ensures OldTail(slots'[i], next.version)
    {
      assert i != im.nextIndex ==> OldTail(slots[i], im.version);
    }
    assert slots'[im.nextIndex] == next && im.nextIndex != next.nextIndex && Offer(slots'[im.nextIndex]) > 0;
  }

  // A torn commit of the next version is rejected whatever the slot held before.
  lemma PartialCommit(slots: seq<Image>, im: Image, torn: Image, bound: nat)
    requires Sound(slots, im, bound)
    requires torn.version == im.version + 1 < 0xFFFF_FFFF && torn.version2 == slots[im.nextIndex].version2
    ensures Sound(slots[im.nextIndex := torn], im, bound)
  {
    var slots' := slots[im.nextIndex := torn];
    assert Offer(torn) == 0;
    if j :| 0 <= j < |slots| && Wins(slots, j) && j != im.nextIndex && slots[j] == im {
      assert Wins(slots', j);
    }
  }

  datatype System = System(flash: seq<seq<Byte>>, ram: Option<Image>)

  datatype Step =
    | Boot
    | PowerOff
    | Refuse(id: U16, buf: seq<Byte>)
    | Write(id: U16, buf: seq<Byte>, next: Image)
    | LostWrite(id: U16, buf: seq<Byte>, next: Image, sectors: nat)

  // The slot array after the first k sectors of next went to the slot due in im.
  function Commit(flash: seq<seq<Byte>>, im: Image, next: Image, k: nat): (flash': seq<seq<Byte>>)
    requires FlashShape(flash) && im.nextIndex < PART_NUM && k <= SECTORS
    requires |next.item| == MAX_ITEMS && |next.data| == DATA_SIZE
    ensures FlashShape(flash')
  {
    PutSlot(flash, im.nextIndex, Torn(flash[im.nextIndex], Bytes(next), k))
  }

  ghost predicate Next(s: System, step: Step, s': System) {
    FlashShape(s.flash) &&
    match step
    case Boot => s.ram.None? && s' == s.(ram := Some(Recover(Slots(s.flash))))
    case PowerOff => s' == s.(ram := None)
    case Refuse(id, buf) =>
      && s.ram.Some? && Layout(s.ram.value) && 1 <= |buf| && Refused(s.ram.value, id, |buf|)
      && s' == s
    case Write(id, buf, next) =>
      && s.ram.Some? && Layout(s.ram.value) && Wrote(s.ram.value, id, buf, next)
      && s' == System(Commit(s.flash, s.ram.value, next, SECTORS), Some(next))
    case LostWrite(id, buf, next, k) =>
      && s.ram.Some? && Layout(s.ram.value) && Wrote(s.ram.value, id, buf, next) && k <= SECTORS
      && s' == System(Commit(s.flash, s.ram.value, next, k), None)
  }

  ghost predicate Inv(s: System, im: Image, bound: nat) {
    FlashShape(s.flash) && Sound(Slots(s.flash), im, bound) && (s.ram.Some? ==> s.ram.value == im)
  }

  // A slot nothing was ever committed to: erased to all ones or all zeros, or at least
  // without a valid header and with a tail that no commit will write.
  predicate Erased(slot: seq<Byte>) {
    |slot| == SLOT_SIZE && Offer(FromBytes(slot)) == 0 && OldTail(FromBytes(slot), 1)
  }

  // The image start-up would recover after the step, told without looking at the flash.
  function Survivor(im: Image, step: Step): Image {
    match step
    case Write(_, _, next) => next
    case LostWrite(_, _, next, k) => if k == SECTORS then next else im
    case _ => im
  }

  lemma CommitKeepsSound(flash: seq<seq<Byte>>, im: Image, next: Image, k: nat, bound: nat)
    requires FlashShape(flash) && Sound(Slots(flash), im, bound) && k <= SECTORS
    requires GoodImage(next, bound + 1)
    requires next.version == im.version + 1 < 0xFFFF_FFFF && next.nextIndex == (im.nextIndex + 1) % PART_NUM
    ensures Sound(Slots(Commit(flash, im, next, k)), if k == SECTORS then next else im, bound + 1)
  {
    var at, flash' := im.nextIndex, Commit(flash, im, next, k);
    TornFields(flash[at], next, k);
    if k == SECTORS {
      CompletedCommit(Slots(flash), im, next, bound);
    } else if k == 0 {
      assert flash' == flash;
    } else {
      PartialCommit(Slots(flash), im, FromBytes(flash'[at]), bound);
    }
  }

  lemma WroteGood(im: Image, id: int, buf: seq<Byte>, next: Image, bound: nat)
    requires GoodImage(im, bound) && bound < 0xFFFF_FFFE && Wrote(im, id, buf, next)
    ensures GoodImage(next, bound + 1)
    ensures next.version == im.version + 1 < 0xFFFF_FFFF && next.nextIndex == (im.nextIndex + 1) % PART_NUM
  {
  }

  lemma WriteKeepsSound(flash: seq<seq<Byte>>, im: Image, id: int, buf: seq<Byte>, next: Image, k: nat, bound: nat)
    requires FlashShape(flash) && Sound(Slots(flash), im, bound) && bound < 0xFFFF_FFFE
    requires Wrote(im, id, buf, next) && k <= SECTORS
    ensures Sound(Slots(Commit(flash, im, next, k)), if k == SECTORS then next else im, bound + 1)
  {
    WroteGood(im, id, buf, next, bound);
    CommitKeepsSound(flash, im, next, k, bound);
  }

  /** One step keeps the invariant and takes the recoverable image to Survivor. */
  lemma StepIsAtomic(s: System, im: Image, step: Step, s': System, bound: nat)
    requires Inv(s, im, bound) && bound < 0xFFFF_FFFE && Next(s, step, s')
    ensures Inv(s', Survivor(im, step), bound + 1)
  {
    match step
    case Boot =>
      HeldIsRecovered(Slots(s.flash), im);
    case Write(id, buf, next) =>
      WriteKeepsSound(s.flash, im, id, buf, next, SECTORS, bound);
    case LostWrite(id, buf, next, k) =>
      WriteKeepsSound(s.flash, im, id, buf, next, k, bound);
    case _ =>
  }

  // A run: states[k] goes to states[k + 1] by steps[k].
  ghost predicate Run(states: seq<System>, steps: seq<Step>) {
    && |states| == |steps| + 1
    && forall k, after :: 0 <= k < |steps| && after == k + 1 ==> Next(states[k], steps[k], states[after])
  }

  lemma RunSplit(states: seq<System>, steps: seq<Step>)
    requires Run(states, steps) && steps != []
    ensures var n := |steps| - 1;
      Run(states[..n + 1], steps[..n]) && Next(states[n], steps[n], states[n + 1])
  {
  }

  // The durable map after a run, told by the completed writes alone.
  function Durable(steps: seq<Step>): map<int, seq<Byte>> {
    if steps == [] then map[] else
      var last, before := steps[|steps| - 1], Durable(steps[..|steps| - 1]);
      match last
      case Write(id, buf, _) => before[id := buf]
      case LostWrite(id, buf, _, k) => if k == SECTORS then before[id := buf] else before
      case _ => before
  }

  lemma BlankIsEmpty()
    ensures Layout(Blank()) && View(Blank()) == map[]
    ensures Blank().version == Blank().version2 == 1 && Blank().freeOffset == 0 && Blank().freeSize == DATA_SIZE == 3576
  {
  }

  /** Crash atomicity over whole runs: starting from erased flash, after any run of boots,
      writes, refused writes and power losses at any sector, what the next start-up recovers
      stands for exactly the map built by the completed writes; the image in RAM, when the
      power is on, is that same image. Short of 2^32 steps no version wraps. */
  lemma {:induction false} CrashAtomicity(states: seq<System>, steps: seq<Step>) returns (im: Image)
    requires Run(states, steps) && |steps| < 0xFFFF_FFFD
    requires states[0].ram.None? && |states[0].flash| == PART_NUM
    requires forall i :: 0 <= i < PART_NUM ==> Erased(states[0].flash[i])
    ensures var s := states[|steps|];
      && Inv(s, im, |steps| + 1) && im == Recover(Slots(s.flash))
      && View(im) == Durable(steps)
  {
    if steps == [] {
      BlankIsEmpty();
      im := Blank();
    } else {
      var n := |steps| - 1;
      RunSplit(states, steps);
      var before := CrashAtomicity(states[..n + 1], steps[..n]);
      StepIsAtomic(states[n], before, steps[n], states[n + 1], n + 1);
      im := Survivor(before, steps[n]);
    }
    HeldIsRecovered(Slots(states[|steps|].flash), im);
  }

  /** Without the version bound the guarantee is lost exactly at the 32-bit limit: a completed
      commit is what start-up recovers if and only if its version did not wrap to zero. */
  lemma CompletedUnlessWrapped(slots: seq<Image>, im: Image, id: int, buf: seq<Byte>, next: Image)
    requires Sound(slots, im, 0xFFFF_FFFF) && Wrote(im, id, buf, next)
    ensures Recover(slots[im.nextIndex := next]) == next <==> im.version < 0xFFFF_FFFF
  {
    if im.version < 0xFFFF_FFFF {
      NewestWins(slots, im, next, 0xFFFF_FFFF);
    } else {
      assert Offer(next) == 0;
    }
  }

  // A commit of which only these sectors arrived, in any order.
  function Patchwork(was: seq<Byte>, im: seq<Byte>, sectors: set<nat>): (slot: seq<Byte>)
    requires |was| == |im| == SLOT_SIZE
    ensures |slot| == SLOT_SIZE
  {
    seq(SLOT_SIZE, i requires 0 <= i < SLOT_SIZE => if i / SECTOR in sectors then im[i] else was[i])
  }

  lemma PatchworkFields(was: seq<Byte>, next: Image, sectors: set<nat>)
    requires |was| == SLOT_SIZE && |next.item| == MAX_ITEMS && |next.data| == DATA_SIZE
    ensures var slot, old0 := FromBytes(Patchwork(was, Bytes(next), sectors)), FromBytes(was);
      && slot.tag == (if 0 in sectors then next.tag else old0.tag)
      && slot.version == (if 0 in sectors then next.version else old0.version)
      && slot.version2 == if 7 in sectors then next.version2 else old0.version2
  {
    var b := Bytes(next);
    BytesRoundTrip(next);
    assert FromBytes(b) == next;
    forall i | 0 <= i < 8 ensures i / SECTOR == 0 {}
    forall i | 4092 <= i < 4096 ensures i / SECTOR == 7 {}
  }

  // A slot that offers no more than the one it replaces leaves the recoverable image alone.
  lemma WinnerStays(slots: seq<Image>, im: Image, slot: Image, bound: nat)
    requires Sound(slots, im, bound) && Offer(slot) <= Offer(slots[im.nextIndex])
    ensures Recover(slots[im.nextIndex := slot]) == im
  {
    var slots' := slots[im.nextIndex := slot];
    if j :| 0 <= j < |slots| && Wins(slots, j) && j != im.nextIndex && slots[j] == im {
      assert Wins(slots', j);
    }
    HeldIsRecovered(slots', im);
  }

  lemma NextVersionWins(flash: seq<seq<Byte>>, im: Image, slot: seq<Byte>, bound: nat)
    requires FlashShape(flash) && Sound(Slots(flash), im, bound) && |slot| == SLOT_SIZE
    requires Offer(FromBytes(slot)) == im.version + 1
    ensures Recover(Slots(PutSlot(flash, im.nextIndex, slot))) == FromBytes(slot)
  {
    NewestWins(Slots(flash), im, FromBytes(slot), bound);
  }

  // The last sector of one commit and the first of another.
  function Mixed(was: seq<Byte>, a: Image, b: Image): (slot: seq<Byte>)
    requires |was| == SLOT_SIZE
    requires |a.item| == |b.item| == MAX_ITEMS && |a.data| == |b.data| == DATA_SIZE
    ensures |slot| == SLOT_SIZE
  {
    Patchwork(Patchwork(was, Bytes(a), {7}), Bytes(b), {0})
  }

  lemma MixedSlot(was: seq<Byte>, a: Image, b: Image)
    requires |was| == SLOT_SIZE
    requires |a.item| == |b.item| == MAX_ITEMS && |a.data| == |b.data| == DATA_SIZE
    ensures var slot := Mixed(was, a, b);
      && (forall i :: SECTOR <= i < SECTOR * 7 ==> slot[i] == was[i])
      && FromBytes(slot).tag == b.tag && FromBytes(slot).version == b.version
      && FromBytes(slot).version2 == a.version2
  {
    PatchworkFields(was, a, {7});
    PatchworkFields(Patchwork(was, Bytes(a), {7}), b, {0});
  }

  // The version check accepts a slot of which these sectors arrived: the last one did, and the
  // first one did too or was left there with this very version by an earlier commit cut off.
  predicate Accepted(was: Image, next: Image, sectors: set<nat>) {
    7 in sectors && (0 in sectors || (was.tag == TAG && was.version == next.version))
  }

  /** Whichever sectors of a commit arrive, start-up recovers the slot if it passes the version
      check, and the old image in every other case. */
  lemma AnyOrder(flash: seq<seq<Byte>>, im: Image, id: int, buf: seq<Byte>, next: Image, sectors: set<nat>, bound: nat)
    requires FlashShape(flash) && Sound(Slots(flash), im, bound) && bound < 0xFFFF_FFFE
    requires Wrote(im, id, buf, next)
    ensures
      var slot := Patchwork(flash[im.nextIndex], Bytes(next), sectors);
      Recover(Slots(PutSlot(flash, im.nextIndex, slot))) ==
        if Accepted(FromBytes(flash[im.nextIndex]), next, sectors) then FromBytes(slot) else im
  {
    var at, was := im.nextIndex, FromBytes(flash[im.nextIndex]);
    var slot := Patchwork(flash[at], Bytes(next), sectors);
    WroteGood(im, id, buf, next, bound);
    PatchworkOffer(flash, im, next, sectors, bound);
    if Accepted(was, next, sectors) {
      NextVersionWins(flash, im, slot, bound);
    } else {
      WinnerStays(Slots(flash), im, FromBytes(slot), bound);
    }
  }

  lemma PatchworkOffer(flash: seq<seq<Byte>>, im: Image, next: Image, sectors: set<nat>, bound: nat)
    requires FlashShape(flash) && Sound(Slots(flash), im, bound) && GoodImage(next, bound + 1)
    requires next.version == im.version + 1 < 0xFFFF_FFFF
    ensures
      var was := FromBytes(flash[im.nextIndex]);
      var offer := Offer(FromBytes(Patchwork(flash[im.nextIndex], Bytes(next), sectors)));
      if Accepted(was, next, sectors) then offer == next.version else offer <= Offer(was)
  {
    PatchworkFields(flash[im.nextIndex], next, sectors);
    assert OldTail(Slots(flash)[im.nextIndex], im.version);
  }

  // Every sector that did not arrive already held the bytes it was to get.
  ghost predicate NothingMissing(was: seq<Byte>, im: seq<Byte>, sectors: set<nat>)
    requires |was| == |im| == SLOT_SIZE
  {
    forall i :: 0 <= i < SLOT_SIZE && i / SECTOR !in sectors ==> was[i] == im[i]
  }

  lemma PatchworkWhole(was: seq<Byte>, im: seq<Byte>, sectors: set<nat>)
    requires |was| == |im| == SLOT_SIZE
    ensures Patchwork(was, im, sectors) == im <==> NothingMissing(was, im, sectors)
  {
    var slot := Patchwork(was, im, sectors);
    if slot == im {
      forall i | 0 <= i < SLOT_SIZE && i / SECTOR !in sectors
        ensures was[i] == im[i]
      {
        assert slot[i] == was[i];
      }
    }
  }

  /** Whichever sectors arrive, start-up recovers the old or the new image, and nothing in between,
      if and only if the slot is not accepted or no sector is missing that would have changed it. */
  lemma AllOrNothing(flash: seq<seq<Byte>>, im: Image, id: int, buf: seq<Byte>, next: Image, sectors: set<nat>, bound: nat)
    requires FlashShape(flash) && Sound(Slots(flash), im, bound) && bound < 0xFFFF_FFFE
    requires Wrote(im, id, buf, next)
    ensures
      var was := flash[im.nextIndex];
      var now := Recover(Slots(PutSlot(flash, im.nextIndex, Patchwork(was, Bytes(next), sectors))));
      now in {im, next} <==> (Accepted(FromBytes(was), next, sectors) ==> NothingMissing(was, Bytes(next), sectors))
  {
    var was := flash[im.nextIndex];
    var slot := Patchwork(was, Bytes(next), sectors);
    AnyOrder(flash, im, id, buf, next, sectors, bound);
    if Accepted(FromBytes(was), next, sectors) {
      WroteGood(im, id, buf, next, bound);
      PatchworkOffer(flash, im, next, sectors, bound);
      PatchworkWhole(was, Bytes(next), sectors);
      BytesRoundTrip(next);
      FieldsRoundTrip(slot);
    }
  }

  /** Atomicity needs the sectors to arrive in order. If one interrupted commit got only its
      last sector down, and the next one only its first, the slot passes the version check and
      wins although six sectors of it belong to neither commit. */
  lemma OrderMatters(flash: seq<seq<Byte>>, im: Image, ia: int, ba: seq<Byte>, a: Image,
                     ib: int, bb: seq<Byte>, b: Image, bound: nat)
    requires FlashShape(flash) && Sound(Slots(flash), im, bound) && bound < 0xFFFF_FFFE
    requires Wrote(im, ia, ba, a) && Wrote(im, ib, bb, b)
    ensures
      var was := flash[im.nextIndex];
      var slot := Mixed(was, a, b);
      && (forall i :: SECTOR <= i < SECTOR * 7 ==> slot[i] == was[i])
      && Recover(Slots(PutSlot(flash, im.nextIndex, slot))) == FromBytes(slot)
      && Offer(FromBytes(slot)) == im.version + 1
  {
    WroteGood(im, ia, ba, a, bound);
    WroteGood(im, ib, bb, b, bound);
    var was := flash[im.nextIndex];
    MixedSlot(was, a, b);
    NextVersionWins(flash, im, Mixed(was, a, b), bound);
  }
}
