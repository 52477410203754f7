/** The vendor storage entry points, updating the RAM image in place. */
module VendorStorage {
  import opened Octets
  import opened Optional
  import opened VendorImage
  import opened VendorFlash

  // The struct behind g_vendor.
  class VendorInfo {
    var tag: U32
    var version: U32
    var nextIndex: U16
    var itemNum: U16
    var freeOffset: U16
    var freeSize: U16
    const item: array<Item>
    const data: array<Byte>
    var hash: U32
    var version2: U32

    ghost predicate Valid()
      reads this, item, data
    {
      item.Length == MAX_ITEMS && data.Length == DATA_SIZE && Layout(Snapshot())
    }

    ghost function Snapshot(): Image
      reads this, item, data
    {
      Image(tag, version, nextIndex, itemNum, freeOffset, freeSize, item[..], data[..], hash, version2)
    }

    // The zeroed image that start-up builds when no slot holds a valid one.
    constructor ()
      ensures Valid() && fresh(item) && fresh(data)
      ensures Snapshot() == Blank()
    {
      item := new Item[MAX_ITEMS](_ => Item(0, 0, 0, 0));
      data := new Byte[DATA_SIZE](_ => 0);
      tag, version, version2 := TAG, 1, 1;
      nextIndex, itemNum, freeOffset, freeSize, hash := 0, 0, 0, DATA_SIZE, 0;
      new;
      assert item[..] == seq(MAX_ITEMS, _ => Item(0, 0, 0, 0));
      assert data[..] == seq(DATA_SIZE, _ => 0);
    }

    // An image as it was read back from flash.
    constructor FromFlash(im: Image)
      requires |im.item| == MAX_ITEMS && |im.data| == DATA_SIZE
      ensures item.Length == MAX_ITEMS && data.Length == DATA_SIZE && fresh(item) && fresh(data)
      ensures Snapshot() == im && (Layout(im) ==> Valid())
    {
      item := new Item[MAX_ITEMS](i requires 0 <= i < MAX_ITEMS => im.item[i]);
      data := new Byte[DATA_SIZE](i requires 0 <= i < DATA_SIZE => im.data[i]);
      tag, version, version2 := im.tag, im.version, im.version2;
      nextIndex, itemNum, freeOffset, freeSize, hash :=
        im.nextIndex, im.itemNum, im.freeOffset, im.freeSize, im.hash;
      new;
      assert item[..] == im.item;
      assert data[..] == im.data;
    }

    // memcpy inside the data area, lowest byte first; the ranges may overlap when dst < src.
    method MoveDown(dst: nat, src: nat, n: nat)
      requires dst < src && src + n <= data.Length
      modifies data
      ensures data[dst..dst + n] == old(data[src..src + n])
      ensures forall x :: 0 <= x < data.Length && !(dst <= x < dst + n) ==> data[x] == old(data[x])
    {
      for k := 0 to n
        invariant forall x :: 0 <= x < data.Length && !(dst <= x < dst + k) ==> data[x] == old(data[x])
        invariant forall x :: dst <= x < dst + k ==> data[x] == old(data[x + (src - dst)])
      {
        data[dst + k] := data[src + k];
      }
    }

    // memcpy of a caller's buffer into the data area.
    method CopyIn(dst: nat, buf: seq<Byte>, n: nat)
      requires n <= |buf| && dst + n <= data.Length
      modifies data
      ensures data[dst..dst + n] == buf[..n]
      ensures forall x :: 0 <= x < data.Length && !(dst <= x < dst + n) ==> data[x] == old(data[x])
    {
      for k := 0 to n
        invariant forall x :: 0 <= x < data.Length && !(dst <= x < dst + k) ==> data[x] == old(data[x])
        invariant forall x :: 0 <= x < k ==> data[dst + x] == buf[x]
      {
        data[dst + k] := buf[k];
      }
    }

    // Entry j takes over the next one, whose block moves down to offset.
    method TakeOver(j: nat, offset: nat) returns (nextSize: nat)
      requires item.Length == MAX_ITEMS && data.Length == DATA_SIZE && j + 1 < MAX_ITEMS
      requires offset < item[j + 1].offset && item[j + 1].offset + Align(item[j + 1].size) <= DATA_SIZE
      modifies item, data
      ensures nextSize == Align(old(item[j + 1].size)) && TookOver(old(Snapshot()), j, offset, Snapshot())
    {
      var next := item[j + 1];
      nextSize := Align(next.size);
      item[j] := item[j].(id := next.id, size := next.size, offset := offset);
      MoveDown(offset, next.offset, nextSize);
    }

    // Entries above i move down by one and their blocks slide over the block of entry i.
    method SlideDown(i: nat) returns (offset: nat)
      requires Valid() && i < itemNum
      modifies item, data
      ensures item.Length == MAX_ITEMS && data.Length == DATA_SIZE
      ensures Slid(old(Snapshot()), i, itemNum - 1, Snapshot(), offset)
    {
      ghost var was := Snapshot();
      offset := item[i].offset;
      assert BlockFits(was, i);
      BlocksAreOrdered(was, i, i + 1);
      for j := i to itemNum - 1
        invariant item.Length == MAX_ITEMS && data.Length == DATA_SIZE
        invariant Slid(was, i, j, Snapshot(), offset)
      {
        offset := SlideOne(j, offset, was, i);
      }
    }

    // One turn of that loop.
    method SlideOne(j: nat, offset: nat, ghost was: Image, ghost i: nat) returns (next: nat)
      requires Slid(was, i, j, Snapshot(), offset) && j + 1 < was.itemNum
      modifies item, data
      ensures item.Length == MAX_ITEMS && data.Length == DATA_SIZE
      ensures Slid(was, i, j + 1, Snapshot(), next)
    {
      ghost var now := Snapshot();
      NextBlock(was, i, j, now, offset);
      var nextSize := TakeOver(j, offset);
      SlideStep(was, i, j, now, offset, Snapshot());
      next := offset + nextSize;
    }

    // The version and slot bookkeeping that ends every accepted write.
    method Advance()
      modifies this`version, this`version2, this`nextIndex
      requires nextIndex < PART_NUM
      ensures Snapshot() == Advanced(old(Snapshot()))
    {
      version := (version + 1) % 0x1_0000_0000;
      version2 := version;
      nextIndex := nextIndex + 1;
      if nextIndex >= PART_NUM {
        nextIndex := 0;
      }
    }

    // Entry i outgrows its block and becomes the last one.
    method Grow(i: nat, id: U16, buf: seq<Byte>, size: nat)
      requires Valid() && i < itemNum && item[i].id == id && size <= |buf|
      requires Align(item[i].size) < size && Align(size) <= freeSize
      modifies this, item, data
      ensures Valid() && Wrote(old(Snapshot()), id, buf[..size], Snapshot())
    {
      ghost var was := Snapshot();
      var allocSize, alignSize := Align(item[i].size), Align(size);
      var offset := SlideDown(i);
      ghost var mid := Snapshot();
      var last := itemNum - 1;
      SlidRoom(was, i, mid, offset);
      item[last] := item[last].(id := id, offset := offset, size := size);
      CopyIn(offset, buf, size);
      freeOffset := offset + alignSize;
      freeSize := freeSize - (alignSize - allocSize);
      GrownWrote(was, i, mid, offset, buf[..size], Snapshot());
      Advance();
    }

    // Entry i is rewritten inside its block.
    method Rewrite(i: nat, id: U16, buf: seq<Byte>, size: nat)
      requires Valid() && i < itemNum && item[i].id == id && 1 <= size <= |buf|
      requires size <= Align(item[i].size)
      modifies this, item, data
      ensures Valid() && Wrote(old(Snapshot()), id, buf[..size], Snapshot())
    {
      ghost var was := Snapshot();
      assert BlockFits(was, i);
      BlocksAreOrdered(was, i, i + 1);
      CopyIn(item[i].offset, buf, size);
      item[i] := item[i].(size := size);
      RewrittenWrote(was, i, buf[..size], Snapshot());
      Advance();
    }

    // A new entry takes the next block of free space.
    method Append(id: U16, buf: seq<Byte>, size: nat)
      requires Valid() && Find(Snapshot(), id) == itemNum && 1 <= size <= |buf|
      requires Align(size) <= freeSize
      modifies this, item, data
      ensures Valid() && Wrote(old(Snapshot()), id, buf[..size], Snapshot())
    {
      ghost var was := Snapshot();
      TableNeverOverruns(was);
      item[itemNum] := item[itemNum].(id := id, offset := freeOffset, size := size);
      freeOffset := freeOffset + Align(size);
      freeSize := freeSize - Align(size);
      CopyIn(item[itemNum].offset, buf, size);
      itemNum := itemNum + 1;
      AppendedWrote(was, id, buf[..size], Snapshot());
      Advance();
    }

    // The write of flash_vendor_write in RAM, up to its commit; false when there is no room.
    method Store(id: U16, buf: seq<Byte>, size: U32) returns (room: bool)
      requires Valid()
      requires 1 <= size <= |buf| && size + 63 < 0x1_0000_0000
      modifies this, item, data
      ensures Valid() && room == !Refused(old(Snapshot()), id, size)
      ensures if room then Wrote(old(Snapshot()), id, buf[..size], Snapshot()) else Snapshot() == old(Snapshot())
      ensures var m := View(old(Snapshot()));
        if id in m && size <= Align(|m[id]|) then room else room <==> Align(size) <= old(freeSize)
    {
      ghost var was := Snapshot();
      RefusedExactly(was, id, size);
      var alignSize := Align(size);
      for i := 0 to itemNum
        invariant Snapshot() == was
        invariant forall j :: 0 <= j < i ==> was.item[j].id != id
      {
        if item[i].id == id {
          assert Find(was, id) == i;
          var allocSize := Align(item[i].size);
          if size > allocSize {
            if freeSize < alignSize {
              return false;
            }
            Grow(i, id, buf, size);
          } else {
            Rewrite(i, id, buf, size);
          }
          return true;
        }
      }
      if freeSize >= alignSize {
        Append(id, buf, size);
        return true;
      }
      return false;
    }
  }

  // The driver: the RAM image, absent until start-up has built it, and the flash slots.
  class Driver {
    var gVendor: VendorInfo?
    const flash: array<seq<Byte>>

    constructor (slots: seq<seq<Byte>>)
      requires FlashShape(slots)
      ensures fresh(flash) && flash[..] == slots && gVendor == null
    {
      gVendor := null;
      flash := new seq<Byte>[PART_NUM](i requires 0 <= i < PART_NUM => slots[i]);
      new;
      assert flash[..] == slots;
    }

    ghost predicate Valid()
      reads this, flash, gVendor, Parts()
    {
      FlashShape(flash[..]) && (gVendor != null ==> gVendor.Valid())
    }

    ghost function Parts(): set<object>
      reads this
    {
      if gVendor == null then {} else {gVendor, gVendor.item, gVendor.data}
    }

    // The driver as a state of the crash model.
    ghost function State(): System
      reads this, flash, gVendor, Parts()
    {
      System(flash[..], if gVendor == null then None else Some(gVendor.Snapshot()))
    }

    // The scan over the four slots.
    method Newest() returns (maxVer: U32, maxIndex: nat)
      requires FlashShape(flash[..])
      ensures maxIndex == Best(Slots(flash[..]), PART_NUM) < PART_NUM
      ensures maxVer == Offer(Slots(flash[..])[maxIndex])
    {
      ghost var slots := Slots(flash[..]);
      maxVer, maxIndex := 0, 0;
      for i := 0 to PART_NUM
        invariant maxIndex < PART_NUM && (i > 0 ==> maxIndex == Best(slots, i))
        invariant i > 0 ==> maxVer == Offer(slots[maxIndex])
        invariant i == 0 ==> maxVer == 0 == maxIndex
      {
        var slot := FromBytes(flash[i]);
        assert slot == slots[i];
        if slot.tag == TAG && slot.version == slot.version2 {
          if maxVer < slot.version {
            maxIndex := i;
            maxVer := slot.version;
          }
        }
      }
    }

    // Reads the newest slot back, or builds the zeroed image.
    method Load() returns (g: VendorInfo)
      requires FlashShape(flash[..])
      ensures fresh(g) && fresh(g.item) && fresh(g.data)
      ensures g.Snapshot() == Recover(Slots(flash[..])) && (Layout(g.Snapshot()) ==> g.Valid())
    {
      var maxVer, maxIndex := Newest();
      if maxVer != 0 {
        g := new VendorInfo.FromFlash(FromBytes(flash[maxIndex]));
      } else {
        g := new VendorInfo();
      }
    }

    /** flash_vendor_init takes over whatever image wins, laid out or not; only a laid-out one makes
        the driver usable. `haveMemory` tells whether kmalloc succeeded. */
    method Init(haveMemory: bool) returns (rc: int)
      requires Valid() && gVendor == null
      modifies this
      ensures rc == 0 && (!haveMemory || Layout(Recover(Slots(flash[..]))) ==> Valid())
      ensures haveMemory ==> gVendor != null && fresh(Parts()) && Next(old(State()), Boot, State())
      ensures !haveMemory ==> State() == old(State())
    {
      rc := 0;
      if !haveMemory {
        return;
      }
      gVendor := Load();
    }

    /** flash_vendor_read returns the stored bytes of the id, cut to the requested size, or -1. */
    method Read(id: U32, size: nat) returns (rc: int, buf: seq<Byte>)
      requires Valid()
      ensures gVendor == null ==> rc == -1
      ensures gVendor != null ==>
        var m := View(gVendor.Snapshot());
        if id in m then
          rc == (if size > |m[id]| then |m[id]| else size) && buf == m[id][..rc]
        else
          rc == -1
    {
      rc, buf := -1, [];
      if gVendor == null {
        return;
      }
      ghost var im := gVendor.Snapshot();
      FindReadsView(im, id);
      for i := 0 to gVendor.itemNum
        invariant forall j :: 0 <= j < i ==> im.item[j].id != id
      {
        var it := gVendor.item[i];
        if it.id == id {
          rc := if size > it.size then it.size else size;
          buf := gVendor.data[it.offset..it.offset + rc];
          ContentCut(im, i, rc);
          return;
        }
      }
    }

    /** flash_vendor_write is one step of the crash model: an accepted write commits the whole
        new image to the slot that was due, a refused one changes nothing. */
    method Write(id: U16, buf: seq<Byte>, size: U32)
      returns (rc: int)
      requires Valid()
      requires 1 <= size <= |buf| && size + 63 < 0x1_0000_0000
      modifies this, flash, Parts()
      ensures Valid() && gVendor == old(gVendor)
      ensures rc == 0 || rc == -1
      ensures rc == -1 ==> State() == old(State())
      ensures rc == -1 <==> gVendor == null || Refused(old(State()).ram.value, id, size)
      ensures rc == 0 ==>
        Next(old(State()), Step.Write(id, buf[..size], gVendor.Snapshot()), State())
      // An item that still fits its blocks is written; one that is new or has outgrown them exactly when
      // there is room for its blocks.
      ensures gVendor != null ==>
        var was := old(State()).ram.value;
        var m := View(was);
        if id in m && size <= Align(|m[id]|) then rc == 0 else rc == 0 <==> Align(size) <= was.freeSize
      // The slots are used in turn, and no other is touched.
      ensures rc == 0 ==> InTurn(old(State()), State())
    {
      ghost var s := State();
      rc := Attempt(id, buf, size);
      if s.ram.Some? {
        RefusedExactly(s.ram.value, id, size);
      }
      if rc == 0 {
        SlotsInTurn(s, id, buf[..size], State());
      }
    }

    // The call itself.
    method Attempt(id: U16, buf: seq<Byte>, size: U32)
      returns (rc: int)
      requires Valid()
      requires 1 <= size <= |buf| && size + 63 < 0x1_0000_0000
      modifies this, flash, Parts()
      ensures Valid() && gVendor == old(gVendor)
      ensures rc == 0 || rc == -1
      ensures rc == -1 ==> State() == old(State())
      ensures rc == -1 <==> gVendor == null || Refused(old(State()).ram.value, id, size)
      ensures rc == 0 ==>
        Next(old(State()), Step.Write(id, buf[..size], gVendor.Snapshot()), State())
    {
      if gVendor == null {
        return -1;
      }
      ghost var was := gVendor.Snapshot();
      var nextIndex := gVendor.nextIndex;
      var room := gVendor.Store(id, buf, size);
      if !room {
        return -1;
      }
      FlashWrite(nextIndex, was, SECTORS);
      return 0;
    }

    // The same call when power is lost after the first sectors of its commit, if it comes to one.
    method WriteCut(id: U16, buf: seq<Byte>, size: U32, sectors: nat)
      returns (rc: int, ghost next: Image)
      requires Valid() && sectors <= SECTORS
      requires 1 <= size <= |buf| && size + 63 < 0x1_0000_0000
      modifies this, flash, Parts()
      ensures Valid() && gVendor == null
      ensures rc == 0 || rc == -1
      ensures rc == -1 <==> old(gVendor) == null || Refused(old(State()).ram.value, id, size)
      ensures rc == -1 ==> State() == old(State()).(ram := None)
      ensures rc == 0 ==> Next(old(State()), LostWrite(id, buf[..size], next, sectors), State())
    {
      rc, next := -1, Blank();
      if gVendor == null {
        return;
      }
      ghost var was := gVendor.Snapshot();
      var nextIndex := gVendor.nextIndex;
      var room := gVendor.Store(id, buf, size);
      next := gVendor.Snapshot();
      if room {
        rc := 0;
        FlashWrite(nextIndex, was, sectors);
      }
      gVendor := null;
    }

    // The invariant of the crash model: im is the image that flash would give back.
    ghost predicate Safe(im: Image, bound: nat)
      reads this, flash, gVendor, Parts()
    {
      Valid() && Inv(State(), im, bound)
    }

    // Power goes off and comes back; without memory for the image the driver stays unusable.
    method Reboot(haveMemory: bool, ghost im: Image, ghost bound: nat)
      requires Safe(im, bound)
      modifies this
      ensures Safe(im, bound) && flash[..] == old(flash[..])
      ensures if haveMemory then gVendor != null && fresh(Parts()) && gVendor.Snapshot() == im else gVendor == null
    {
      HeldIsRecovered(Slots(flash[..]), im);
      gVendor := null;
      var _ := Init(haveMemory);
    }

    method Save(id: U16, buf: seq<Byte>, size: U32, ghost im: Image, ghost bound: nat) returns (rc: int, ghost im': Image)
      requires Safe(im, bound) && bound < 0xFFFF_FFFE
      requires 1 <= size <= |buf| && size + 63 < 0x1_0000_0000
      modifies this, flash, Parts()
      ensures Safe(im', bound + 1) && gVendor == old(gVendor)
      ensures rc == if gVendor == null || Refused(im, id, size) then -1 else 0
      ensures View(im') == if rc == 0 then View(im)[id := buf[..size]] else View(im)
    {
      ghost var s := State();
      rc := Write(id, buf, size);
      im' := im;
      if rc == 0 {
        im' := gVendor.Snapshot();
        StepIsAtomic(s, im, Step.Write(id, buf[..size], im'), State(), bound);
      }
    }

    method SaveCut(id: U16, buf: seq<Byte>, size: U32, sectors: nat, ghost im: Image, ghost bound: nat)
      returns (rc: int, ghost im': Image)
      requires Safe(im, bound) && bound < 0xFFFF_FFFE && sectors <= SECTORS
      requires 1 <= size <= |buf| && size + 63 < 0x1_0000_0000
      modifies this, flash, Parts()
      ensures Safe(im', bound + 1) && gVendor == null
      ensures rc == if old(gVendor) == null || Refused(im, id, size) then -1 else 0
      ensures View(im') == if rc == 0 && sectors == SECTORS then View(im)[id := buf[..size]] else View(im)
    {
      ghost var s := State();
      ghost var next;
      rc, next := WriteCut(id, buf, size, sectors);
      im' := im;
      if rc == 0 {
        im' := Survivor(im, LostWrite(id, buf[..size], next, sectors));
        StepIsAtomic(s, im, LostWrite(id, buf[..size], next, sectors), State(), bound);
      }
    }

    method Power(c: Call, ghost im: Image, ghost bound: nat)
      requires Safe(im, bound) && (c.Reboot? || c.PowerOff?)
      modifies this
      ensures Safe(im, bound + 1) && (gVendor == null || fresh(Parts()))
    {
      if c.Reboot? {
        Reboot(c.haveMemory, im, bound);
      } else {
        gVendor := null;
      }
    }

    /** One call, or one loss of power, takes the map that the next start-up finds to After of it. */
    method Perform(c: Call, ghost im: Image, ghost bound: nat) returns (rc: int, ghost im': Image)
      requires Safe(im, bound) && bound < 0xFFFF_FFFE && c.Allowed()
      modifies this, flash, Parts()
      ensures Safe(im', bound + 1) && (gVendor == old(gVendor) || gVendor == null || fresh(Parts()))
      ensures View(im') == After(View(im), c, rc)
      ensures c.Save? || c.SaveCut? ==> rc == if old(gVendor) == null || Refused(im, c.id, c.size) then -1 else 0
    {
      match c {
        case Save(id, buf, size) =>
          rc, im' := Save(id, buf, size, im, bound);
        case SaveCut(id, buf, size, sectors) =>
          rc, im' := SaveCut(id, buf, size, sectors, im, bound);
        case _ =>
          rc, im' := 0, im;
          Power(c, im, bound);
      }
    }

    /** Any sequence of writes, refusals, reboots and losses of power at any sector, from erased flash. */
    method Run(calls: seq<Call>) returns (rcs: seq<int>, ghost im: Image)
      requires Valid() && gVendor == null && |calls| < 0xFFFF_FFFD
      requires forall i :: 0 <= i < PART_NUM ==> Erased(flash[i])
      requires forall c :: c in calls ==> c.Allowed()
      modifies this, flash
      ensures Safe(im, |calls| + 1) && (gVendor != null ==> fresh(Parts()))
      ensures |rcs| == |calls| && View(im) == Saved(calls, rcs)
    {
      rcs := [];
      im := CrashAtomicity([State()], []);
      for i := 0 to |calls|
        invariant Safe(im, i + 1) && (gVendor != null ==> fresh(Parts()))
        invariant |rcs| == i && View(im) == Saved(calls[..i], rcs)
      {
        var rc, im' := Perform(calls[i], im, i + 1);
        SavedGrows(calls, i, rcs, rc);
        rcs, im := rcs + [rc], im';
      }
      assert calls[..|calls|] == calls;
    }

    /** After any such sequence and one more start-up, a read returns what the last write of the id that
        completed had stored, and -1 for an id that no completed write had. */
    method RunThenRead(calls: seq<Call>, id: U32, size: nat) returns (rcs: seq<int>, rc: int, buf: seq<Byte>)
      requires Valid() && gVendor == null && |calls| < 0xFFFF_FFFD
      requires forall i :: 0 <= i < PART_NUM ==> Erased(flash[i])
      requires forall c :: c in calls ==> c.Allowed()
      modifies this, flash
      ensures |rcs| == |calls|
      ensures
        var m := Saved(calls, rcs);
        if id in m then
          rc == (if size > |m[id]| then |m[id]| else size) && buf == m[id][..rc]
        else
          rc == -1
    {
      ghost var im;
      rcs, im := Run(calls);
      Reboot(true, im, |calls| + 1);
      rc, buf := Read(id, size);
    }

    // A commit of which the first sectors reach the slot.
    method FlashWrite(slot: nat, ghost was: Image, sectors: nat)
      requires Valid() && gVendor != null && slot == was.nextIndex < PART_NUM && sectors <= SECTORS
      modifies flash
      ensures FlashShape(flash[..])
      ensures flash[..] == Commit(old(flash[..]), was, gVendor.Snapshot(), sectors)
    {
      var g := gVendor;
      var next := Image(g.tag, g.version, g.nextIndex, g.itemNum, g.freeOffset, g.freeSize,
                        g.item[..], g.data[..], g.hash, g.version2);
      flash[slot] := Torn(flash[slot], Bytes(next), sectors);
      assert flash[..] == Commit(old(flash[..]), was, g.Snapshot(), sectors);
    }
  }

  // A call of the driver, a power cycle, or a call that power loss cuts off.
  datatype Call =
    | Reboot(haveMemory: bool)
    | PowerOff
    | Save(id: U16, buf: seq<Byte>, size: U32)
    | SaveCut(id: U16, buf: seq<Byte>, size: U32, sectors: nat)
  {
    predicate Allowed() {
      && (Save? || SaveCut? ==> 1 <= size <= |buf| && size + 63 < 0x1_0000_0000)
      && (SaveCut? ==> sectors <= SECTORS)
    }
  }

  // The stored map after a call with this result: a write counts once all its sectors are down.
  function After(m: map<int, seq<Byte>>, c: Call, rc: int): map<int, seq<Byte>>
    requires c.Allowed()
  {
    if rc == 0 && (c.Save? || (c.SaveCut? && c.sectors == SECTORS)) then m[c.id := c.buf[..c.size]] else m
  }

  // The map of the completed writes.
  function Saved(calls: seq<Call>, rcs: seq<int>): map<int, seq<Byte>>
    requires |rcs| == |calls| && forall c :: c in calls ==> c.Allowed()
  {
    if calls == [] then map[] else
      var n := |calls| - 1;
      After(Saved(calls[..n], rcs[..n]), calls[n], rcs[n])
  }

  lemma SavedGrows(calls: seq<Call>, i: nat, rcs: seq<int>, rc: int)
    requires |rcs| == i < |calls| && forall c :: c in calls ==> c.Allowed()
    ensures Saved(calls[..i + 1], rcs + [rc]) == After(Saved(calls[..i], rcs), calls[i], rc)
  {
    assert calls[..i + 1][..i] == calls[..i];
    assert (rcs + [rc])[..i] == rcs;
  }

  // The image now in RAM is in the slot that was due, the version went up, the next slot is due, and
  // no other slot was touched.
  ghost predicate InTurn(s: System, s': System) {
    && s.ram.Some? && s'.ram.Some? && FlashShape(s.flash) && FlashShape(s'.flash) && s.ram.value.nextIndex < PART_NUM
    && var was, now := s.ram.value, s'.ram.value;
    && now.nextIndex == (was.nextIndex + 1) % 4 && now.version == now.version2 == (was.version + 1) % 0x1_0000_0000
    && FromBytes(s'.flash[was.nextIndex]) == now
    && forall i :: 0 <= i < PART_NUM && i != was.nextIndex ==> s'.flash[i] == s.flash[i]
  }

  lemma SlotsInTurn(s: System, id: U16, buf: seq<Byte>, s': System)
    requires s'.ram.Some? && Next(s, Step.Write(id, buf, s'.ram.value), s')
    ensures InTurn(s, s')
  {
    CommitIsSlot(s.flash, s.ram.value, s'.ram.value);
  }

  lemma CommitIsSlot(flash: seq<seq<Byte>>, was: Image, next: Image)
    requires FlashShape(flash) && was.nextIndex < PART_NUM
    requires |next.item| == MAX_ITEMS && |next.data| == DATA_SIZE
    ensures var flash' := Commit(flash, was, next, SECTORS);
      && FromBytes(flash'[was.nextIndex]) == next
      && forall i :: 0 <= i < PART_NUM && i != was.nextIndex ==> flash'[i] == flash[i]
  {
    TornFields(flash[was.nextIndex], next, SECTORS);
  }

  lemma ContentCut(im: Image, i: nat, n: nat)
    requires Layout(im) && i < im.itemNum && n <= im.item[i].size
    ensures Content(im, i)[..n] == im.data[im.item[i].offset..im.item[i].offset + n]
  {
    SliceOfSlice(im.data, im.item[i].offset, im.item[i].offset + im.item[i].size, 0, n);
  }

  function Advanced(im: Image): Image {
    var v := (im.version + 1) % 0x1_0000_0000;
    im.(version := v, version2 := v, nextIndex := if im.nextIndex + 1 >= PART_NUM then 0 else im.nextIndex + 1)
  }

  lemma SlidRoom(was: Image, i: nat, mid: Image, offset: nat)
    requires i < was.itemNum && Slid(was, i, was.itemNum - 1, mid, offset)
    ensures offset + Align(was.item[i].size) <= was.freeOffset
  {
  }

  lemma AdvancedLayout(im: Image)
    requires Layout(im)
    ensures Layout(Advanced(im)) && Entries(Advanced(im)) == Entries(im)
  {
    forall k | 0 <= k < im.itemNum
      ensures BlockFits(Advanced(im), k)
    {
      assert BlockFits(im, k);
    }
  }

  lemma {:induction false} AdvancedView(im: Image, n: nat)
    requires Layout(im) && Layout(Advanced(im)) && n <= im.itemNum
    ensures ViewUpTo(Advanced(im), n) == ViewUpTo(im, n)
  {
    if n > 0 {
      AdvancedView(im, n - 1);
    }
  }

  // Advancing a laid-out image that holds the right map makes it the one Wrote describes.
  lemma AdvancedWrote(was: Image, id: int, buf: seq<Byte>, next: Image)
    requires Layout(was) && Layout(next)
    requires View(next) == View(was)[id := buf] && Entries(next) == NewEntries(was, id, |buf|)
    requires next.freeSize == was.freeSize - Charge(was, id, |buf|)
    requires next.freeOffset + next.freeSize <= was.freeOffset + was.freeSize
    requires next.tag == was.tag && next.version == was.version && next.nextIndex == was.nextIndex
    ensures Wrote(was, id, buf, Advanced(next))
  {
    AdvancedLayout(next);
    AdvancedView(next, next.itemNum);
  }

  // Entries i..j have taken over the ids, sizes and bytes of the entries above them, in
  // order and packed from the block of entry i up to offset; all the rest is as it was.
  ghost predicate Slid(was: Image, i: nat, j: nat, now: Image, offset: nat) {
    && Layout(was) && i <= j < was.itemNum
    && now == was.(item := now.item, data := now.data)
    && |now.item| == MAX_ITEMS && |now.data| == DATA_SIZE
    && was.item[i].offset <= offset
    && offset + Align(was.item[i].size) <= Start(was, j + 1) <= was.freeOffset
    && (forall k :: 0 <= k < MAX_ITEMS && !(i <= k < j) ==> now.item[k] == was.item[k])
    && (forall x :: 0 <= x < DATA_SIZE && !(was.item[i].offset <= x < offset) ==> now.data[x] == was.data[x])
    && (forall k, from :: i <= k < j && from == k + 1 ==> MovedTo(was, from, now, k, offset))
    && (forall k :: i <= k < j ==> Packed(now, k, j, offset))
    && (if i < j then now.item[i].offset else offset) == was.item[i].offset
  }

  // The block of entry k ends where the next packed one, or the room after them, begins.
  predicate Packed(im: Image, k: nat, j: nat, offset: nat)
    requires k < j <= |im.item|
  {
    im.item[k].offset + Align(im.item[k].size) <= if k + 1 < j then im.item[k + 1].offset else offset
  }

  // One entry taken over: now' is now with entry j + 1 moved down to entry j and to offset.
  ghost predicate TookOver(now: Image, j: nat, offset: nat, now': Image) {
    && j + 1 < |now.item| && |now.data| == DATA_SIZE && offset <= DATA_SIZE
    && var next := now.item[j + 1];
    var n := Align(next.size);
    && now' == now.(item := now.item[j := now.item[j].(id := next.id, size := next.size, offset := offset)],
                    data := now'.data)
    && |now'.data| == |now.data| && next.offset + n <= |now.data| && offset + n <= |now.data|
    && now'.data[offset..offset + n] == now.data[next.offset..next.offset + n]
    && forall x :: 0 <= x < |now.data| && !(offset <= x < offset + n) ==> now'.data[x] == now.data[x]
  }

  lemma TakenOverContent(was: Image, now: Image, j: nat, offset: nat, now': Image)
    requires j + 1 < |was.item| == |now.item| && |was.data| == |now.data|
    requires TookOver(now, j, offset, now') && now.item[j + 1] == was.item[j + 1]
    requires forall x :: now.item[j + 1].offset <= x < |now.data| ==> now.data[x] == was.data[x]
    ensures MovedTo(was, j + 1, now', j, offset + Align(was.item[j + 1].size))
  {
    var next := was.item[j + 1];
    var n := Align(next.size);
    assert now'.data[offset..offset + next.size] == now'.data[offset..offset + n][..next.size];
    assert now.data[next.offset..next.offset + next.size] == now.data[next.offset..next.offset + n][..next.size];
    assert was.data[next.offset..next.offset + next.size] == now.data[next.offset..next.offset + next.size];
  }

  // The next block lies above the packed ones, inside the data area.
  lemma NextBlock(was: Image, i: nat, j: nat, now: Image, offset: nat)
    requires Slid(was, i, j, now, offset) && j + 1 < was.itemNum
    ensures now.item[j + 1] == was.item[j + 1] && offset < now.item[j + 1].offset
    ensures now.item[j + 1].offset + Align(now.item[j + 1].size) <= DATA_SIZE
  {
    assert BlockFits(was, i);
    BlocksAreOrdered(was, j + 1, j + 2);
  }

  lemma SlideStep(was: Image, i: nat, j: nat, now: Image, offset: nat, now': Image)
    requires Slid(was, i, j, now, offset) && j + 1 < was.itemNum
    requires TookOver(now, j, offset, now')
    ensures Slid(was, i, j + 1, now', offset + Align(was.item[j + 1].size))
  {
    var offset', j' := offset + Align(was.item[j + 1].size), j + 1;
    assert BlockFits(was, j + 1);
    BlocksAreOrdered(was, j + 1, j + 2);
    TakenOverContent(was, now, j, offset, now');
    forall k, from | i <= k < j + 1 && from == k + 1
      ensures MovedTo(was, from, now', k, offset')
    {
      if k < j {
        MovedStays(was, from, now, k, now', offset);
      }
    }
    forall k | i <= k < j'
      ensures Packed(now', k, j', offset')
    {
      assert k < j ==> Packed(now, k, j, offset);
    }
  }

  // Moved, into a block that ends at or below the given offset.
  predicate MovedTo(im: Image, from: nat, im': Image, k: nat, limit: nat) {
    && from < |im.item| && k < |im'.item|
    && im'.item[k].offset + im'.item[k].size <= limit
    && Moved(im, from, im', k)
  }

  lemma MovedStays(im: Image, from: nat, mid: Image, k: nat, im': Image, limit: nat)
    requires MovedTo(im, from, mid, k, limit) && limit <= |mid.data| == |im'.data|
    requires k < |im'.item| && im'.item[k] == mid.item[k]
    requires forall x :: 0 <= x < limit ==> im'.data[x] == mid.data[x]
    ensures MovedTo(im, from, im', k, limit)
  {
    assert Content(im', k) == Content(mid, k);
  }

  lemma FoundAt(im: Image, i: nat)
    requires Layout(im) && i < im.itemNum
    ensures Find(im, im.item[i].id) == i
  {
  }

  // Bytes at..at + |buf| of the data area become buf.
  ghost predicate Patched(data: seq<Byte>, at: nat, buf: seq<Byte>, data': seq<Byte>) {
    && at + |buf| <= |data| == |data'|
    && data'[at..at + |buf|] == buf
    && forall x :: 0 <= x < |data| && !(at <= x < at + |buf|) ==> data'[x] == data[x]
  }

  lemma PatchedElsewhere(data: seq<Byte>, at: nat, buf: seq<Byte>, data': seq<Byte>, lo: nat, hi: nat)
    requires Patched(data, at, buf, data') && lo <= hi <= |data|
    requires hi <= at || at + |buf| <= lo
    ensures data'[lo..hi] == data[lo..hi]
  {
  }

  ghost predicate Rewritten(was: Image, i: nat, buf: seq<Byte>, next: Image) {
    && i < was.itemNum <= |was.item| && 1 <= |buf| <= Align(was.item[i].size) && |buf| < 0x1_0000
    && next == was.(item := was.item[i := was.item[i].(size := |buf|)], data := next.data)
    && Patched(was.data, was.item[i].offset, buf, next.data)
  }

  lemma RewrittenEntry(was: Image, i: nat, buf: seq<Byte>, next: Image, k: nat)
    requires Layout(was) && Rewritten(was, i, buf, next) && k < was.itemNum
    ensures BlockFits(next, k)
    ensures k != i ==> Moved(was, k, next, k)
  {
    assert BlockFits(was, k) && BlockFits(was, i);
    var it := was.item[k];
    if k < i {
      BlocksAreOrdered(was, k, i);
      PatchedElsewhere(was.data, was.item[i].offset, buf, next.data, it.offset, it.offset + it.size);
    } else if k > i {
      BlocksAreOrdered(was, i, k);
      PatchedElsewhere(was.data, was.item[i].offset, buf, next.data, it.offset, it.offset + it.size);
    }
  }

  lemma RewrittenLayout(was: Image, i: nat, buf: seq<Byte>, next: Image)
    requires Layout(was) && Rewritten(was, i, buf, next)
    ensures Layout(next)
  {
    BlocksAreOrdered(was, i, was.itemNum);
    forall k | 0 <= k < was.itemNum
      ensures BlockFits(next, k)
    {
      RewrittenEntry(was, i, buf, next, k);
    }
  }

  lemma RewrittenRearranged(was: Image, i: nat, buf: seq<Byte>, next: Image) returns (from: seq<int>)
    requires Layout(was) && Rewritten(was, i, buf, next)
    ensures Rearranged(was, was.item[i].id, buf, next, from)
  {
    from := seq(was.itemNum, k => if k == i then -1 else k);
    assert from[i] == -1;
    forall k | 0 <= k < was.itemNum && k != i
      ensures k in from && Moved(was, k, next, k)
    {
      assert from[k] == k;
      RewrittenEntry(was, i, buf, next, k);
    }
  }

  lemma RewrittenSpace(was: Image, i: nat, buf: seq<Byte>, next: Image)
    requires Layout(was) && Rewritten(was, i, buf, next)
    ensures Entries(next) == NewEntries(was, was.item[i].id, |buf|)
    ensures Charge(was, was.item[i].id, |buf|) == 0
  {
    FoundAt(was, i);
  }

  lemma RewrittenWrote(was: Image, i: nat, buf: seq<Byte>, next: Image)
    requires Layout(was) && Rewritten(was, i, buf, next)
    ensures Layout(next) && Wrote(was, was.item[i].id, buf, Advanced(next))
  {
    RewrittenLayout(was, i, buf, next);
    RewrittenSpace(was, i, buf, next);
    var from := RewrittenRearranged(was, i, buf, next);
    RearrangedView(was, was.item[i].id, buf, next, from);
    AdvancedWrote(was, was.item[i].id, buf, next);
  }

  ghost predicate Appended(was: Image, id: U16, buf: seq<Byte>, next: Image) {
    && was.itemNum < MAX_ITEMS == |was.item| && 1 <= |buf| && Align(|buf|) <= was.freeSize
    && was.freeOffset + was.freeSize <= DATA_SIZE
    && next == was.(item := was.item[was.itemNum := was.item[was.itemNum].(id := id, offset := was.freeOffset, size := |buf|)],
                    data := next.data, itemNum := was.itemNum + 1,
                    freeOffset := was.freeOffset + Align(|buf|), freeSize := was.freeSize - Align(|buf|))
    && Patched(was.data, was.freeOffset, buf, next.data)
  }

  lemma AppendedLayout(was: Image, id: U16, buf: seq<Byte>, next: Image)
    requires Layout(was) && Find(was, id) == was.itemNum && Appended(was, id, buf, next)
    ensures Layout(next)
    ensures forall k :: 0 <= k < was.itemNum ==> Moved(was, k, next, k)
  {
    assert BlockFits(next, was.itemNum);
    forall k | 0 <= k < was.itemNum
      ensures BlockFits(next, k) && Moved(was, k, next, k)
    {
      assert BlockFits(was, k);
      var it := was.item[k];
      PatchedElsewhere(was.data, was.freeOffset, buf, next.data, it.offset, it.offset + it.size);
    }
  }

  lemma AppendedRearranged(was: Image, id: U16, buf: seq<Byte>, next: Image) returns (from: seq<int>)
    requires Layout(was) && Find(was, id) == was.itemNum && Appended(was, id, buf, next)
    ensures Rearranged(was, id, buf, next, from)
  {
    AppendedLayout(was, id, buf, next);
    from := seq(next.itemNum, k => if k == was.itemNum then -1 else k);
    assert from[was.itemNum] == -1;
    forall j | 0 <= j < was.itemNum
      ensures j in from
    {
      assert from[j] == j;
    }
  }

  lemma AppendedWrote(was: Image, id: U16, buf: seq<Byte>, next: Image)
    requires Layout(was) && Find(was, id) == was.itemNum && Appended(was, id, buf, next)
    ensures Layout(next) && Wrote(was, id, buf, Advanced(next))
  {
    AppendedLayout(was, id, buf, next);
    var from := AppendedRearranged(was, id, buf, next);
    RearrangedView(was, id, buf, next, from);
    AdvancedWrote(was, id, buf, next);
  }

  // Where entry k of the grown table comes from; -1 for the last one.
  function Source(i: nat, last: nat, k: nat): int {
    if k < i then k else if k < last then k + 1 else -1
  }

  // The image after the slide, with entry i back as the last one.
  ghost predicate Grown(was: Image, i: nat, mid: Image, offset: nat, buf: seq<Byte>, next: Image) {
    && i < was.itemNum && Slid(was, i, was.itemNum - 1, mid, offset)
    && var last := was.itemNum - 1;
    && |next.data| == DATA_SIZE && |buf| < 0x1_0000 && offset + Align(|buf|) < 0x1_0000
    && 0 <= was.freeSize - (Align(|buf|) - Align(was.item[i].size)) < 0x1_0000
    && next == mid.(item := mid.item[last := mid.item[last].(id := was.item[i].id, offset := offset, size := |buf|)],
                    data := next.data,
                    freeOffset := offset + Align(|buf|),
                    freeSize := was.freeSize - (Align(|buf|) - Align(was.item[i].size)))
    && Patched(mid.data, offset, buf, next.data)
  }

  lemma StaysPut(im: Image, im': Image, k: nat, limit: nat)
    requires k < |im.item| && k < |im'.item| && im'.item[k] == im.item[k]
    requires im.item[k].offset + im.item[k].size <= limit <= |im.data| && limit <= |im'.data|
    requires forall x :: 0 <= x < limit ==> im'.data[x] == im.data[x]
    ensures Moved(im, k, im', k)
  {
    assert Content(im', k) == Content(im, k);
  }

  // The entries before the one that grew are where they were.
  lemma GrownBelow(was: Image, i: nat, mid: Image, offset: nat, buf: seq<Byte>, next: Image, k: nat)
    requires Layout(was) && Grown(was, i, mid, offset, buf, next) && k < i
    ensures BlockFits(next, k) && next.item[k].offset + next.item[k].size <= offset
    ensures Moved(was, k, next, k)
  {
    assert BlockFits(was, k);
    BlocksAreOrdered(was, k, i);
    StaysPut(was, next, k, was.item[i].offset);
  }

  // The entries after it are where the slide took them.
  lemma GrownAbove(was: Image, i: nat, mid: Image, offset: nat, buf: seq<Byte>, next: Image, k: nat)
    requires Layout(was) && Grown(was, i, mid, offset, buf, next) && i <= k < was.itemNum - 1
    ensures BlockFits(next, k) && next.item[k].offset + next.item[k].size <= offset
    ensures Moved(was, k + 1, next, k)
  {
    assert BlockFits(was, k + 1);
    assert Packed(mid, k, was.itemNum - 1, offset);
    MovedStays(was, k + 1, mid, k, next, offset);
  }

  lemma GrownEntry(was: Image, i: nat, mid: Image, offset: nat, buf: seq<Byte>, next: Image, k: nat)
    requires Layout(was) && Grown(was, i, mid, offset, buf, next) && k < was.itemNum - 1
    ensures BlockFits(next, k) && next.item[k].offset + next.item[k].size <= offset
    ensures Moved(was, Source(i, was.itemNum - 1, k), next, k)
  {
    if k < i {
      GrownBelow(was, i, mid, offset, buf, next, k);
    } else {
      GrownAbove(was, i, mid, offset, buf, next, k);
    }
  }

  lemma GrownLayout(was: Image, i: nat, mid: Image, offset: nat, buf: seq<Byte>, next: Image)
    requires Layout(was) && Grown(was, i, mid, offset, buf, next)
    requires Align(was.item[i].size) < |buf| && Align(|buf|) <= was.freeSize
    ensures Layout(next)
    ensures forall k, from :: 0 <= k < was.itemNum - 1 && from == Source(i, was.itemNum - 1, k) ==> Moved(was, from, next, k)
  {
    forall k | 0 <= k < was.itemNum - 1
      ensures BlockFits(next, k) && next.item[k].offset + next.item[k].size <= offset
      ensures Moved(was, Source(i, was.itemNum - 1, k), next, k)
    {
      GrownEntry(was, i, mid, offset, buf, next, k);
    }
    assert BlockFits(next, was.itemNum - 1);
    forall j, k | 0 <= j < k < next.itemNum
      ensures next.item[j].id != next.item[k].id
    {
      assert Moved(was, Source(i, was.itemNum - 1, j), next, j);
      if k < was.itemNum - 1 {
        assert Moved(was, Source(i, was.itemNum - 1, k), next, k);
      }
    }
  }

  lemma GrownRearranged(was: Image, i: nat, mid: Image, offset: nat, buf: seq<Byte>, next: Image) returns (from: seq<int>)
    requires Layout(was) && Grown(was, i, mid, offset, buf, next)
    ensures Rearranged(was, was.item[i].id, buf, next, from)
  {
    var last := was.itemNum - 1;
    from := seq(was.itemNum, k requires k >= 0 => Source(i, last, k));
    assert from[last] == -1;
    forall j | 0 <= j < was.itemNum && j != i
      ensures j in from
    {
      assert from[if j < i then j else j - 1] == j;
    }
    forall k | 0 <= k < last
      ensures Moved(was, from[k], next, k)
    {
      GrownEntry(was, i, mid, offset, buf, next, k);
    }
  }

  lemma GrownView(was: Image, i: nat, mid: Image, offset: nat, buf: seq<Byte>, next: Image)
    requires Layout(was) && Grown(was, i, mid, offset, buf, next)
    requires Align(was.item[i].size) < |buf| && Align(|buf|) <= was.freeSize
    ensures Layout(next) && View(next) == View(was)[was.item[i].id := buf]
  {
    GrownLayout(was, i, mid, offset, buf, next);
    var from := GrownRearranged(was, i, mid, offset, buf, next);
    RearrangedView(was, was.item[i].id, buf, next, from);
  }

  lemma GrownSpace(was: Image, i: nat, mid: Image, offset: nat, buf: seq<Byte>, next: Image)
    requires Layout(was) && Grown(was, i, mid, offset, buf, next)
    requires Align(was.item[i].size) < |buf|
    ensures Entries(next) == NewEntries(was, was.item[i].id, |buf|)
    ensures next.freeSize == was.freeSize - Charge(was, was.item[i].id, |buf|)
    ensures next.freeOffset + next.freeSize <= was.freeOffset + was.freeSize
  {
    FoundAt(was, i);
    GrownEntries(was, i, mid, offset, buf, next);
  }

  lemma GrownWrote(was: Image, i: nat, mid: Image, offset: nat, buf: seq<Byte>, next: Image)
    requires Layout(was) && Grown(was, i, mid, offset, buf, next)
    requires Align(was.item[i].size) < |buf| && Align(|buf|) <= was.freeSize
    ensures Layout(next) && Wrote(was, was.item[i].id, buf, Advanced(next))
  {
    GrownView(was, i, mid, offset, buf, next);
    GrownSpace(was, i, mid, offset, buf, next);
    AdvancedWrote(was, was.item[i].id, buf, next);
  }

  lemma GrownEntries(was: Image, i: nat, mid: Image, offset: nat, buf: seq<Byte>, next: Image)
    requires Layout(was) && Grown(was, i, mid, offset, buf, next)
    ensures var e := Entries(was);
      Entries(next) == e[..i] + e[i + 1..] + [(was.item[i].id, |buf|)]
  {
    var e := Entries(was);
    forall k | 0 <= k < was.itemNum - 1
      ensures Entries(next)[k] == (e[..i] + e[i + 1..])[k]
    {
      GrownEntry(was, i, mid, offset, buf, next, k);
    }
  }
}
