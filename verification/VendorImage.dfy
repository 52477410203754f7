/** The image that the vendor storage keeps in RAM and commits to flash, as a value:
    its layout invariant, the map from id to bytes it stands for, and what one
    successful write does to both. */
module VendorImage {
  import opened Octets

  const PART_NUM := 4
  const TAG: U32 := 0x524B5644
  const MAX_ITEMS := 62
  const DATA_SIZE := 3576

  datatype Item = Item(id: U16, offset: U16, size: U16, flag: U16)

  datatype Image = Image(
    tag: U32, version: U32,
    nextIndex: U16, itemNum: U16, freeOffset: U16, freeSize: U16,
    item: seq<Item>, data: seq<Byte>, hash: U32, version2: U32)

  // The image that start-up builds when no slot holds a valid one.
  function Blank(): Image {
    Image(TAG, 1, 0, 0, 0, DATA_SIZE,
          seq(MAX_ITEMS, _ => Item(0, 0, 0, 0)), seq(DATA_SIZE, _ => 0), 0, 1)
  }

  // ALIGN(n, 0x40)
  function Align(n: nat): (r: nat)
    ensures n <= r < n + 64 && r % 64 == 0
    ensures n >= 1 ==> r >= 64
  {
    (n + 63) / 64 * 64
  }

  // Where item k's block begins; the free space counts as the block after the last item.
  function Start(im: Image, k: nat): int
    requires im.itemNum <= |im.item| && k <= im.itemNum
  {
    if k < im.itemNum then im.item[k].offset else im.freeOffset
  }

  // Item k is not empty and its rounded block ends before the next one begins.
  ghost predicate BlockFits(im: Image, k: nat)
    requires k < im.itemNum <= |im.item|
  {
    1 <= im.item[k].size && im.item[k].offset + Align(im.item[k].size) <= Start(im, k + 1)
  }

  /** Items lie in index order in disjoint 64-byte-rounded blocks below freeOffset,
      no id is stored twice, and the free space lies inside the data area. */
  ghost predicate Layout(im: Image) {
    && |im.item| == MAX_ITEMS && |im.data| == DATA_SIZE
    && im.itemNum <= MAX_ITEMS
    && im.nextIndex < PART_NUM
    && im.freeOffset + im.freeSize <= DATA_SIZE
    && (forall k :: 0 <= k < im.itemNum ==> BlockFits(im, k))
    && (forall k :: 0 <= k < im.itemNum ==> im.item[k].offset + im.item[k].size <= im.freeOffset)
    && (forall j, k :: 0 <= j < k < im.itemNum ==> im.item[j].id != im.item[k].id)
  }

  lemma {:induction false} BlocksAreOrdered(im: Image, j: nat, k: nat)
    requires Layout(im) && j < k <= im.itemNum
    ensures im.item[j].offset + Align(im.item[j].size) <= Start(im, k) <= im.freeOffset
    decreases im.itemNum - j
  {
    assert BlockFits(im, j);
    if k == j + 1 {
      if k < im.itemNum {
        BlocksAreOrdered(im, k, im.itemNum);
      }
    } else {
      BlocksAreOrdered(im, j + 1, k);
    }
  }

  lemma {:induction false} BlocksFillFrom(im: Image, k: nat)
    requires Layout(im) && k <= im.itemNum
    ensures 64 * k <= Start(im, k)
  {
    if k > 0 {
      BlocksFillFrom(im, k - 1);
      assert BlockFits(im, k - 1);
    }
  }

  /** At most 55 items are ever present, and a block can only be handed out while
      fewer than 55 are: the 62-entry table is never overrun. */
  lemma TableNeverOverruns(im: Image)
    requires Layout(im)
    ensures im.itemNum <= 55
    ensures im.freeSize >= 64 ==> im.itemNum < 55
  {
    BlocksFillFrom(im, im.itemNum);
  }

  function Content(im: Image, k: nat): seq<Byte>
    requires k < |im.item| && im.item[k].offset + im.item[k].size <= |im.data|
  {
    im.data[im.item[k].offset..im.item[k].offset + im.item[k].size]
  }

  // The map from id to stored bytes that the first n entries stand for.
  ghost function ViewUpTo(im: Image, n: nat): map<int, seq<Byte>>
    requires Layout(im) && n <= im.itemNum
  {
    if n == 0 then map[] else ViewUpTo(im, n - 1)[im.item[n - 1].id := Content(im, n - 1)]
  }

  ghost function View(im: Image): map<int, seq<Byte>>
    requires Layout(im)
  {
    ViewUpTo(im, im.itemNum)
  }

  lemma {:induction false} ViewUpToAt(im: Image, n: nat)
    requires Layout(im) && n <= im.itemNum
    ensures forall k :: 0 <= k < n ==>
      im.item[k].id in ViewUpTo(im, n) && ViewUpTo(im, n)[im.item[k].id] == Content(im, k)
    ensures forall id :: id in ViewUpTo(im, n) ==> exists k :: 0 <= k < n && im.item[k].id == id
  {
    if n > 0 {
      ViewUpToAt(im, n - 1);
    }
  }

  // The first entry holding the id, or itemNum: the scan both entry points begin with.
  function FindFrom(im: Image, id: int, k: nat): (r: nat)
    requires k <= im.itemNum <= |im.item|
    ensures k <= r <= im.itemNum
    ensures r < im.itemNum ==> im.item[r].id == id
    ensures forall j :: k <= j < r ==> im.item[j].id != id
    ensures r < im.itemNum || forall j :: k <= j < im.itemNum ==> im.item[j].id != id
    decreases im.itemNum - k
  {
    if k == im.itemNum || im.item[k].id == id then k else FindFrom(im, id, k + 1)
  }

  function Find(im: Image, id: int): (r: nat)
    requires im.itemNum <= |im.item|
    ensures r <= im.itemNum
    ensures r < im.itemNum ==> im.item[r].id == id
    ensures r == im.itemNum ==> forall j :: 0 <= j < r ==> im.item[j].id != id
  {
    FindFrom(im, id, 0)
  }

  /** Scanning the table for an id reads the map there. */
  lemma FindReadsView(im: Image, id: int)
    requires Layout(im)
    ensures id in View(im) <==> Find(im, id) < im.itemNum
    ensures id in View(im) ==> View(im)[id] == Content(im, Find(im, id))
  {
    ViewUpToAt(im, im.itemNum);
  }

  // (id, size) of every item in table order.
  function Entries(im: Image): (r: seq<(int, int)>)
    requires im.itemNum <= |im.item|
    ensures |r| == im.itemNum
    ensures forall k :: 0 <= k < |r| ==> r[k] == (im.item[k].id, im.item[k].size)
  {
    seq(im.itemNum, k requires 0 <= k < im.itemNum => (im.item[k].id, im.item[k].size))
  }

  // A write is refused exactly when it needs a new block and the free space is too small.
  predicate Refused(im: Image, id: int, size: nat)
    requires im.itemNum <= |im.item|
  {
    var i := Find(im, id);
    im.freeSize < Align(size) && (i < im.itemNum ==> size > Align(im.item[i].size))
  }

  /** An item that still fits its blocks is never refused; one that is new or has outgrown them is
      refused exactly when the free space is smaller than its blocks. */
  lemma RefusedExactly(im: Image, id: int, size: nat)
    requires Layout(im)
    ensures var m := View(im);
      if id in m && size <= Align(|m[id]|) then !Refused(im, id, size)
      else Refused(im, id, size) <==> im.freeSize < Align(size)
  {
    FindReadsView(im, id);
  }

  // The item table after an accepted write.
  function NewEntries(im: Image, id: int, size: nat): seq<(int, int)>
    requires im.itemNum <= |im.item|
  {
    var i, e := Find(im, id), Entries(im);
    if i == im.itemNum then e + [(id, size)]
    else if size > Align(im.item[i].size) then e[..i] + e[i + 1..] + [(id, size)]
    else e[i := (id, size)]
  }

  // Bytes of free space an accepted write takes.
  function Charge(im: Image, id: int, size: nat): int
    requires im.itemNum <= |im.item|
  {
    var i := Find(im, id);
    if i == im.itemNum then Align(size)
    else if size > Align(im.item[i].size) then Align(size) - Align(im.item[i].size)
    else 0
  }

  /** What an accepted write leaves behind, as the caller sees it. */
  ghost predicate Wrote(im: Image, id: int, buf: seq<Byte>, im': Image)
    requires Layout(im)
  {
    && Layout(im')
    && View(im') == View(im)[id := buf]
    && Entries(im') == NewEntries(im, id, |buf|)
    && im'.freeSize == im.freeSize - Charge(im, id, |buf|)
    && im'.freeOffset + im'.freeSize <= im.freeOffset + im.freeSize
    && im'.tag == im.tag
    && im'.version == (im.version + 1) % 0x1_0000_0000 && im'.version2 == im'.version
    && im'.nextIndex == (im.nextIndex + 1) % PART_NUM
  }

  // An image stands for a map given by its entries and their bytes.
  lemma ViewIs(im: Image, m: map<int, seq<Byte>>)
    requires Layout(im)
    requires forall k :: 0 <= k < im.itemNum ==> im.item[k].id in m && m[im.item[k].id] == Content(im, k)
    requires forall id :: id in m ==> Find(im, id) < im.itemNum
    ensures View(im) == m
  {
    ViewUpToAt(im, im.itemNum);
    forall id
      ensures id in View(im) <==> id in m
      ensures id in m ==> View(im)[id] == m[id]
    {
      if id in m {
        assert im.item[Find(im, id)].id == id;
      }
    }
  }

  /** Entry k of the new image holds the bytes that entry `from` of the old one held. */
  predicate Moved(im: Image, from: nat, im': Image, k: nat)
    requires from < |im.item| && k < |im'.item|
  {
    && im.item[from].offset + im.item[from].size <= |im.data|
    && im'.item[k].offset + im'.item[k].size <= |im'.data|
    && im'.item[k].id == im.item[from].id && im'.item[k].size == im.item[from].size
    && Content(im', k) == Content(im, from)
  }

  // How the entries of im' come from im: from[k] is the old index of entry k, or -1 for
  // the one entry that holds the newly written (id, buf).
  ghost predicate Rearranged(im: Image, id: int, buf: seq<Byte>, im': Image, from: seq<int>) {
    && |from| == im'.itemNum <= |im'.item| && im.itemNum <= |im.item|
    && (forall k :: 0 <= k < |from| && from[k] == -1 ==>
          im'.item[k].id == id && im'.item[k].size == |buf|
          && im'.item[k].offset + |buf| <= |im'.data| && Content(im', k) == buf)
    && (forall k :: 0 <= k < |from| && from[k] != -1 ==>
          0 <= from[k] < im.itemNum && im.item[from[k]].id != id && Moved(im, from[k], im', k))
    && -1 in from
    && (forall j :: 0 <= j < im.itemNum && im.item[j].id != id ==> j in from)
  }

  // Rearranging and moving blocks changes the map at the written id only.
  lemma RearrangedView(im: Image, id: int, buf: seq<Byte>, im': Image, from: seq<int>)
    requires Layout(im) && Layout(im') && Rearranged(im, id, buf, im', from)
    ensures View(im') == View(im)[id := buf]
  {
    var m := View(im)[id := buf];
    ViewUpToAt(im, im.itemNum);
    forall k | 0 <= k < im'.itemNum
      ensures im'.item[k].id in m && m[im'.item[k].id] == Content(im', k)
    {
      if from[k] != -1 {
        assert Moved(im, from[k], im', k);
      }
    }
    forall id' | id' in m
      ensures Find(im', id') < im'.itemNum
    {
      if id' == id {
        var k :| 0 <= k < |from| && from[k] == -1;
        assert im'.item[k].id == id;
      } else {
        var j := Find(im, id');
        assert j in from;
        var k :| 0 <= k < |from| && from[k] == j;
        assert Moved(im, j, im', k);
      }
    }
    ViewIs(im', m);
  }

  // Rounded bytes held by a list of entries.
  function Held(e: seq<(int, int)>): int
    requires forall k :: 0 <= k < |e| ==> e[k].1 >= 0
  {
    if e == [] then 0 else Align(e[0].1) + Held(e[1..])
  }

  lemma {:induction false} HeldSplit(a: seq<(int, int)>, b: seq<(int, int)>)
    requires forall k :: 0 <= k < |a| ==> a[k].1 >= 0
    requires forall k :: 0 <= k < |b| ==> b[k].1 >= 0
    ensures forall k :: 0 <= k < |a + b| ==> (a + b)[k].1 >= 0
    ensures Held(a + b) == Held(a) + Held(b)
  {
    if a == [] {
      assert a + b == b;
    } else {
      HeldSplit(a[1..], b);
      assert (a + b)[1..] == a[1..] + b;
    }
  }

  lemma HeldOne(e: seq<(int, int)>, i: nat)
    requires forall k :: 0 <= k < |e| ==> e[k].1 >= 0
    requires i < |e|
    ensures Held(e) == Held(e[..i]) + Align(e[i].1) + Held(e[i + 1..])
  {
    assert e == e[..i] + ([e[i]] + e[i + 1..]);
    assert ([e[i]] + e[i + 1..])[1..] == e[i + 1..];
    HeldSplit(e[..i], [e[i]] + e[i + 1..]);
  }

  lemma NewEntriesHeld(im: Image, id: int, size: nat)
    requires im.itemNum <= |im.item|
    ensures forall k :: 0 <= k < |NewEntries(im, id, size)| ==> NewEntries(im, id, size)[k].1 >= 0
    ensures
      var i := Find(im, id);
      Held(NewEntries(im, id, size)) ==
        Held(Entries(im)) + Align(size) - (if i < im.itemNum then Align(im.item[i].size) else 0)
  {
    var i, e, last := Find(im, id), Entries(im), [(id, size)];
    assert last[1..] == [];
    if i == im.itemNum {
      HeldSplit(e, last);
    } else {
      HeldOne(e, i);
      if size > Align(im.item[i].size) {
        HeldSplit(e[..i], e[i + 1..]);
        HeldSplit(e[..i] + e[i + 1..], last);
      } else {
        var e' := e[i := (id, size)];
        HeldOne(e', i);
        assert e'[..i] == e[..i] && e'[i + 1..] == e[i + 1..];
      }
    }
  }

  /** Conservation: rounded bytes held plus free bytes stay the same, except that an item
      rewritten inside its blocks strands those it no longer needs. */
  lemma SpaceIsConserved(im: Image, id: int, size: nat, im': Image)
    requires Layout(im) && im'.itemNum <= |im'.item|
    requires Entries(im') == NewEntries(im, id, size)
    requires im'.freeSize == im.freeSize - Charge(im, id, size)
    ensures var m := View(im);
      Held(Entries(im')) + im'.freeSize == Held(Entries(im)) + im.freeSize
        - if id in m && size <= Align(|m[id]|) then Align(|m[id]|) - Align(size) else 0
    ensures Held(Entries(im')) + im'.freeSize <= Held(Entries(im)) + im.freeSize
  {
    NewEntriesHeld(im, id, size);
    StoredSize(im, id);
    AlignGrows(im, id, size);
  }

  lemma StoredSize(im: Image, id: int)
    requires Layout(im)
    ensures id in View(im) <==> Find(im, id) < im.itemNum
    ensures id in View(im) ==> |View(im)[id]| == im.item[Find(im, id)].size
  {
    FindReadsView(im, id);
  }

  lemma AlignGrows(im: Image, id: int, size: nat)
    requires im.itemNum <= |im.item|
    ensures var i := Find(im, id);
      i < im.itemNum && size <= Align(im.item[i].size) ==> Align(size) <= Align(im.item[i].size)
  {
  }

  // What an entry holds, as against the whole list.
  lemma HeldIs(e: seq<(int, int)>, id: int, size: nat)
    requires forall k :: 0 <= k < |e| ==> e[k].1 >= 0
    ensures Held(e + [(id, size)]) == Held(e) + Align(size) && Held([]) == 0
  {
    HeldSplit(e, [(id, size)]);
    assert [(id, size)][1..] == [];
  }
}
