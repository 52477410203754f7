/** The page pools of the DMA-buffer heaps (page_pool.c): lists of free blocks of 2^order pages each, the memory node's
    count of reclaimable pages, and the shrinker that gives blocks back to the system. */
module PagePool {
  import opened Optional

  datatype Page = Page(frame: nat, highmem: bool)

  // What a pool holds.
  datatype View = View(order: nat, low: seq<Page>, high: seq<Page>)

  // count << order.
  function Shifted(count: nat, order: nat): (pages: nat)
    ensures pages >= count && (pages == 0 <==> count == 0)
  {
    if order == 0 then count else 2 * Shifted(count, order - 1)
  }

  lemma {:induction false} ShiftedSum(a: nat, b: nat, order: nat)
    ensures Shifted(a + b, order) == Shifted(a, order) + Shifted(b, order)
  {
    if order > 0 {
      ShiftedSum(a, b, order - 1);
    }
  }

  function Power2(k: nat): nat {
    if k == 0 then 1 else Power2(k - 1) + Power2(k - 1)
  }

  /** A count of blocks of order k is 2^k pages each: an order-0 block is one page, and a block of the
      next order is two of this one. */
  lemma {:induction false} ShiftedIs(count: nat, order: nat)
    ensures Shifted(count, order) == count * Power2(order)
    ensures Shifted(count, order + 1) == Shifted(count, order) + Shifted(count, order)
    ensures Shifted(count, 0) == count
  {
    if order > 0 {
      ShiftedIs(count, order - 1);
      Twice(count, Power2(order - 1));
    }
  }

  lemma Twice(a: nat, b: nat)
    ensures a * (b + b) == 2 * (a * b)
  {
  }

  // The orders the heaps use: blocks of 1, 16 and 256 pages.
  lemma UsualOrders()
    ensures Shifted(1, 0) == 1 && Shifted(1, 4) == 16 && Shifted(1, 8) == 256
  {
    assert Shifted(1, 2) == 4 && Shifted(1, 6) == 64;
  }

  function Size(v: View): nat { |v.low| + |v.high| }

  function Weight(v: View): nat { Shifted(Size(v), v.order) }

  // The order in which shrinking gives blocks back: low pages first.
  function Queue(v: View): seq<Page> { v.low + v.high }

  // The pool once its first `n` blocks have been given back.
  function Cut(v: View, n: nat): View
    requires n <= Size(v)
  {
    if n <= |v.low| then v.(low := v.low[n..]) else v.(low := [], high := v.high[n - |v.low|..])
  }

  function Total(vs: seq<View>): nat {
    if vs == [] then 0 else Weight(vs[0]) + Total(vs[1..])
  }

  function Sum(ns: seq<nat>): nat {
    if ns == [] then 0 else ns[0] + Sum(ns[1..])
  }

  lemma CutOne(v: View, n: nat)
    requires n < Size(v)
    ensures Size(Cut(v, n)) > 0
    ensures Cut(Cut(v, n), 1) == Cut(v, n + 1)
    ensures Queue(Cut(v, n))[0] == Queue(v)[n]
    ensures Queue(v)[..n + 1] == Queue(v)[..n] + [Queue(v)[n]]
    ensures Shifted(n + 1, v.order) == Shifted(n, v.order) + Shifted(1, v.order)
  {
    ShiftedSum(n, 1, v.order);
  }

  // Cutting gives back the front of the queue and keeps the rest.
  lemma CutKeeps(v: View, n: nat)
    requires n <= Size(v)
    ensures Queue(v)[..n] + Queue(Cut(v, n)) == Queue(v)
    ensures Weight(v) == Weight(Cut(v, n)) + Shifted(n, v.order)
  {
    QueueSplit(v.low, v.high, n);
    CutWeight(v, n);
  }

  lemma CutWeight(v: View, n: nat)
    requires n <= Size(v)
    ensures Weight(v) == Weight(Cut(v, n)) + Shifted(n, v.order)
  {
    assert Size(Cut(v, n)) == Size(v) - n;
    ShiftedSum(Size(v) - n, n, v.order);
  }

  lemma QueueSplit(low: seq<Page>, high: seq<Page>, n: nat)
    requires n <= |low| + |high|
    ensures (low + high)[..n] + (if n <= |low| then low[n..] + high else high[n - |low|..]) == low + high
  {
    if n <= |low| {
      assert (low + high)[n..] == low[n..] + high;
    } else {
      assert (low + high)[n..] == high[n - |low|..];
    }
  }

  // Every block in these pools.
  function Inside(vs: seq<View>): multiset<Page> {
    if vs == [] then multiset{} else multiset(Queue(vs[0])) + Inside(vs[1..])
  }

  lemma {:induction false} InsideUpdate(vs: seq<View>, k: nat, v: View)
    requires k < |vs|
    ensures Inside(vs[k := v]) + multiset(Queue(vs[k])) == Inside(vs) + multiset(Queue(v))
  {
    var head, now := multiset(Queue(vs[0])), vs[k := v];
    if k > 0 {
      InsideUpdate(vs[1..], k - 1, v);
      assert now[1..] == vs[1..][k - 1 := v];
      Regrouped(head, Inside(now[1..]), multiset(Queue(vs[k])), Inside(vs[1..]), multiset(Queue(v)));
    } else {
      assert now[1..] == vs[1..];
    }
  }

  lemma Regrouped(a: multiset<Page>, b: multiset<Page>, c: multiset<Page>, d: multiset<Page>, e: multiset<Page>)
    requires b + c == d + e
    ensures (a + b) + c == (a + d) + e
  {
    assert (a + b) + c == a + (b + c);
    assert (a + d) + e == a + (d + e);
  }

  // What the counting scan adds up.
  function Countable(vs: seq<View>, highmem: bool): nat {
    if vs == [] then 0 else
      Shifted(|vs[0].low| + (if highmem then |vs[0].high| else 0), vs[0].order) + Countable(vs[1..], highmem)
  }

  lemma {:induction false} CountableSnoc(vs: seq<View>, highmem: bool)
    requires vs != []
    ensures Countable(vs, highmem) ==
            Countable(vs[..|vs| - 1], highmem) + Countable([vs[|vs| - 1]], highmem)
  {
    if |vs| > 1 {
      CountableSnoc(vs[1..], highmem);
      assert vs[1..][..|vs| - 2] == vs[..|vs| - 1][1..];
    } else {
      assert vs == [vs[0]];
    }
  }

  // These pools without their high blocks.
  function LowOnly(vs: seq<View>): (low: seq<View>)
    ensures |low| == |vs|
    ensures forall k :: 0 <= k < |vs| ==> low[k] == vs[k].(high := [])
  {
    seq(|vs|, k requires 0 <= k < |vs| => vs[k].(high := []))
  }

  /** The counting scan counts every page with high memory, and those in low blocks without. */
  lemma {:induction false} CountableIsTotal(vs: seq<View>)
    ensures Countable(vs, true) == Total(vs)
    ensures Countable(vs, false) == Total(LowOnly(vs))
  {
    if vs != [] {
      CountableIsTotal(vs[1..]);
      assert LowOnly(vs)[1..] == LowOnly(vs[1..]);
    }
  }

  lemma {:induction false} TotalUpdate(vs: seq<View>, k: nat, v: View)
    requires k < |vs|
    ensures Total(vs[k := v]) == Total(vs) - Weight(vs[k]) + Weight(v)
  {
    if k > 0 {
      TotalUpdate(vs[1..], k - 1, v);
      assert vs[k := v][1..] == vs[1..][k - 1 := v];
    }
  }

  // A block put into one pool adds its pages to the total.
  lemma PutAdds(vs: seq<View>, k: nat, page: Page)
    requires k < |vs|
    ensures Total(vs[k := Put(vs[k], page)]) == Total(vs) + Shifted(1, vs[k].order)
  {
    TotalUpdate(vs, k, Put(vs[k], page));
    ShiftedSum(Size(vs[k]), 1, vs[k].order);
  }

  // A block taken out of one takes them away.
  lemma LessTakes(vs: seq<View>, k: nat, highmem: bool)
    requires k < |vs| && Side(vs[k], highmem) != []
    ensures Total(vs[k := Less(vs[k], highmem)]) == Total(vs) - Shifted(1, vs[k].order)
  {
    TotalUpdate(vs, k, Less(vs[k], highmem));
    ShiftedSum(Size(Less(vs[k], highmem)), 1, vs[k].order);
  }

  lemma {:induction false} TotalWithout(vs: seq<View>, k: nat)
    requires k < |vs|
    ensures Total(vs[..k] + vs[k + 1..]) == Total(vs) - Weight(vs[k])
  {
    if k == 0 {
      assert vs[..0] + vs[1..] == vs[1..];
    } else {
      TotalWithout(vs[1..], k - 1);
      assert (vs[..k] + vs[k + 1..])[1..] == vs[1..][..k - 1] + vs[1..][k..];
    }
  }

  lemma {:induction false} SumUpdate(ns: seq<nat>, k: nat, n: nat)
    requires k < |ns|
    ensures Sum(ns[k := n]) == Sum(ns) - ns[k] + n
  {
    if k > 0 {
      SumUpdate(ns[1..], k - 1, n);
      assert ns[k := n][1..] == ns[1..][k - 1 := n];
    }
  }

  lemma {:induction false} TotalZero(vs: seq<View>)
    ensures Total(vs) == 0 <==> forall k :: 0 <= k < |vs| ==> Size(vs[k]) == 0
  {
    if vs != [] {
      TotalZero(vs[1..]);
      assert Weight(vs[0]) == 0 <==> Size(vs[0]) == 0;
      if Total(vs) == 0 {
        forall k | 0 <= k < |vs| ensures Size(vs[k]) == 0 {
          if k > 0 { assert vs[k] == vs[1..][k - 1]; }
        }
      }
      if forall k :: 0 <= k < |vs| ==> Size(vs[k]) == 0 {
        forall k | 0 <= k < |vs[1..]| ensures Size(vs[1..][k]) == 0 {
          assert vs[1..][k] == vs[k + 1];
        }
      }
    }
  }

  // The next block to give back is the first low page or, with none left, the first high page.
  lemma NextBlock(v: View)
    ensures v.low != [] ==> Size(v) > 0 && Cut(v, 1) == v.(low := v.low[1..]) && Queue(v)[0] == v.low[0]
    ensures v.low == [] && v.high != [] ==> Size(v) > 0 && Cut(v, 1) == v.(high := v.high[1..]) && Queue(v)[0] == v.high[0]
    ensures v.low == [] && v.high == [] ==> Size(v) == 0 && Queue(v) == []
  {
  }

  // The pool with one more block.
  function Put(v: View, page: Page): View {
    if page.highmem then v.(high := v.high + [page]) else v.(low := v.low + [page])
  }

  // One of the two lists of a pool.
  function Side(v: View, highmem: bool): seq<Page> {
    if highmem then v.high else v.low
  }

  // The pool without the first block of that list.
  function Less(v: View, highmem: bool): View
    requires Side(v, highmem) != []
  {
    if highmem then v.(high := v.high[1..]) else v.(low := v.low[1..])
  }

  // The block an allocation takes, and the pool without it.
  function Preferred(v: View): Page
    requires Size(v) > 0
  {
    Side(v, v.high != [])[0]
  }

  function Fetched(v: View): View
    requires Size(v) > 0
  {
    Less(v, v.high != [])
  }

  lemma OneOut(left: seq<Page>, p: Page, right: seq<Page>)
    ensures multiset(left + ([p] + right)) == multiset(left + right) + multiset{p}
  {
  }

  // An allocation takes one block and leaves every other.
  lemma FetchedKeeps(v: View)
    requires Size(v) > 0
    ensures multiset(Queue(v)) == multiset(Queue(Fetched(v))) + multiset{Preferred(v)}
    ensures Weight(v) == Weight(Fetched(v)) + Shifted(1, v.order)
  {
    if v.high != [] {
      OneOut(v.low, v.high[0], v.high[1..]);
      assert v.high == [v.high[0]] + v.high[1..];
    } else {
      OneOut([], v.low[0], v.low[1..]);
      assert v.high == [] && v.low == [] + ([v.low[0]] + v.low[1..]);
      assert Queue(v) == v.low && Queue(Fetched(v)) == [] + v.low[1..];
    }
    ShiftedSum(Size(Fetched(v)), 1, v.order);
  }

  // The memory node: its count of reclaimable pages, and the blocks it got back.
  class Node {
    var reclaimable: int
    ghost var released: seq<Page>
  }

  class Pool {
    const order: nat
    var low: seq<Page>
    var high: seq<Page>
    var nLow: nat
    var nHigh: nat

    ghost predicate Valid()
      reads this
    {
      && nLow == |low| && nHigh == |high|
      && (forall p :: p in low ==> !p.highmem) && (forall p :: p in high ==> p.highmem)
    }

    function Contents(): View
      reads this
    {
      View(order, low, high)
    }

    constructor (order: nat)
      ensures Valid() && Contents() == View(order, [], [])
    {
      this.order, low, high, nLow, nHigh := order, [], [], 0, 0;
    }

    // The locked section of dmabuf_page_pool_add.
    method Enqueue(page: Page)
      requires Valid()
      modifies this
      ensures Valid()
      ensures Contents() == Put(old(Contents()), page)
    {
      if page.highmem {
        high, nHigh := high + [page], nHigh + 1;
      } else {
        low, nLow := low + [page], nLow + 1;
      }
    }

    method Remove(node: Node, highmem: bool) returns (page: Option<Page>)
      requires Valid()
      modifies this, node`reclaimable
      ensures Valid()
      ensures page == var list := Side(old(Contents()), highmem);
                      if list == [] then None else Some(list[0])
      ensures page.None? ==> Contents() == old(Contents()) && node.reclaimable == old(node.reclaimable)
      ensures page.Some? ==> node.reclaimable == old(node.reclaimable) - Shifted(1, order)
      ensures page.Some? ==> Contents() == Less(old(Contents()), highmem)
    {
      var list := if highmem then high else low;
      if list == [] {
        return None;
      }
      if highmem {
        nHigh, high := nHigh - 1, high[1..];
      } else {
        nLow, low := nLow - 1, low[1..];
      }
      node.reclaimable := node.reclaimable - Shifted(1, order);
      page := Some(list[0]);
    }

    // Takes the block that shrinking gives back next.
    method RemoveNext(node: Node) returns (page: Option<Page>)
      requires Valid()
      modifies this, node`reclaimable
      ensures Valid()
      ensures page == if Queue(old(Contents())) == [] then None else Some(Queue(old(Contents()))[0])
      ensures page.None? ==> Contents() == old(Contents()) && node.reclaimable == old(node.reclaimable)
      ensures page.Some? ==> Contents() == Cut(old(Contents()), 1)
      ensures page.Some? ==> node.reclaimable == old(node.reclaimable) - Shifted(1, order)
    {
      NextBlock(Contents());
      page := Remove(node, false);
      if page.None? {
        page := Remove(node, true);
      }
    }

    // Allocation prefers a high page, then a low page, then the system's answer.
    method Alloc(node: Node, system: Option<Page>) returns (page: Option<Page>)
      requires Valid()
      modifies this, node`reclaimable
      ensures Valid()
      ensures page == if Size(old(Contents())) == 0 then system else Some(Preferred(old(Contents())))
      ensures Contents() == if Size(old(Contents())) == 0 then old(Contents()) else Fetched(old(Contents()))
      ensures node.reclaimable - Weight(Contents()) == old(node.reclaimable) - Weight(old(Contents()))
    {
      ghost var was := Contents();
      if Size(was) > 0 { FetchedKeeps(was); }
      page := Remove(node, true);
      if page.None? {
        page := Remove(node, false);
      }
      if page.None? {
        page := system;
      }
    }

    // From `was`, with `count` reclaimable pages and `gone` released, `cut` blocks have been given back.
    ghost predicate CutTo(node: Node, was: View, count: int, gone: seq<Page>, cut: nat)
      reads this, node
    {
      && Valid() && cut <= Size(was) && Contents() == Cut(was, cut)
      && node.reclaimable == count - Shifted(cut, order)
      && node.released == gone + Queue(was)[..cut]
    }

    // One turn of the loops that give blocks back, if there is a block.
    method GiveBack(node: Node, ghost was: View, ghost count: int, ghost gone: seq<Page>, ghost cut: nat)
      returns (some: bool)
      requires CutTo(node, was, count, gone, cut)
      modifies this, node
      ensures some == (cut < Size(was))
      ensures CutTo(node, was, count, gone, if some then cut + 1 else cut)
    {
      if cut < Size(was) {
        CutOne(was, cut);
      }
      var page := RemoveNext(node);
      some := page.Some?;
      if some {
        node.released := node.released + [page.value];
      }
    }

    // dmabuf_page_pool_total.
    method Count(highmem: bool) returns (pages: nat)
      requires Valid()
      ensures pages == Countable([Contents()], highmem)
      ensures pages == Weight(if highmem then Contents() else Contents().(high := []))
    {
      pages := Shifted(nLow + if highmem then nHigh else 0, order);
      assert [Contents()][1..] == [];
    }

    // Gives blocks back until `nrToScan` pages are reached or the pool is empty; `cut` is how many.
    method FreeUpTo(node: Node, nrToScan: int) returns (freed: nat, ghost cut: nat)
      requires Valid()
      modifies this, node
      ensures CutTo(node, old(Contents()), old(node.reclaimable), old(node.released), cut)
      ensures freed == Shifted(cut, order) && (freed >= nrToScan || cut == Size(old(Contents())))
      ensures cut > 0 ==> 0 < nrToScan && freed < nrToScan + Shifted(1, order)
    {
      freed, cut := 0, 0;
      ghost var was, count, gone := Contents(), node.reclaimable, node.released;
      while freed < nrToScan
        invariant CutTo(node, was, count, gone, cut)
        invariant freed == Shifted(cut, order)
        invariant cut > 0 ==> 0 < nrToScan && freed < nrToScan + Shifted(1, order)
        decreases nrToScan - freed
      {
        var some := GiveBack(node, was, count, gone, cut);
        if !some {
          break;
        }
        ShiftedSum(cut, 1, order);
        freed := freed + Shifted(1, order);
        cut := cut + 1;
      }
    }

    // dmabuf_page_pool_do_shrink: with a request of 0 it only counts.
    method DoShrink(node: Node, highmem: bool, nrToScan: int) returns (freed: nat, ghost cut: nat)
      requires Valid()
      modifies this, node
      ensures CutTo(node, old(Contents()), old(node.reclaimable), old(node.released), cut)
      ensures nrToScan != 0 ==> freed == Shifted(cut, order)
      ensures nrToScan != 0 ==> freed >= nrToScan || cut == Size(old(Contents()))
      ensures cut > 0 ==> 0 < nrToScan && freed < nrToScan + Shifted(1, order)
      ensures nrToScan == 0 ==> freed == Countable([old(Contents())], highmem)
    {
      if nrToScan == 0 {
        freed := Count(highmem);
        cut := 0;
      } else {
        freed, cut := FreeUpTo(node, nrToScan);
      }
    }

    // Gives back everything, low pages first.
    method Drain(node: Node)
      requires Valid()
      modifies this, node
      ensures Valid() && Contents() == View(order, [], [])
      ensures node.released == old(node.released) + Queue(old(Contents()))
      ensures node.reclaimable == old(node.reclaimable) - Weight(old(Contents()))
    {
      ghost var was, count, gone, n := Contents(), node.reclaimable, node.released, 0;
      var more := true;
      while more
        invariant CutTo(node, was, count, gone, n)
        invariant !more ==> n == Size(was)
        decreases Size(was) - n, more
      {
        more := GiveBack(node, was, count, gone, n);
        n := if more then n + 1 else n;
      }
      assert Queue(was)[..n] == Queue(was);
    }
  }

  // A pool after shrinking: some blocks from the front of its queue are gone.
  ghost predicate CutOf(v: View, was: View) {
    exists n :: 0 <= n <= Size(was) && v == Cut(was, n)
  }

  // Where a shrink stopped: earlier pools are empty, later ones untouched.
  ghost predicate StoppedAt(vs: seq<View>, was: seq<View>, last: nat)
    requires |vs| == |was|
  {
    && (forall k :: 0 <= k < |vs| ==> CutOf(vs[k], was[k]))
    && (forall k :: 0 <= k < last && k < |vs| ==> Size(vs[k]) == 0)
    && (forall k :: last < k < |vs| ==> vs[k] == was[k])
  }

  /** All pools of the driver and the threads that use them. */
  class Pools {
    var pools: seq<Pool>
    const node: Node
    var owed: seq<nat> // by thread: pages it has put into a pool and not added to the count yet

    function Views(): seq<View>
      reads this, pools
    {
      seq(|pools|, k requires 0 <= k < |pools| reads this, pools => pools[k].Contents())
    }

    // Distinct pools, each with counts that match its lists.
    ghost predicate Sound()
      reads this, pools
    {
      && (forall j, k :: 0 <= j < k < |pools| ==> pools[j] != pools[k])
      && (forall k :: 0 <= k < |pools| ==> pools[k].Valid())
    }

    // The node's count and what threads still owe it make up all pages in the pools.
    ghost predicate Valid()
      reads this, pools, node
    {
      Sound() && node.reclaimable + Sum(owed) == Total(Views())
    }

    // Only pool `k` has changed.
    twostate lemma OnlyPool(k: nat)
      requires pools == old(pools) && k < |pools| && old(Sound()) && pools[k].Valid()
      requires forall p :: p in pools && p != pools[k] ==> unchanged(p)
      ensures Sound() && Views() == old(Views())[k := pools[k].Contents()]
    {
      forall j | 0 <= j < |pools| && j != k ensures unchanged(pools[j]) {
        assert pools[j] in pools;
      }
    }

    constructor (threads: nat)
      ensures Valid() && pools == [] && |owed| == threads
    {
      pools := [];
      owed := Zeros(threads);
      node := new Node;
      new;
      node.reclaimable := 0;
      node.released := [];
    }

    method Create(order: nat) returns (pool: Pool)
      requires Valid()
      modifies this`pools
      ensures Valid() && fresh(pool) && pools == [pool] + old(pools)
      ensures Views() == [View(order, [], [])] + old(Views())
    {
      pool := new Pool(order);
      ghost var was := Views();
      pools := [pool] + pools;
      assert Views() == [View(order, [], [])] + was;
    }

    // The locked section of dmabuf_page_pool_add, run by thread `who`.
    method Enqueue(who: nat, k: nat, page: Page)
      requires Valid() && k < |pools| && who < |owed| && owed[who] == 0
      modifies pools[k], this`owed
      ensures Valid() && owed == old(owed)[who := Shifted(1, pools[k].order)]
      ensures Views() == old(Views())[k := Put(old(Views()[k]), page)]
      ensures Views()[k].low == old(Views()[k]).low + (if page.highmem then [] else [page])
      ensures Views()[k].high == old(Views()[k]).high + (if page.highmem then [page] else [])
    {
      PutAdds(Views(), k, page);
      SumUpdate(owed, who, Shifted(1, pools[k].order));
      owed := owed[who := Shifted(1, pools[k].order)];
      pools[k].Enqueue(page);
      OnlyPool(k);
    }

    // The update of the count, after the lock is dropped; it does nothing for a thread that owes nothing.
    method Account(who: nat, pages: nat)
      requires Valid() && who < |owed| && owed[who] == pages
      modifies node`reclaimable, this`owed
      ensures Valid() && Views() == old(Views()) && owed == old(owed)[who := 0]
      ensures node.reclaimable == old(node.reclaimable) + pages
    {
      SumUpdate(owed, who, 0);
      node.reclaimable := node.reclaimable + pages;
      owed := owed[who := 0];
      assert Views() == old(Views());
    }

    // Any thread takes a block off one of the lists of a pool; the count follows under the lock.
    method Remove(k: nat, highmem: bool) returns (page: Option<Page>)
      requires Valid() && k < |pools|
      modifies pools[k], node`reclaimable
      ensures Valid()
      ensures page == var list := Side(old(Views()[k]), highmem);
                      if list == [] then None else Some(list[0])
      ensures page.Some? ==> page.value.highmem == highmem
      ensures page.Some? && highmem ==>
        old(Views()[k]).high == [page.value] + Views()[k].high && Views()[k].low == old(Views()[k]).low
      ensures page.Some? && !highmem ==>
        old(Views()[k]).low == [page.value] + Views()[k].low && Views()[k].high == old(Views()[k]).high
      ensures page.None? ==> (if highmem then old(Views()[k]).high else old(Views()[k]).low) == []
      ensures Views() == if page.None? then old(Views()) else old(Views())[k := Less(old(Views()[k]), highmem)]
    {
      ghost var was := Views();
      if Side(was[k], highmem) != [] {
        LessTakes(was, k, highmem);
      }
      page := pools[k].Remove(node, highmem);
      OnlyPool(k);
      if page.None? {
        assert Views() == was;
      }
    }

    method Alloc(k: nat, system: Option<Page>) returns (page: Option<Page>)
      requires Valid() && k < |pools|
      modifies pools[k], node`reclaimable
      ensures Valid()
      ensures Views() == if Size(old(Views()[k])) == 0 then old(Views())
                         else old(Views())[k := Fetched(old(Views()[k]))]
      ensures page == if Size(old(Views()[k])) == 0 then system else Some(Preferred(old(Views()[k])))
      ensures var was := old(Views()[k]);
        if was.high != [] then page == Some(was.high[0]) && Views()[k] == was.(high := was.high[1..])
        else if was.low != [] then page == Some(was.low[0]) && Views()[k] == was.(low := was.low[1..])
        else page == system && Views()[k] == was
    {
      ghost var was := Views();
      page := pools[k].Alloc(node, system);
      OnlyPool(k);
      TotalUpdate(was, k, pools[k].Contents());
    }

    // Shrinks one pool.
    method ShrinkPool(k: nat, highmem: bool, nrToScan: int) returns (freed: nat, ghost cut: nat)
      requires Valid() && k < |pools|
      modifies pools[k], node
      ensures Valid() && cut <= Size(old(Views()[k]))
      ensures Views() == old(Views())[k := Cut(old(Views()[k]), cut)]
      ensures Inside(Views()) + multiset(node.released) == old(Inside(Views()) + multiset(node.released))
      ensures nrToScan == 0 ==> freed == Countable([Views()[k]], highmem)
      ensures nrToScan != 0 ==> freed == Total(old(Views())) - Total(Views())
      ensures nrToScan != 0 ==> freed >= nrToScan || Size(Views()[k]) == 0
      ensures nrToScan != 0 && freed > 0 ==> freed < nrToScan + Shifted(1, pools[k].order)
      ensures nrToScan <= 0 ==> Views() == old(Views()) && node.released == old(node.released)
    {
      ghost var was, gone := Views(), node.released;
      freed, cut := pools[k].DoShrink(node, highmem, nrToScan);
      OnlyPool(k);
      OneCut(was, k, cut, gone);
    }

    // The counting scan.
    method CountPools(highmem: bool) returns (total: nat)
      requires Valid()
      modifies pools, node
      ensures Valid() && Views() == old(Views())
      ensures node.released == old(node.released)
      ensures total == Countable(Views(), highmem)
      ensures total == Total(if highmem then Views() else LowOnly(Views()))
    {
      total := 0;
      for k := 0 to |pools|
        invariant Valid() && Views() == old(Views()) && node.released == old(node.released)
        invariant total == Countable(Views()[..k], highmem)
      {
        var here, _ := ShrinkPool(k, highmem, 0);
        total := total + here;
        assert Views()[..k + 1][..k] == Views()[..k];
        CountableSnoc(Views()[..k + 1], highmem);
      }
      assert Views()[..|pools|] == Views();
      CountableIsTotal(Views());
    }

    // The first `k` pools are empty, the others as they were, and no block is lost.
    ghost predicate ShrunkTo(was: seq<View>, blocks: multiset<Page>, k: nat)
      reads this, pools, node
    {
      && |Views()| == |was| && Emptied(Views(), was, k)
      && Inside(Views()) + multiset(node.released) == blocks
    }

    // The scan before pool `k`: it goes on as long as the request is not reached.
    ghost predicate Scanning(k: nat, total: nat, nrToScan: int, was: seq<View>, blocks: multiset<Page>)
      reads this, pools, node
    {
      && Valid() && ShrunkTo(was, blocks, k) && total == Total(was) - Total(Views())
      && (if nrToScan > 0 then total < nrToScan else k == 0 && total == 0)
      && (nrToScan < 0 ==> Views() == was)
    }

    // The scan has reached the request at pool `k`.
    ghost predicate Scanned(k: nat, total: nat, nrToScan: int, was: seq<View>, blocks: multiset<Page>)
      reads this, pools, node
    {
      && Valid() && |Views()| == |was| && StoppedAt(Views(), was, k)
      && Inside(Views()) + multiset(node.released) == blocks
      && total == Total(was) - Total(Views()) && total >= nrToScan
      && (total > 0 ==> k < |pools| && total < nrToScan + Shifted(1, pools[k].order))
      && (nrToScan < 0 ==> Views() == was)
    }

    // One turn of the freeing scan.
    method ShrinkNext(k: nat, highmem: bool, nrToScan: int, total: nat, ghost was: seq<View>, ghost blocks: multiset<Page>)
      returns (now: nat)
      requires k < |pools| && nrToScan != 0 && Scanning(k, total, nrToScan, was, blocks)
      modifies pools[k], node
      ensures if now < nrToScan then Scanning(k + 1, now, nrToScan, was, blocks) else Scanned(k, now, nrToScan, was, blocks)
    {
      ghost var before := Views();
      var freed;
      ghost var cut;
      freed, cut := ShrinkPool(k, highmem, nrToScan - total);
      now := total + freed;
      MoreEmptied(before, was, k, cut);
    }

    // The freeing scan, without interference; `last` is the pool it stopped at.
    method ShrinkPools(highmem: bool, nrToScan: int) returns (total: nat, ghost last: nat)
      requires Valid() && nrToScan != 0
      modifies pools, node
      ensures Valid() && |Views()| == |old(Views())|
      ensures StoppedAt(Views(), old(Views()), last)
      ensures Inside(Views()) + multiset(node.released) == old(Inside(Views()) + multiset(node.released))
      ensures total == Total(old(Views())) - Total(Views())
      ensures total >= nrToScan || Total(Views()) == 0
      ensures total >= nrToScan && total > 0 ==> last < |pools| && total < nrToScan + Shifted(1, pools[last].order)
      ensures nrToScan < 0 ==> Views() == old(Views())
    {
      total := 0;
      ghost var was, blocks := Views(), Inside(Views()) + multiset(node.released);
      NoneEmptied(was);
      for k := 0 to |pools|
        invariant Scanning(k, total, nrToScan, was, blocks)
      {
        total := ShrinkNext(k, highmem, nrToScan, total, was, blocks);
        if total >= nrToScan {
          return total, k;
        }
      }
      last := |pools|;
      AllEmptied(Views(), was);
    }

    // dmabuf_page_pool_shrink.
    method Shrink(highmem: bool, nrToScan: int) returns (total: nat, ghost last: nat)
      requires Valid()
      modifies pools, node
      ensures Valid() && |Views()| == |old(Views())|
      ensures Inside(Views()) + multiset(node.released) == old(Inside(Views()) + multiset(node.released))
      ensures nrToScan <= 0 ==> Views() == old(Views())
      ensures nrToScan == 0 ==> total == Total(if highmem then Views() else LowOnly(Views()))
      ensures nrToScan != 0 ==> StoppedAt(Views(), old(Views()), last)
      ensures nrToScan != 0 ==> total == Total(old(Views())) - Total(Views())
      ensures nrToScan > 0 ==> total >= nrToScan || Total(Views()) == 0
      ensures 0 < nrToScan <= total ==> last < |pools| && total < nrToScan + Shifted(1, pools[last].order)
    {
      if nrToScan == 0 {
        total := CountPools(highmem);
        return total, 0;
      }
      total, last := ShrinkPools(highmem, nrToScan);
    }

    // Takes a pool out of the list and gives back everything in it.
    method Destroy(k: nat)
      requires Valid() && k < |pools|
      modifies this`pools, pools[k], node
      ensures Valid() && pools == old(pools[..k] + pools[k + 1..])
      ensures Views() == old(Views()[..k] + Views()[k + 1..])
      ensures node.released == old(node.released) + Queue(old(Views()[k]))
    {
      ghost var was := Views();
      var pool := pools[k];
      pools := pools[..k] + pools[k + 1..];
      assert forall j :: 0 <= j < |pools| ==> pools[j] == old(pools)[if j < k then j else j + 1];
      pool.Drain(node);
      assert Sound();
      assert Views() == was[..k] + was[k + 1..];
      TotalWithout(was, k);
    }
  }

  lemma NoneEmptied(was: seq<View>)
    ensures Emptied(was, was, 0)
  {
  }

  lemma MoreEmptied(vs: seq<View>, was: seq<View>, k: nat, cut: nat)
    requires |vs| == |was| && Emptied(vs, was, k) && k < |vs| && cut <= Size(vs[k])
    ensures StoppedAt(vs[k := Cut(vs[k], cut)], was, k)
    ensures Size(Cut(vs[k], cut)) == 0 ==> Emptied(vs[k := Cut(vs[k], cut)], was, k + 1)
  {
    var now := vs[k := Cut(vs[k], cut)];
    assert CutOf(now[k], was[k]) by {
      assert now[k] == Cut(was[k], cut);
    }
    forall j | 0 <= j < |vs| ensures CutOf(now[j], was[j]) {
      if j > k {
        assert now[j] == Cut(was[j], 0);
      } else if j < k {
        assert now[j] == vs[j];
      }
    }
  }

  lemma AllEmptied(vs: seq<View>, was: seq<View>)
    requires |vs| == |was| && Emptied(vs, was, |vs|)
    ensures StoppedAt(vs, was, |vs|) && Total(vs) == 0
  {
    TotalZero(vs);
  }

  // What giving back `cut` blocks of one pool does to the sums.
  lemma OneCut(was: seq<View>, k: nat, cut: nat, gone: seq<Page>)
    requires k < |was| && cut <= Size(was[k])
    ensures var now := was[k := Cut(was[k], cut)];
      && Total(now) == Total(was) - Shifted(cut, was[k].order)
      && Inside(now) + multiset(gone + Queue(was[k])[..cut]) == Inside(was) + multiset(gone)
      && (cut == 0 ==> now == was)
      && (cut == Size(was[k]) ==> Size(now[k]) == 0)
  {
    TotalUpdate(was, k, Cut(was[k], cut));
    CutKeeps(was[k], cut);
    InsideCut(was, k, cut, gone);
  }

  // The first `k` pools are empty, the others untouched.
  ghost predicate Emptied(vs: seq<View>, was: seq<View>, k: nat)
    requires |vs| == |was|
  {
    && (forall j :: 0 <= j < k && j < |vs| ==> Size(vs[j]) == 0 && CutOf(vs[j], was[j]))
    && (forall j :: k <= j < |vs| ==> vs[j] == was[j])
  }

  // Blocks given back from one pool are still accounted for.
  lemma InsideCut(vs: seq<View>, k: nat, cut: nat, gone: seq<Page>)
    requires k < |vs| && cut <= Size(vs[k])
    ensures Inside(vs[k := Cut(vs[k], cut)]) + multiset(gone + Queue(vs[k])[..cut]) == Inside(vs) + multiset(gone)
  {
    var v := vs[k];
    var now, out := Cut(v, cut), Queue(v)[..cut];
    InsideUpdate(vs, k, now);
    CutKeeps(v, cut);
    assert multiset(Queue(v)) == multiset(out) + multiset(Queue(now));
    var x, y := Inside(vs[k := now]), Inside(vs);
    assert x + multiset(out) == y by {
      assert (x + multiset(out)) + multiset(Queue(now)) == y + multiset(Queue(now));
      Cancelled(x + multiset(out), y, multiset(Queue(now)));
    }
    assert x + multiset(gone + out) == (x + multiset(out)) + multiset(gone);
  }

  lemma Cancelled(a: multiset<Page>, b: multiset<Page>, c: multiset<Page>)
    requires a + c == b + c
    ensures a == b
  {
    assert (a + c) - c == a && (b + c) - c == b;
  }

  function Zeros(n: nat): (ns: seq<nat>)
    ensures |ns| == n && Sum(ns) == 0
  {
    if n == 0 then [] else [0] + Zeros(n - 1)
  }
}
