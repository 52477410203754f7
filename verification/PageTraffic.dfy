/** The page pools used by any number of threads at once (page_pool.c).  What a thread does under a pool's lock, and
    its update of the node's count after the unlock, is one event; a log of events is one interleaving. */
module PageTraffic {
  import opened Histories
  import opened Optional
  import opened PagePool

  datatype Event =
    | Added(who: nat, k: nat, page: Page)
    | Counted(who: nat, pages: nat)
    | Took(who: nat, k: nat, page: Page)
    | SawEmpty(who: nat, k: nat, highmem: bool)

  // The pools, and by thread the pages it has put into one and not counted yet.
  datatype State = State(vs: seq<View>, owed: seq<nat>)

  // ------------------------------------------------------------------ what a log means

  // Blocks go in at the end of a list and come off at its head.
  function Step(s: State, e: Event): State {
    match e
    case Added(who, k, page) =>
      if k < |s.vs| && who < |s.owed| then
        State(s.vs[k := Put(s.vs[k], page)], s.owed[who := Shifted(1, s.vs[k].order)])
      else s
    case Counted(who, _) => if who < |s.owed| then s.(owed := s.owed[who := 0]) else s
    case Took(_, k, page) =>
      if k < |s.vs| && Side(s.vs[k], page.highmem) != [] then s.(vs := s.vs[k := Less(s.vs[k], page.highmem)]) else s
    case SawEmpty(_, _, _) => s
  }

  function After(start: State, log: seq<Event>): State {
    if log == [] then start else Step(After(start, Before(log)), Last(log))
  }

  // What may happen next: a caller gives back only a block that is in no pool, counts what it owes before
  // it gives back another, and takes the head of a list.
  predicate Permitted(s: State, e: Event) {
    match e
    case Added(who, k, page) => k < |s.vs| && who < |s.owed| && page !in Inside(s.vs) && s.owed[who] == 0
    case Counted(who, pages) => who < |s.owed| && s.owed[who] == pages > 0
    case Took(_, k, page) => k < |s.vs| && Side(s.vs[k], page.highmem) != [] && Side(s.vs[k], page.highmem)[0] == page
    case SawEmpty(_, k, highmem) => k < |s.vs| && Side(s.vs[k], highmem) == []
  }

  predicate Legal(start: State, log: seq<Event>) {
    log == [] || (Legal(start, Before(log)) && Permitted(After(start, Before(log)), Last(log)))
  }

  function TimesAdded(log: seq<Event>, page: Page): nat {
    if log == [] then 0 else
      TimesAdded(Before(log), page) + if Last(log).Added? && Last(log).page == page then 1 else 0
  }

  function TimesTaken(log: seq<Event>, page: Page): nat {
    if log == [] then 0 else
      TimesTaken(Before(log), page) + if Last(log).Took? && Last(log).page == page then 1 else 0
  }

  // A legal log goes on.
  lemma Appended(start: State, log: seq<Event>, s: State, e: Event)
    requires Legal(start, log) && After(start, log) == s && Permitted(s, e)
    ensures Legal(start, log + [e]) && After(start, log + [e]) == Step(s, e)
  {
    Grown(log, e);
  }

  // Pools keep their order, and pools and threads their number.
  lemma {:induction false} ShapeStays(start: State, log: seq<Event>)
    ensures var s := After(start, log);
      && |s.vs| == |start.vs| && |s.owed| == |start.owed|
      && forall k :: 0 <= k < |s.vs| ==> s.vs[k].order == start.vs[k].order
  {
    if log != [] {
      ShapeStays(start, Before(log));
    }
  }

  // ------------------------------------------------------------------ every interleaving

  // Each block is in at most one list, and there once.
  ghost predicate Once(vs: seq<View>) {
    forall page :: Inside(vs)[page] <= 1
  }

  // What one permitted event does to the blocks in the pools.
  lemma StepInside(s: State, e: Event)
    requires Permitted(s, e)
    ensures e.Added? ==> Inside(Step(s, e).vs) == Inside(s.vs) + multiset{e.page}
    ensures e.Took? ==> Inside(s.vs) == Inside(Step(s, e).vs) + multiset{e.page}
    ensures e.Counted? || e.SawEmpty? ==> Step(s, e).vs == s.vs
  {
    if e.Added? {
      PutQueue(s.vs[e.k], e.page);
      InsideMoved(s.vs, e.k, Put(s.vs[e.k], e.page), e.page);
    } else if e.Took? {
      TakenInside(s.vs, e.k, e.page.highmem);
    }
  }

  lemma TakenInside(vs: seq<View>, k: nat, highmem: bool)
    requires k < |vs| && Side(vs[k], highmem) != []
    ensures Inside(vs) == Inside(vs[k := Less(vs[k], highmem)]) + multiset{Side(vs[k], highmem)[0]}
  {
    var now := vs[k := Less(vs[k], highmem)];
    LessQueue(vs[k], highmem);
    InsideMoved(now, k, vs[k], Side(vs[k], highmem)[0]);
    assert now[k := vs[k]] == vs;
  }

  lemma PutQueue(v: View, page: Page)
    ensures multiset(Queue(Put(v, page))) == multiset(Queue(v)) + multiset{page}
  {
  }

  lemma LessQueue(v: View, highmem: bool)
    requires Side(v, highmem) != []
    ensures multiset(Queue(v)) == multiset(Queue(Less(v, highmem))) + multiset{Side(v, highmem)[0]}
  {
    if highmem {
      OneOut(v.low, v.high[0], v.high[1..]);
      assert v.high == [v.high[0]] + v.high[1..];
    } else {
      OneOut([], v.low[0], v.low[1..] + v.high);
      assert Queue(v) == [] + ([v.low[0]] + (v.low[1..] + v.high));
      assert Queue(Less(v, highmem)) == [] + (v.low[1..] + v.high);
    }
  }

  // One more block in one pool is one more in all of them.
  lemma InsideMoved(vs: seq<View>, k: nat, v: View, page: Page)
    requires k < |vs| && multiset(Queue(v)) == multiset(Queue(vs[k])) + multiset{page}
    ensures Inside(vs[k := v]) == Inside(vs) + multiset{page}
  {
    InsideUpdate(vs, k, v);
    var a, b, q := Inside(vs[k := v]), Inside(vs) + multiset{page}, multiset(Queue(vs[k]));
    assert a + q == b + q;
    Cancelled(a, b, q);
  }

  /** In every interleaving each block is in at most one list, there once, and in a list exactly as often
      as it was put there and not taken out again. */
  lemma {:induction false} Accounted(start: State, log: seq<Event>, page: Page)
    requires Once(start.vs) && Legal(start, log)
    ensures var now := Inside(After(start, log).vs);
      now[page] + TimesTaken(log, page) == Inside(start.vs)[page] + TimesAdded(log, page) && now[page] <= 1
  {
    if log == [] {
      assert After(start, log) == start;
    } else {
      var s, e := After(start, Before(log)), Last(log);
      Accounted(start, Before(log), page);
      StepInside(s, e);
      StepCount(Inside(s.vs), Inside(Step(s, e).vs), e, page);
    }
  }

  // One event, told for one block.
  lemma StepCount(was: multiset<Page>, now: multiset<Page>, e: Event, page: Page)
    requires if e.Added? then now == was + multiset{e.page} else if e.Took? then was == now + multiset{e.page} else now == was
    ensures now[page] + (if e.Took? && e.page == page then 1 else 0) ==
      was[page] + if e.Added? && e.page == page then 1 else 0
  {
  }

  // ------------------------------------------------------------------ the threads

  // What one thread did.
  function By(log: seq<Event>, who: nat): seq<Event> {
    if log == [] then [] else
      By(Before(log), who) + if Last(log).who == who then [Last(log)] else []
  }

  lemma ByAppended(log: seq<Event>, e: Event, who: nat)
    ensures By(log + [e], who) == By(log, who) + if e.who == who then [e] else []
  {
    Grown(log, e);
  }

  // The pages of the blocks taken in these events.
  function TakenPages(start: seq<View>, events: seq<Event>): nat {
    if events == [] then 0 else
      TakenPages(start, Before(events)) +
      if Last(events).Took? && Last(events).k < |start| then Shifted(1, start[Last(events).k].order) else 0
  }

  class Traffic {
    const pools: Pools
    ghost const start: State
    ghost var log: seq<Event>

    ghost function Now(): State
      reads this, pools, pools.pools
    {
      State(pools.Views(), pools.owed)
    }

    ghost predicate Valid()
      reads this, pools, pools.pools, pools.node
    {
      pools.Valid() && Once(start.vs) && Legal(start, log) && Now() == After(start, log)
    }

    constructor (pools: Pools)
      requires pools.Valid() && Once(pools.Views())
      requires forall who :: 0 <= who < |pools.owed| ==> pools.owed[who] == 0
      ensures Valid() && this.pools == pools && log == [] && start == State(pools.Views(), pools.owed)
    {
      this.pools, start, log := pools, State(pools.Views(), pools.owed), [];
    }

    // This thread has done `done` and nothing else, whatever the others did.
    twostate predicate Did(me: nat, done: seq<Event>)
      reads this, pools
    {
      && old(log) <= log && By(log, me) == old(By(log, me)) + done
      && pools.pools == old(pools.pools) && |pools.owed| == |old(pools.owed)|
    }

    // What a thread still owes is as before.
    twostate predicate OwesAsBefore(me: nat)
      reads pools
    {
      me < |pools.owed| && me < |old(pools.owed)| ==> pools.owed[me] == old(pools.owed[me])
    }

    // The log goes on with what has just been done to the pools.
    ghost method Record(s: State, e: Event)
      requires pools.Valid() && Once(start.vs) && Legal(start, log) && After(start, log) == s
      requires Permitted(s, e) && Now() == Step(s, e)
      modifies this`log
      ensures Valid() && log == old(log) + [e]
    {
      Appended(start, log, s, e);
      log := log + [e];
    }

    // The locked section of dmabuf_page_pool_add.
    method Enqueue(who: nat, k: nat, page: Page)
      requires Valid() && who < |pools.owed| && pools.owed[who] == 0
      requires k < |pools.pools| && page !in Inside(pools.Views())
      modifies this`log, pools.pools, pools`owed
      ensures Valid() && log == old(log) + [Added(who, k, page)] && pools.pools == old(pools.pools)
      ensures pools.owed == old(pools.owed)[who := Shifted(1, pools.pools[k].order)]
    {
      ghost var s := Now();
      PutIn(who, k, page);
      Record(s, Added(who, k, page));
    }

    // What it does to the pools.
    method PutIn(who: nat, k: nat, page: Page)
      requires pools.Valid() && k < |pools.pools| && who < |pools.owed| && pools.owed[who] == 0
      modifies pools.pools, pools`owed
      ensures pools.Valid() && Now() == Step(old(Now()), Added(who, k, page)) && pools.pools == old(pools.pools)
      ensures pools.owed == old(pools.owed)[who := Shifted(1, pools.pools[k].order)]
    {
      pools.Enqueue(who, k, page);
    }

    // The update of the node's count.
    method Account(who: nat)
      requires Valid() && who < |pools.owed| && pools.owed[who] > 0
      modifies this`log, pools.node`reclaimable, pools`owed
      ensures Valid() && log == old(log) + [Counted(who, old(pools.owed[who]))] && pools.pools == old(pools.pools)
      ensures pools.owed == old(pools.owed)[who := 0]
      ensures pools.node.reclaimable == old(pools.node.reclaimable + pools.owed[who])
    {
      ghost var s, pages := Now(), pools.owed[who];
      pools.Account(who, pools.owed[who]);
      Record(s, Counted(who, pages));
    }

    // dmabuf_page_pool_remove: the head of a list, or nothing.
    method Take(who: nat, k: nat, highmem: bool) returns (page: Option<Page>, ghost e: Event)
      requires Valid() && k < |pools.pools|
      modifies this`log, pools.pools, pools.node`reclaimable
      ensures Valid() && log == old(log) + [e] && pools.pools == old(pools.pools)
      ensures page == Head(Side(old(Now()).vs[k], highmem))
      ensures page.Some? ==> page.value.highmem == highmem
      ensures e == Taken(who, k, highmem, page)
    {
      ghost var s := Now();
      page := TakeOut(who, k, highmem);
      e := Taken(who, k, highmem, page);
      Record(s, e);
    }

    method TakeOut(ghost who: nat, k: nat, highmem: bool) returns (page: Option<Page>)
      requires pools.Valid() && k < |pools.pools|
      modifies pools.pools, pools.node`reclaimable
      ensures pools.Valid() && Now() == Step(old(Now()), Taken(who, k, highmem, page)) && pools.pools == old(pools.pools)
      ensures page == Head(Side(old(Now()).vs[k], highmem))
      ensures page.Some? ==> page.value.highmem == highmem
    {
      page := pools.Remove(k, highmem);
    }

    // One turn of another thread: it counts what it owes, gives a block back, or takes one.
    method CountTurn(me: nat, who: nat)
      requires Valid() && who != me && who < |pools.owed| && pools.owed[who] > 0
      modifies this`log, pools.node`reclaimable, pools`owed
      ensures Valid() && Did(me, []) && OwesAsBefore(me)
    {
      ByAppended(log, Counted(who, pools.owed[who]), me);
      Account(who);
    }

    method AddTurn(me: nat, who: nat, k: nat, page: Page)
      requires Valid() && who != me && who < |pools.owed| && pools.owed[who] == 0
      requires k < |pools.pools| && page !in Inside(pools.Views())
      modifies this`log, pools.pools, pools`owed
      ensures Valid() && Did(me, []) && OwesAsBefore(me)
    {
      ByAppended(log, Added(who, k, page), me);
      Enqueue(who, k, page);
    }

    method TakeTurn(me: nat, who: nat, k: nat, highmem: bool)
      requires Valid() && who != me && k < |pools.pools|
      modifies this`log, pools.pools, pools.node`reclaimable
      ensures Valid() && Did(me, []) && OwesAsBefore(me)
    {
      ghost var was, e := log, SawEmpty(who, k, highmem);
      var page;
      page, e := Take(who, k, highmem);
      ByAppended(was, e, me);
    }

    method OtherTurn(me: nat)
      requires Valid()
      modifies this`log, pools.pools, pools.node`reclaimable, pools`owed
      ensures Valid() && Did(me, []) && OwesAsBefore(me)
    {
      var who: nat, k: nat, page: Page := *, *, *;
      if {
      case who != me && who < |pools.owed| && pools.owed[who] > 0 =>
        CountTurn(me, who);
      case who != me && who < |pools.owed| && pools.owed[who] == 0 && k < |pools.pools| && page !in Inside(pools.Views()) =>
        AddTurn(me, who, k, page);
      case who != me && k < |pools.pools| =>
        TakeTurn(me, who, k, page.highmem);
      case true =>
      }
    }

    // The other threads add, count and take, any number of times and in any order.
    method Others(me: nat)
      requires Valid()
      modifies this`log, pools.pools, pools.node`reclaimable, pools`owed
      ensures Valid() && Did(me, []) && OwesAsBefore(me)
    {
      var turns: nat := *;
      while turns > 0
        invariant Valid() && Did(me, []) && OwesAsBefore(me)
        decreases turns
      {
        OtherTurn(me);
        turns := turns - 1;
      }
    }

    // The first half of dmabuf_page_pool_add, up to the unlock and what others do then.
    method PutAmong(me: nat, k: nat, page: Page)
      requires Valid() && me < |pools.owed| && pools.owed[me] == 0
      requires k < |pools.pools| && page !in Inside(pools.Views())
      modifies this`log, pools.pools, pools.node`reclaimable, pools`owed
      ensures Valid() && Did(me, [Added(me, k, page)]) && old(log) + [Added(me, k, page)] <= log
      ensures pools.owed[me] == Shifted(1, pools.pools[k].order)
    {
      PutOwn(me, k, page);
      Others(me);
    }

    method PutOwn(me: nat, k: nat, page: Page)
      requires Valid() && me < |pools.owed| && pools.owed[me] == 0
      requires k < |pools.pools| && page !in Inside(pools.Views())
      modifies this`log, pools.pools, pools`owed
      ensures Valid() && Did(me, [Added(me, k, page)]) && log == old(log) + [Added(me, k, page)]
      ensures pools.owed[me] == Shifted(1, pools.pools[k].order)
    {
      ByAppended(log, Added(me, k, page), me);
      Enqueue(me, k, page);
    }

    // The second half: the count.
    method Settle(me: nat)
      requires Valid() && me < |pools.owed| && pools.owed[me] > 0
      modifies this`log, pools.node`reclaimable, pools`owed
      ensures Valid() && Did(me, [Counted(me, old(pools.owed[me]))])
      ensures pools.owed[me] == 0 && pools.node.reclaimable == old(pools.node.reclaimable + pools.owed[me])
    {
      ByAppended(log, Counted(me, pools.owed[me]), me);
      Account(me);
    }

    /** dmabuf_page_pool_add: the block goes into the pool and its pages into the count, once each, although
        other threads may run between the unlock and the update of the count. */
    method Add(me: nat, k: nat, page: Page)
      requires Valid() && me < |pools.owed| && pools.owed[me] == 0
      requires k < |pools.pools| && page !in Inside(pools.Views())
      modifies this`log, pools.pools, pools.node`reclaimable, pools`owed
      ensures Valid() && pools.pools == old(pools.pools)
      ensures |pools.owed| == |old(pools.owed)| && pools.owed[me] == 0
      ensures old(log) + [Added(me, k, page)] <= log
      ensures By(log, me) == old(By(log, me)) + [Added(me, k, page), Counted(me, Shifted(1, pools.pools[k].order))]
    {
      ghost var mine, put, counted := By(log, me), Added(me, k, page), Counted(me, Shifted(1, pools.pools[k].order));
      PutAmong(me, k, page);
      Settle(me);
      Regroup(mine, [put], [counted]);
    }

    // One list of a pool; then the lock is dropped and others may run.
    method TakeAmong(me: nat, k: nat, highmem: bool) returns (page: Option<Page>, ghost e: Event)
      requires Valid() && k < |pools.pools|
      modifies this`log, pools.pools, pools.node`reclaimable, pools`owed
      ensures Valid() && Did(me, [e]) && e == Taken(me, k, highmem, page)
      ensures page.Some? ==> page.value.highmem == highmem
    {
      ghost var was := log;
      page, e := Take(me, k, highmem);
      ByAppended(was, e, me);
      Others(me);
    }

    // A block from one list of a pool or else from the other; `done` is what this thread did.
    method TakeEither(me: nat, k: nat, first: bool) returns (page: Option<Page>, ghost done: seq<Event>)
      requires Valid() && k < |pools.pools|
      modifies this`log, pools.pools, pools.node`reclaimable, pools`owed
      ensures Valid() && Did(me, done) && Either(me, k, first, page, done)
    {
      ghost var mine, e, f := By(log, me), SawEmpty(me, k, first), SawEmpty(me, k, !first);
      page, e := TakeAmong(me, k, first);
      done := [e];
      if page.None? {
        page, f := TakeAmong(me, k, !first);
        Regroup(mine, [e], [f]);
        done := [e] + [f];
      }
    }

    /** dmabuf_page_pool_alloc among other threads: a high block, else a low one, else the system's answer,
        and that only after both lists were seen empty. */
    method Alloc(me: nat, k: nat, system: Option<Page>) returns (page: Option<Page>, ghost done: seq<Event>)
      requires Valid() && k < |pools.pools|
      modifies this`log, pools.pools, pools.node`reclaimable, pools`owed
      ensures Valid() && Did(me, done) && done != []
      ensures if Last(done).Took? then page == Some(Last(done).page) && Either(me, k, true, page, done)
              else page == system && Either(me, k, true, None, done)
      ensures Last(done).Took? && !Last(done).page.highmem ==> done[0] == SawEmpty(me, k, true)
    {
      page, done := TakeEither(me, k, true);
      if page.None? {
        page := system;
      }
    }

    // dmabuf_page_pool_do_shrink among other threads.
    method DoShrink(me: nat, k: nat, nrToScan: nat) returns (freed: nat, ghost done: seq<Event>)
      requires Valid() && k < |pools.pools| && nrToScan > 0
      modifies this`log, pools.pools, pools.node`reclaimable, pools`owed
      ensures Valid() && Did(me, done) && freed == TakenPages(start.vs, done)
      ensures freed < nrToScan + Shifted(1, pools.pools[k].order)
      ensures freed < nrToScan ==> SeenEmpty(me, k, done)
      ensures LowFirst(done)
    {
      freed, done := 0, [];
      ghost var mine := By(log, me);
      OrderIs(k);
      while freed < nrToScan
        invariant Valid() && Did(me, done) && freed == TakenPages(start.vs, done)
        invariant freed < nrToScan + Shifted(1, pools.pools[k].order) && LowFirst(done)
        decreases nrToScan - freed
      {
        ghost var earlier := done;
        var page, one := TakeEither(me, k, false);
        Regroup(mine, earlier, one);
        done := earlier + one;
        OneTaken(start.vs, earlier, me, k, page, one);
        LowFirstOne(me, k, page, one);
        LowFirstSum(earlier, one);
        if page.None? {
          LastTwo(me, k, earlier, one);
          break;
        }
        freed := freed + Shifted(1, pools.pools[k].order);
      }
    }

    // A pool's order is the one it started with.
    lemma OrderIs(k: nat)
      requires Valid() && k < |pools.pools|
      ensures k < |start.vs| && start.vs[k].order == pools.pools[k].order
    {
      ShapeStays(start, log);
      assert Now().vs[k].order == pools.pools[k].order;
    }

    /** dmabuf_page_pool_shrink among other threads: the total is exactly what this thread gave back, it
        exceeds the request by less than one block, and it falls short only if each list of each pool was
        seen empty. A high block goes only where the low list has just been seen empty. */
    method Shrink(me: nat, nrToScan: nat) returns (total: nat, ghost done: seq<Event>, ghost last: nat)
      requires Valid() && nrToScan > 0
      modifies this`log, pools.pools, pools.node`reclaimable, pools`owed
      ensures Valid() && Did(me, done) && total == TakenPages(start.vs, done)
      ensures total < nrToScan ==> AllSeenEmpty(me, |pools.pools|, done)
      ensures LowFirst(done)
      ensures total >= nrToScan ==> last < |pools.pools| && total < nrToScan + Shifted(1, pools.pools[last].order)
    {
      total, done, last := 0, [], 0;
      ghost var mine := By(log, me);
      for k := 0 to |pools.pools|
        invariant Valid() && Did(me, done) && total == TakenPages(start.vs, done) < nrToScan
        invariant AllSeenEmpty(me, k, done) && LowFirst(done)
      {
        ghost var earlier := done;
        var freed, one := DoShrink(me, k, nrToScan - total);
        Regroup(mine, earlier, one);
        TakenPagesSum(start.vs, earlier, one);
        LowFirstSum(earlier, one);
        done := earlier + one;
        total := total + freed;
        if total >= nrToScan {
          last := k;
          return;
        }
        MoreSeen(me, k, earlier, one);
      }
    }
  }

  function Head(list: seq<Page>): Option<Page> {
    if list == [] then None else Some(list[0])
  }

  // The event of taking the head of a list, or of finding none.
  function Taken(who: nat, k: nat, highmem: bool, page: Option<Page>): Event {
    if page.None? then SawEmpty(who, k, highmem) else Took(who, k, page.value)
  }

  // Both lists of the pool were seen empty.
  predicate SeenEmpty(me: nat, k: nat, done: seq<Event>) {
    SawEmpty(me, k, false) in done && SawEmpty(me, k, true) in done
  }

  predicate AllSeenEmpty(me: nat, n: nat, done: seq<Event>) {
    forall k :: 0 <= k < n ==> SeenEmpty(me, k, done)
  }

  // Seen empty once is seen empty for good.
  lemma MoreSeen(me: nat, k: nat, a: seq<Event>, b: seq<Event>)
    requires AllSeenEmpty(me, k, a) && SeenEmpty(me, k, b)
    ensures AllSeenEmpty(me, k + 1, a + b)
  {
    forall j | 0 <= j < k + 1 ensures SeenEmpty(me, j, a + b) {
      assert j < k ==> SeenEmpty(me, j, a);
    }
  }

  // What trying one list and then the other amounts to.
  ghost predicate Either(me: nat, k: nat, first: bool, page: Option<Page>, done: seq<Event>) {
    match page
    case Some(p) =>
      || (p.highmem == first && done == [Took(me, k, p)])
      || (p.highmem != first && done == [SawEmpty(me, k, first), Took(me, k, p)])
    case None => done == [SawEmpty(me, k, first), SawEmpty(me, k, !first)]
  }

  // A high block is taken only right after the low list of its pool was seen empty.
  ghost predicate LowFirst(done: seq<Event>) {
    forall i {:trigger done[i]} :: 0 <= i < |done| ==> LowFirstAt(done, i)
  }

  predicate LowFirstAt(done: seq<Event>, i: nat)
    requires i < |done|
  {
    done[i].Took? && done[i].page.highmem ==> i > 0 && done[i - 1] == SawEmpty(done[i].who, done[i].k, false)
  }

  lemma LowFirstOne(me: nat, k: nat, page: Option<Page>, one: seq<Event>)
    requires Either(me, k, false, page, one)
    ensures LowFirst(one)
  {
    forall i | 0 <= i < |one|
      ensures LowFirstAt(one, i)
    {
      if page.Some? && page.value.highmem {
        assert one[0] == SawEmpty(me, k, false) && one[1] == Took(me, k, page.value);
      }
    }
  }

  lemma LowFirstSum(a: seq<Event>, b: seq<Event>)
    requires LowFirst(a) && LowFirst(b)
    ensures LowFirst(a + b)
  {
    forall i | 0 <= i < |a + b|
      ensures LowFirstAt(a + b, i)
    {
      if i < |a| {
        assert a[i] == (a + b)[i] && LowFirstAt(a, i);
      } else {
        assert b[i - |a|] == (a + b)[i] && LowFirstAt(b, i - |a|);
      }
    }
  }

  lemma LastTwo(me: nat, k: nat, earlier: seq<Event>, one: seq<Event>)
    requires Either(me, k, false, None, one)
    ensures SeenEmpty(me, k, earlier + one)
  {
    assert one[0] == SawEmpty(me, k, false) && one[1] == SawEmpty(me, k, true);
  }

  lemma {:induction false} TakenPagesSum(start: seq<View>, a: seq<Event>, b: seq<Event>)
    ensures TakenPages(start, a + b) == TakenPages(start, a) + TakenPages(start, b)
  {
    if b == [] {
      assert a + b == a;
    } else {
      TakenPagesSum(start, a, Before(b));
      assert Before(a + b) == a + Before(b) && Last(a + b) == Last(b);
    }
  }

  lemma OneTaken(start: seq<View>, earlier: seq<Event>, me: nat, k: nat, page: Option<Page>, one: seq<Event>)
    requires k < |start| && Either(me, k, false, page, one)
    ensures TakenPages(start, earlier + one) ==
      TakenPages(start, earlier) + if page.Some? then Shifted(1, start[k].order) else 0
  {
    TakenPagesSum(start, earlier, one);
    assert TakenPages(start, []) == 0;
    assert TakenPages(start, [one[0]]) == TakenPages(start, []) +
      if one[0].Took? then Shifted(1, start[one[0].k].order) else 0;
    if |one| == 2 {
      assert Before(one) == [one[0]];
    } else {
      assert one == [one[0]];
    }
  }
}
