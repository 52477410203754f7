/** The deferred-free list (deferred-free-helper.c): any number of threads hand items over, a worker and any number of
    shrinker scans take them off again and free them.  What a thread does under the list lock, and each call of an
    item's free function, is one event; a log of events is one interleaving of all threads. */
module DeferredFree {
  import opened Histories

  datatype Item = Item(id: nat, pages: nat)

  datatype Event =
    | Added(who: nat, item: Item)
    | Taken(who: nat, item: Item)
    | Freed(who: nat, item: Item)
    | SawEmpty(who: nat)

  // ------------------------------------------------------------------ what a log means

  // The list after the events: items are put in at the head and taken off at the head.
  function Listed(log: seq<Event>): seq<Item> {
    if log == [] then [] else
      var list := Listed(Before(log));
      match Last(log)
      case Added(_, item) => [item] + list
      case Taken(_, _) => if list == [] then [] else list[1..]
      case _ => list
  }

  // What a thread has taken off and not freed yet.
  function Held(log: seq<Event>, who: nat): set<Item> {
    if log == [] then {} else
      var held := Held(Before(log), who);
      match Last(log)
      case Taken(w, item) => if w == who then held + {item} else held
      case Freed(w, item) => if w == who then held - {item} else held
      case _ => held
  }

  function Ids(log: seq<Event>): set<nat> {
    set e | e in log && e.Added? :: e.item.id
  }

  // What may happen next: an item is handed over once, only the head comes off, a thread frees what it took.
  predicate Permitted(log: seq<Event>, e: Event) {
    match e
    case Added(_, item) => item.id !in Ids(log)
    case Taken(who, item) => Listed(log) != [] && Listed(log)[0] == item && Held(log, who) == {}
    case Freed(who, item) => item in Held(log, who)
    case SawEmpty(who) => Listed(log) == [] && Held(log, who) == {}
  }

  predicate Legal(log: seq<Event>) {
    log == [] || (Legal(Before(log)) && Permitted(Before(log), Last(log)))
  }

  function Pages(list: seq<Item>): nat {
    if list == [] then 0 else list[0].pages + Pages(list[1..])
  }

  function TimesFreed(log: seq<Event>, item: Item): nat {
    if log == [] then 0 else
      TimesFreed(Before(log), item) + if Last(log).Freed? && Last(log).item == item then 1 else 0
  }

  // ------------------------------------------------------------------ every interleaving

  ghost predicate WasAdded(log: seq<Event>, item: Item) {
    exists who :: Added(who, item) in log
  }

  ghost predicate IsHeld(log: seq<Event>, item: Item) {
    exists who :: item in Held(log, who)
  }

  // In exactly one place: on the list once, or with one thread, or freed once.
  ghost predicate InOnePlace(log: seq<Event>, item: Item) {
    && multiset(Listed(log))[item] + (if IsHeld(log, item) then 1 else 0) + TimesFreed(log, item) == 1
    && forall w, v :: item in Held(log, w) && item in Held(log, v) ==> w == v
  }

  ghost predicate Nowhere(log: seq<Event>, item: Item) {
    item !in Listed(log) && !IsHeld(log, item) && TimesFreed(log, item) == 0
  }

  ghost predicate Placed(log: seq<Event>, item: Item) {
    if WasAdded(log, item) then InOnePlace(log, item) else Nowhere(log, item)
  }

  lemma Appended(log: seq<Event>, e: Event)
    ensures Before(log + [e]) == log && Last(log + [e]) == e
    ensures Legal(log + [e]) <==> Legal(log) && Permitted(log, e)
    ensures !e.Added? ==> forall item :: WasAdded(log + [e], item) <==> WasAdded(log, item)
  {
    assert Before(log + [e]) == log;
    if !e.Added? {
      assert forall x :: x in log + [e] && x.Added? <==> x in log && x.Added?;
    }
  }

  lemma AddedStep(log: seq<Event>, e: Event, item: Item)
    requires e.Added? && Permitted(log, e) && Placed(log, item)
    ensures Placed(log + [e], item)
  {
    Appended(log, e);
    var now := log + [e];
    assert Listed(now) == [e.item] + Listed(log);
    assert forall w :: Held(now, w) == Held(log, w);
    assert IsHeld(now, item) == IsHeld(log, item);
    if item == e.item {
      assert e == Added(e.who, item) && e in now;
      assert forall w :: Added(w, item) in log ==> item.id in Ids(log);
    } else {
      if w :| Added(w, item) in now { assert Added(w, item) in log; }
      if w :| Added(w, item) in log { assert Added(w, item) in now; }
    }
  }

  lemma TakenStep(log: seq<Event>, e: Event, item: Item)
    requires e.Taken? && Permitted(log, e) && Placed(log, item)
    ensures Placed(log + [e], item)
  {
    Appended(log, e);
    var now := log + [e];
    var list := Listed(log);
    assert list == [e.item] + list[1..];
    assert Held(now, e.who) == Held(log, e.who) + {e.item};
    assert forall w :: w != e.who ==> Held(now, w) == Held(log, w);
    if item == e.item {
      assert item in Held(now, e.who) && item in list;
    } else {
      assert forall w :: item in Held(now, w) <==> item in Held(log, w);
    }
  }

  lemma FreedStep(log: seq<Event>, e: Event, item: Item)
    requires e.Freed? && Permitted(log, e) && Placed(log, item)
    ensures Placed(log + [e], item)
  {
    Appended(log, e);
    var now := log + [e];
    assert Held(now, e.who) == Held(log, e.who) - {e.item};
    assert forall w :: w != e.who ==> Held(now, w) == Held(log, w);
    if item == e.item {
      assert IsHeld(log, item) && !IsHeld(now, item);
    } else {
      assert forall w :: item in Held(now, w) <==> item in Held(log, w);
    }
  }

  /** In every interleaving an item that was handed over is in exactly one place, and no other item is anywhere. */
  lemma {:induction false} ExactlyOnce(log: seq<Event>, item: Item)
    requires Legal(log)
    ensures if WasAdded(log, item) then InOnePlace(log, item) else Nowhere(log, item)
  {
    if log != [] {
      var was, e := Before(log), Last(log);
      assert log == was + [e];
      ExactlyOnce(was, item);
      match e
      case Added(_, _) => AddedStep(was, e, item);
      case Taken(_, _) => TakenStep(was, e, item);
      case Freed(_, _) => FreedStep(was, e, item);
      case SawEmpty(_) =>
        Appended(was, e);
        assert forall w :: Held(log, w) == Held(was, w);
    }
  }

  /** Nothing leaks: once the list is empty and nobody holds anything, every item handed over was freed just once. */
  lemma AllFreed(log: seq<Event>, item: Item)
    requires Legal(log) && Listed(log) == [] && (forall w :: Held(log, w) == {})
    ensures TimesFreed(log, item) == if WasAdded(log, item) then 1 else 0
  {
    ExactlyOnce(log, item);
  }

  // ------------------------------------------------------------------ pages

  // Every item handed over has at least one page.
  ghost predicate Sized(log: seq<Event>) {
    forall e :: e in log && e.Added? ==> e.item.pages > 0
  }

  lemma {:induction false} PagesShown(list: seq<Item>)
    ensures Pages(list) > 0 <==> exists k :: 0 <= k < |list| && list[k].pages > 0
  {
    if list != [] {
      PagesShown(list[1..]);
      if k :| 0 <= k < |list| && list[k].pages > 0 && k > 0 {
        assert list[1..][k - 1].pages > 0;
      }
      if k :| 0 <= k < |list[1..]| && list[1..][k].pages > 0 {
        assert list[k + 1].pages > 0;
      }
    }
  }

  lemma {:induction false} PagesAdd(a: seq<Item>, b: seq<Item>)
    ensures Pages(a + b) == Pages(a) + Pages(b)
    ensures forall item :: Pages([item]) == item.pages
  {
    assert forall item: Item :: [item][1..] == [];
    if a == [] {
      assert a + b == b;
    } else {
      PagesAdd(a[1..], b);
      assert (a + b)[1..] == a[1..] + b;
    }
  }

  /** The item handed over last is the next one to come off. */
  lemma NewestFirst(log: seq<Event>, item: Item, giver: nat, next: Item, who: nat)
    requires Legal(log + [Added(giver, item)] + [Taken(who, next)])
    ensures next == item
  {
    Appended(log, Added(giver, item));
    Appended(log + [Added(giver, item)], Taken(who, next));
  }

  // ------------------------------------------------------------------ the threads

  // What one thread did.
  function By(log: seq<Event>, who: nat): seq<Event> {
    if log == [] then [] else
      By(Before(log), who) + if Last(log).who == who then [Last(log)] else []
  }

  // The pages of the items freed in these events.
  function FreedPages(events: seq<Event>): nat {
    if events == [] then 0 else
      FreedPages(Before(events)) + if Last(events).Freed? then Last(events).item.pages else 0
  }

  lemma {:induction false} InLog(log: seq<Event>, who: nat, e: Event)
    requires e in By(log, who)
    ensures e in log && e.who == who
  {
    if e in By(Before(log), who) {
      InLog(Before(log), who, e);
    }
  }

  lemma {:induction false} FreedWasAdded(log: seq<Event>, e: Event)
    requires Legal(log) && e in log && e.Freed?
    ensures WasAdded(log, e.item)
  {
    FreedCounted(log, e);
    ExactlyOnce(log, e.item);
  }

  lemma {:induction false} FreedCounted(log: seq<Event>, e: Event)
    requires e in log && e.Freed?
    ensures TimesFreed(log, e.item) > 0
  {
    if e != Last(log) {
      FreedCounted(Before(log), e);
    }
  }

  /** A thread that reports an empty list looked at one. */
  lemma {:induction false} EmptyWhenSeen(log: seq<Event>, k: nat)
    requires Legal(log) && k < |log| && log[k].SawEmpty?
    ensures Listed(log[..k]) == []
  {
    if k < |log| - 1 {
      EmptyWhenSeen(Before(log), k);
      assert Before(log)[..k] == log[..k];
    }
  }

  // With at least one page to an item, only an empty list stops a scan early.
  lemma EndOfScan(log: seq<Event>, me: nat, earlier: seq<Event>, done: seq<Event>)
    requires Legal(log) && Sized(log) && By(log, me) == earlier + done
    requires done != [] && Stopped(Last(done), me)
    ensures Last(done) == SawEmpty(me)
  {
    assert Last(done) == Last(earlier + done);
    InLog(log, me, Last(done));
    if Last(done).Freed? {
      FreedWasAdded(log, Last(done));
    }
  }

  class FreeList {
    var list: seq<Item>
    var nrPages: nat
    var log: seq<Event>

    ghost predicate Valid()
      reads this
    {
      Legal(log) && list == Listed(log) && nrPages == Pages(list)
    }

    constructor ()
      ensures Valid() && log == []
    {
      list, nrPages, log := [], 0, [];
    }

    // The locked section of deferred_free.
    method Enter(who: nat, item: Item)
      requires Valid() && item.id !in Ids(log)
      modifies this
      ensures Valid() && log == old(log) + [Added(who, item)]
      ensures list == [item] + old(list) && nrPages == old(nrPages) + item.pages
    {
      Appended(log, Added(who, item));
      log := log + [Added(who, item)];
      list := [item] + list;
      nrPages := nrPages + item.pages;
    }

    // The locked section of free_one_item.
    method Take(who: nat) returns (taken: seq<Item>)
      requires Valid() && Held(log, who) == {}
      modifies this
      ensures Valid()
      ensures |taken| <= 1 && old(list) == taken + list && (taken == [] ==> list == [])
      ensures nrPages == old(nrPages) - if taken == [] then 0 else taken[0].pages
      ensures log == old(log) + [if taken == [] then SawEmpty(who) else Taken(who, taken[0])]
    {
      if list == [] {
        Appended(log, SawEmpty(who));
        log := log + [SawEmpty(who)];
        return [];
      }
      taken := [list[0]];
      Appended(log, Taken(who, list[0]));
      log := log + [Taken(who, list[0])];
      nrPages := nrPages - list[0].pages;
      list := list[1..];
    }

    // The free function of an item, called without the lock.
    method Release(who: nat, item: Item)
      requires Valid() && item in Held(log, who)
      modifies this
      ensures Valid() && log == old(log) + [Freed(who, item)]
    {
      Appended(log, Freed(who, item));
      log := log + [Freed(who, item)];
    }

    // The other threads get any number of turns, in any order.
    method Others(me: nat)
      modifies this
      requires Valid()
      ensures Valid() && old(log) <= log
      ensures By(log, me) == old(By(log, me)) && Held(log, me) == old(Held(log, me))
    {
      var turns: nat := *;
      while turns > 0
        decreases turns
        invariant Valid() && old(log) <= log
        invariant By(log, me) == old(By(log, me)) && Held(log, me) == old(Held(log, me))
      {
        var who: nat, item: Item := *, *;
        ghost var was := log;
        if {
        case who != me && item in Held(log, who) =>
          Release(who, item);
          Appended(was, log[|was|]);
        case who != me && item.id !in Ids(log) =>
          Enter(who, item);
          Appended(was, log[|was|]);
        case who != me && Held(log, who) == {} =>
          var taken := Take(who);
          Appended(was, log[|was|]);
        case true =>
        }
        turns := turns - 1;
      }
    }

    method DeferredFree(me: nat, item: Item)
      requires Valid() && item.id !in Ids(log)
      modifies this
      ensures Valid() && log == old(log) + [Added(me, item)]
      ensures list == [item] + old(list) && nrPages == old(nrPages) + item.pages
    {
      Enter(me, item);
    }

    // Frees at most one item; `done` is what this thread did.
    method FreeOneItem(me: nat) returns (pages: nat, ghost done: seq<Event>)
      requires Valid() && Held(log, me) == {}
      modifies this
      ensures Valid() && old(log) <= log && Held(log, me) == {}
      ensures By(log, me) == old(By(log, me)) + done
      ensures FreedOne(me, pages, done)
    {
      Others(me);
      ghost var was := log;
      var taken := Take(me);
      Appended(was, log[|was|]);
      if taken == [] {
        return 0, [SawEmpty(me)];
      }
      Others(me);
      ghost var held := log;
      Release(me, taken[0]);
      Appended(held, log[|held|]);
      done := [Taken(me, taken[0]), Freed(me, taken[0])];
      pages := taken[0].pages;
    }

    // freelist_shrink_count: the pages of the items listed at that moment.
    method ShrinkCount() returns (pages: nat)
      requires Valid()
      ensures pages == Pages(Listed(log))
    {
      pages := nrPages;
    }

    // The loop of the scan.
    method ScanLoop(me: nat, nrToScan: nat) returns (total: nat, ghost done: seq<Event>)
      requires Valid() && Held(log, me) == {} && nrToScan > 0
      modifies this
      ensures Valid() && old(log) <= log && Held(log, me) == {}
      ensures By(log, me) == old(By(log, me)) + done && total == FreedPages(done)
      ensures done != [] && FreedPages(Before(done)) < nrToScan
      ensures total < nrToScan ==> Stopped(Last(done), me)
    {
      total, done := 0, [];
      ghost var mine := By(log, me);
      while total < nrToScan
        invariant Valid() && old(log) <= log && Held(log, me) == {}
        invariant By(log, me) == mine + done && total == FreedPages(done)
        invariant done != [] ==> FreedPages(Before(done)) < nrToScan
        decreases nrToScan - total
      {
        ghost var earlier := done;
        var pages, one := FreeOneItem(me);
        Joined(earlier, one, me, pages);
        Regroup(mine, earlier, one);
        done := earlier + one;
        total := total + pages;
        if pages == 0 {
          return;
        }
      }
    }

    // The shrinker's scan.
    method ShrinkScan(me: nat, nrToScan: nat) returns (total: nat, ghost done: seq<Event>)
      requires Valid() && Held(log, me) == {}
      modifies this
      ensures Valid() && old(log) <= log && Held(log, me) == {}
      ensures By(log, me) == old(By(log, me)) + done
      ensures total == FreedPages(done)
      ensures nrToScan == 0 ==> done == []
      ensures nrToScan > 0 ==> done != [] && FreedPages(Before(done)) < nrToScan
      ensures 0 < nrToScan && total < nrToScan ==> Stopped(Last(done), me)
      ensures 0 < nrToScan && total < nrToScan && Sized(log) ==> Last(done) == SawEmpty(me)
    {
      if nrToScan == 0 {
        return 0, [];
      }
      ghost var mine := By(log, me);
      total, done := ScanLoop(me, nrToScan);
      if total < nrToScan && Sized(log) {
        EndOfScan(log, me, mine, done);
      }
    }

    // One round of the worker: `done` is an attempt to free an item, or nothing when the counter showed
    // no pages, as at `seen`.
    method Round(me: nat) returns (woken: bool, ghost done: seq<Event>, ghost seen: seq<Event>)
      requires Valid() && Held(log, me) == {}
      modifies this
      ensures Valid() && old(log) <= log && Held(log, me) == {}
      ensures By(log, me) == old(By(log, me)) + done
      ensures if woken then exists pages :: FreedOne(me, pages, done) else done == [] && Pages(Listed(seen)) == 0
      ensures old(log) <= seen <= log
    {
      Others(me);
      woken, done, seen := nrPages > 0, [], log;
      if woken {
        var pages;
        pages, done := FreeOneItem(me);
        assert FreedOne(me, pages, done);
      }
    }

    // The worker thread, for a number of rounds: in each it either tries to free an item, when the
    // counter shows pages, or sleeps while the listed items have none, as at each of `quiet`.
    method Worker(me: nat, rounds: nat) returns (woken: nat, ghost done: seq<Event>, ghost quiet: seq<seq<Event>>)
      requires Valid() && Held(log, me) == {}
      modifies this
      ensures Valid() && old(log) <= log && Held(log, me) == {}
      ensures By(log, me) == old(By(log, me)) + done && Attempts(done) == woken
      ensures woken + |quiet| == rounds && Quiet(old(log), quiet, log)
    {
      woken, done, quiet := 0, [], [];
      ghost var mine := By(log, me);
      for round := 0 to rounds
        invariant Valid() && old(log) <= log && Held(log, me) == {}
        invariant By(log, me) == mine + done && Attempts(done) == woken
        invariant woken + |quiet| == round && Quiet(old(log), quiet, log)
      {
        ghost var earlier, before := done, log;
        var tried;
        ghost var one, seen;
        tried, one, seen := Round(me);
        Regroup(mine, earlier, one);
        done := earlier + one;
        QuietStays(old(log), quiet, before, log);
        if tried {
          OneAttempt(earlier, one, me);
          woken := woken + 1;
        } else {
          assert done == earlier;
          quiet := quiet + [seen];
        }
      }
    }
  }

  // At each of these points in time the listed items had no pages.
  ghost predicate Quiet(start: seq<Event>, quiet: seq<seq<Event>>, end: seq<Event>) {
    forall q :: q in quiet ==> start <= q <= end && Pages(Listed(q)) == 0
  }

  lemma QuietStays(start: seq<Event>, quiet: seq<seq<Event>>, end: seq<Event>, later: seq<Event>)
    requires Quiet(start, quiet, end) && end <= later
    ensures Quiet(start, quiet, later)
  {
  }

  // How often free_one_item was called.
  function Attempts(events: seq<Event>): nat {
    if events == [] then 0 else
      Attempts(Before(events)) + if Last(events).Freed? || Last(events).SawEmpty? then 1 else 0
  }

  lemma OneAttempt(done: seq<Event>, one: seq<Event>, me: nat)
    requires exists pages :: FreedOne(me, pages, one)
    ensures Attempts(done + one) == Attempts(done) + 1
  {
    if one == [SawEmpty(me)] {
      Appended(done, SawEmpty(me));
    } else {
      assert done + one == (done + [one[0]]) + [one[1]];
      Appended(done, one[0]);
      Appended(done + [one[0]], one[1]);
    }
  }

  // What one call of free_one_item amounts to.
  ghost predicate FreedOne(me: nat, pages: nat, done: seq<Event>) {
    || (done == [SawEmpty(me)] && pages == 0)
    || (exists item: Item :: done == [Taken(me, item), Freed(me, item)] && pages == item.pages)
  }

  // Why a scan gives up early: the list was empty, or the item it freed had no pages.
  predicate Stopped(e: Event, me: nat) {
    e == SawEmpty(me) || (e.Freed? && e.who == me && e.item.pages == 0)
  }

  /** An item without pages stops a scan although another one is still listed. */
  lemma ZeroPagesStop()
    ensures var log := [Added(0, Item(1, 5)), Added(0, Item(2, 0)), Taken(1, Item(2, 0)), Freed(1, Item(2, 0))];
      && Legal(log) && Listed(log) == [Item(1, 5)]
      && By(log, 1) == [Taken(1, Item(2, 0)), Freed(1, Item(2, 0))]
      && FreedOne(1, 0, By(log, 1)) && Stopped(Last(log), 1)
  {
    var a, b := Added(0, Item(1, 5)), Added(0, Item(2, 0));
    var t, f := Taken(1, Item(2, 0)), Freed(1, Item(2, 0));
    Appended([], a);
    Appended([a], b);
    Appended([a, b], t);
    Appended([a, b, t], f);
    assert [] + [a] == [a] && [a] + [b] == [a, b] && [a, b] + [t] == [a, b, t] && [a, b, t] + [f] == [a, b, t, f];
  }

  lemma Joined(done: seq<Event>, one: seq<Event>, me: nat, pages: nat)
    requires FreedOne(me, pages, one)
    ensures FreedPages(done + one) == FreedPages(done) + pages
    ensures FreedPages(Before(done + one)) == FreedPages(done)
    ensures pages == 0 ==> Stopped(Last(done + one), me)
  {
    if one == [SawEmpty(me)] {
      Appended(done, SawEmpty(me));
    } else {
      assert done + one == (done + [one[0]]) + [one[1]];
      Appended(done, one[0]);
      Appended(done + [one[0]], one[1]);
    }
  }
}
