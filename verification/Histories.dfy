/** Histories: sequences that grow at the end. */
module Histories {
  function Before<T>(log: seq<T>): seq<T>
    requires log != []
  {
    log[..|log| - 1]
  }

  function Last<T>(log: seq<T>): T
    requires log != []
  {
    log[|log| - 1]
  }

  lemma Grown<T>(log: seq<T>, e: T)
    ensures Before(log + [e]) == log && Last(log + [e]) == e
  {
  }

  lemma Regroup<T>(a: seq<T>, b: seq<T>, c: seq<T>)
    ensures a + b + c == a + (b + c)
  {
  }
}
