/** Operating points: how much voltage a clock rate needs. */
module OppTable {
  datatype Opp = Opp(freq: nat, volt: nat)

  // Rates increase along the table and voltages do not decrease.
  ghost predicate Monotone(t: seq<Opp>) {
    && |t| > 0
    && forall i, j :: 0 <= i < j < |t| ==> t[i].freq < t[j].freq && t[i].volt <= t[j].volt
  }

  // The voltage of the slowest point that is fast enough; the last one when none is.
  function Need(t: seq<Opp>, rate: nat): nat
    requires |t| > 0
  {
    if rate <= t[0].freq || |t| == 1 then t[0].volt else Need(t[1..], rate)
  }

  lemma {:induction false} NeedIsFirst(t: seq<Opp>, rate: nat, i: nat)
    requires i < |t| && (forall k :: 0 <= k < i ==> t[k].freq < rate)
    requires rate <= t[i].freq || i == |t| - 1
    ensures Need(t, rate) == t[i].volt
  {
    if i > 0 {
      NeedIsFirst(t[1..], rate, i - 1);
    }
  }

  lemma NeedAt(t: seq<Opp>, i: nat)
    requires Monotone(t) && i < |t|
    ensures Need(t, t[i].freq) == t[i].volt
  {
    NeedIsFirst(t, t[i].freq, i);
  }

  /** A slower clock never needs more voltage. */
  lemma {:induction false} NeedMonotone(t: seq<Opp>, slow: nat, fast: nat)
    requires Monotone(t) && slow <= fast
    ensures t[0].volt <= Need(t, slow) <= Need(t, fast)
  {
    if |t| > 1 && slow > t[0].freq {
      NeedMonotone(t[1..], slow, fast);
    } else if |t| > 1 && fast > t[0].freq {
      NeedMonotone(t[1..], fast, fast);
    }
  }

  // The clock rate and the supply rail at one moment.
  datatype Moment = Moment(rate: nat, rail: nat)

  // The rail never falls below what the running clock needs.
  ghost predicate Safe(t: seq<Opp>, trace: seq<Moment>)
    requires |t| > 0
  {
    forall k :: 0 <= k < |trace| ==> trace[k].rail >= Need(t, trace[k].rate)
  }

  // What a driver asks of the hardware.
  datatype Call = Volt(volt: nat) | Rate(rate: nat)

  // What it gets: an error code, and whether the hardware did what was asked.
  datatype Answer = Answer(err: int, took: bool)

  const OK := Answer(0, true)

  // From some call on, every one did what was asked.
  predicate Works(answers: seq<Answer>, from: nat) {
    forall k :: from <= k < |answers| ==> answers[k] == OK
  }

  // A clock and its regulator, with every moment the hardware has been through and every call made.
  class Hardware {
    var rate: nat
    var rail: nat
    ghost var trace: seq<Moment>
    ghost var calls: seq<Call>
    ghost var answers: seq<Answer>

    constructor (rate: nat, rail: nat)
      ensures this.rate == rate && this.rail == rail && trace == [Moment(rate, rail)]
      ensures calls == [] && answers == []
    {
      this.rate, this.rail, trace, calls, answers := rate, rail, [Moment(rate, rail)], [], [];
    }

    // regulator_set_voltage with no upper limit: an error leaves the rail as it is.
    method SetVoltage(volt: nat) returns (err: int)
      modifies this`rail, this`trace, this`calls, this`answers
      ensures if err == 0 then rail >= volt else rail == old(rail)
      ensures trace == old(trace) + [Moment(rate, rail)]
      ensures calls == old(calls) + [Volt(volt)] && answers == old(answers) + [Answer(err, err == 0)]
    {
      err := *;
      if err == 0 {
        var settled: nat :| settled >= volt;
        rail := settled;
      }
      trace := trace + [Moment(rate, rail)];
      calls, answers := calls + [Volt(volt)], answers + [Answer(err, err == 0)];
    }

    // clk_set_rate: the clock may settle below the request; an error leaves it as it is.
    method SetRate(target: nat) returns (err: int)
      modifies this`rate, this`trace, this`calls, this`answers
      ensures if err == 0 then rate <= target else rate == old(rate)
      ensures trace == old(trace) + [Moment(rate, rail)]
      ensures calls == old(calls) + [Rate(target)] && answers == old(answers) + [Answer(err, err == 0)]
    {
      err := *;
      if err == 0 {
        var settled: nat :| settled <= target;
        rate := settled;
      }
      trace := trace + [Moment(rate, rail)];
      calls, answers := calls + [Rate(target)], answers + [Answer(err, err == 0)];
    }
  }
}
