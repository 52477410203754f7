/** The memory controller driver: every path through a rate request, with failed restores and
    refused rate changes, keeps the rail sufficient and the cached fields truthful. */
module DmcVoltage {
  import opened OppTable

  class Dmcfreq {
    const table: seq<Opp>
    const hw: Hardware
    var rate: nat
    var volt: nat

    constructor (table: seq<Opp>, hw: Hardware, rate: nat, volt: nat)
      ensures this.table == table && this.hw == hw && this.rate == rate && this.volt == volt
    {
      this.table, this.hw, this.rate, this.volt := table, hw, rate, volt;
    }

    // The cached rate is the clock's, and the cached voltage, once known, is enough for it.
    ghost predicate Inv()
      reads this, hw
    {
      && Monotone(table) && Safe(table, hw.trace)
      && rate == hw.rate && hw.rail >= Need(table, rate)
      && (volt != 0 ==> volt >= Need(table, rate))
    }

    // A rate change either happens in full or leaves the old rate, whatever is returned, except
    // that an error code means that nothing changed.
    method ChangeRate(target: nat) returns (err: int)
      modifies hw`rate, hw`trace, hw`calls, hw`answers
      ensures hw.calls == old(hw.calls) + [Rate(target)]
      ensures hw.answers == old(hw.answers) + [Answer(err, hw.rate == target)]
      ensures hw.rate == target || hw.rate == old(hw.rate)
      ensures err != 0 ==> hw.rate == old(hw.rate)
      ensures hw.trace == old(hw.trace) + [Moment(hw.rate, hw.rail)]
    {
      err := *;
      var done: bool := *;
      if err == 0 && done {
        hw.rate := target;
      }
      hw.trace := hw.trace + [Moment(hw.rate, hw.rail)];
      hw.calls, hw.answers := hw.calls + [Rate(target)], hw.answers + [Answer(err, hw.rate == target)];
    }

    // A request for the current rate: only the voltage is set.
    method SetOnly(targetVolt: nat) returns (err: int)
      requires Inv() && Need(table, rate) <= targetVolt
      modifies this`volt, hw
      ensures Inv() && old(hw.trace) <= hw.trace && hw.rate == old(hw.rate)
      ensures if err == 0 then volt == targetVolt <= hw.rail else volt == old(volt)
      ensures hw.calls == old(hw.calls) + [Volt(targetVolt)]
      ensures hw.answers == old(hw.answers) + [Answer(err, err == 0)]
    {
      err := hw.SetVoltage(targetVolt);
      if err == 0 {
        volt := targetVolt;
      }
    }

    /** One request: `point` is the recommended operating point, or negative for none, and
        `rounded` the rate the clock would settle at for it; `havePolicy` tells whether the CPU
        policy could be taken. A return of 0 does not promise the new rate. These are the calls made:
        the regulator before the clock on the way up, after it on the way down, and the old voltage
        again when the clock is not at the new rate. */
    method Target(point: int, rounded: nat, havePolicy: bool) returns (err: int)
      requires Inv() && point < |table|
      requires point >= 0 ==> rounded <= table[point].freq
      modifies this`rate, this`volt, hw
      ensures Inv() && old(hw.trace) <= hw.trace
      ensures rate == old(rate) || rate == rounded
      ensures old(hw.answers) <= hw.answers
      ensures point < 0 ==> err == point && hw.calls == old(hw.calls) && hw.trace == old(hw.trace)
      ensures point >= 0 && rounded == old(rate) ==>
        if old(volt) == table[point].volt then
          err == 0 && hw.calls == old(hw.calls) && volt == old(volt)
        else
          && hw.calls == old(hw.calls) + [Volt(table[point].volt)] && hw.answers == old(hw.answers) + [Answer(err, err == 0)]
          && volt == (if err == 0 then table[point].volt else old(volt))
      ensures point >= 0 && rounded != old(rate) && !havePolicy ==>
        err == 0 && hw.calls == old(hw.calls) && hw.trace == old(hw.trace)
      ensures point >= 0 && rounded > old(rate) && havePolicy ==>
        Raised(old(hw.calls), |old(hw.answers)|, old(rate), if old(volt) == 0 then old(hw.rail) else old(volt), rounded, table[point].volt, err)
      ensures point >= 0 && rounded < old(rate) && havePolicy ==>
        Lowered(old(hw.calls), |old(hw.answers)|, old(rate), if old(volt) == 0 then old(hw.rail) else old(volt), rounded, table[point].volt, err)
      // When the hardware does what is asked of it, the request is met.
      ensures point >= 0 && (rounded == old(rate) || havePolicy) && Works(hw.answers, |old(hw.answers)|) ==>
        err == 0 && rate == rounded == hw.rate && volt == table[point].volt && (rounded != old(rate) ==> hw.rail >= volt)
    {
      err := 0;
      if point < 0 {
        return point;
      }
      var oldRate, targetRate, targetVolt := rate, rounded, table[point].volt;
      NeedAt(table, point);
      NeedMonotone(table, targetRate, table[point].freq);
      if rate == targetRate {
        if volt == targetVolt {
          return 0;
        }
        err := SetOnly(targetVolt);
        assert hw.answers[|old(hw.answers)|] == Answer(err, err == 0);
        return;
      } else if volt == 0 {
        volt := hw.rail;
      }
      if !havePolicy {
        return;
      }
      err := Move(targetRate, targetVolt);
    }

    // The calls of a rise, by what the hardware answered from the n-th on, and where they lead.
    ghost predicate Raised(before: seq<Call>, n: nat, oldRate: nat, back: nat, target: nat, targetVolt: nat, err: int)
      reads this, hw
    {
      && |hw.answers| > n
      && (if hw.answers[n].err != 0 then
            && hw.calls == before + [Volt(targetVolt)] && |hw.answers| == n + 1
            && err == hw.answers[n].err && rate == oldRate && volt == back
          else if |hw.answers| > n + 1 && hw.answers[n + 1].err == 0 && hw.answers[n + 1].took then
            && hw.calls == before + [Volt(targetVolt), Rate(target)] && |hw.answers| == n + 2
            && err == 0 && rate == target && volt == targetVolt
          else
            && hw.calls == before + [Volt(targetVolt), Rate(target), Volt(back)] && |hw.answers| == n + 3
            && err == hw.answers[n + 1].err && rate == oldRate && volt == back)
    }

    // The same for a fall.
    ghost predicate Lowered(before: seq<Call>, n: nat, oldRate: nat, back: nat, target: nat, targetVolt: nat, err: int)
      reads this, hw
    {
      && |hw.answers| == n + 2
      && (if hw.answers[n].err == 0 && hw.answers[n].took then
            && hw.calls == before + [Rate(target), Volt(targetVolt)] && err == hw.answers[n + 1].err
            && rate == target && volt == (if err == 0 then targetVolt else back)
          else
            && hw.calls == before + [Rate(target), Volt(back)] && err == hw.answers[n].err
            && rate == oldRate && volt == back)
    }

    // A request for another rate: the voltage first when the rate goes up, last when it goes down.
    method Move(targetRate: nat, targetVolt: nat) returns (err: int)
      requires Inv() && volt >= Need(table, rate) && rate != targetRate && Need(table, targetRate) <= targetVolt
      modifies this`rate, this`volt, hw
      ensures Inv() && old(hw.trace) <= hw.trace
      ensures rate == old(rate) || rate == targetRate
      ensures err == 0 && rate == targetRate ==> volt == targetVolt && hw.rail >= volt
      ensures old(hw.answers) <= hw.answers
      ensures targetRate > old(rate) ==>
        Raised(old(hw.calls), |old(hw.answers)|, old(rate), old(volt), targetRate, targetVolt, err)
      ensures targetRate < old(rate) ==>
        Lowered(old(hw.calls), |old(hw.answers)|, old(rate), old(volt), targetRate, targetVolt, err)
    {
      err := 0;
      if rate < targetRate {
        NeedMonotone(table, rate, targetRate);
        err := hw.SetVoltage(targetVolt);
        if err != 0 {
          return;
        }
      } else {
        NeedMonotone(table, targetRate, rate);
      }
      err := Switch(targetRate, targetVolt);
    }

    // The calls from the clock's on.
    ghost predicate Switched(before: seq<Call>, n: nat, oldRate: nat, back: nat, target: nat, targetVolt: nat, err: int)
      reads this, hw
    {
      && |hw.answers| > n
      && (if hw.answers[n].err == 0 && hw.answers[n].took then
            if oldRate > target then Lowered(before, n, oldRate, back, target, targetVolt, err)
            else
              && hw.calls == before + [Rate(target)] && |hw.answers| == n + 1
              && err == 0 && rate == target && volt == targetVolt
          else
            && hw.calls == before + [Rate(target), Volt(back)] && |hw.answers| == n + 2
            && err == hw.answers[n].err && rate == oldRate && volt == back)
    }

    // The rate change itself, on a rail that is sufficient for both rates.
    method Switch(targetRate: nat, targetVolt: nat) returns (err: int)
      requires Inv() && volt >= Need(table, rate) && rate != targetRate && Need(table, targetRate) <= targetVolt
      requires hw.rail >= Need(table, targetRate) && (rate < targetRate ==> hw.rail >= targetVolt)
      modifies this`rate, this`volt, hw
      ensures Inv() && old(hw.trace) <= hw.trace
      ensures rate == old(rate) || rate == targetRate
      ensures err == 0 && rate == targetRate ==> volt == targetVolt && hw.rail >= volt
      ensures old(hw.answers) <= hw.answers
      ensures Switched(old(hw.calls), |old(hw.answers)|, old(rate), old(volt), targetRate, targetVolt, err)
    {
      var oldRate := rate;
      if targetRate < oldRate {
        NeedMonotone(table, targetRate, oldRate);
      }
      err := ChangeRate(targetRate);
      if err != 0 {
        var ignored := hw.SetVoltage(volt);
        return;
      }
      rate := hw.rate;
      if rate != targetRate {
        var ignored := hw.SetVoltage(volt);
        return;
      } else if oldRate > targetRate {
        err := hw.SetVoltage(targetVolt);
        if err != 0 {
          return;
        }
      }
      volt := targetVolt;
    }

    // A request: the recommended point, the rate it rounds to, and whether the policy was there.
    predicate Sensible(request: (int, nat, bool)) {
      request.0 < |table| && (request.0 >= 0 ==> request.1 <= table[request.0].freq)
    }

    // The rate and the voltage are those of the request, if it named a point and the policy was there.
    ghost predicate Met(request: (int, nat, bool))
      reads this, hw
    {
      0 <= request.0 < |table| && request.2 ==> rate == request.1 == hw.rate && volt == table[request.0].volt
    }

    /** Every sequence of requests, whatever fails: no moment is unsafe, and the cached rate stays
        the clock's; and when the hardware does what the last request asks of it, that one is met. */
    method Serve(requests: seq<(int, nat, bool)>) returns (ghost lastFrom: nat)
      requires Inv() && forall k :: 0 <= k < |requests| ==> Sensible(requests[k])
      modifies this`rate, this`volt, hw
      ensures Inv() && old(hw.trace) <= hw.trace
      ensures Safe(table, hw.trace) && rate == hw.rate
      ensures requests != [] && Works(hw.answers, lastFrom) ==> Met(requests[|requests| - 1])
    {
      lastFrom := |hw.answers|;
      for k := 0 to |requests|
        invariant Inv() && old(hw.trace) <= hw.trace
        invariant k > 0 && Works(hw.answers, lastFrom) ==> Met(requests[k - 1])
      {
        lastFrom := |hw.answers|;
        assert Sensible(requests[k]);
        var _ := Target(requests[k].0, requests[k].1, requests[k].2);
      }
    }
  }
}
