/** The bus driver: voltage and rate are ordered so that the rail is never too low, although
    the cached rate and voltage go stale on error returns. */
module BusVoltage {
  import opened OppTable

  const EINVAL := -22

  datatype Event = PreRateChange | PostRateChange | AbortRateChange

  class Bus {
    const table: seq<Opp>
    const hw: Hardware
    const hasRegulator: bool
    var curRate: nat
    var curVolt: nat

    constructor (table: seq<Opp>, hw: Hardware, hasRegulator: bool, curRate: nat, curVolt: nat)
      ensures this.table == table && this.hw == hw && this.hasRegulator == hasRegulator
      ensures this.curRate == curRate && this.curVolt == curVolt
    {
      this.table, this.hw, this.hasRegulator := table, hw, hasRegulator;
      this.curRate, this.curVolt := curRate, curVolt;
    }

    // The clock runs no faster than the cached rate, and the rail is enough for that rate.
    ghost predicate Inv()
      reads this, hw
    {
      && Monotone(table) && (hasRegulator ==> Safe(table, hw.trace))
      && (hasRegulator ==> hw.rate <= curRate && hw.rail >= Need(table, curRate))
    }

    // A request for the cached rate: only the voltage is set.
    method SetOnly(targetVolt: nat) returns (ret: int)
      requires Inv() && hasRegulator && Need(table, curRate) <= targetVolt
      modifies this`curVolt, hw
      ensures Inv() && old(hw.trace) <= hw.trace && hw.rate == old(hw.rate)
      ensures if ret == 0 then curVolt == targetVolt <= hw.rail else curVolt == old(curVolt)
      ensures hw.calls == old(hw.calls) + [Volt(targetVolt)]
      ensures hw.answers == old(hw.answers) + [Answer(ret, ret == 0)]
    {
      NeedMonotone(table, hw.rate, curRate);
      ret := hw.SetVoltage(targetVolt);
      if ret == 0 {
        curVolt := targetVolt;
      }
    }

    /** One request of the CPU-frequency policy for the operating point `point` that the OPP
        library recommends, if any. On every path, whatever fails, each moment is safe and the
        invariant holds again; and these are the calls made: the regulator before the clock on the
        way up, after it on the way down, and nothing after the first call that fails. */
    method CpufreqTarget(freq: nat, point: int) returns (ret: int)
      requires Inv() && point < |table|
      modifies this`curRate, this`curVolt, hw
      ensures Inv() && old(hw.trace) <= hw.trace
      ensures !hasRegulator && ret == 0 ==> curRate == freq && hw.rate <= freq
      ensures !hasRegulator ==> hw.calls == old(hw.calls) + [Rate(freq)] && hw.answers == old(hw.answers) + [Answer(ret, ret == 0)]
      ensures hasRegulator && point < 0 ==> ret == point && hw.calls == old(hw.calls) && hw.trace == old(hw.trace)
      ensures hasRegulator && point >= 0 && old(curRate) == table[point].freq ==>
        if old(curVolt) == table[point].volt then
          ret == 0 && hw.calls == old(hw.calls) && hw.trace == old(hw.trace)
        else
          hw.calls == old(hw.calls) + [Volt(table[point].volt)] && hw.answers == old(hw.answers) + [Answer(ret, ret == 0)]
      ensures hasRegulator && point >= 0 && old(curRate) < table[point].freq ==>
        || (hw.calls == old(hw.calls) + [Volt(table[point].volt)]
            && hw.answers == old(hw.answers) + [Answer(ret, false)] && ret != 0)
        || (hw.calls == old(hw.calls) + [Volt(table[point].volt), Rate(table[point].freq)]
            && hw.answers == old(hw.answers) + [OK, Answer(ret, ret == 0)])
      ensures hasRegulator && point >= 0 && old(curRate) > table[point].freq ==>
        || (hw.calls == old(hw.calls) + [Rate(table[point].freq)]
            && hw.answers == old(hw.answers) + [Answer(ret, false)] && ret != 0)
        || (hw.calls == old(hw.calls) + [Rate(table[point].freq), Volt(table[point].volt)]
            && hw.answers == old(hw.answers) + [OK, Answer(ret, ret == 0)])
      ensures hasRegulator && point >= 0 && ret == 0 ==>
        && curRate == table[point].freq && curVolt == table[point].volt && hw.rail >= curVolt
        && hw.rate <= curRate
      // A request for the cached rate never touches the clock, even when the cache is stale.
      ensures hasRegulator && point >= 0 && old(curRate) == table[point].freq ==> hw.rate == old(hw.rate)
      ensures hasRegulator && point >= 0 ==> old(hw.answers) <= hw.answers
      ensures hasRegulator && point >= 0 && Works(hw.answers, |old(hw.answers)|) ==> ret == 0
    {
      if !hasRegulator {
        ret := hw.SetRate(freq);
        if ret == 0 {
          curRate := freq;
        }
        return;
      }
      if point < 0 {
        return point;
      }
      var targetRate, targetVolt := table[point].freq, table[point].volt;
      NeedAt(table, point);
      if curRate == targetRate {
        if curVolt == targetVolt {
          return 0;
        }
        ret := SetOnly(targetVolt);
        assert hw.answers[|old(hw.answers)|] == Answer(ret, ret == 0);
        return;
      } else if curVolt == 0 {
        curVolt := hw.rail;
      }
      ret := Move(targetRate, targetVolt);
      assert hw.answers[|hw.answers| - 1] == Answer(ret, ret == 0);
    }

    // A request for another rate: the voltage first when the rate goes up, last when it goes down.
    method Move(targetRate: nat, targetVolt: nat) returns (ret: int)
      requires Inv() && hasRegulator && curRate != targetRate && Need(table, targetRate) <= targetVolt
      modifies this`curRate, this`curVolt, hw
      ensures Inv() && old(hw.trace) <= hw.trace
      ensures if ret == 0 then curRate == targetRate && curVolt == targetVolt <= hw.rail
              else curRate == old(curRate) && curVolt == old(curVolt)
      ensures old(curRate) < targetRate ==>
        || (hw.calls == old(hw.calls) + [Volt(targetVolt)]
            && hw.answers == old(hw.answers) + [Answer(ret, false)] && ret != 0)
        || (hw.calls == old(hw.calls) + [Volt(targetVolt), Rate(targetRate)]
            && hw.answers == old(hw.answers) + [OK, Answer(ret, ret == 0)])
      ensures old(curRate) > targetRate ==>
        || (hw.calls == old(hw.calls) + [Rate(targetRate)]
            && hw.answers == old(hw.answers) + [Answer(ret, false)] && ret != 0)
        || (hw.calls == old(hw.calls) + [Rate(targetRate), Volt(targetVolt)]
            && hw.answers == old(hw.answers) + [OK, Answer(ret, ret == 0)])
    {
      ghost var lower, upper := if curRate < targetRate then curRate else targetRate,
                                if curRate < targetRate then targetRate else curRate;
      NeedMonotone(table, lower, upper);
      NeedMonotone(table, hw.rate, curRate);
      if curRate < targetRate {
        ret := hw.SetVoltage(targetVolt);
        if ret != 0 {
          return;
        }
      }
      ret := hw.SetRate(targetRate);
      NeedMonotone(table, hw.rate, if ret == 0 then targetRate else curRate);
      if ret != 0 {
        return;
      }
      if curRate > targetRate {
        ret := hw.SetVoltage(targetVolt);
        if ret != 0 {
          return;
        }
      }
      curRate := targetRate;
      curVolt := targetVolt;
    }

    /** Every sequence of requests, whichever regulator and clock calls fail: no moment is unsafe; and
        when none fails from some request on, that one is met. */
    method Serve(requests: seq<(nat, int)>) returns (ghost lastFrom: nat)
      requires Inv() && forall k :: 0 <= k < |requests| ==> requests[k].1 < |table|
      modifies this`curRate, this`curVolt, hw
      ensures Inv() && old(hw.trace) <= hw.trace
      ensures hasRegulator ==> Safe(table, hw.trace)
      ensures requests != [] && hasRegulator && requests[|requests| - 1].1 >= 0 && Works(hw.answers, lastFrom) ==>
        var point := table[requests[|requests| - 1].1];
        curRate == point.freq && curVolt == point.volt && hw.rail >= curVolt
    {
      lastFrom := |hw.answers|;
      for k := 0 to |requests|
        invariant Inv() && old(hw.trace) <= hw.trace
        invariant k > 0 && hasRegulator && requests[k - 1].1 >= 0 && Works(hw.answers, lastFrom) ==>
          var point := table[requests[k - 1].1];
          curRate == point.freq && curVolt == point.volt && hw.rail >= curVolt
      {
        lastFrom := |hw.answers|;
        var _ := CpufreqTarget(requests[k].0, requests[k].1);
      }
    }

    // The other policy: the clock framework announces its own rate changes.
    ghost predicate NotifierInv()
      reads this, hw
    {
      && Monotone(table) && Safe(table, hw.trace)
      && hw.rail >= curVolt >= Need(table, hw.rate)
    }

    // The table search of rockchip_bus_clkfreq_target.
    method TableVolt(freq: nat) returns (volt: nat)
      requires |table| > 0
      ensures volt == Need(table, freq)
    {
      volt := table[|table| - 1].volt;
      for i := 0 to |table|
        invariant volt == table[|table| - 1].volt
        invariant forall k :: 0 <= k < i ==> table[k].freq < freq
      {
        if freq <= table[i].freq {
          NeedIsFirst(table, freq, i);
          return table[i].volt;
        }
      }
      NeedIsFirst(table, freq, |table| - 1);
    }

    // rockchip_bus_clkfreq_target
    method ClkfreqTarget(freq: nat) returns (ret: int)
      requires Monotone(table) && Safe(table, hw.trace) && hw.rail >= curVolt
      requires Need(table, freq) >= Need(table, hw.rate) && curVolt >= Need(table, hw.rate)
      modifies this`curVolt, hw
      ensures NotifierInv() && hw.rate == old(hw.rate) && old(hw.trace) <= hw.trace
      ensures ret == 0 ==> curVolt == Need(table, freq)
      ensures ret != 0 ==> ret == EINVAL && curVolt == old(curVolt) && hw.rail == old(hw.rail)
      ensures hw.calls == old(hw.calls) + if old(curVolt) == Need(table, freq) then [] else [Volt(Need(table, freq))]
      ensures ret == 0 ==> Works(hw.answers, |old(hw.answers)|)
      ensures old(hw.answers) <= hw.answers && |hw.answers| - |old(hw.answers)| == |hw.calls| - |old(hw.calls)|
      ensures Works(hw.answers, |old(hw.answers)|) ==> ret == 0
    {
      var targetVolt := TableVolt(freq);
      if curVolt != targetVolt {
        var err := hw.SetVoltage(targetVolt);
        if err != 0 {
          assert hw.answers[|old(hw.answers)|] != OK;
          return EINVAL;
        }
        curVolt := targetVolt;
      }
      ret := 0;
    }

    // The regulator is asked for what the new rate needs before a rise and after a fall, and for what
    // the old rate needs when a rise was called off.
    method Notify(event: Event, oldRate: nat, newRate: nat) returns (ret: int)
      requires NotifierInv()
      requires hw.rate == if event == PostRateChange then newRate else oldRate
      modifies this`curVolt, hw
      ensures NotifierInv() && hw.rate == old(hw.rate) && old(hw.trace) <= hw.trace
      ensures event == PreRateChange && ret == 0 ==> curVolt >= Need(table, newRate)
      ensures
        var asked := if event == AbortRateChange then oldRate else newRate;
        if (event == PostRateChange && newRate < oldRate) || (event != PostRateChange && newRate > oldRate) then
          && hw.calls == old(hw.calls) + (if old(curVolt) == Need(table, asked) then [] else [Volt(Need(table, asked))])
          && (ret == 0 <==> Works(hw.answers, |old(hw.answers)|))
          && (if ret == 0 then curVolt == Need(table, asked) else ret == EINVAL && curVolt == old(curVolt))
        else
          ret == 0 && hw.calls == old(hw.calls) && hw.answers == old(hw.answers) && curVolt == old(curVolt)
    {
      ret := 0;
      NeedMonotone(table, if oldRate < newRate then oldRate else newRate, if oldRate < newRate then newRate else oldRate);
      match event
      case PreRateChange =>
        if newRate > oldRate {
          ret := ClkfreqTarget(newRate);
        }
      case PostRateChange =>
        if newRate < oldRate {
          ret := ClkfreqTarget(newRate);
        }
      case AbortRateChange =>
        if newRate > oldRate {
          ret := ClkfreqTarget(oldRate);
        }
    }

    /** A rate change by the clock framework: announced, carried out unless refused or failed,
        then confirmed or aborted. Every moment is safe. */
    method ChangeRate(newRate: nat) returns (ok: bool)
      requires NotifierInv()
      modifies this`curVolt, hw
      ensures NotifierInv() && old(hw.trace) <= hw.trace
      ensures hw.rate == if ok then newRate else old(hw.rate)
      ensures ok && newRate > old(hw.rate) ==> curVolt == Need(table, newRate)
      ensures ok && newRate < old(hw.rate) ==>
        curVolt == if Works(hw.answers, |old(hw.answers)|) then Need(table, newRate) else old(curVolt)
    {
      var oldRate := hw.rate;
      var ret := Notify(PreRateChange, oldRate, newRate);
      ok := *;
      if ret != 0 {
        ok := false;
      }
      if ok {
        hw.rate := newRate;
        hw.trace := hw.trace + [Moment(newRate, hw.rail)];
        ret := Notify(PostRateChange, oldRate, newRate);
      } else {
        ret := Notify(AbortRateChange, oldRate, newRate);
      }
    }

    /** Every sequence of announced rate changes, confirmed, refused or aborted. */
    method Follow(rates: seq<nat>)
      requires NotifierInv()
      modifies this`curVolt, hw
      ensures NotifierInv() && old(hw.trace) <= hw.trace && Safe(table, hw.trace)
    {
      for k := 0 to |rates|
        invariant NotifierInv() && old(hw.trace) <= hw.trace
      {
        var _ := ChangeRate(rates[k]);
      }
    }
  }
}
