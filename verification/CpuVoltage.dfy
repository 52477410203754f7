/** The CPU helper with two rails: which of its paths keep both rails sufficient at every step. */
module CpuVoltage {
  import opened Optional

  // The range asked of a regulator; the lower end is what the operating point needs.
  datatype Supply = Supply(min: nat, max: nat)
  datatype Point = Point(rate: nat, vdd: Supply, mem: Supply)
  datatype Moment = Moment(rate: nat, vdd: nat, mem: nat)

  // A faster point needs at least as much on either rail, an equally fast one the same.
  predicate Ordered(a: Point, b: Point) {
    && (a.rate <= b.rate ==> a.vdd.min <= b.vdd.min && a.mem.min <= b.mem.min)
    && (b.rate <= a.rate ==> b.vdd.min <= a.vdd.min && b.mem.min <= a.mem.min)
  }

  predicate Meets(m: Moment, p: Point) {
    m.rate == p.rate ==> m.vdd >= p.vdd.min && m.mem >= p.mem.min
  }

  // Both rails are sufficient for the running clock at every moment.
  predicate Safe(trace: seq<Moment>, was: Point, now: Point) {
    forall k :: 0 <= k < |trace| ==> Meets(trace[k], was) && Meets(trace[k], now)
  }

  lemma SafeStep(trace: seq<Moment>, m: Moment, was: Point, now: Point)
    ensures Safe(trace + [m], was, now) <==> Safe(trace, was, now) && Meets(m, was) && Meets(m, now)
  {
    var all := trace + [m];
    assert all[|trace|] == m;
    assert forall k :: 0 <= k < |trace| ==> all[k] == trace[k];
  }

  // What the hardware answers to the calls of one run, in the order of the code: a voltage
  // request settles at a value in its range or fails, a rate request succeeds or fails.
  datatype Answers = Answers(
    mem: Option<nat>, vdd: Option<nat>, clk: bool,
    clkBack: bool, memBack: Option<nat>, vddBack: Option<nat>)

  predicate InRange(v: Option<nat>, s: Supply) {
    v.Some? ==> s.min <= v.value <= s.max
  }

  /** The one way to undervolt: scaling down, vdd already lowered below what the old rate needs,
      the mem request then failing, and the clock being put back before the rail. */
  predicate Undervolts(was: Point, now: Point, a: Answers) {
    now.rate < was.rate && a.clk && a.vdd.Some? && a.mem.None? && a.clkBack && a.vdd.value < was.vdd.min
  }

  /** Such a run exists: from 1200 to 600 MHz with vdd lowered from 1100 to 900 before mem fails. */
  lemma UndervoltsHappens()
    ensures
      var was, now := Point(1200, Supply(1100, 1150), Supply(1100, 1150)), Point(600, Supply(900, 950), Supply(950, 1000));
      var a := Answers(None, Some(900), true, true, Some(1100), Some(1100));
      && Ordered(was, now) && Undervolts(was, now, a)
      && InRange(a.mem, now.mem) && InRange(a.vdd, now.vdd) && InRange(a.memBack, was.mem) && InRange(a.vddBack, was.vdd)
      && !Meets(Moment(was.rate, a.vdd.value, was.mem.min), was)
  {
  }

  // What the driver asks of the hardware.
  datatype Call = AskVdd(range: Supply) | AskMem(range: Supply) | AskRate(rate: nat)

  // The calls of scaling up: mem, vdd and clock, up to the first that fails.
  function CallsUp(now: Point, a: Answers): seq<Call> {
    if a.mem.None? then [AskMem(now.mem)]
    else if a.vdd.None? then [AskMem(now.mem), AskVdd(now.vdd)]
    else [AskMem(now.mem), AskVdd(now.vdd), AskRate(now.rate)]
  }

  // The calls of scaling down: clock, vdd and mem, and the clock again if a regulator fails.
  function CallsDown(was: Point, now: Point, a: Answers): seq<Call> {
    if !a.clk then [AskRate(now.rate)]
    else if a.vdd.None? then [AskRate(now.rate), AskVdd(now.vdd), AskRate(was.rate)]
    else if a.mem.None? then [AskRate(now.rate), AskVdd(now.vdd), AskMem(now.mem), AskRate(was.rate)]
    else [AskRate(now.rate), AskVdd(now.vdd), AskMem(now.mem)]
  }

  // The end of every rollback.
  function CallsBack(was: Point): seq<Call> {
    [AskMem(was.mem), AskVdd(was.vdd)]
  }

  class Cpu {
    var rate: nat
    var vdd: nat
    var mem: nat
    ghost var trace: seq<Moment>
    ghost var calls: seq<Call>

    constructor (rate: nat, vdd: nat, mem: nat)
      ensures this.rate == rate && this.vdd == vdd && this.mem == mem && trace == [] && calls == []
    {
      this.rate, this.vdd, this.mem, trace, calls := rate, vdd, mem, [], [];
    }

    // The rails are sufficient right now, for either operating point's rate.
    predicate Fine(was: Point, now: Point)
      reads this
    {
      Meets(Moment(rate, vdd, mem), was) && Meets(Moment(rate, vdd, mem), now)
    }

    method SetVdd(range: Supply, answer: Option<nat>, ghost was: Point, ghost now: Point) returns (ret: bool)
      modifies this`vdd, this`trace, this`calls
      ensures calls == old(calls) + [AskVdd(range)]
      ensures ret == answer.Some? && vdd == if ret then answer.value else old(vdd)
      ensures trace == old(trace) + [Moment(rate, vdd, mem)]
      ensures Safe(trace, was, now) <==> Safe(old(trace), was, now) && Fine(was, now)
    {
      ret := answer.Some?;
      if ret {
        vdd := answer.value;
      }
      SafeStep(trace, Moment(rate, vdd, mem), was, now);
      trace := trace + [Moment(rate, vdd, mem)];
      calls := calls + [AskVdd(range)];
    }

    method SetMem(range: Supply, answer: Option<nat>, ghost was: Point, ghost now: Point) returns (ret: bool)
      modifies this`mem, this`trace, this`calls
      ensures calls == old(calls) + [AskMem(range)]
      ensures ret == answer.Some? && mem == if ret then answer.value else old(mem)
      ensures trace == old(trace) + [Moment(rate, vdd, mem)]
      ensures Safe(trace, was, now) <==> Safe(old(trace), was, now) && Fine(was, now)
    {
      ret := answer.Some?;
      if ret {
        mem := answer.value;
      }
      SafeStep(trace, Moment(rate, vdd, mem), was, now);
      trace := trace + [Moment(rate, vdd, mem)];
      calls := calls + [AskMem(range)];
    }

    method SetRate(target: nat, answer: bool, ghost was: Point, ghost now: Point)
      modifies this`rate, this`trace, this`calls
      ensures calls == old(calls) + [AskRate(target)]
      ensures rate == if answer then target else old(rate)
      ensures trace == old(trace) + [Moment(rate, vdd, mem)]
      ensures Safe(trace, was, now) <==> Safe(old(trace), was, now) && Fine(was, now)
    {
      if answer {
        rate := target;
      }
      SafeStep(trace, Moment(rate, vdd, mem), was, now);
      trace := trace + [Moment(rate, vdd, mem)];
      calls := calls + [AskRate(target)];
    }

    // The end of every rollback: mem first, then vdd.
    method RestoreVoltage(a: Answers, was: Point, ghost now: Point)
      modifies this`mem, this`vdd, this`trace, this`calls
      ensures calls == old(calls) + CallsBack(was)
      ensures mem == (if a.memBack.Some? then a.memBack.value else old(mem))
      ensures vdd == (if a.vddBack.Some? then a.vddBack.value else old(vdd))
      ensures |trace| == |old(trace)| + 2 && old(trace) <= trace
      ensures Safe(trace, was, now) <==>
        && Safe(old(trace), was, now)
        && Meets(Moment(rate, old(vdd), mem), was) && Meets(Moment(rate, old(vdd), mem), now)
        && Fine(was, now)
    {
      var m := SetMem(was.mem, a.memBack, was, now);
      var v := SetVdd(was.vdd, a.vddBack, was, now);
    }

    /** cpu_opp_helper: both rails are sufficient at every step of scaling up, scaling down and
        rolling back, except exactly when the run undervolts; success ends at the new point,
        and a failure whose restores succeed ends at the old one. The regulators are asked before the
        clock on the way up and after it on the way down, mem first up and vdd first down. */
    method OppHelper(was: Point, now: Point, a: Answers) returns (ok: bool)
      requires Ordered(was, now)
      requires rate == was.rate && vdd >= was.vdd.min && mem >= was.mem.min && trace == []
      requires InRange(a.mem, now.mem) && InRange(a.vdd, now.vdd)
      requires InRange(a.memBack, was.mem) && InRange(a.vddBack, was.vdd)
      modifies this
      ensures Safe(trace, was, now) <==> !Undervolts(was, now, a)
      ensures calls == old(calls) + (if now.rate >= was.rate then CallsUp(now, a) else CallsDown(was, now, a))
                       + if ok then [] else CallsBack(was)
      ensures ok && now.rate >= was.rate ==> calls == old(calls) + [AskMem(now.mem), AskVdd(now.vdd), AskRate(now.rate)]
      ensures ok && now.rate < was.rate ==> calls == old(calls) + [AskRate(now.rate), AskVdd(now.vdd), AskMem(now.mem)]
      ensures ok <==> a.mem.Some? && a.vdd.Some? && a.clk
      ensures ok ==> rate == now.rate
      ensures ok ==> now.vdd.min <= vdd <= now.vdd.max && now.mem.min <= mem <= now.mem.max
      ensures !ok && (now.rate < was.rate && a.clk ==> a.clkBack) && a.memBack.Some? && a.vddBack.Some? ==>
        && rate == was.rate
        && was.vdd.min <= vdd <= was.vdd.max && was.mem.min <= mem <= was.mem.max
    {
      if now.rate >= was.rate {
        ok := ScaleUp(was, now, a);
      } else {
        ok := ScaleDown(was, now, a);
      }
    }

    // Scaling up, or staying: the voltages before the frequency.
    method ScaleUp(was: Point, now: Point, a: Answers) returns (ok: bool)
      requires Ordered(was, now) && now.rate >= was.rate
      requires rate == was.rate && vdd >= was.vdd.min && mem >= was.mem.min && trace == []
      requires InRange(a.mem, now.mem) && InRange(a.vdd, now.vdd)
      requires InRange(a.memBack, was.mem) && InRange(a.vddBack, was.vdd)
      modifies this
      ensures Safe(trace, was, now)
      ensures calls == old(calls) + CallsUp(now, a) + if ok then [] else CallsBack(was)
      ensures ok <==> a.mem.Some? && a.vdd.Some? && a.clk
      ensures rate == if ok then now.rate else was.rate
      ensures ok ==> now.vdd.min <= vdd <= now.vdd.max && now.mem.min <= mem <= now.mem.max
      ensures !ok && a.memBack.Some? && a.vddBack.Some? ==>
        was.vdd.min <= vdd <= was.vdd.max && was.mem.min <= mem <= was.mem.max
    {
      ok := SetMem(now.mem, a.mem, was, now);
      if ok {
        ok := SetVdd(now.vdd, a.vdd, was, now);
      }
      if ok {
        SetRate(now.rate, a.clk, was, now);
        ok := a.clk;
      }
      if !ok {
        RestoreVoltage(a, was, now);
      }
    }

    // Scaling down: the frequency before the voltages.
    method ScaleDown(was: Point, now: Point, a: Answers) returns (ok: bool)
      requires Ordered(was, now) && now.rate < was.rate
      requires rate == was.rate && vdd >= was.vdd.min && mem >= was.mem.min && trace == []
      requires InRange(a.mem, now.mem) && InRange(a.vdd, now.vdd)
      requires InRange(a.memBack, was.mem) && InRange(a.vddBack, was.vdd)
      modifies this
      ensures Safe(trace, was, now) <==> !Undervolts(was, now, a)
      ensures calls == old(calls) + CallsDown(was, now, a) + if ok then [] else CallsBack(was)
      ensures ok <==> a.mem.Some? && a.vdd.Some? && a.clk
      ensures ok ==> rate == now.rate
      ensures ok ==> now.vdd.min <= vdd <= now.vdd.max && now.mem.min <= mem <= now.mem.max
      ensures !ok && (a.clk ==> a.clkBack) ==> rate == was.rate
      ensures !ok && a.memBack.Some? && a.vddBack.Some? ==>
        was.vdd.min <= vdd <= was.vdd.max && was.mem.min <= mem <= was.mem.max
    {
      SetRate(now.rate, a.clk, was, now);
      if !a.clk {
        RestoreVoltage(a, was, now);
        return false;
      }
      ok := SetVdd(now.vdd, a.vdd, was, now);
      if ok {
        ok := SetMem(now.mem, a.mem, was, now);
      }
      if !ok {
        SetRate(was.rate, a.clkBack, was, now);
        RestoreVoltage(a, was, now);
      }
    }
  }
}
