/** The LED-and-delay vocabulary shared by `led_roulette` and
    `clocks_and_timers`: the on/off state of an array of LEDs, and the
    sequence of `on`, `off` and delay calls a loop makes. */
module Leds {
  /** One call the rotation loops make: switch an LED on or off, or wait `ms` milliseconds. */
  datatype Step = On(led: nat) | Off(led: nat) | Wait(ms: nat)

  /** `step` addresses an LED of an array of `count`. */
  predicate Fits(step: Step, count: nat) {
    step.Wait? || step.led < count
  }

  predicate AllFit(steps: seq<Step>, count: nat) {
    forall k :: 0 <= k < |steps| ==> Fits(steps[k], count)
  }

  /** The LED states after one step: `on` lights its LED, `off` darkens it, a
      delay changes nothing, and no other LED is touched. */
  function Apply(s: seq<bool>, step: Step): (r: seq<bool>)
    requires Fits(step, |s|)
    ensures |r| == |s|
  {
    match step
    case On(i) => s[i := true]
    case Off(i) => s[i := false]
    case Wait(_) => s
  }

  /** The LED states after the steps, in order. */
  function Run(s: seq<bool>, steps: seq<Step>): (r: seq<bool>)
    requires AllFit(steps, |s|)
    ensures |r| == |s|
  {
    if steps == [] then s
    else Apply(Run(s, steps[..|steps| - 1]), steps[|steps| - 1])
  }

  /** Running two stretches of steps is running the first, then the second. */
  lemma {:induction false} RunAppend(s: seq<bool>, a: seq<Step>, b: seq<Step>)
    requires AllFit(a, |s|) && AllFit(b, |s|)
    ensures AllFit(a + b, |s|)
    ensures Run(s, a + b) == Run(Run(s, a), b)
  {
    if b == [] {
      assert a + b == a;
    } else {
      var init := b[..|b| - 1];
      assert (a + b)[..|a + b| - 1] == a + init;
      RunAppend(s, a, init);
    }
  }

  /** The LED array a program drives through `switch_hal::OutputSwitch`:
      what each LED shows, and the `on`, `off` and delay calls made so far.
      Every call goes through this class, so at every point the LEDs show
      what the calls made so far leave. */
  class Board {
    const lit: array<bool>
    ghost const start: seq<bool>
    ghost var calls: seq<Step>

    ghost predicate Valid()
      reads this, lit
    {
      |start| == lit.Length && AllFit(calls, lit.Length) && lit[..] == Run(start, calls)
    }

    /** The LEDs as `init()` hands them over, before any call. */
    constructor (states: seq<bool>)
      ensures Valid() && lit[..] == states && start == states && calls == []
    {
      lit := new bool[|states|](j requires 0 <= j < |states| => states[j]);
      start := states;
      calls := [];
    }

    /** `leds[i].on()`: LED `i` lights and no other LED changes. */
    method TurnOn(i: nat)
      requires Valid() && i < lit.Length
      modifies this, lit
      ensures Valid() && calls == old(calls) + [On(i)]
      ensures lit[..] == old(lit[..])[i := true]
    {
      lit[i] := true;
      RunSnoc(start, calls, On(i));
      calls := calls + [On(i)];
    }

    /** `leds[i].off()`: LED `i` goes dark and no other LED changes. */
    method TurnOff(i: nat)
      requires Valid() && i < lit.Length
      modifies this, lit
      ensures Valid() && calls == old(calls) + [Off(i)]
      ensures lit[..] == old(lit[..])[i := false]
    {
      lit[i] := false;
      RunSnoc(start, calls, Off(i));
      calls := calls + [Off(i)];
    }

    /** A delay of `ms` milliseconds: the LEDs keep their states meanwhile. */
    method Waited(ms: nat)
      requires Valid()
      modifies this
      ensures Valid() && calls == old(calls) + [Wait(ms)]
      ensures lit[..] == old(lit[..])
    {
      RunSnoc(start, calls, Wait(ms));
      calls := calls + [Wait(ms)];
    }

    /** The LEDs show what the calls made since `before` do to what they showed then. */
    lemma Since(shown: seq<bool>, before: seq<Step>, made: seq<Step>)
      requires Valid() && AllFit(before, |start|) && shown == Run(start, before)
      requires calls == before + made
      ensures AllFit(made, |shown|) && lit[..] == Run(shown, made)
    {
      assert forall k :: 0 <= k < |made| ==> made[k] == calls[|before| + k];
      RunAppend(start, before, made);
    }
  }

  /** Milliseconds spent in the delays among `steps`. */
  function TotalWait(steps: seq<Step>): nat {
    if steps == [] then 0
    else TotalWait(steps[..|steps| - 1]) + (if steps[|steps| - 1].Wait? then steps[|steps| - 1].ms else 0)
  }

  lemma {:induction false} TotalWaitAppend(a: seq<Step>, b: seq<Step>)
    ensures TotalWait(a + b) == TotalWait(a) + TotalWait(b)
  {
    if b == [] {
      assert a + b == a;
    } else {
      assert (a + b)[..|a + b| - 1] == a + b[..|b| - 1];
      TotalWaitAppend(a, b[..|b| - 1]);
    }
  }

  lemma TotalWaitSnoc(steps: seq<Step>, step: Step)
    ensures TotalWait(steps + [step]) == TotalWait(steps) + (if step.Wait? then step.ms else 0)
  {
    assert (steps + [step])[..|steps|] == steps;
  }

  /** Every LED that is on is one of `lit`. */
  predicate LitAmong(s: seq<bool>, lit: set<nat>) {
    forall j :: 0 <= j < |s| && s[j] ==> j in lit
  }

  /** Exactly LED `k` is on. */
  predicate OnlyLit(s: seq<bool>, k: nat) {
    forall j :: 0 <= j < |s| ==> (s[j] <==> j == k)
  }

  /** All LEDs off. */
  function AllOff(count: nat): (s: seq<bool>)
    ensures |s| == count && LitAmong(s, {})
  {
    seq(count, j => false)
  }

  /** One more step at the end of a run. */
  lemma RunSnoc(s: seq<bool>, steps: seq<Step>, step: Step)
    requires AllFit(steps, |s|) && Fits(step, |s|)
    ensures AllFit(steps + [step], |s|)
    ensures Run(s, steps + [step]) == Apply(Run(s, steps), step)
  {
    assert (steps + [step])[..|steps|] == steps;
  }

  /** Steps that switch on only LEDs of `lit` never light an LED outside `lit`. */
  lemma {:induction false} LitStaysAmong(s: seq<bool>, steps: seq<Step>, lit: set<nat>)
    requires AllFit(steps, |s|) && LitAmong(s, lit)
    requires forall k :: 0 <= k < |steps| && steps[k].On? ==> steps[k].led in lit
    ensures LitAmong(Run(s, steps), lit)
  {
    if steps != [] {
      LitStaysAmong(s, steps[..|steps| - 1], lit);
    }
  }
}
