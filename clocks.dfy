/** The `clocks_and_timers` exercise: a busy-waiting `delay` on the TIM6 basic
    timer, and an eight-LED rotation that lights each LED in turn with 50 ms
    delays between the calls.

    TIM6 is abstract state: the fields CR1.CEN, CR1.OPM, SR.UIF, PSC and ARR
    the program touches, and a log of its register accesses. When the
    counter's update event comes is given in advance: for each coming run of
    the counter, the number of SR loads that still see UIF clear before the
    update event. */
module ClocksAndTimers {
  import opened Ints
  import opened Leds

  /** The two CR1 bits the program names: counter enable and one-pulse mode. */
  datatype Cr1 = Cr1(cen: bool, opm: bool)

  /** CR1 after reset: both bits clear. */
  const CR1_RESET: Cr1 := Cr1(cen := false, opm := false)

  /** `cr1.write(|w| w.opm().set_bit().cen().clear_bit())`: a `write` starts
      from the reset value, then the closure sets OPM and clears CEN. */
  const CR1_SETUP: Cr1 := CR1_RESET.(opm := true).(cen := false)

  /** `cr1.write(|w| w.cen().set_bit())`: from the reset value with CEN set;
      OPM, which the closure does not name, goes back to its reset value. */
  const CR1_START: Cr1 := CR1_RESET.(cen := true)

  /** The APB1 clock that drives the counter through the prescaler, in Hz. */
  const APB1_CLOCK: nat := 8_000_000

  /** The prescaler value `main` stores. */
  const PSC_1KHZ: u16 := 7999

  /** `let ms = 50`: the delay between the LED calls. */
  const MS: u16 := 50

  /** Number of LEDs on the board's compass. */
  const LED_COUNT: nat := 8

  /** One TIM6 register access. */
  datatype TimAccess =
    | ArrWrite(arr: u16)
    | PscWrite(psc: u16)
    | Cr1Write(cr1: Cr1)
    | SrRead(uif: bool)
    | SrWrite(uif: bool)

  /** Counter ticks per second for prescaler value `psc`. */
  function CounterRate(psc: u16): (hz: nat)
    ensures hz * (psc + 1) <= APB1_CLOCK < (hz + 1) * (psc + 1)
  {
    APB1_CLOCK / (psc + 1)
  }

  /** The prescaler of `main` makes the counter tick once per millisecond. */
  lemma OneTickPerMillisecond()
    ensures CounterRate(PSC_1KHZ) == 1000
    ensures APB1_CLOCK % (PSC_1KHZ + 1) == 0
  {
  }

  /** SR loads still seeing UIF clear before the wait ends: none when UIF is
      already set, otherwise those before the coming update event. */
  function ClearPolls(uif: bool, updates: seq<nat>): nat
    requires uif || updates != []
  {
    if uif then 0 else updates[0]
  }

  /** The update events left once the wait has seen UIF set: a stale UIF uses none up. */
  function AfterWait(uif: bool, updates: seq<nat>): seq<nat>
    requires uif || updates != []
  {
    if uif then updates else updates[1..]
  }

  /** The SR loads of `while !tim6.sr.read().uif().bit_is_set() {}` whose
      polls see UIF clear `clear` times and then set. */
  function UifWait(clear: nat): (r: seq<TimAccess>)
    ensures |r| == clear + 1 && r[clear] == SrRead(true)
    ensures forall i :: 0 <= i < clear ==> r[i] == SrRead(false)
  {
    if clear == 0 then [SrRead(true)] else [SrRead(false)] + UifWait(clear - 1)
  }

  /** The accesses of one `delay(ms)`: ARR, then CR1, then the wait, then the SR clear. */
  function DelayTrace(ms: u16, clear: nat): (r: seq<TimAccess>)
    ensures |r| == clear + 4
    ensures r[0] == ArrWrite(ms) && r[1] == Cr1Write(CR1_START)
    ensures r[clear + 2] == SrRead(true) && r[clear + 3] == SrWrite(false)
    ensures forall i :: 2 <= i < clear + 2 ==> r[i] == SrRead(false)
  {
    [ArrWrite(ms), Cr1Write(CR1_START)] + UifWait(clear) + [SrWrite(false)]
  }

  /** A stale UIF ends the wait at the first load, whatever the counter is doing. */
  lemma StaleUifSkipsWait(updates: seq<nat>, ms: u16)
    ensures DelayTrace(ms, ClearPolls(true, updates)) == [ArrWrite(ms), Cr1Write(CR1_START), SrRead(true), SrWrite(false)]
    ensures AfterWait(true, updates) == updates
  {
  }

  class Tim6 {
    var cr1: Cr1
    /** SR.UIF, the update interrupt flag. */
    var uif: bool
    var psc: u16
    var arr: u16
    /** For each coming run of the counter, the number of SR loads that still
        see UIF clear before its update event. */
    var updates: seq<nat>
    /** Every TIM6 access made so far, oldest first. */
    var log: seq<TimAccess>

    /** TIM6 after reset, with the update events to come. */
    constructor (updates: seq<nat>)
      ensures cr1 == CR1_RESET && !uif && psc == 0 && arr == 0xFFFF
      ensures this.updates == updates && log == []
    {
      cr1, uif, psc, arr := CR1_RESET, false, 0, 0xFFFF;
      this.updates, log := updates, [];
    }

    /** `cr1.write(...)`: the whole register is replaced by `v`. */
    method WriteCr1(v: Cr1)
      modifies this
      ensures cr1 == v && log == old(log) + [Cr1Write(v)]
      ensures uif == old(uif) && psc == old(psc) && arr == old(arr) && updates == old(updates)
    {
      cr1, log := v, log + [Cr1Write(v)];
    }

    /** `psc.write(|w| w.psc().bits(v))` */
    method WritePsc(v: u16)
      modifies this
      ensures psc == v && log == old(log) + [PscWrite(v)]
      ensures cr1 == old(cr1) && uif == old(uif) && arr == old(arr) && updates == old(updates)
    {
      psc, log := v, log + [PscWrite(v)];
    }

    /** `arr.write(|w| w.arr().bits(v))` */
    method WriteArr(v: u16)
      modifies this
      ensures arr == v && log == old(log) + [ArrWrite(v)]
      ensures cr1 == old(cr1) && uif == old(uif) && psc == old(psc) && updates == old(updates)
    {
      arr, log := v, log + [ArrWrite(v)];
    }

    /** `sr.write(|w| w.uif().clear_bit())`: SR from its reset value, so UIF clear. */
    method ClearUif()
      modifies this
      ensures !uif && log == old(log) + [SrWrite(false)]
      ensures cr1 == old(cr1) && psc == old(psc) && arr == old(arr) && updates == old(updates)
    {
      uif, log := false, log + [SrWrite(false)];
    }

    /** `sr.read().uif().bit_is_set()`. A set UIF is seen at once. Otherwise,
        with the counter enabled, the update event comes once no clear load is
        left for the current run: it sets UIF and, in one-pulse mode, clears CEN. */
    method PollUif() returns (isSet: bool)
      requires uif || (cr1.cen && updates != [])
      modifies this
      ensures isSet <==> ClearPolls(old(uif), old(updates)) == 0
      ensures isSet ==> uif && updates == AfterWait(old(uif), old(updates))
      ensures !isSet ==> !uif && updates == old(updates)[0 := old(updates[0]) - 1]
      ensures cr1 == if isSet && !old(uif) && old(cr1.opm) then old(cr1).(cen := false) else old(cr1)
      ensures log == old(log) + [SrRead(isSet)]
      ensures psc == old(psc) && arr == old(arr)
    {
      if uif {
        isSet := true;
      } else if updates[0] == 0 {
        isSet := true;
        uif, updates := true, updates[1..];
        if cr1.opm {
          cr1 := cr1.(cen := false);
        }
      } else {
        isSet := false;
        updates := updates[0 := updates[0] - 1];
      }
      log := log + [SrRead(isSet)];
    }

    /** `delay(tim6, ms)`: store `ms` in ARR, enable the counter, busy-wait
        until UIF is seen set, then clear UIF. A UIF left set on entry ends
        the wait at once; since `delay` clears it before returning, the next
        call waits for an update event of its own. */
    method Delay(ms: u16)
      requires uif || updates != []
      modifies this
      ensures arr == ms && cr1 == CR1_START && !uif && psc == old(psc)
      ensures updates == AfterWait(old(uif), old(updates))
      ensures log == old(log) + DelayTrace(ms, ClearPolls(old(uif), old(updates)))
    {
      ghost var start := log;
      WriteArr(ms);
      WriteCr1(CR1_START);
      ghost var rest := AfterWait(uif, updates);
      ghost var final := log + UifWait(ClearPolls(uif, updates));
      var isSet := false;
      while !isSet
        invariant cr1 == CR1_START && arr == ms && psc == old(psc)
        invariant !isSet ==> (uif || updates != []) && AfterWait(uif, updates) == rest
        invariant !isSet ==> log + UifWait(ClearPolls(uif, updates)) == final
        invariant isSet ==> updates == rest && log == final
        decreases if isSet then 0 else ClearPolls(uif, updates) + 1
      {
        ghost var before, clear := log, ClearPolls(uif, updates);
        isSet := PollUif();
        if !isSet {
          assert UifWait(clear) == [SrRead(false)] + UifWait(clear - 1);
          assert log + UifWait(ClearPolls(uif, updates)) == before + UifWait(clear);
        }
      }
      ClearUif();
      assert log == start + [ArrWrite(ms), Cr1Write(CR1_START)] + UifWait(ClearPolls(old(uif), old(updates))) + [SrWrite(false)];
    }
  }

  /** `main` before the `loop`: one-pulse mode with the counter stopped, and
      the prescaler for a 1 kHz counter. */
  method Setup(tim: Tim6)
    modifies tim
    ensures tim.cr1 == CR1_SETUP && tim.cr1.opm && !tim.cr1.cen
    ensures tim.psc == PSC_1KHZ && CounterRate(tim.psc) == 1000
    ensures tim.log == old(tim.log) + [Cr1Write(CR1_SETUP), PscWrite(PSC_1KHZ)]
    ensures tim.uif == old(tim.uif) && tim.arr == old(tim.arr) && tim.updates == old(tim.updates)
  {
    tim.WriteCr1(CR1_SETUP);
    tim.WritePsc(PSC_1KHZ);
    OneTickPerMillisecond();
  }

  /** Whatever CR1 held, the write in `delay` leaves OPM clear, so the update
      event no longer stops the counter. */
  lemma StartClearsOnePulse()
    ensures CR1_START.cen && !CR1_START.opm && CR1_START != CR1_SETUP
    ensures CR1_SETUP.opm && !CR1_SETUP.cen
  {
  }

  /** `let next = (curr + 1) % 8` */
  function NextLed(curr: nat): (next: nat)
    requires curr < LED_COUNT
    ensures next < LED_COUNT
    ensures next == 0 <==> curr == 7
    ensures next != curr
  {
    (curr + 1) % 8
  }

  /** The calls of iteration `curr`: on(next), delay, off(curr), delay. */
  function RotationStep(curr: nat): (steps: seq<Step>)
    requires curr < LED_COUNT
    ensures AllFit(steps, LED_COUNT)
  {
    [On(NextLed(curr)), Wait(MS), Off(curr), Wait(MS)]
  }

  /** The calls of the first `n` iterations of `for curr in 0..8`. */
  function Rotation(n: nat): (steps: seq<Step>)
    requires n <= LED_COUNT
    ensures AllFit(steps, LED_COUNT)
  {
    if n == 0 then [] else Rotation(n - 1) + RotationStep(n - 1)
  }

  /** The delay calls of iteration `curr`: two runs of the counter, unless UIF
      was left set, when the first delay uses none. */
  function UpdatesUsed(stale: bool, iterations: nat): nat {
    if iterations == 0 then 0 else 2 * iterations - (if stale then 1 else 0)
  }

  /** After the delays of `curr` iterations, those of one more use up `used` more runs. */
  lemma UpdatesUsedStep(stale: bool, curr: nat, updates: seq<nat>, used: nat)
    requires UpdatesUsed(stale, curr + 1) <= |updates|
    requires used == UpdatesUsed(curr == 0 && stale, 1)
    ensures UpdatesUsed(stale, curr) + used == UpdatesUsed(stale, curr + 1)
    ensures updates[UpdatesUsed(stale, curr)..][used..] == updates[UpdatesUsed(stale, curr + 1)..]
  {
  }

  /** `delay(tim6, ms)` as the loop calls it: the run of the timer, which
      the LEDs see as a wait of `ms` milliseconds. */
  method LoopDelay(tim: Tim6, board: Board, ms: u16)
    requires board.Valid() && (tim.uif || tim.updates != [])
    modifies tim, board
    ensures tim.arr == ms && tim.cr1 == CR1_START && !tim.uif && tim.psc == old(tim.psc)
    ensures tim.updates == AfterWait(old(tim.uif), old(tim.updates))
    ensures tim.log == old(tim.log) + DelayTrace(ms, ClearPolls(old(tim.uif), old(tim.updates)))
    ensures board.Valid() && board.calls == old(board.calls) + [Wait(ms as nat)]
    ensures board.lit[..] == old(board.lit[..])
  {
    tim.Delay(ms);
    board.Waited(ms as nat);
  }

  /** One iteration of the `for` loop: `on(next)`, `delay`, `off(curr)`,
      `delay`, each through the board or the timer. */
  method RotationIteration(board: Board, tim: Tim6, curr: nat)
    requires board.Valid() && board.lit.Length == LED_COUNT && curr < LED_COUNT
    requires |tim.updates| >= UpdatesUsed(tim.uif, 1)
    modifies board, board.lit, tim
    ensures board.Valid() && board.calls == old(board.calls) + RotationStep(curr)
    ensures board.lit[..] == Run(old(board.lit[..]), RotationStep(curr))
    ensures !tim.uif && tim.arr == MS && tim.cr1 == CR1_START && tim.psc == old(tim.psc)
    ensures tim.updates == old(tim.updates)[UpdatesUsed(old(tim.uif), 1)..]
    ensures tim.log == old(tim.log) + DelayTrace(MS, ClearPolls(old(tim.uif), old(tim.updates)))
                                    + DelayTrace(MS, AfterWait(old(tim.uif), old(tim.updates))[0])
  {
    ghost var before, shown := board.calls, board.lit[..];
    var next := (curr + 1) % 8;
    board.TurnOn(next);
    LoopDelay(tim, board, MS);
    board.TurnOff(curr);
    LoopDelay(tim, board, MS);
    StepCalls(before, curr);
    RotationStepEffect(shown, curr);
  }

  /** Proof helper: the four calls of iteration `curr`, appended one by one. */
  lemma StepCalls(before: seq<Step>, curr: nat)
    requires curr < LED_COUNT
    ensures before + [On(NextLed(curr))] + [Wait(MS)] + [Off(curr)] + [Wait(MS)]
      == before + RotationStep(curr)
  {
  }

  /** One pass of `for curr in 0..8`. */
  method RotationPass(board: Board, tim: Tim6)
    requires board.Valid() && board.lit.Length == LED_COUNT
    requires |tim.updates| >= UpdatesUsed(tim.uif, LED_COUNT)
    modifies board, board.lit, tim
    ensures board.Valid() && board.calls == old(board.calls) + Rotation(LED_COUNT)
    ensures board.lit[..] == Run(old(board.lit[..]), Rotation(LED_COUNT))
    ensures !tim.uif && tim.arr == MS && tim.cr1 == CR1_START && tim.psc == old(tim.psc)
    ensures tim.updates == old(tim.updates)[UpdatesUsed(old(tim.uif), LED_COUNT)..]
  {
    ghost var before, shown := board.calls, board.lit[..];
    ghost var stale, updates0 := tim.uif, tim.updates;
    for curr := 0 to LED_COUNT
      invariant board.Valid() && board.calls == before + Rotation(curr)
      invariant tim.psc == old(tim.psc)
      invariant curr == 0 ==> tim.uif == stale && tim.updates == updates0
      invariant curr > 0 ==> !tim.uif && tim.arr == MS && tim.cr1 == CR1_START
      invariant tim.updates == updates0[UpdatesUsed(stale, curr)..]
    {
      PassStep(board, tim, curr, before, stale, updates0);
    }
    board.Since(shown, before, Rotation(LED_COUNT));
  }

  /** The body of the `for` loop over iteration `curr`, carrying what the
      first `curr` iterations did to the calls and the timer to `curr + 1`. */
  method PassStep(board: Board, tim: Tim6, curr: nat,
                  ghost before: seq<Step>, ghost stale: bool, ghost updates0: seq<nat>)
    requires board.Valid() && board.lit.Length == LED_COUNT && curr < LED_COUNT
    requires |updates0| >= UpdatesUsed(stale, LED_COUNT)
    requires board.calls == before + Rotation(curr)
    requires curr == 0 ==> tim.uif == stale && tim.updates == updates0
    requires curr > 0 ==> !tim.uif
    requires tim.updates == updates0[UpdatesUsed(stale, curr)..]
    modifies board, board.lit, tim
    ensures board.Valid() && board.calls == before + Rotation(curr + 1)
    ensures !tim.uif && tim.arr == MS && tim.cr1 == CR1_START && tim.psc == old(tim.psc)
    ensures tim.updates == updates0[UpdatesUsed(stale, curr + 1)..]
  {
    ghost var used := UpdatesUsed(tim.uif, 1);
    UpdatesUsedStep(stale, curr, updates0, used);
    RotationIteration(board, tim, curr);
    RotationGrows(before, curr);
  }

  /** Proof helper: the calls of iteration `curr` extend those of the ones before. */
  lemma RotationGrows(before: seq<Step>, curr: nat)
    requires curr < LED_COUNT
    ensures before + Rotation(curr) + RotationStep(curr) == before + Rotation(curr + 1)
  {
  }

  /** An iteration lights the next LED, darkens the current one, and touches no other. */
  lemma RotationStepEffect(s: seq<bool>, curr: nat)
    requires |s| == LED_COUNT && curr < LED_COUNT
    ensures Run(s, RotationStep(curr)) == s[NextLed(curr) := true][curr := false]
  {
    var next := NextLed(curr);
    var a := [On(next)];
    var b := a + [Wait(MS)];
    var c := b + [Off(curr)];
    assert RotationStep(curr) == c + [Wait(MS)];
    assert Run(s, a) == s[next := true] by {
      assert a[..0] == [];
    }
    RunSnoc(s, a, Wait(MS));
    RunSnoc(s, b, Off(curr));
    RunSnoc(s, c, Wait(MS));
  }

  /** Each iteration delays twice by 50 ms, so `n` iterations delay 100 × n ms. */
  lemma {:induction false} RotationWait(n: nat)
    requires n <= LED_COUNT
    ensures TotalWait(Rotation(n)) == 100 * n
  {
    if n > 0 {
      RotationWait(n - 1);
      TotalWaitAppend(Rotation(n - 1), RotationStep(n - 1));
      StepWait(n - 1);
    }
  }

  lemma StepWait(curr: nat)
    requires curr < LED_COUNT
    ensures TotalWait(RotationStep(curr)) == 2 * MS
  {
    var next := NextLed(curr);
    var a := [On(next)];
    var b := a + [Wait(MS)];
    var c := b + [Off(curr)];
    assert RotationStep(curr) == c + [Wait(MS)];
    assert TotalWait(a) == 0 by {
      assert a[..0] == [];
    }
    TotalWaitSnoc(a, Wait(MS));
    TotalWaitSnoc(b, Off(curr));
    TotalWaitSnoc(c, Wait(MS));
  }

  /** If no LED but `curr` is on, after iteration `curr` exactly the next one is. */
  lemma LitAfterStep(s: seq<bool>, curr: nat)
    requires |s| == LED_COUNT && curr < LED_COUNT && LitAmong(s, {curr})
    ensures OnlyLit(Run(s, RotationStep(curr)), NextLed(curr))
  {
    RotationStepEffect(s, curr);
    var r := s[NextLed(curr) := true][curr := false];
    forall j | 0 <= j < |s|
      ensures r[j] <==> j == NextLed(curr)
    {
      if j != curr && j != NextLed(curr) {
        assert r[j] == s[j];
      }
    }
  }

  /** Starting with every LED off, or with only the first on as a pass leaves
      them, after iteration `n - 1` exactly LED `n % 8` is on. */
  lemma {:induction false} LitAfterRotation(s: seq<bool>, n: nat)
    requires |s| == LED_COUNT && LitAmong(s, {0}) && 1 <= n <= LED_COUNT
    ensures OnlyLit(Run(s, Rotation(n)), n % LED_COUNT)
  {
    RunAppend(s, Rotation(n - 1), RotationStep(n - 1));
    if n == 1 {
      assert Rotation(0) == [];
      LitAfterStep(s, 0);
    } else {
      LitAfterRotation(s, n - 1);
      LitAfterStep(Run(s, Rotation(n - 1)), n - 1);
    }
  }

  /** A pass ends as it may start, so every pass of the endless `loop` keeps this up. */
  lemma PassEndsWithFirstLit(s: seq<bool>)
    requires |s| == LED_COUNT && LitAmong(s, {0})
    ensures OnlyLit(Run(s, Rotation(LED_COUNT)), 0)
    ensures LitAmong(Run(s, Rotation(LED_COUNT)), {0})
  {
    LitAfterRotation(s, LED_COUNT);
  }

  /** Starting from all eight LEDs dark, the first pass already ends with
      LED 0 alone lit, the state every later pass starts from. */
  lemma FirstPassFromDark()
    ensures OnlyLit(Run(AllOff(LED_COUNT), Rotation(LED_COUNT)), 0)
  {
    var dark := AllOff(LED_COUNT);
    assert LitAmong(dark, {0});
    PassEndsWithFirstLit(dark);
  }

  /** From the same starting states, before iteration `curr` no LED but `curr` is on. */
  lemma LitBeforeStep(s: seq<bool>, curr: nat)
    requires |s| == LED_COUNT && curr < LED_COUNT && LitAmong(s, {0})
    ensures LitAmong(Run(s, Rotation(curr)), {curr})
  {
    if curr > 0 {
      LitAfterRotation(s, curr);
      var r := Run(s, Rotation(curr));
      assert curr % LED_COUNT == curr;
      forall j | 0 <= j < |r| && r[j]
        ensures j in {curr}
      {
      }
    } else {
      assert Rotation(0) == [];
      forall j | 0 <= j < |s| && s[j]
        ensures j in {curr}
      {
        assert j in {0};
      }
    }
  }

  /** Iteration `curr` switches on only the LED after it. */
  lemma StepLights(curr: nat)
    requires curr < LED_COUNT
    ensures forall m :: 0 <= m < 4 && RotationStep(curr)[m].On? ==> RotationStep(curr)[m].led == NextLed(curr)
  {
  }

  /** From the same starting states, at every point of iteration `curr` the
      only LEDs that can be on are `curr` and the next one: never more than two. */
  lemma AtMostTwoLitRotation(s: seq<bool>, curr: nat, k: nat)
    requires |s| == LED_COUNT && curr < LED_COUNT && k <= 4 && LitAmong(s, {0})
    ensures AllFit(Rotation(curr) + RotationStep(curr)[..k], LED_COUNT)
    ensures LitAmong(Run(s, Rotation(curr) + RotationStep(curr)[..k]), {curr, NextLed(curr)})
  {
    var lit := {curr, NextLed(curr)};
    var before := Run(s, Rotation(curr));
    LitBeforeStep(s, curr);
    assert LitAmong(before, lit);
    var part := RotationStep(curr)[..k];
    StepLights(curr);
    assert forall m :: 0 <= m < |part| ==> part[m] == RotationStep(curr)[m];
    RunAppend(s, Rotation(curr), part);
    LitStaysAmong(before, part, lit);
  }
}
