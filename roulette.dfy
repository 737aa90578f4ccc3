/** The `led_roulette` exercise: one pass of the `for i in 0..leds.len()`
    loop, which lights each LED in turn for 150 ms, the next one coming on
    100 ms after it, so that the lights chase each other round the compass. */
module Roulette {
  import opened Leds

  /** `if i + 1 > leds.len() - 1 { 0 } else { i + 1 }`: the index after `i`,
      wrapping round to the first LED. */
  function Next(i: nat, count: nat): (j: nat)
    requires i < count
    ensures j < count
    ensures j == 0 <==> i == count - 1
  {
    if i + 1 > count - 1 then 0 else i + 1
  }

  /** The index after `i` is `i + 1` taken modulo the number of LEDs. */
  lemma NextIsSuccessorModulo(i: nat, count: nat)
    requires i < count
    ensures Next(i, count) == (i + 1) % count
  {
    if i + 1 == count {
      assert count % count == 0;
    } else {
      assert (i + 1) / count == 0;
    }
  }

  /** The calls of iteration `i`: on(i), wait 100 ms, on(next), wait 50 ms, off(i). */
  function Iteration(i: nat, count: nat): (steps: seq<Step>)
    requires i < count
    ensures AllFit(steps, count)
  {
    [On(i), Wait(100), On(Next(i, count)), Wait(50), Off(i)]
  }

  /** The calls of the first `n` iterations, in order. */
  function Plan(count: nat, n: nat): (steps: seq<Step>)
    requires n <= count
    ensures AllFit(steps, count)
  {
    if n == 0 then [] else Plan(count, n - 1) + Iteration(n - 1, count)
  }

  /** One iteration of the loop body: `on(i)`, `delay_ms(100)`, `on` of the
      next LED, `delay_ms(50)`, `off(i)`, each through the board. */
  method RouletteIteration(board: Board, i: nat)
    requires board.Valid() && i < board.lit.Length
    modifies board, board.lit
    ensures board.Valid() && board.calls == old(board.calls) + Iteration(i, board.lit.Length)
    ensures board.lit[..] == Run(old(board.lit[..]), Iteration(i, board.lit.Length))
  {
    ghost var before, shown := board.calls, board.lit[..];
    board.TurnOn(i);
    board.Waited(100);
    var next := if i + 1 > board.lit.Length - 1 then 0 else i + 1;
    board.TurnOn(next);
    board.Waited(50);
    board.TurnOff(i);
    board.Since(shown, before, Iteration(i, board.lit.Length));
  }

  /** One pass of the `for` loop over all the LEDs. */
  method RoulettePass(board: Board)
    requires board.Valid()
    modifies board, board.lit
    ensures board.Valid()
    ensures board.calls == old(board.calls) + Plan(board.lit.Length, board.lit.Length)
    ensures board.lit[..] == Run(old(board.lit[..]), Plan(board.lit.Length, board.lit.Length))
  {
    ghost var before, shown := board.calls, board.lit[..];
    var count := board.lit.Length;
    for i := 0 to count
      invariant board.Valid() && board.calls == before + Plan(count, i)
    {
      RouletteIteration(board, i);
      assert before + Plan(count, i) + Iteration(i, count) == before + Plan(count, i + 1);
    }
    board.Since(shown, before, Plan(count, count));
  }

  /** Each iteration waits 150 ms, so a pass over `count` LEDs waits 150 × count ms. */
  lemma {:induction false} PassWait(count: nat, n: nat)
    requires n <= count
    ensures TotalWait(Plan(count, n)) == 150 * n
  {
    if n > 0 {
      PassWait(count, n - 1);
      TotalWaitAppend(Plan(count, n - 1), Iteration(n - 1, count));
      IterationWait(n - 1, count);
    }
  }

  lemma IterationWait(i: nat, count: nat)
    requires i < count
    ensures TotalWait(Iteration(i, count)) == 150
  {
    var next := Next(i, count);
    IterationSteps(i, count);
    var a := [On(i)];
    var b := a + [Wait(100)];
    var c := b + [On(next)];
    var d := c + [Wait(50)];
    assert TotalWait(a) == 0 by {
      assert a[..0] == [];
    }
    TotalWaitSnoc(a, Wait(100));
    TotalWaitSnoc(b, On(next));
    TotalWaitSnoc(c, Wait(50));
    TotalWaitSnoc(d, Off(i));
  }

  /** Proof helper: the iteration's calls, one appended after another. */
  lemma IterationSteps(i: nat, count: nat)
    requires i < count
    ensures Iteration(i, count) == [On(i)] + [Wait(100)] + [On(Next(i, count))] + [Wait(50)] + [Off(i)]
  {
  }

  /** An iteration lights LED `i`, then the next one, then darkens LED `i`
      again, touching no other LED. */
  lemma IterationEffect(s: seq<bool>, i: nat)
    requires 2 <= |s| && i < |s|
    ensures Run(s, Iteration(i, |s|)) == s[i := true][Next(i, |s|) := true][i := false]
  {
    var next := Next(i, |s|);
    IterationSteps(i, |s|);
    var a := [On(i)];
    var b := a + [Wait(100)];
    var c := b + [On(next)];
    var d := c + [Wait(50)];
    assert Run(s, a) == s[i := true] by {
      assert a[..0] == [];
    }
    RunSnoc(s, a, Wait(100));
    RunSnoc(s, b, On(next));
    RunSnoc(s, c, Wait(50));
    RunSnoc(s, d, Off(i));
  }

  /** After `n` iterations, 1 <= n < count, the LEDs before `n` are off, LED `n`
      is on, and the LEDs after it are as they were. */
  lemma {:induction false} PartialPass(s: seq<bool>, n: nat)
    requires 2 <= |s| && 1 <= n < |s|
    ensures forall j :: 0 <= j < |s| ==>
      Run(s, Plan(|s|, n))[j] == (if j < n then false else if j == n then true else s[j])
  {
    var count := |s|;
    RunAppend(s, Plan(count, n - 1), Iteration(n - 1, count));
    assert Plan(count, n - 1) + Iteration(n - 1, count) == Plan(count, n);
    if n == 1 {
      assert Plan(count, 0) == [];
      IterationEffect(s, 0);
    } else {
      PartialPass(s, n - 1);
      IterationEffect(Run(s, Plan(count, n - 1)), n - 1);
    }
  }

  /** Whatever the LEDs showed before, a full pass leaves exactly the first LED on. */
  lemma FullPass(s: seq<bool>)
    requires 2 <= |s|
    ensures OnlyLit(Run(s, Plan(|s|, |s|)), 0)
  {
    var count := |s|;
    var before := Run(s, Plan(count, count - 1));
    PartialPass(s, count - 1);
    RunAppend(s, Plan(count, count - 1), Iteration(count - 1, count));
    assert Plan(count, count) == Plan(count, count - 1) + Iteration(count - 1, count);
    IterationEffect(before, count - 1);
    assert Next(count - 1, count) == 0;
    var after := before[count - 1 := true][0 := true][count - 1 := false];
    assert Run(s, Plan(count, count)) == after;
    forall j | 0 <= j < count
      ensures after[j] <==> j == 0
    {
      if 0 < j < count - 1 {
        assert after[j] == before[j];
      }
    }
  }

  /** Starting with every LED off, or with only the first on as a pass leaves
      them, after iteration `i` exactly LED `(i + 1) % count` is on. */
  lemma LitAfterIteration(s: seq<bool>, i: nat)
    requires 2 <= |s| && i < |s| && LitAmong(s, {0})
    ensures OnlyLit(Run(s, Plan(|s|, i + 1)), (i + 1) % |s|)
  {
    NextIsSuccessorModulo(i, |s|);
    if i + 1 < |s| {
      PartialPass(s, i + 1);
    } else {
      FullPass(s);
    }
  }

  /** From the same starting states, before iteration `i` no LED but `i` is on. */
  lemma LitBeforeIteration(s: seq<bool>, i: nat)
    requires 2 <= |s| && i < |s| && LitAmong(s, {0})
    ensures LitAmong(Run(s, Plan(|s|, i)), {i})
  {
    if i > 0 {
      PartialPass(s, i);
    } else {
      assert Plan(|s|, 0) == [];
      forall j | 0 <= j < |s| && s[j]
        ensures j in {i}
      {
        assert j in {0};
      }
    }
  }

  /** Iteration `i` switches on only LED `i` and the one after it. */
  lemma IterationLights(i: nat, count: nat, k: nat)
    requires i < count && k <= 5
    ensures forall m :: 0 <= m < k && Iteration(i, count)[m].On? ==>
      Iteration(i, count)[m].led in {i, Next(i, count)}
  {
  }

  /** From the same starting states, at every step of iteration `i` the only
      LEDs that can be on are `i` and the one after it. */
  lemma AtMostTwoLit(s: seq<bool>, i: nat, k: nat)
    requires 2 <= |s| && i < |s| && k <= 5 && LitAmong(s, {0})
    ensures AllFit(Plan(|s|, i) + Iteration(i, |s|)[..k], |s|)
    ensures LitAmong(Run(s, Plan(|s|, i) + Iteration(i, |s|)[..k]), {i, Next(i, |s|)})
  {
    var count := |s|;
    var lit := {i, Next(i, count)};
    var before := Run(s, Plan(count, i));
    LitBeforeIteration(s, i);
    assert LitAmong(before, lit);
    var part := Iteration(i, count)[..k];
    IterationLights(i, count, k);
    assert forall m :: 0 <= m < |part| ==> part[m] == Iteration(i, count)[m];
    RunAppend(s, Plan(count, i), part);
    LitStaysAmong(before, part, lit);
  }
}
