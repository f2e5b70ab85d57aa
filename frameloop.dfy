/** The loop in `main`: draw a frame, present it, then either sleep out the
    rest of the frame budget or report an overrun.  The window, the clock and
    the sleep are outside the model: the time each tick's work took is an
    input, and the number of ticks (the loop runs until the window closes or
    Escape is pressed) is the length of that input. */
module FrameLoop {
  import opened Framebuffer
  import opened Render

  const FPS: nat := 24
  const NANOS_PER_MILLI: nat := 1_000_000
  const NANOS_PER_MICRO: nat := 1_000

  /** `Duration::from_millis(1000) / FPS` in nanoseconds.  Dividing a
      whole number of seconds this way truncates like integer division. */
  const FRAME_BUDGET: nat := 1000 * NANOS_PER_MILLI / FPS

  /** What one tick does after presenting: sleep and put the timing in the
      window title, or print the overrun.  Both report the elapsed time and
      the budget in whole microseconds. */
  datatype Outcome =
    | Slept(sleep: nat, elapsedMicros: nat, budgetMicros: nat)
    | Overran(elapsedMicros: nat, budgetMicros: nat)

  /** The decision taken for a tick whose work took `elapsed` nanoseconds. */
  function Pace(elapsed: nat): (o: Outcome)
    ensures o.Slept? <==> elapsed < FRAME_BUDGET
    ensures o.Slept? ==> elapsed + o.sleep == FRAME_BUDGET && o.sleep == 41_666_666 - elapsed
    ensures o.budgetMicros == 41_666
    ensures o.elapsedMicros * NANOS_PER_MICRO <= elapsed < (o.elapsedMicros + 1) * NANOS_PER_MICRO
  {
    var elapsedMicros, budgetMicros := elapsed / NANOS_PER_MICRO, FRAME_BUDGET / NANOS_PER_MICRO;
    if elapsed < FRAME_BUDGET then
      Slept(FRAME_BUDGET - elapsed, elapsedMicros, budgetMicros)
    else
      Overran(elapsedMicros, budgetMicros)
  }

  /** Wall-clock length of one tick.  `elapsed` is the work the source
      times (update and presenting the buffer); `overhead` is everything it
      does not time: the loop condition, `set_title` or the overrun message,
      and any sleep beyond the one requested. */
  function TickTime(elapsed: nat, overhead: nat): nat {
    match Pace(elapsed)
    case Slept(sleep, _, _) => elapsed + sleep + overhead
    case Overran(_, _) => elapsed + overhead
  }

  /** Wall-clock length of a run of ticks, tick i taking `elapsed[i]` of timed
      work and `overhead[i]` of untimed time. */
  function LoopTime(elapsed: seq<nat>, overhead: seq<nat>): nat
    requires |overhead| == |elapsed|
  {
    if |elapsed| == 0 then 0
    else
      var n := |elapsed| - 1;
      LoopTime(elapsed[..n], overhead[..n]) + TickTime(elapsed[n], overhead[n])
  }

  /** Whether tick i took exactly one budget: its timed work fitted in the
      budget and nothing outside the timed work took any time. */
  predicate OnBudget(elapsed: seq<nat>, overhead: seq<nat>, i: nat)
    requires |overhead| == |elapsed| && i < |elapsed|
  {
    elapsed[i] <= FRAME_BUDGET && overhead[i] == 0
  }

  /** The loop never runs faster than FPS ticks per second, and it keeps
      exactly to that rate precisely when every tick's timed work fits in the
      budget and no tick spends any untimed time. */
  lemma {:induction false} LoopPacing(elapsed: seq<nat>, overhead: seq<nat>)
    requires |overhead| == |elapsed|
    ensures LoopTime(elapsed, overhead) >= |elapsed| * FRAME_BUDGET
    ensures LoopTime(elapsed, overhead) == |elapsed| * FRAME_BUDGET
        <==> forall i :: 0 <= i < |elapsed| ==> OnBudget(elapsed, overhead, i)
  {
    if |elapsed| > 0 {
      var n := |elapsed| - 1;
      var init, initOver := elapsed[..n], overhead[..n];
      LoopPacing(init, initOver);
      assert |elapsed| * FRAME_BUDGET == n * FRAME_BUDGET + FRAME_BUDGET;
      assert forall i :: 0 <= i < n ==> (OnBudget(init, initOver, i) <==> OnBudget(elapsed, overhead, i));
      if forall i :: 0 <= i < |elapsed| ==> OnBudget(elapsed, overhead, i) {
        assert forall i :: 0 <= i < n ==> OnBudget(init, initOver, i);
        assert OnBudget(elapsed, overhead, n);
      } else if forall i :: 0 <= i < n ==> OnBudget(init, initOver, i) {
        assert !OnBudget(elapsed, overhead, n);
      }
    }
  }

  /** main's loop over `elapsed.Length` ticks, starting from the zeroed buffer
      it allocates: every tick runs update and then the pacing decision. */
  method Run(elapsed: seq<nat>) returns (buffer: array<Pixel>, outcomes: seq<Outcome>)
    ensures fresh(buffer) && buffer.Length == BUFFER_LEN
    ensures |outcomes| == |elapsed|
    ensures forall i :: 0 <= i < |elapsed| ==> outcomes[i] == Pace(elapsed[i])
    ensures buffer[..] == if |elapsed| == 0 then seq(BUFFER_LEN, _ => 0) else Frame(seq(BUFFER_LEN, _ => 0))
  {
    buffer := new Pixel[BUFFER_LEN](_ => 0);
    ghost var zeros := buffer[..];
    assert zeros == seq(BUFFER_LEN, _ => 0);
    outcomes := [];
    for tick := 0 to |elapsed|
      invariant |outcomes| == tick
      invariant forall i :: 0 <= i < tick ==> outcomes[i] == Pace(elapsed[i])
      invariant buffer[..] == if tick == 0 then zeros else Frame(zeros)
    {
      ghost var prior := buffer[..];
      Update(buffer);
      FrameIgnoresPrior(prior, zeros);
      outcomes := outcomes + [Pace(elapsed[tick])];
    }
  }
}
